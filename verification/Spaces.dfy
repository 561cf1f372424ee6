/** The walk over a space's rooms that answers a hierarchy request. */
module Spaces {
  import opened Collections

  datatype Room = Room(id: string)

  datatype Summary = Inaccessible | Accessible(children: seq<Room>)

  /** What is known about every room; a room that is absent cannot be found. */
  type Graph = map<Room, Summary>

  /** A request, and what the server knows that its answer depends on. What `maxDepth` bounds is the
      number of different rooms visited: once there are more, no further children are queued. */
  datatype Request =
    Request(g: Graph, shorts: map<Room, nat>, root: Room, limit: nat, maxDepth: nat, tokens: seq<nat>)

  predicate Open(g: Graph, room: Room)
  {
    room in g && g[room].Accessible?
  }

  ghost function OpenRooms(g: Graph): set<Room>
  {
    set r | r in g && g[r].Accessible?
  }

  // ---------------------------------------------------------------- reachability

  predicate Edge(g: Graph, a: Room, b: Room)
  {
    Open(g, a) && b in g[a].children
  }

  /** Each room of the path is an accessible room that lists the next one. */
  ghost predicate Path(g: Graph, p: seq<Room>)
    decreases |p|
  {
    var n := |p| - 1;
    p != [] && (n > 0 ==> Path(g, p[..n]) && Edge(g, p[n - 1], p[n]))
  }

  ghost predicate Reachable(g: Graph, root: Room, room: Room)
  {
    exists p :: Path(g, p) && p[0] == root && p[|p| - 1] == room
  }

  lemma ReachableRoot(g: Graph, root: Room)
    ensures Reachable(g, root, root)
  {
    assert Path(g, [root]);
  }

  lemma ReachableChild(g: Graph, root: Room, room: Room, child: Room)
    requires Reachable(g, root, room) && Edge(g, room, child)
    ensures Reachable(g, root, child)
  {
    var p :| Path(g, p) && p[0] == root && p[|p| - 1] == room;
    assert (p + [child])[..|p|] == p;
    assert Path(g, p + [child]);
  }

  /** No accessible room outside the set is listed by a room in it. */
  ghost predicate Closed(g: Graph, s: set<Room>)
  {
    forall r, c :: r in s && Edge(g, r, c) && Open(g, c) ==> c in s
  }

  lemma {:induction false} ClosedHoldsPath(g: Graph, s: set<Room>, p: seq<Room>)
    requires Closed(g, s) && Path(g, p) && p[0] in s && Open(g, p[|p| - 1])
    ensures p[|p| - 1] in s
    decreases |p|
  {
    if |p| > 1 { ClosedHoldsPath(g, s, p[..|p| - 1]); }
  }

  // ---------------------------------------------------------------- the children to visit next

  function NotIn(rooms: seq<Room>, seen: set<Room>): (r: seq<Room>)
    ensures |r| <= |rooms|
    ensures forall x :: x in r <==> x in rooms && x !in seen
  {
    if rooms == [] then [] else
      assert rooms == [rooms[0]] + rooms[1..];
      (if rooms[0] in seen then [] else [rooms[0]]) + NotIn(rooms[1..], seen)
  }

  function Reversed(rooms: seq<Room>): (r: seq<Room>)
    ensures |r| == |rooms| && forall i :: 0 <= i < |r| ==> r[i] == rooms[|rooms| - 1 - i]
    ensures forall x :: x in r <==> x in rooms
  {
    if rooms == [] then [] else
      assert rooms == [rooms[0]] + rooms[1..];
      Reversed(rooms[1..]) + [rooms[0]]
  }

  /** Where, from the `n`th room on, the room is that the token names, or one without a short
      identifier. */
  function SkipTo(rooms: seq<Room>, n: nat, shorts: map<Room, nat>, token: nat): (r: nat)
    requires n <= |rooms|
    ensures n <= r <= |rooms|
    ensures r < |rooms| ==> (rooms[r] in shorts ==> shorts[rooms[r]] == token)
    ensures forall i :: n <= i < r ==> rooms[i] in shorts && shorts[rooms[i]] != token
    decreases |rooms| - n
  {
    if n < |rooms| && rooms[n] in shorts && shorts[rooms[n]] != token then SkipTo(rooms, n + 1, shorts, token) else n
  }

  /** The child has a short identifier, and not the one that the token has for the number of rooms visited. */
  predicate Skipped(shorts: map<Room, nat>, tokens: seq<nat>, visited: nat, child: Room)
  {
    visited < |tokens| && child in shorts && shorts[child] != tokens[visited]
  }

  /** While the walk is still catching up with the token it skips children the last page covered. */
  function Next(children: seq<Room>, parents: set<Room>, shorts: map<Room, nat>, tokens: seq<nat>): (r: seq<Room>)
    ensures |r| <= |children|
    ensures forall x :: x in r ==> x in children && x !in parents
    ensures forall x :: x in children && x !in parents ==> x in r || Skipped(shorts, tokens, |parents|, x)
  {
    var unseen := NotIn(children, parents);
    Reversed(if |parents| >= |tokens| then unseen else unseen[SkipTo(unseen, 0, shorts, tokens[|parents|])..])
  }

  // ---------------------------------------------------------------- why the walk ends

  /** A queued room that was visited already can queue each of its children once more. */
  ghost function Weight(g: Graph, parents: set<Room>, queue: seq<Room>): nat
  {
    if queue == [] then 0 else
      1 + (if queue[0] in parents && Open(g, queue[0]) then |g[queue[0]].children| else 0)
        + Weight(g, parents, queue[1..])
  }

  lemma {:induction false} WeightAppend(g: Graph, parents: set<Room>, a: seq<Room>, b: seq<Room>)
    ensures Weight(g, parents, a + b) == Weight(g, parents, a) + Weight(g, parents, b)
    decreases |a|
  {
    if a == [] {
      assert a + b == b;
    } else {
      WeightAppend(g, parents, a[1..], b);
      assert (a + b)[1..] == a[1..] + b;
    }
  }

  lemma {:induction false} WeightFresh(g: Graph, parents: set<Room>, q: seq<Room>)
    requires forall x :: x in q ==> x !in parents
    ensures Weight(g, parents, q) == |q|
    decreases |q|
  {
    if q != [] {
      assert q == [q[0]] + q[1..];
      WeightFresh(g, parents, q[1..]);
    }
  }

  /** Visiting a room either is the first visit of an accessible room, or makes the queue lighter. */
  lemma VisitProgress(g: Graph, parents: set<Room>, room: Room, rest: seq<Room>, next: seq<Room>)
    requires Open(g, room) && room in parents && |next| <= |g[room].children|
    requires forall x :: x in next ==> x !in parents
    ensures parents + {room} == parents
    ensures Weight(g, parents, rest + next) < Weight(g, parents, [room] + rest)
    ensures Weight(g, parents, rest) < Weight(g, parents, [room] + rest)
  {
    WeightAppend(g, parents, rest, next);
    WeightFresh(g, parents, next);
    assert ([room] + rest)[1..] == rest;
  }

  // ---------------------------------------------------------------- the walk

  datatype Outcome = Page(rooms: seq<Room>, queue: seq<Room>) | NotFound | Forbidden | TokenNotFound

  /** Children of visited rooms are visited, queued, not accessible, or skipped because of the token. */
  ghost predicate Covered(q: Request, parents: set<Room>, queue: seq<Room>)
  {
    forall r, c :: r in parents && Edge(q.g, r, c) && Open(q.g, c) ==> c in parents || c in queue || Skippable(q, c)
  }

  ghost predicate Skippable(q: Request, c: Room)
  {
    exists i: nat :: Skipped(q.shorts, q.tokens, i, c)
  }

  ghost predicate AllReachable(g: Graph, root: Room, rooms: set<Room>)
  {
    forall x :: x in rooms ==> Reachable(g, root, x)
  }

  /** What holds whenever the walk looks at its queue. */
  ghost predicate Sound(g: Graph, root: Room, queue: seq<Room>, rooms: seq<Room>, parents: set<Room>)
  {
    && parents <= OpenRooms(g) && AllReachable(g, root, parents) && AllReachable(g, root, Elems(queue))
    && Elems(rooms) <= parents
    && (if parents == {} then queue == [root] else root in parents)
  }

  /** No more visited rooms are left off the page than the token has entries, a first page starts with
      the root, and as long as no more than `maxDepth` rooms were visited, none is forgotten. */
  ghost predicate Whole(q: Request, queue: seq<Room>, rooms: seq<Room>, parents: set<Room>)
  {
    && |parents - Elems(rooms)| <= |q.tokens| && (q.tokens == [] && rooms != [] ==> rooms[0] == q.root)
    && (|parents| <= q.maxDepth ==> Covered(q, parents, queue))
  }

  lemma VisitSound(g: Graph, root: Room, room: Room, rest: seq<Room>, next: seq<Room>, rooms: seq<Room>,
                   shown: seq<Room>, parents: set<Room>)
    requires Sound(g, root, [room] + rest, rooms, parents) && Open(g, room)
    requires forall x :: x in next ==> x in rest || x in g[room].children
    requires shown == rooms || shown == rooms + [room]
    ensures Sound(g, root, next, shown, parents + {room})
  {
    assert room in Elems([room] + rest);
    forall x | x in Elems(next) ensures Reachable(g, root, x) {
      if x in rest {
        assert x in Elems([room] + rest);
      } else {
        ReachableChild(g, root, room, x);
      }
    }
    assert Elems(rooms + [room]) == Elems(rooms) + {room};
    assert parents == {} ==> ([room] + rest)[0] == root;
  }

  lemma VisitWhole(q: Request, room: Room, rest: seq<Room>, next: seq<Room>, rooms: seq<Room>, parents: set<Room>)
    requires Whole(q, [room] + rest, rooms, parents) && Open(q.g, room)
    requires q.tokens == [] && rooms == [] ==> room == q.root
    requires forall x :: x in q.g[room].children && x !in parents ==> x in next || Skippable(q, x)
    ensures var more := parents + {room};
      Whole(q, if |more| > q.maxDepth then rest else rest + next,
            if |parents| >= |q.tokens| then rooms + [room] else rooms, more)
  {
    LeftOff(rooms, parents, room);
    if |parents| < |q.tokens| { Fewer(parents + {room} - Elems(rooms), parents + {room}); }
    Grows(parents, room);
    forall r, c | |parents| <= q.maxDepth && r in parents + {room} && Edge(q.g, r, c) && Open(q.g, c)
      ensures c in parents + {room} || c in rest + next || Skippable(q, c)
    {
      if r in parents { assert c in parents || c in [room] + rest || Skippable(q, c); }
    }
  }

  lemma LeftOff(rooms: seq<Room>, parents: set<Room>, room: Room)
    ensures parents + {room} - Elems(rooms + [room]) <= parents - Elems(rooms)
    ensures |parents + {room} - Elems(rooms + [room])| <= |parents - Elems(rooms)|
    ensures |parents + {room}| <= |parents| + 1
  {
    assert Elems(rooms + [room]) == Elems(rooms) + {room};
    Fewer(parents + {room} - Elems(rooms + [room]), parents - Elems(rooms));
  }

  lemma Fewer<T>(a: set<T>, b: set<T>)
    requires a <= b
    ensures |a| <= |b|
  {
    assert b == a + (b - a);
  }

  lemma SkipKeeps(q: Request, room: Room, rest: seq<Room>, rooms: seq<Room>, parents: set<Room>)
    requires Sound(q.g, q.root, [room] + rest, rooms, parents) && !Open(q.g, room) && room != q.root
    requires Whole(q, [room] + rest, rooms, parents)
    ensures Sound(q.g, q.root, rest, rooms, parents) && Whole(q, rest, rooms, parents)
  {
    assert Elems(rest) <= Elems([room] + rest) && ([room] + rest)[0] == room;
    forall r, c | |parents| <= q.maxDepth && r in parents && Edge(q.g, r, c) && Open(q.g, c)
      ensures c in parents || c in rest || Skippable(q, c)
    {
      assert c in parents || c in [room] + rest || Skippable(q, c);
    }
  }

  /** The page holds every accessible room that can be reached. */
  ghost predicate Exhaustive(g: Graph, root: Room, rooms: seq<Room>)
  {
    forall x :: Open(g, x) && Reachable(g, root, x) ==> x in rooms
  }

  /** Nothing is left to visit: an accessible child of a visited room is visited as well or was skipped
      because of the token, unless more than `maxDepth` rooms were visited. */
  ghost predicate Exhausted(q: Request, visited: set<Room>)
  {
    && q.root in visited && visited <= OpenRooms(q.g) && AllReachable(q.g, q.root, visited)
    && (|visited| <= q.maxDepth ==> Covered(q, visited, []))
  }

  /** Without a token that means everything was visited. */
  lemma WholeIsExhaustive(q: Request, rooms: seq<Room>, visited: set<Room>)
    requires q.tokens == [] && Exhausted(q, visited) && |visited| <= q.maxDepth && |visited - Elems(rooms)| == 0
    ensures Exhaustive(q.g, q.root, rooms)
  {
    assert Closed(q.g, visited) by {
      forall r, c | r in visited && Edge(q.g, r, c) && Open(q.g, c) ensures c in visited {
        assert c in visited || c in [] || Skippable(q, c);
      }
    }
    forall x | Open(q.g, x) && Reachable(q.g, q.root, x) ensures x in rooms {
      var p :| Path(q.g, p) && p[0] == q.root && p[|p| - 1] == x;
      ClosedHoldsPath(q.g, visited, p);
      assert x !in visited - Elems(rooms);
    }
  }

  lemma FewerLeft(g: Graph, parents: set<Room>, room: Room)
    requires Open(g, room) && room !in parents
    ensures |OpenRooms(g) - (parents + {room})| < |OpenRooms(g) - parents|
  {
    assert OpenRooms(g) - parents == (OpenRooms(g) - (parents + {room})) + {room};
  }

  lemma Grows(s: set<Room>, x: Room)
    ensures |s| <= |s + {x}|
  {
    if x in s { assert s + {x} == s; }
  }

  /** Every room on the page is accessible and reachable from the root, the page is no longer than
      asked for, and what is left to visit is reachable too. */
  ghost predicate PageValid(g: Graph, root: Room, limit: nat, rooms: seq<Room>, queue: seq<Room>)
  {
    && |rooms| <= (if limit == 0 then 1 else limit)
    && Elems(rooms) <= OpenRooms(g) && AllReachable(g, root, Elems(rooms)) && AllReachable(g, root, Elems(queue))
  }

  lemma SoundPage(g: Graph, root: Room, limit: nat, rooms: seq<Room>, queue: seq<Room>, parents: set<Room>)
    requires Sound(g, root, queue, rooms, parents) && |rooms| <= (if limit == 0 then 1 else limit)
    ensures PageValid(g, root, limit, rooms, queue)
  {
  }

  /** Everything was visited when the page was made: nothing was left, and no more rooms were left off
      the page than the token has entries. */
  ghost predicate PageExhausted(q: Request, rooms: seq<Room>)
  {
    exists visited :: Exhausted(q, visited) && Elems(rooms) <= visited && |visited - Elems(rooms)| <= |q.tokens|
  }

  /** What an answer means: the root's own errors; a token with as many entries as there were rooms to
      visit, or more; and else a valid page. A first page starts with the root. A page that stays under
      its limit leaves nothing to visit, so that a first page with no more than `maxDepth` different
      rooms is exhaustive. */
  ghost predicate Answers(q: Request, r: Outcome)
  {
    match r
    case NotFound => q.root !in q.g
    case Forbidden => q.root in q.g && q.g[q.root].Inaccessible?
    case TokenNotFound =>
      Open(q.g, q.root) && exists visited :: Exhausted(q, visited) && |visited| <= |q.tokens|
    case Page(rooms, queue) =>
      && Open(q.g, q.root) && PageValid(q.g, q.root, q.limit, rooms, queue)
      && (q.tokens == [] ==> rooms != [] && rooms[0] == q.root)
      && (|rooms| < q.limit ==> PageExhausted(q, rooms))
      && (q.tokens == [] && |rooms| < q.limit && |Elems(rooms)| <= q.maxDepth ==> Exhaustive(q.g, q.root, rooms))
  }

  /** The state of the walk between two rooms: what is queued, what is on the page, what was visited. */
  datatype Walk = Walk(queue: seq<Room>, rooms: seq<Room>, parents: set<Room>)

  ghost predicate Valid(q: Request, w: Walk)
  {
    && Sound(q.g, q.root, w.queue, w.rooms, w.parents) && Whole(q, w.queue, w.rooms, w.parents)
    && (w.rooms == [] || |w.rooms| < q.limit)
  }

  /** Progress: more accessible rooms visited, or the same and a lighter queue. */
  ghost predicate Closer(g: Graph, v: Walk, w: Walk)
  {
    || |OpenRooms(g) - w.parents| < |OpenRooms(g) - v.parents|
    || (w.parents == v.parents && Weight(g, w.parents, w.queue) < Weight(g, v.parents, v.queue))
  }

  datatype Visited = More(walk: Walk) | Answer(outcome: Outcome)

  /** One turn of the walk, as a function of its state. */
  function Turn(q: Request, w: Walk): Visited
    requires w.queue != []
  {
    var (room, rest) := (w.queue[0], w.queue[1..]);
    if !Open(q.g, room) then
      if room == q.root then Answer(if room in q.g then Forbidden else NotFound) else More(w.(queue := rest))
    else
      var populate := |w.parents| >= |q.tokens|;
      var children := Next(q.g[room].children, w.parents, q.shorts, q.tokens);
      var rooms := if populate then w.rooms + [room] else w.rooms;
      if !populate && rest == [] && children == [] then Answer(TokenNotFound)
      else if |rooms| >= q.limit then Answer(Page(rooms, rest))
      else
        var parents := w.parents + {room};
        More(Walk(if |parents| > q.maxDepth then rest else rest + children, rooms, parents))
  }

  /** The turns of the walk for a request; with nothing left to visit it stays where it is. */
  function Turns(q: Request): Walk -> Visited
  {
    (w: Walk) => if w.queue == [] then More(w) else Turn(q, w)
  }

  function Start(root: Room): Walk
  {
    Walk([root], [], {})
  }

  /** The walk after `n` turns, or the answer it gave before. */
  function After(turn: Walk -> Visited, w: Walk, n: nat): Visited
  {
    if n == 0 then More(w) else
      match After(turn, w, n - 1)
      case More(v) => turn(v)
      case Answer(r) => Answer(r)
  }

  predicate EndsWith(turn: Walk -> Visited, w: Walk, n: nat, r: Outcome)
  {
    match After(turn, w, n)
    case Answer(outcome) => r == outcome
    case More(v) => v.queue == [] && r == Page(v.rooms, [])
  }

  /** The turn answers right, or keeps what makes the answers right and gets on. */
  ghost predicate Kept(q: Request, w: Walk, v: Visited)
  {
    if v.Answer? then Answers(q, v.outcome) else Valid(q, v.walk) && Closer(q.g, w, v.walk)
  }

  /** So does every turn. */
  lemma TurnKeeps(q: Request, w: Walk)
    requires w.queue != [] && Valid(q, w)
    ensures Kept(q, w, Turn(q, w))
  {
    var (g, room, rest) := (q.g, w.queue[0], w.queue[1..]);
    assert w.queue == [room] + rest;
    if !Open(g, room) {
      if room != q.root { SkipKeeps(q, room, rest, w.rooms, w.parents); }
    } else {
      OpenTurnKeeps(q, w, room, rest);
    }
  }

  /** The turn of an accessible room. */
  lemma OpenTurnIs(q: Request, w: Walk, room: Room, rest: seq<Room>, children: seq<Room>, rooms: seq<Room>)
    requires w.queue == [room] + rest && Open(q.g, room)
    requires children == Next(q.g[room].children, w.parents, q.shorts, q.tokens)
    requires rooms == if |w.parents| >= |q.tokens| then w.rooms + [room] else w.rooms
    ensures Turn(q, w)
         == if |w.parents| < |q.tokens| && rest == [] && children == [] then Answer(TokenNotFound)
            else if |rooms| >= q.limit then Answer(Page(rooms, rest))
            else More(Walk(if |w.parents + {room}| > q.maxDepth then rest else rest + children, rooms, w.parents + {room}))
  {
    assert w.queue[0] == room && w.queue[1..] == rest;
  }

  lemma OpenTurnKeeps(q: Request, w: Walk, room: Room, rest: seq<Room>)
    requires w.queue == [room] + rest && Open(q.g, room) && Valid(q, w)
    ensures Kept(q, w, Turn(q, w))
  {
    var children := Next(q.g[room].children, w.parents, q.shorts, q.tokens);
    var rooms := if |w.parents| >= |q.tokens| then w.rooms + [room] else w.rooms;
    OpenTurnIs(q, w, room, rest, children, rooms);
    if |w.parents| < |q.tokens| && rest == [] && children == [] {
      assert [room] + rest == [room];
      RefusedAnswers(q, w, room);
    } else if |rooms| >= q.limit {
      PageAnswers(q, w, room, rest, rooms);
    } else {
      GoOnKeeps(q, w, room, rest, children, rooms);
    }
  }

  lemma EmptyQueue(q: Request, rooms: seq<Room>, parents: set<Room>)
    requires Sound(q.g, q.root, [], rooms, parents) && Whole(q, [], rooms, parents)
    ensures Exhausted(q, parents)
  {
  }

  /** A refused walk has nothing left to visit, and has visited no more rooms than the token has entries. */
  lemma RefusedAnswers(q: Request, w: Walk, room: Room)
    requires w.queue == [room] && Open(q.g, room) && Valid(q, w) && |w.parents| < |q.tokens|
    requires Next(q.g[room].children, w.parents, q.shorts, q.tokens) == []
    ensures Open(q.g, q.root) && Answers(q, TokenNotFound)
  {
    RefusedWhole(q, w, room);
    LeftOff(w.rooms, w.parents, room);
    EmptyQueue(q, w.rooms, w.parents + {room});
  }

  lemma RefusedWhole(q: Request, w: Walk, room: Room)
    requires w.queue == [room] && Open(q.g, room) && Valid(q, w) && |w.parents| < |q.tokens|
    requires Next(q.g[room].children, w.parents, q.shorts, q.tokens) == []
    ensures Sound(q.g, q.root, [], w.rooms, w.parents + {room}) && Whole(q, [], w.rooms, w.parents + {room})
  {
    var none: seq<Room> := [];
    assert [room] == [room] + none && none + none == none;
    VisitSound(q.g, q.root, room, none, none, w.rooms, w.rooms, w.parents);
    NextCovers(q, room, w.parents);
    VisitWhole(q, room, none, none, w.rooms, w.parents);
  }

  lemma NextCovers(q: Request, room: Room, parents: set<Room>)
    requires Open(q.g, room)
    ensures forall x :: x in q.g[room].children && x !in parents ==>
      x in Next(q.g[room].children, parents, q.shorts, q.tokens) || Skippable(q, x)
  {
  }

  lemma PageAnswers(q: Request, w: Walk, room: Room, rest: seq<Room>, rooms: seq<Room>)
    requires w.queue == [room] + rest && Open(q.g, room) && |rooms| >= q.limit
    requires Valid(q, w)
    requires rooms == if |w.parents| >= |q.tokens| then w.rooms + [room] else w.rooms
    ensures Open(q.g, q.root) && Answers(q, Page(rooms, rest))
  {
    assert ([room] + rest)[0] == room;
    VisitSound(q.g, q.root, room, rest, rest, w.rooms, rooms, w.parents);
    SoundPage(q.g, q.root, q.limit, rooms, rest, w.parents + {room});
  }

  lemma GoOnKeeps(q: Request, w: Walk, room: Room, rest: seq<Room>, next: seq<Room>, rooms: seq<Room>)
    requires w.queue == [room] + rest && Open(q.g, room) && |rooms| < q.limit
    requires Valid(q, w)
    requires rooms == if |w.parents| >= |q.tokens| then w.rooms + [room] else w.rooms
    requires next == Next(q.g[room].children, w.parents, q.shorts, q.tokens)
    ensures var more := w.parents + {room};
      var v := Walk(if |more| > q.maxDepth then rest else rest + next, rooms, more);
      Valid(q, v) && Closer(q.g, w, v)
  {
    var parents := w.parents + {room};
    assert ([room] + rest)[0] == room;
    NextCovers(q, room, w.parents);
    VisitWhole(q, room, rest, next, w.rooms, w.parents);
    if room in w.parents {
      VisitProgress(q.g, w.parents, room, rest, next);
    } else {
      FewerLeft(q.g, w.parents, room);
    }
    var queue := if |parents| > q.maxDepth then rest else rest + next;
    VisitSound(q.g, q.root, room, rest, queue, w.rooms, rooms, w.parents);
  }

  /** Take the next room off the queue. */
  method Visit(q: Request, w: Walk) returns (v: Visited)
    requires w.queue != []
    ensures v == Turn(q, w)
  {
    var room, rest := w.queue[0], w.queue[1..];
    if !Open(q.g, room) {
      if room == q.root {
        return Answer(if room in q.g then Forbidden else NotFound);
      }
      return More(w.(queue := rest));
    }
    var populate := |w.parents| >= |q.tokens|;
    var children := Next(q.g[room].children, w.parents, q.shorts, q.tokens);
    var rooms := w.rooms;
    if populate {
      rooms := rooms + [room];
    } else if rest == [] && children == [] {
      return Answer(TokenNotFound);
    }
    var parents := w.parents + {room};
    if |rooms| >= q.limit {
      return Answer(Page(rooms, rest));
    }
    if |parents| > q.maxDepth {
      return More(Walk(rest, rooms, parents));
    }
    v := More(Walk(rest + children, rooms, parents));
  }

  lemma EndAnswers(q: Request, w: Walk)
    requires w.queue == [] && Valid(q, w)
    ensures Answers(q, Page(w.rooms, []))
  {
    EmptyQueue(q, w.rooms, w.parents);
    if q.tokens == [] && |w.parents| <= q.maxDepth { WholeIsExhaustive(q, w.rooms, w.parents); }
    SoundPage(q.g, q.root, q.limit, w.rooms, w.queue, w.parents);
  }

  /** A turn in its place in the walk. */
  method VisitNext(q: Request, w: Walk, ghost n: nat) returns (v: Visited)
    requires w.queue != [] && Valid(q, w)
    requires After(Turns(q), Start(q.root), n) == More(w)
    ensures After(Turns(q), Start(q.root), n + 1) == v
    ensures v.Answer? ==> Answers(q, v.outcome)
    ensures v.More? ==> Valid(q, v.walk) && Closer(q.g, w, v.walk)
  {
    TurnKeeps(q, w);
    v := Visit(q, w);
  }

  /** The walk ends on every finite graph, whatever its cycles and whatever the token. */
  method GetClientHierarchy(q: Request) returns (r: Outcome, ghost turns: nat)
    ensures EndsWith(Turns(q), Start(q.root), turns, r)
    ensures Answers(q, r)
  {
    var w := Start(q.root);
    turns := 0;
    ReachableRoot(q.g, q.root);
    while w.queue != []
      invariant Valid(q, w)
      invariant After(Turns(q), Start(q.root), turns) == More(w)
      decreases |OpenRooms(q.g) - w.parents|, Weight(q.g, w.parents, w.queue)
    {
      var v := VisitNext(q, w, turns);
      turns := turns + 1;
      if v.Answer? {
        return v.outcome, turns;
      }
      w := v.walk;
    }
    EndAnswers(q, w);
    r := Page(w.rooms, []);
  }
}
