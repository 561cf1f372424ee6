/** When a page of the walk over a space lists a room twice, and when it does not. */
module SpaceRepeats {
  import opened Collections
  import opened Spaces
  import opened SpaceOrder

  lemma NoRepeatsAppend<T>(a: seq<T>, b: seq<T>)
    requires NoRepeats(a) && NoRepeats(b) && forall x :: x in a ==> x !in b
    ensures NoRepeats(a + b)
  {
    var s := a + b;
    forall i, j | 0 <= i < j < |s| ensures s[i] != s[j] {
      if i < |a| <= j { assert s[i] in a && s[j] == b[j - |a|] && s[j] in b; }
    }
  }

  lemma NoRepeatsPart<T>(a: seq<T>, b: seq<T>)
    requires NoRepeats(a + b)
    ensures NoRepeats(a) && NoRepeats(b) && forall x :: x in a ==> x !in b
  {
    var s := a + b;
    forall i, j | 0 <= i < j < |a| ensures a[i] != a[j] { assert s[i] == a[i] && s[j] == a[j]; }
    forall i, j | 0 <= i < j < |b| ensures b[i] != b[j] { assert s[i + |a|] == b[i] && s[j + |a|] == b[j]; }
    forall i, j | 0 <= i < |a| && 0 <= j < |b| ensures a[i] != b[j] { assert s[i] == a[i] && s[j + |a|] == b[j]; }
  }

  // ---------------------------------------------------------------- trees never repeat

  /** No open room lists the root or a child twice, and no two list the same child. */
  ghost predicate Tree(g: Graph, root: Room)
  {
    && (forall p :: Open(g, p) ==> root !in g[p].children && NoRepeats(g[p].children))
    && (forall p, r, x :: Edge(g, p, x) && Edge(g, r, x) ==> p == r)
  }

  /** Every room is listed or waiting at most once, and waits because of a visited room that lists it. */
  ghost predicate Branching(q: Request, w: Walk)
  {
    && NoRepeats(w.rooms + w.queue)
    && (forall x :: x in w.rooms ==> x in w.parents)
    && (forall x :: x in w.queue ==> x !in w.parents && Awaited(q, w.parents, x))
  }

  ghost predicate Awaited(q: Request, parents: set<Room>, x: Room)
  {
    if x == q.root then parents == {} else exists p :: p in parents && Edge(q.g, p, x)
  }

  lemma {:induction false} NotInKeeps(rooms: seq<Room>, seen: set<Room>)
    requires NoRepeats(rooms)
    ensures NoRepeats(NotIn(rooms, seen))
    decreases |rooms|
  {
    if rooms != [] {
      NoRepeatsPart([rooms[0]], rooms[1..]);
      assert rooms == [rooms[0]] + rooms[1..];
      NotInKeeps(rooms[1..], seen);
      if rooms[0] !in seen { NoRepeatsAppend([rooms[0]], NotIn(rooms[1..], seen)); }
      assert rooms[0] in seen ==> [] + NotIn(rooms[1..], seen) == NotIn(rooms[1..], seen);
    }
  }

  lemma ReversedKeeps(rooms: seq<Room>)
    requires NoRepeats(rooms)
    ensures NoRepeats(Reversed(rooms))
  {
  }

  lemma NextKeeps(children: seq<Room>, parents: set<Room>, shorts: map<Room, nat>, tokens: seq<nat>)
    requires NoRepeats(children)
    ensures NoRepeats(Next(children, parents, shorts, tokens))
  {
    NotInKeeps(children, parents);
    var unseen := NotIn(children, parents);
    ReversedKeeps(unseen);
    if |parents| < |tokens| {
      var k := SkipTo(unseen, 0, shorts, tokens[|parents|]);
      NoRepeatsPart(unseen[..k], unseen[k..]);
      assert unseen == unseen[..k] + unseen[k..];
      ReversedKeeps(unseen[k..]);
    }
  }

  /** The children of a visited room of a tree are not waiting yet. */
  lemma ChildrenAreNew(q: Request, w: Walk, room: Room, rest: seq<Room>, next: seq<Room>)
    requires Tree(q.g, q.root) && Branching(q, w) && w.queue == [room] + rest && Open(q.g, room)
    requires forall x :: x in next ==> x in q.g[room].children && x !in w.parents
    ensures forall x :: x in next ==> x != q.root && x != room && x !in rest && x !in w.rooms
  {
    assert room in w.queue;
    forall x | x in next ensures x != q.root && x != room && x !in rest {
      assert Edge(q.g, room, x);
      assert forall p :: p in w.parents ==> !Edge(q.g, p, x);
      assert x in rest ==> x in w.queue;
    }
  }

  lemma BranchingTurn(q: Request, w: Walk)
    requires Tree(q.g, q.root) && Branching(q, w) && w.queue != [] && Turn(q, w).More?
    ensures Branching(q, Turn(q, w).walk)
  {
    var (room, rest) := (w.queue[0], w.queue[1..]);
    assert w.queue == [room] + rest;
    NoRepeatsPart(w.rooms, w.queue);
    NoRepeatsPart([room], rest);
    if !Open(q.g, room) {
      NoRepeatsAppend(w.rooms, rest);
    } else {
      var next := Next(q.g[room].children, w.parents, q.shorts, q.tokens);
      OpenBranching(q, w, room, rest, next);
      assert Turn(q, w).walk.queue == (if |w.parents + {room}| > q.maxDepth then rest else rest + next);
    }
  }

  lemma OpenBranching(q: Request, w: Walk, room: Room, rest: seq<Room>, next: seq<Room>)
    requires Tree(q.g, q.root) && Branching(q, w) && w.queue == [room] + rest && Open(q.g, room)
    requires NoRepeats(w.rooms) && NoRepeats(rest) && room !in rest
    requires next == Next(q.g[room].children, w.parents, q.shorts, q.tokens)
    ensures Branching(q, Walk(rest, w.rooms, w.parents + {room}))
    ensures Branching(q, Walk(rest, w.rooms + [room], w.parents + {room}))
    ensures Branching(q, Walk(rest + next, w.rooms, w.parents + {room}))
    ensures Branching(q, Walk(rest + next, w.rooms + [room], w.parents + {room}))
  {
    NextKeeps(q.g[room].children, w.parents, q.shorts, q.tokens);
    ChildrenAreNew(q, w, room, rest, next);
    BranchingVisit(q, w, room, rest, next);
    BranchingVisit(q, w, room, rest, []);
    assert rest + [] == rest;
  }

  lemma BranchingVisit(q: Request, w: Walk, room: Room, rest: seq<Room>, next: seq<Room>)
    requires Branching(q, w) && w.queue == [room] + rest && Open(q.g, room)
    requires NoRepeats(w.rooms) && NoRepeats(rest) && room !in rest && NoRepeats(next)
    requires forall x :: x in next ==> x in q.g[room].children && x !in w.parents
    requires forall x :: x in next ==> x != q.root && x != room && x !in rest && x !in w.rooms
    ensures Branching(q, Walk(rest + next, w.rooms, w.parents + {room}))
    ensures Branching(q, Walk(rest + next, w.rooms + [room], w.parents + {room}))
  {
    assert room in w.queue;
    NoRepeatsAppend(rest, next);
    var more := w.parents + {room};
    forall x | x in rest + next ensures x !in more && Awaited(q, more, x) {
      if x in rest {
        assert x in w.queue;
        if x != q.root {
          var p :| p in w.parents && Edge(q.g, p, x);
          assert p in more;
        } else {
          NoRootLeft(q, w, room, rest);
        }
      } else {
        assert room in more && Edge(q.g, room, x);
      }
    }
    forall x | x in w.rooms ensures x !in rest + next {
      assert x in rest ==> x in w.queue;
    }
    NoRepeatsAppend(w.rooms, rest + next);
    NoRepeatsAppend(w.rooms, [room]);
    NoRepeatsAppend(w.rooms + [room], rest + next);
  }

  /** The root waits alone. */
  lemma NoRootLeft(q: Request, w: Walk, room: Room, rest: seq<Room>)
    requires Branching(q, w) && w.queue == [room] + rest && room !in rest
    ensures q.root !in rest
  {
    assert room in w.queue && (q.root in rest ==> q.root in w.queue);
  }

  lemma {:induction false} BranchingAlways(q: Request, n: nat)
    requires Tree(q.g, q.root)
    ensures var v := After(Turns(q), Start(q.root), n); v.More? ==> Branching(q, v.walk)
  {
    if n > 0 {
      BranchingAlways(q, n - 1);
      var v := After(Turns(q), Start(q.root), n - 1);
      if v.More? && v.walk.queue != [] && Turn(q, v.walk).More? { BranchingTurn(q, v.walk); }
    }
  }

  /** On a tree no page lists a room twice, whatever its limits and its token. */
  lemma TreeNeverRepeats(q: Request, n: nat)
    requires Tree(q.g, q.root)
    ensures NoRepeats(Listed(After(Turns(q), Start(q.root), n)))
  {
    BranchingAlways(q, n);
    var v := After(Turns(q), Start(q.root), n);
    if v.More? {
      NoRepeatsPart(v.walk.rooms, v.walk.queue);
    } else {
      var t, w := LastTurn(Turns(q), Start(q.root), n);
      BranchingAlways(q, t);
      NoRepeatsPart(w.rooms, w.queue);
      if w.queue != [] && v.outcome.Page? { NoRepeatsAppend(w.rooms, [w.queue[0]]); }
    }
  }

  // ---------------------------------------------------------------- a page in terms of the child lists

  function Keep(g: Graph, rooms: seq<Room>): seq<Room>
  {
    if rooms == [] then [] else (if Open(g, rooms[0]) then [rooms[0]] else []) + Keep(g, rooms[1..])
  }

  lemma {:induction false} KeepAppend(g: Graph, a: seq<Room>, b: seq<Room>)
    ensures Keep(g, a + b) == Keep(g, a) + Keep(g, b)
    decreases |a|
  {
    if a == [] {
      assert a + b == b;
    } else {
      KeepAppend(g, a[1..], b);
      assert (a + b)[1..] == a[1..] + b;
    }
  }

  /** What the `i`th of the rooms `s` adds to the queue, without the rooms that are not open: its
      children that were not visited before it, last one first, unless enough rooms were visited. */
  ghost function Fresh(q: Request, s: seq<Room>, i: nat): seq<Room>
    requires i < |s|
  {
    if !Open(q.g, s[i]) || |Elems(s[..i + 1])| > q.maxDepth then []
    else Keep(q.g, Reversed(NotIn(q.g[s[i]].children, Elems(s[..i]))))
  }

  /** All open rooms that were ever queued when `i` rooms have been listed. */
  ghost function Queued(q: Request, i: nat): seq<Room>
  {
    if i == 0 then [q.root] else
      var s := Queued(q, i - 1);
      if i - 1 < |s| then s + Fresh(q, s, i - 1) else s
  }

  ghost predicate OnTrack(q: Request, w: Walk)
  {
    && w.parents == Elems(w.rooms) && Under(q.limit, w)
    && w.rooms + Keep(q.g, w.queue) == Queued(q, |w.rooms|)
  }

  lemma FreshIs(q: Request, rooms: seq<Room>, room: Room, tail: seq<Room>)
    requires Open(q.g, room)
    ensures Fresh(q, (rooms + [room]) + tail, |rooms|)
         == if |Elems(rooms + [room])| > q.maxDepth then []
            else Keep(q.g, Reversed(NotIn(q.g[room].children, Elems(rooms))))
  {
    var s := (rooms + [room]) + tail;
    assert s[..|rooms|] == rooms && s[..|rooms| + 1] == rooms + [room];
  }

  lemma KeepCons(g: Graph, room: Room, rest: seq<Room>)
    ensures Keep(g, [room] + rest) == if Open(g, room) then [room] + Keep(g, rest) else Keep(g, rest)
  {
    assert ([room] + rest)[1..] == rest;
    assert [] + Keep(g, rest) == Keep(g, rest);
  }

  lemma QueuedStep(q: Request, rooms: seq<Room>, room: Room, tail: seq<Room>)
    requires Queued(q, |rooms|) == (rooms + [room]) + tail
    ensures Queued(q, |rooms| + 1) == (rooms + [room]) + (tail + Fresh(q, (rooms + [room]) + tail, |rooms|))
  {
    Assoc(rooms + [room], tail, Fresh(q, (rooms + [room]) + tail, |rooms|));
  }

  lemma OnTrackSplit(q: Request, w: Walk, room: Room, rest: seq<Room>)
    requires OnTrack(q, w) && w.queue == [room] + rest && Open(q.g, room)
    ensures Queued(q, |w.rooms|) == (w.rooms + [room]) + Keep(q.g, rest)
    ensures Elems(w.rooms + [room]) == w.parents + {room}
  {
    KeepCons(q.g, room, rest);
    Assoc(w.rooms, [room], Keep(q.g, rest));
  }

  lemma OnTrackOpen(q: Request, w: Walk, room: Room, rest: seq<Room>, next: seq<Room>)
    requires OnTrack(q, w) && w.queue == [room] + rest && Open(q.g, room)
    requires next == Reversed(NotIn(q.g[room].children, w.parents))
    ensures Elems(w.rooms + [room]) == w.parents + {room}
    ensures (w.rooms + [room]) + Keep(q.g, if |w.parents + {room}| > q.maxDepth then rest else rest + next)
         == Queued(q, |w.rooms| + 1)
  {
    OnTrackSplit(q, w, room, rest);
    QueuedStep(q, w.rooms, room, Keep(q.g, rest));
    FreshIs(q, w.rooms, room, Keep(q.g, rest));
    KeepAppend(q.g, rest, next);
    assert Keep(q.g, rest) + [] == Keep(q.g, rest);
  }

  lemma OnTrackTurn(q: Request, w: Walk)
    requires q.tokens == [] && OnTrack(q, w) && w.queue != [] && Turn(q, w).More?
    ensures OnTrack(q, Turn(q, w).walk)
  {
    var (room, rest) := (w.queue[0], w.queue[1..]);
    assert w.queue == [room] + rest;
    if Open(q.g, room) {
      var next := Reversed(NotIn(q.g[room].children, w.parents));
      OnTrackOpen(q, w, room, rest, next);
      var queue := if |w.parents + {room}| > q.maxDepth then rest else rest + next;
      assert Turn(q, w) == More(Walk(queue, w.rooms + [room], w.parents + {room}));
    } else {
      KeepCons(q.g, room, rest);
      assert Turn(q, w) == More(w.(queue := rest));
    }
  }

  lemma OnTrackStart(q: Request)
    requires Open(q.g, q.root)
    ensures OnTrack(q, Start(q.root))
  {
    assert [q.root] + [] == [q.root];
    KeepCons(q.g, q.root, []);
  }

  lemma {:induction false} OnTrackAlways(q: Request, n: nat)
    requires q.tokens == [] && Open(q.g, q.root)
    ensures var v := After(Turns(q), Start(q.root), n); v.More? ==> OnTrack(q, v.walk)
  {
    if n > 0 {
      OnTrackAlways(q, n - 1);
      var v := After(Turns(q), Start(q.root), n - 1);
      if v.More? && v.walk.queue != [] && Turn(q, v.walk).More? { OnTrackTurn(q, v.walk); }
    } else {
      OnTrackStart(q);
    }
  }

  /** A page is possible only for an open root. */
  lemma {:induction false} RootOpen(q: Request, n: nat)
    requires n > 0 && !Failed(After(Turns(q), Start(q.root), n))
    ensures Open(q.g, q.root)
  {
    if n > 1 { RootOpen(q, n - 1); }
  }

  function First<T>(n: nat, s: seq<T>): seq<T>
  {
    if n < |s| then s[..n] else s
  }

  /** A first page is the beginning of what was ever queued: all of it, or as much as the limit allows. */
  lemma PageQueued(q: Request, n: nat, r: Outcome) returns (e: nat)
    requires q.tokens == [] && EndsWith(Turns(q), Start(q.root), n, r) && r.Page?
    ensures PageEnds(r.rooms, Queued(q, e), e, q.limit)
  {
    RootOpen(q, n);
    OnTrackAlways(q, n);
    var v := After(Turns(q), Start(q.root), n);
    if v.More? {
      e := |r.rooms|;
      PageWhole(q, v.walk);
    } else {
      var t, w := LastTurn(Turns(q), Start(q.root), n);
      OnTrackAlways(q, t);
      e := |w.rooms|;
      PageCut(q, w, r);
    }
  }

  lemma PageWhole(q: Request, w: Walk)
    requires OnTrack(q, w) && w.queue == []
    ensures w.rooms == Queued(q, |w.rooms|) && |w.rooms| < q.limit
  {
    assert w.rooms + [] == w.rooms;
  }

  lemma PageCut(q: Request, w: Walk, r: Outcome)
    requires q.tokens == [] && OnTrack(q, w) && Turns(q)(w) == Answer(r) && r.Page?
    ensures r.rooms <= Queued(q, |w.rooms|) && |r.rooms| == |w.rooms| + 1 && |r.rooms| >= q.limit
    ensures w.rooms == [] || |r.rooms| == q.limit
  {
    var (room, rest) := (w.queue[0], w.queue[1..]);
    assert w.queue == [room] + rest;
    OnTrackSplit(q, w, room, rest);
    assert r.rooms == w.rooms + [room];
  }

  // ---------------------------------------------------------------- exactly when a first page repeats

  /** The rooms, and those of `more` that are not among them yet, each once. */
  function Discover<T(==)>(found: seq<T>, more: seq<T>): (r: seq<T>)
    ensures found <= r && (NoRepeats(found) ==> NoRepeats(r))
    decreases |more|
  {
    if more == [] then found
    else if more[0] in found then Discover(found, more[1..])
    else Discover(found + [more[0]], more[1..])
  }

  /** The textbook breadth-first search, which marks rooms when it finds them: what it has found when
      `i` rooms have been visited. */
  ghost function Found(q: Request, i: nat): (s: seq<Room>)
    ensures NoRepeats(s)
  {
    if i == 0 then [q.root] else
      var s := Found(q, i - 1);
      if i - 1 < |s| then Discover(s, Fresh(q, s, i - 1)) else s
  }

  /** At the `i`th room of that search, the `j`th of its open children that were not visited yet has
      been found already: it is waiting, is the room itself, or is listed twice. And its place in the
      queue is within the limit. */
  ghost predicate Clash(q: Request, i: nat, j: nat)
  {
    var s := Found(q, i);
    i < |s| && j < |Fresh(q, s, i)| && |s| + j < q.limit && Fresh(q, s, i)[j] in s + Fresh(q, s, i)[..j]
  }

  ghost predicate NoClash(q: Request)
  {
    forall i, j :: !Clash(q, i, j)
  }

  /** What a search adds without meeting found rooms, it adds as it is. */
  lemma {:induction false} DiscoverAll<T>(found: seq<T>, more: seq<T>, limit: nat)
    requires forall j :: 0 <= j < |more| && |found| + j < limit ==> more[j] !in found + more[..j]
    ensures First(limit, Discover(found, more)) == First(limit, found + more)
    decreases |more|
  {
    if more == [] {
      assert found + more == found;
    } else if |found| < limit {
      var (longer, rest) := (found + [more[0]], more[1..]);
      assert more[0] !in found + more[..0];
      forall j | 0 <= j < |rest| && |longer| + j < limit ensures rest[j] !in longer + rest[..j] {
        assert more[j + 1] !in found + more[..j + 1];
        assert longer + rest[..j] == found + more[..j + 1];
      }
      DiscoverAll(longer, rest, limit);
      assert longer + rest == found + more;
    } else {
      var r := Discover(found, more);
      assert First(limit, r) == found[..limit] == First(limit, found + more);
    }
  }

  /** Without a clash so far, the walk has queued what the search has found. */
  lemma {:induction false} Agree(q: Request, i: nat)
    requires forall k, j :: 0 <= k < i ==> !Clash(q, k, j)
    ensures First(q.limit, Queued(q, i)) == First(q.limit, Found(q, i))
  {
    if i > 0 {
      Agree(q, i - 1);
      AgreeStep(q, i - 1);
    }
  }

  lemma AgreeStep(q: Request, i: nat)
    requires (forall j :: !Clash(q, i, j)) && First(q.limit, Queued(q, i)) == First(q.limit, Found(q, i))
    ensures First(q.limit, Queued(q, i + 1)) == First(q.limit, Found(q, i + 1))
  {
    var (s, f) := (Queued(q, i), Found(q, i));
    FirstAgrees(q.limit, s, f);
    if s != f {
      FirstLonger(q.limit, s, Queued(q, i + 1));
      FirstLonger(q.limit, f, Found(q, i + 1));
    } else if i < |f| {
      FreshAgrees(q, i);
    }
  }

  lemma FreshAgrees(q: Request, i: nat)
    requires (forall j :: !Clash(q, i, j)) && i < |Found(q, i)|
    ensures var (f, more) := (Found(q, i), Fresh(q, Found(q, i), i));
      First(q.limit, f + more) == First(q.limit, Discover(f, more))
  {
    var (f, more) := (Found(q, i), Fresh(q, Found(q, i), i));
    forall j | 0 <= j < |more| && |f| + j < q.limit ensures more[j] !in f + more[..j] {
      assert !Clash(q, i, j);
    }
    DiscoverAll(f, more, q.limit);
  }

  lemma FirstAgrees<T>(n: nat, a: seq<T>, b: seq<T>)
    requires First(n, a) == First(n, b)
    ensures a == b || (|a| >= n && |b| >= n)
  {
  }

  lemma FirstLonger<T>(n: nat, a: seq<T>, b: seq<T>)
    requires a <= b && |a| >= n
    ensures First(n, a) == First(n, b)
  {
  }

  lemma {:induction false} QueuedGrows(q: Request, i: nat, k: nat)
    requires i <= k
    ensures Queued(q, i) <= Queued(q, k)
    ensures |Queued(q, i)| <= i ==> Queued(q, k) == Queued(q, i)
    decreases k
  {
    if i < k { QueuedGrows(q, i, k - 1); }
  }

  lemma RepeatStays<T>(s: seq<T>, more: seq<T>, j: nat, page: seq<T>)
    requires j < |more| && more[j] in s + more[..j] && |s| + j < |page|
    requires s + more <= page || page <= s + more
    ensures !NoRepeats(page)
  {
    var p := |s| + j;
    assert page[p] == (s + more)[p] == more[j];
    var k :| 0 <= k < |s + more[..j]| && (s + more[..j])[k] == more[j];
    assert page[k] == (s + more)[k] == more[j];
  }

  /** At the first clash the walk has queued what the search has found. */
  lemma ClashQueued(q: Request, i: nat, j: nat)
    requires Clash(q, i, j) && forall k, l :: 0 <= k < i ==> !Clash(q, k, l)
    ensures Queued(q, i) == Found(q, i) && Queued(q, i + 1) == Found(q, i) + Fresh(q, Found(q, i), i)
  {
    Agree(q, i);
    FirstAgrees(q.limit, Queued(q, i), Found(q, i));
  }

  /** How a page ends: everything queued is listed, or the limit is met. */
  predicate PageEnds(page: seq<Room>, queued: seq<Room>, e: nat, limit: nat)
  {
    || (page == queued && e == |page| < limit)
    || (page <= queued && e + 1 == |page| >= limit && (e == 0 || e + 1 == limit))
  }

  /** The page does not end before a clash within the limit. */
  lemma ClashBeforeEnd(q: Request, p: nat, i: nat, e: nat, page: seq<Room>)
    requires PageEnds(page, Queued(q, e), e, q.limit) && i < |Queued(q, i)| <= p < q.limit
    ensures i < e
  {
    if e <= i { QueuedGrows(q, e, i); }
  }

  lemma ClashOnPage(q: Request, i: nat, j: nat, e: nat, page: seq<Room>)
    requires PageEnds(page, Queued(q, e), e, q.limit) && i < e && Clash(q, i, j)
    requires Queued(q, i + 1) == Found(q, i) + Fresh(q, Found(q, i), i)
    ensures !NoRepeats(page)
  {
    QueuedGrows(q, i + 1, e);
    RepeatStays(Found(q, i), Fresh(q, Found(q, i), i), j, page);
  }

  /** The first clash puts a room on the page twice. */
  lemma FirstClashRepeats(q: Request, n: nat, r: Outcome, i: nat, j: nat)
    requires q.tokens == [] && EndsWith(Turns(q), Start(q.root), n, r) && r.Page?
    requires Clash(q, i, j) && forall k, l :: 0 <= k < i ==> !Clash(q, k, l)
    ensures !NoRepeats(r.rooms)
  {
    ClashQueued(q, i, j);
    var e := PageQueued(q, n, r);
    ClashBeforeEnd(q, |Found(q, i)| + j, i, e, r.rooms);
    ClashOnPage(q, i, j, e, r.rooms);
  }

  lemma {:induction false} ClashRepeats(q: Request, n: nat, r: Outcome, i: nat, j: nat)
    requires q.tokens == [] && EndsWith(Turns(q), Start(q.root), n, r) && r.Page? && Clash(q, i, j)
    ensures !NoRepeats(r.rooms)
    decreases i
  {
    if k, l :| 0 <= k < i && Clash(q, k, l) {
      ClashRepeats(q, n, r, k, l);
    } else {
      FirstClashRepeats(q, n, r, i, j);
    }
  }

  lemma NoClashNoRepeats(q: Request, n: nat, r: Outcome)
    requires q.tokens == [] && EndsWith(Turns(q), Start(q.root), n, r) && r.Page? && NoClash(q)
    ensures NoRepeats(r.rooms)
  {
    var e := PageQueued(q, n, r);
    Agree(q, e);
    if |r.rooms| > 1 { assert r.rooms == First(q.limit, Queued(q, e)) == First(q.limit, Found(q, e)); }
  }

  /** A first page lists no room twice if and only if no room of a breadth-first search of the space
      lists an unvisited open child that the search has found already. */
  lemma RepeatsExactly(q: Request, n: nat, r: Outcome)
    requires q.tokens == [] && EndsWith(Turns(q), Start(q.root), n, r) && r.Page?
    ensures NoRepeats(r.rooms) <==> NoClash(q)
  {
    if i, j :| Clash(q, i, j) {
      ClashRepeats(q, n, r, i, j);
    } else {
      NoClashNoRepeats(q, n, r);
    }
  }

  // ---------------------------------------------------------------- a space that repeats

  /** A room `a` with the children `b` and `c`, which both have the child `d`. */
  function Diamond(a: Room, b: Room, c: Room, d: Room): Request
  {
    Request(map[a := Accessible([b, c]), b := Accessible([d]), c := Accessible([d]), d := Accessible([])],
            map[], a, 10, 10, [])
  }

  /** One turn of a first page that nothing cuts short. */
  lemma VisitOne(q: Request, room: Room, rest: seq<Room>, rooms: seq<Room>, parents: set<Room>, next: seq<Room>)
    requires q.tokens == [] && Open(q.g, room) && |rooms| + 1 < q.limit && |parents| < q.maxDepth
    requires next == Reversed(NotIn(q.g[room].children, parents))
    ensures Turns(q)(Walk([room] + rest, rooms, parents)) == More(Walk(rest + next, rooms + [room], parents + {room}))
  {
    assert ([room] + rest)[1..] == rest;
  }

  /** The unvisited children of a list of at most two, last one first. */
  lemma Children(x: Room, y: Room, seen: set<Room>)
    requires x !in seen && y !in seen
    ensures Reversed(NotIn([x, y], seen)) == [y, x] && Reversed(NotIn([x], seen)) == [x] && Reversed(NotIn([], seen)) == []
  {
    assert [x, y][1..] == [y] && [y][1..] == [] && [x][1..] == [];
    assert NotIn([y], seen) == [y] && NotIn([x], seen) == [x];
    assert NotIn([x, y], seen) == [x] + [y];
    assert Reversed([y]) == [y] && Reversed([x]) == [x];
  }

  /** A room with two children, neither visited yet. */
  lemma VisitPair(q: Request, x: Room, y: Room, z: Room, rest: seq<Room>, rooms: seq<Room>, seen: set<Room>)
    requires q.tokens == [] && x in q.g && q.g[x] == Accessible([y, z]) && y !in seen && z !in seen
    requires |rooms| + 1 < q.limit && |seen| < q.maxDepth
    ensures Turns(q)(Walk([x] + rest, rooms, seen)) == More(Walk(rest + [z, y], rooms + [x], seen + {x}))
  {
    Children(y, z, seen);
    VisitOne(q, x, rest, rooms, seen, [z, y]);
  }

  lemma VisitSingle(q: Request, x: Room, y: Room, rest: seq<Room>, rooms: seq<Room>, seen: set<Room>)
    requires q.tokens == [] && x in q.g && q.g[x] == Accessible([y]) && y !in seen
    requires |rooms| < 5 < q.limit && |seen| < 5 < q.maxDepth
    ensures Turns(q)(Walk([x] + rest, rooms, seen)) == More(Walk(rest + [y], rooms + [x], seen + {x}))
  {
    Children(y, y, seen);
    VisitOne(q, x, rest, rooms, seen, [y]);
  }

  lemma VisitLeaf(q: Request, x: Room, rest: seq<Room>, rooms: seq<Room>, seen: set<Room>)
    requires q.tokens == [] && x in q.g && q.g[x] == Accessible([])
    requires |rooms| < 5 < q.limit && |seen| < 5 < q.maxDepth
    ensures Turns(q)(Walk([x] + rest, rooms, seen)) == More(Walk(rest, rooms + [x], seen + {x}))
  {
    assert NotIn([], seen) == [] && Reversed([]) == [];
    assert rest + [] == rest;
    VisitOne(q, x, rest, rooms, seen, []);
  }

  /** The states of the walk over a diamond. */
  function DiamondAt(a: Room, b: Room, c: Room, d: Room, k: nat): Walk
  {
    if k == 0 then Walk([a] + [], [], {})
    else if k == 1 then Walk([c] + [b], [a], {a})
    else if k == 2 then Walk([b] + [d], [a, c], {a} + {c})
    else if k == 3 then Walk([d] + [d], [a, c, b], {a} + {c} + {b})
    else if k == 4 then Walk([d] + [], [a, c, b, d], {a} + {c} + {b} + {d})
    else Walk([], [a, c, b, d, d], {a} + {c} + {b} + {d} + {d})
  }

  ghost predicate StepsTo(turn: Turning, at: nat -> Walk, k: nat)
  {
    turn(at(k)) == More(at(k + 1))
  }

  lemma {:induction false} StepsAfter(turn: Turning, at: nat -> Walk, m: nat)
    requires forall k :: 0 <= k < m ==> StepsTo(turn, at, k)
    ensures After(turn, at(0), m) == More(at(m))
  {
    if m > 0 {
      StepsAfter(turn, at, m - 1);
      assert StepsTo(turn, at, m - 1);
    }
  }

  lemma DiamondUpper(a: Room, b: Room, c: Room, d: Room, k: nat)
    requires a != b && a != c && a != d && b != c && b != d && c != d && k < 2
    ensures Turns(Diamond(a, b, c, d))(DiamondAt(a, b, c, d, k)) == More(DiamondAt(a, b, c, d, k + 1))
  {
    var q := Diamond(a, b, c, d);
    if k == 0 {
      VisitPair(q, a, b, c, [], [], {});
      assert [] + [c, b] == [c] + [b] && [] + [a] == [a];
    } else {
      VisitSingle(q, c, d, [b], [a], {a});
      assert [a] + [c] == [a, c];
    }
  }

  lemma DiamondMiddle(a: Room, b: Room, c: Room, d: Room)
    requires a != b && a != c && a != d && b != c && b != d && c != d
    ensures Turns(Diamond(a, b, c, d))(DiamondAt(a, b, c, d, 2)) == More(DiamondAt(a, b, c, d, 3))
  {
    VisitSingle(Diamond(a, b, c, d), b, d, [d], [a, c], {a} + {c});
    assert [a, c] + [b] == [a, c, b];
  }

  lemma DiamondLower(a: Room, b: Room, c: Room, d: Room, k: nat)
    requires a != b && a != c && a != d && b != c && b != d && c != d && 3 <= k < 5
    ensures Turns(Diamond(a, b, c, d))(DiamondAt(a, b, c, d, k)) == More(DiamondAt(a, b, c, d, k + 1))
  {
    var (q, w) := (Diamond(a, b, c, d), DiamondAt(a, b, c, d, k));
    if k == 3 {
      VisitLeaf(q, d, [d], w.rooms, w.parents);
      assert [a, c, b] + [d] == [a, c, b, d] && [d] + [] == [d];
    } else {
      VisitLeaf(q, d, [], w.rooms, w.parents);
      assert [a, c, b, d] + [d] == [a, c, b, d, d];
    }
  }

  lemma DiamondSteps(a: Room, b: Room, c: Room, d: Room, turn: Turning, at: nat -> Walk)
    requires a != b && a != c && a != d && b != c && b != d && c != d
    requires turn == Turns(Diamond(a, b, c, d)) && forall k :: at(k) == DiamondAt(a, b, c, d, k)
    ensures forall k :: 0 <= k < 5 ==> StepsTo(turn, at, k)
  {
    forall k | 0 <= k < 5 ensures StepsTo(turn, at, k) {
      if k < 2 {
        DiamondUpper(a, b, c, d, k);
      } else if k == 2 {
        DiamondMiddle(a, b, c, d);
      } else {
        DiamondLower(a, b, c, d, k);
      }
    }
  }

  /** Both sides of a diamond queue its bottom, and the page lists it twice. */
  lemma DiamondRepeats(a: Room, b: Room, c: Room, d: Room)
    requires a != b && a != c && a != d && b != c && b != d && c != d
    ensures EndsWith(Turns(Diamond(a, b, c, d)), Start(a), 5, Page([a, c, b, d, d], []))
  {
    var at := (k: nat) => DiamondAt(a, b, c, d, k);
    DiamondSteps(a, b, c, d, Turns(Diamond(a, b, c, d)), at);
    StepsAfter(Turns(Diamond(a, b, c, d)), at, 5);
    assert [a] + [] == [a];
  }
}
