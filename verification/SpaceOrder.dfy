/** In what order the walk over a space lists its rooms, and what its limit does to the list. */
module SpaceOrder {
  import opened Collections
  import opened Spaces

  type Turning = Walk -> Visited

  /** The rooms listed so far. */
  function Listed(v: Visited): seq<Room>
  {
    match v
    case More(w) => w.rooms
    case Answer(Page(rooms, _)) => rooms
    case Answer(_) => []
  }

  predicate Failed(v: Visited)
  {
    v.Answer? && !v.outcome.Page?
  }

  predicate Under(limit: nat, w: Walk)
  {
    w.rooms == [] || |w.rooms| < limit
  }

  // ---------------------------------------------------------------- walks in general

  /** Without anything left to visit, a turn changes nothing; otherwise the list can only grow. */
  ghost predicate Grows(turn: Turning)
  {
    && (forall w: Walk :: w.queue == [] ==> turn(w) == More(w))
    && (forall w: Walk :: !Failed(turn(w)) ==> w.rooms <= Listed(turn(w)))
  }

  lemma {:induction false} AfterStays(turn: Turning, w: Walk, m: nat, n: nat)
    requires Grows(turn) && m <= n
    requires After(turn, w, m).More? ==> After(turn, w, m).walk.queue == []
    ensures After(turn, w, n) == After(turn, w, m)
    decreases n
  {
    if m < n { AfterStays(turn, w, m, n - 1); }
  }

  /** A walk has only one outcome. */
  lemma OneOutcome(turn: Turning, w: Walk, m: nat, r: Outcome, n: nat, s: Outcome)
    requires Grows(turn) && EndsWith(turn, w, m, r) && EndsWith(turn, w, n, s)
    ensures r == s
  {
    if m <= n { AfterStays(turn, w, m, n); } else { AfterStays(turn, w, n, m); }
  }

  lemma {:induction false} ListGrows(turn: Turning, w: Walk, m: nat, n: nat)
    requires Grows(turn) && m <= n && !Failed(After(turn, w, n))
    ensures Listed(After(turn, w, m)) <= Listed(After(turn, w, n))
    decreases n
  {
    if m < n { ListGrows(turn, w, m, n - 1); }
  }

  /** Every walk that ends in a page has listed the beginning of it. */
  lemma ListedFirst(turn: Turning, w: Walk, k: nat, n: nat, s: Outcome)
    requires Grows(turn) && EndsWith(turn, w, n, s) && s.Page?
    ensures Listed(After(turn, w, k)) <= s.rooms
  {
    AfterStays(turn, w, n, n + k);
    ListGrows(turn, w, k, n + k);
  }

  // ---------------------------------------------------------------- walks that differ in the limit

  /** `turn` goes on under the limit only, and as `wider` does. When it answers a page, that has met
      the limit, and `wider` has listed the same rooms; when it fails, so does `wider`. */
  ghost predicate CutsAt(turn: Turning, wider: Turning, limit: nat)
  {
    forall w: Walk :: Under(limit, w) ==>
      match turn(w)
      case More(v) => Under(limit, v) && wider(w) == More(v)
      case Answer(r) => if r.Page? then |r.rooms| == limit && Listed(wider(w)) == r.rooms else wider(w) == Answer(r)
  }

  lemma {:induction false} SameUntilLimit(turn: Turning, wider: Turning, limit: nat, w: Walk, n: nat)
    requires CutsAt(turn, wider, limit) && Under(limit, w) && After(turn, w, n).More?
    ensures After(wider, w, n) == After(turn, w, n) && Under(limit, After(turn, w, n).walk)
    decreases n
  {
    if n > 0 { SameUntilLimit(turn, wider, limit, w, n - 1); }
  }

  /** The turn with which the walk answered. */
  lemma {:induction false} LastTurn(turn: Turning, w: Walk, n: nat) returns (t: nat, v: Walk)
    requires After(turn, w, n).Answer?
    ensures t < n && After(turn, w, t) == More(v) && turn(v) == After(turn, w, n)
    decreases n
  {
    if After(turn, w, n - 1).Answer? {
      t, v := LastTurn(turn, w, n - 1);
    } else {
      t, v := n - 1, After(turn, w, n - 1).walk;
    }
  }

  /** Once a room is listed, the walk does not fail any more. */
  ghost predicate Committed(turn: Turning, w: Walk)
  {
    forall k, l :: 0 <= k <= l && Listed(After(turn, w, k)) != [] ==> !Failed(After(turn, w, l))
  }

  lemma LimitMet(turn: Turning, wider: Turning, limit: nat, w: Walk, m: nat, r: Outcome, n: nat, s: Outcome)
    requires CutsAt(turn, wider, limit) && Grows(wider) && Committed(wider, w) && Under(limit, w) && limit >= 1
    requires After(turn, w, m) == Answer(r) && EndsWith(wider, w, n, s)
    ensures if r.Page? then s.Page? && |r.rooms| == limit && r.rooms <= s.rooms else s == r
  {
    var t, v := LastTurn(turn, w, m);
    SameUntilLimit(turn, wider, limit, w, t);
    assert After(wider, w, t + 1) == wider(v);
    if !r.Page? {
      OneOutcome(wider, w, t + 1, r, n, s);
    } else {
      AfterStays(wider, w, n, n + t + 1);
      assert !Failed(After(wider, w, n + t + 1));
      ListedFirst(wider, w, t + 1, n, s);
    }
  }

  lemma Truncates(turn: Turning, wider: Turning, limit: nat, w: Walk, m: nat, r: Outcome, n: nat, s: Outcome)
    requires CutsAt(turn, wider, limit) && Grows(wider) && Committed(wider, w) && w.rooms == [] && limit >= 1
    requires EndsWith(turn, w, m, r) && EndsWith(wider, w, n, s)
    ensures if r.Page? then s.Page? && r.rooms == s.rooms[..if limit < |s.rooms| then limit else |s.rooms|] else s == r
  {
    if After(turn, w, m).More? {
      SameUntilLimit(turn, wider, limit, w, m);
      OneOutcome(wider, w, m, r, n, s);
    } else {
      LimitMet(turn, wider, limit, w, m, r, n, s);
    }
  }

  // ---------------------------------------------------------------- the walk over a space

  lemma TurnsGrow(q: Request)
    ensures Grows(Turns(q))
  {
  }

  lemma TurnsCutAt(q: Request, limit: nat)
    requires 1 <= q.limit <= limit
    ensures CutsAt(Turns(q), Turns(q.(limit := limit)), q.limit)
  {
  }

  /** The root is visited first, and nothing is listed before as many rooms were visited as the token
      has entries. */
  ghost predicate Settled(q: Request, w: Walk)
  {
    && (if w.parents == {} then w == Start(q.root) else Open(q.g, q.root))
    && (w.rooms != [] ==> |w.parents| >= |q.tokens|)
  }

  lemma SettledTurn(q: Request, w: Walk)
    requires Settled(q, w) && w.queue != []
    ensures Turn(q, w).More? ==> Settled(q, Turn(q, w).walk)
    ensures w.rooms != [] ==> !Failed(Turn(q, w)) && Listed(Turn(q, w)) != []
  {
    Spaces.Grows(w.parents, w.queue[0]);
  }

  lemma {:induction false} SettledAlways(q: Request, n: nat)
    ensures var v := After(Turns(q), Start(q.root), n); v.More? ==> Settled(q, v.walk)
  {
    if n > 0 {
      SettledAlways(q, n - 1);
      var v := After(Turns(q), Start(q.root), n - 1);
      if v.More? && v.walk.queue != [] { SettledTurn(q, v.walk); }
    }
  }

  lemma {:induction false} CommittedAt(q: Request, k: nat, l: nat)
    requires k <= l && Listed(After(Turns(q), Start(q.root), k)) != []
    ensures var v := After(Turns(q), Start(q.root), l); !Failed(v) && Listed(v) != []
    decreases l
  {
    if k < l {
      CommittedAt(q, k, l - 1);
      SettledAlways(q, l - 1);
      var v := After(Turns(q), Start(q.root), l - 1);
      if v.More? && v.walk.queue != [] { SettledTurn(q, v.walk); }
    }
  }

  lemma TurnsCommitted(q: Request)
    ensures Committed(Turns(q), Start(q.root))
  {
    forall k, l | 0 <= k <= l && Listed(After(Turns(q), Start(q.root), k)) != []
      ensures !Failed(After(Turns(q), Start(q.root), l))
    {
      CommittedAt(q, k, l);
    }
  }

  /** A smaller limit only cuts the page short: its rooms are the first ones of the larger page, and an
      error under one limit is the same error under the other. */
  lemma LimitTruncates(q: Request, limit: nat, m: nat, r: Outcome, n: nat, s: Outcome)
    requires 1 <= q.limit <= limit
    requires EndsWith(Turns(q), Start(q.root), m, r) && EndsWith(Turns(q.(limit := limit)), Start(q.root), n, s)
    ensures r.Page? <==> s.Page?
    ensures r.Page? ==> r.rooms == s.rooms[..if q.limit < |s.rooms| then q.limit else |s.rooms|]
    ensures !r.Page? ==> r == s
  {
    TurnsGrow(q.(limit := limit));
    TurnsCutAt(q, limit);
    TurnsCommitted(q.(limit := limit));
    Truncates(Turns(q), Turns(q.(limit := limit)), q.limit, Start(q.root), m, r, n, s);
  }

  // ---------------------------------------------------------------- breadth first

  predicate Ascending(s: seq<nat>)
  {
    forall i, j :: 0 <= i < j < |s| ==> s[i] <= s[j]
  }

  /** `x` is the root, at level 0, or a child of one of the rooms, which is one level up. */
  predicate Placed(g: Graph, root: Room, rooms: seq<Room>, levels: seq<nat>, x: Room, level: nat)
    requires |levels| == |rooms|
  {
    if level == 0 then x == root
    else exists j :: 0 <= j < |rooms| && levels[j] + 1 == level && Edge(g, rooms[j], x)
  }

  /** The rooms are listed level by level, each after the parent that it was found through. */
  ghost predicate ByLevel(g: Graph, root: Room, rooms: seq<Room>, levels: seq<nat>)
  {
    && |levels| == |rooms| && Ascending(levels)
    && (forall i :: 0 <= i < |rooms| ==> Placed(g, root, rooms[..i], levels[..i], rooms[i], levels[i]))
  }

  /** So are the queued rooms, all of which are on the level `m` that the walk is at or the next. */
  ghost predicate Waiting(g: Graph, root: Room, rooms: seq<Room>, levels: seq<nat>, queue: seq<Room>,
                          waiting: seq<nat>, m: nat)
    requires |levels| == |rooms|
  {
    && |waiting| == |queue| && Ascending(waiting)
    && (forall i :: 0 <= i < |levels| ==> levels[i] <= m)
    && (forall i :: 0 <= i < |waiting| ==> m <= waiting[i] <= m + 1)
    && (forall i :: 0 <= i < |queue| ==> Placed(g, root, rooms, levels, queue[i], waiting[i]))
  }

  /** Listing a room of the level the walk is at. */
  lemma ListOne(g: Graph, root: Room, rooms: seq<Room>, levels: seq<nat>, room: Room, m: nat)
    requires ByLevel(g, root, rooms, levels) && Placed(g, root, rooms, levels, room, m)
    requires forall i :: 0 <= i < |levels| ==> levels[i] <= m
    ensures ByLevel(g, root, rooms + [room], levels + [m])
  {
    var (more, deeper) := (rooms + [room], levels + [m]);
    forall i | 0 <= i < |more| ensures Placed(g, root, more[..i], deeper[..i], more[i], deeper[i]) {
      if i < |rooms| {
        assert more[..i] == rooms[..i] && deeper[..i] == levels[..i];
      } else {
        assert more[..i] == rooms && deeper[..i] == levels;
      }
    }
  }

  /** A room stays in its place when more rooms are listed. */
  lemma PlacedStays(g: Graph, root: Room, rooms: seq<Room>, levels: seq<nat>, room: Room, m: nat, x: Room, level: nat)
    requires |levels| == |rooms| && Placed(g, root, rooms, levels, x, level)
    ensures Placed(g, root, rooms + [room], levels + [m], x, level)
  {
    if level > 0 {
      var j :| 0 <= j < |rooms| && levels[j] + 1 == level && Edge(g, rooms[j], x);
      assert (rooms + [room])[j] == rooms[j] && (levels + [m])[j] == levels[j];
    }
  }

  /** The rest of the queue, after its first room was listed. */
  lemma WaitOn(g: Graph, root: Room, rooms: seq<Room>, levels: seq<nat>, queue: seq<Room>, waiting: seq<nat>, m: nat)
    requires |levels| == |rooms| && queue != [] && Waiting(g, root, rooms, levels, queue, waiting, m)
    ensures Waiting(g, root, rooms + [queue[0]], levels + [waiting[0]], queue[1..], waiting[1..], waiting[0])
  {
    forall i | 0 <= i < |queue[1..]|
      ensures Placed(g, root, rooms + [queue[0]], levels + [waiting[0]], queue[1..][i], waiting[1..][i])
    {
      PlacedStays(g, root, rooms, levels, queue[0], waiting[0], queue[i + 1], waiting[i + 1]);
    }
  }

  /** The children of the room listed last join the queue one level down. */
  lemma WaitMore(g: Graph, root: Room, rooms: seq<Room>, levels: seq<nat>, queue: seq<Room>, waiting: seq<nat>, m: nat,
                 next: seq<Room>)
    requires |levels| == |rooms| && Waiting(g, root, rooms, levels, queue, waiting, m)
    requires rooms != [] && levels[|rooms| - 1] == m
    requires forall x :: x in next ==> Edge(g, rooms[|rooms| - 1], x)
    ensures Waiting(g, root, rooms, levels, queue + next, waiting + seq(|next|, _ => m + 1), m)
  {
    var (all, depths) := (queue + next, waiting + seq(|next|, _ => m + 1));
    forall i | 0 <= i < |all| ensures Placed(g, root, rooms, levels, all[i], depths[i]) {
      if i < |queue| {
        assert Placed(g, root, rooms, levels, queue[i], waiting[i]);
      } else {
        assert all[i] == next[i - |queue|] && all[i] in next;
        assert levels[|rooms| - 1] + 1 == depths[i] && Edge(g, rooms[|rooms| - 1], all[i]);
      }
    }
  }

  /** Up to any point, a first page lists rooms level by level. */
  lemma {:induction false} LevelsSoFar(q: Request, n: nat) returns (levels: seq<nat>, waiting: seq<nat>, m: nat)
    requires q.tokens == [] && !Failed(After(Turns(q), Start(q.root), n))
    ensures var v := After(Turns(q), Start(q.root), n);
      && ByLevel(q.g, q.root, Listed(v), levels)
      && (v.More? ==> Waiting(q.g, q.root, Listed(v), levels, v.walk.queue, waiting, m))
    decreases n
  {
    if n == 0 {
      levels, waiting, m := [], [0], 0;
    } else {
      levels, waiting, m := LevelsSoFar(q, n - 1);
      var v := After(Turns(q), Start(q.root), n - 1);
      if v.More? && v.walk.queue != [] {
        levels, waiting, m := LevelsTurn(q, v.walk, levels, waiting, m);
      }
    }
  }

  lemma LevelsTurn(q: Request, w: Walk, levels: seq<nat>, waiting: seq<nat>, m: nat)
    returns (levels': seq<nat>, waiting': seq<nat>, m': nat)
    requires q.tokens == [] && w.queue != [] && !Failed(Turn(q, w))
    requires ByLevel(q.g, q.root, w.rooms, levels) && Waiting(q.g, q.root, w.rooms, levels, w.queue, waiting, m)
    ensures var v := Turn(q, w);
      && ByLevel(q.g, q.root, Listed(v), levels')
      && (v.More? ==> Waiting(q.g, q.root, Listed(v), levels', v.walk.queue, waiting', m'))
  {
    var (room, rest) := (w.queue[0], w.queue[1..]);
    if !Open(q.g, room) {
      levels', waiting', m' := levels, waiting[1..], m;
    } else {
      var children := Next(q.g[room].children, w.parents, q.shorts, q.tokens);
      levels', waiting', m' := levels + [waiting[0]], waiting[1..], waiting[0];
      ListOne(q.g, q.root, w.rooms, levels, room, m');
      WaitOn(q.g, q.root, w.rooms, levels, w.queue, waiting, m);
      var v := Turn(q, w);
      if v.More? && v.walk.queue == rest + children {
        WaitMore(q.g, q.root, w.rooms + [room], levels', rest, waiting', m', children);
        waiting' := waiting' + seq(|children|, _ => m' + 1);
      }
    }
  }

  /** A first page is in breadth-first order: its rooms come level by level, only the root on level
      0, and every other after a room one level up that it is a child of. */
  lemma BreadthFirst(q: Request, n: nat, r: Outcome)
    requires q.tokens == [] && EndsWith(Turns(q), Start(q.root), n, r) && r.Page?
    ensures exists levels :: ByLevel(q.g, q.root, r.rooms, levels)
  {
    var levels, _, _ := LevelsSoFar(q, n);
  }

  // ---------------------------------------------------------------- depth

  /** There is a path of at most `edges` edges from the root. */
  ghost predicate Near(g: Graph, root: Room, x: Room, edges: nat)
  {
    exists p :: Path(g, p) && p[0] == root && p[|p| - 1] == x && |p| <= edges + 1
  }

  lemma NearChild(g: Graph, root: Room, x: Room, child: Room, edges: nat)
    requires Near(g, root, x, edges) && Edge(g, x, child)
    ensures Near(g, root, child, edges + 1)
  {
    var p :| Path(g, p) && p[0] == root && p[|p| - 1] == x && |p| <= edges + 1;
    assert (p + [child])[..|p|] == p;
    assert Path(g, p + [child]) && (p + [child])[0] == root;
  }

  lemma NearFurther(g: Graph, root: Room, x: Room, edges: nat, more: nat)
    requires Near(g, root, x, edges) && edges <= more
    ensures Near(g, root, x, more)
  {
    var p :| Path(g, p) && p[0] == root && p[|p| - 1] == x && |p| <= edges + 1;
    assert |p| <= more + 1;
  }

  /** A visited room is no further away than there are other visited rooms, and a waiting one no
      further than there are visited ones; neither is further than the maximum. */
  ghost predicate Shallow(q: Request, w: Walk)
  {
    && (forall x :: x in w.parents ==> |w.parents| > 0 && Near(q.g, q.root, x, |w.parents| - 1))
    && (forall x :: x in w.queue ==> Near(q.g, q.root, x, |w.parents|) && Near(q.g, q.root, x, q.maxDepth))
    && (forall x :: x in w.rooms ==> Near(q.g, q.root, x, q.maxDepth))
  }

  /** What was near enough stays so when one more room is visited. */
  lemma ShallowVisited(q: Request, w: Walk, room: Room, rest: seq<Room>, x: Room)
    requires Shallow(q, w) && w.queue == [room] + rest
    ensures |w.parents + {room}| > 0
    ensures x in w.parents + {room} ==> Near(q.g, q.root, x, |w.parents + {room}| - 1)
    ensures x in rest ==> Near(q.g, q.root, x, |w.parents + {room}|)
  {
    var more := w.parents + {room};
    assert room in w.queue;
    if room in w.parents {
      assert more == w.parents;
    } else {
      assert |more| == |w.parents| + 1;
      if x in w.parents { NearFurther(q.g, q.root, x, |w.parents| - 1, |more| - 1); }
      if x in rest { NearFurther(q.g, q.root, x, |w.parents|, |more|); }
    }
  }

  /** What a turn that goes on leads to. */
  lemma TurnLeads(q: Request, w: Walk, v: Walk)
    requires w.queue != [] && Turn(q, w) == More(v)
    ensures var (room, rest) := (w.queue[0], w.queue[1..]);
      if !Open(q.g, room) then v == Walk(rest, w.rooms, w.parents)
      else
        && v.parents == w.parents + {room} && (v.rooms == w.rooms || v.rooms == w.rooms + [room])
        && v.queue == if |v.parents| > q.maxDepth then rest
                      else rest + Next(q.g[room].children, w.parents, q.shorts, q.tokens)
  {
  }

  lemma ShallowTurn(q: Request, w: Walk, v: Walk)
    requires Shallow(q, w) && w.queue != [] && Turn(q, w) == More(v)
    ensures Shallow(q, v)
  {
    TurnLeads(q, w, v);
    ShallowLed(q, w, v, w.queue[0], w.queue[1..]);
  }

  lemma ShallowLed(q: Request, w: Walk, v: Walk, room: Room, rest: seq<Room>)
    requires Shallow(q, w) && w.queue != [] && room == w.queue[0] && rest == w.queue[1..]
    requires if !Open(q.g, room) then v == Walk(rest, w.rooms, w.parents)
      else
        && v.parents == w.parents + {room} && (v.rooms == w.rooms || v.rooms == w.rooms + [room])
        && v.queue == if |v.parents| > q.maxDepth then rest
                      else rest + Next(q.g[room].children, w.parents, q.shorts, q.tokens)
    ensures Shallow(q, v)
  {
    assert w.queue == [room] + rest;
    if Open(q.g, room) {
      ShallowVisit(q, w, room, rest, Next(q.g[room].children, w.parents, q.shorts, q.tokens));
    }
  }

  lemma ShallowVisit(q: Request, w: Walk, room: Room, rest: seq<Room>, next: seq<Room>)
    requires Shallow(q, w) && w.queue == [room] + rest && Open(q.g, room)
    requires forall x :: x in next ==> x in q.g[room].children
    ensures var more := w.parents + {room};
      var queue := if |more| > q.maxDepth then rest else rest + next;
      Shallow(q, Walk(queue, w.rooms, more)) && Shallow(q, Walk(queue, w.rooms + [room], more))
  {
    var more := w.parents + {room};
    assert room in w.queue;
    ShallowVisited(q, w, room, rest, room);
    forall x | x in more ensures Near(q.g, q.root, x, |more| - 1) { ShallowVisited(q, w, room, rest, x); }
    forall x | x in rest ensures Near(q.g, q.root, x, |more|) && Near(q.g, q.root, x, q.maxDepth) {
      ShallowVisited(q, w, room, rest, x);
      assert x in w.queue;
    }
    if |more| <= q.maxDepth {
      forall x | x in next ensures Near(q.g, q.root, x, |more|) && Near(q.g, q.root, x, q.maxDepth) {
        NearChild(q.g, q.root, room, x, |more| - 1);
        NearFurther(q.g, q.root, x, |more|, q.maxDepth);
      }
    }
  }

  lemma {:induction false} ShallowAlways(q: Request, n: nat)
    ensures var v := After(Turns(q), Start(q.root), n); v.More? ==> Shallow(q, v.walk)
  {
    if n > 0 {
      ShallowAlways(q, n - 1);
      var v := After(Turns(q), Start(q.root), n - 1);
      if v.More? && v.walk.queue != [] && Turn(q, v.walk).More? { ShallowTurn(q, v.walk, Turn(q, v.walk).walk); }
    } else {
      assert Path(q.g, [q.root]);
      assert Near(q.g, q.root, q.root, 0) && Near(q.g, q.root, q.root, q.maxDepth);
    }
  }

  /** Although it is the number of visited rooms that is compared with the maximal depth, no room is
      listed that is further from the root than that. */
  lemma WithinDepth(q: Request, n: nat, x: Room)
    requires x in Listed(After(Turns(q), Start(q.root), n))
    ensures Near(q.g, q.root, x, q.maxDepth)
  {
    ShallowAlways(q, n);
    if After(Turns(q), Start(q.root), n).Answer? {
      var t, w := LastTurn(Turns(q), Start(q.root), n);
      ShallowAlways(q, t);
      assert w.queue != [] ==> w.queue[0] in w.queue;
    }
  }
}
