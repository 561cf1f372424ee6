/** Whether the page requested with the token of a page continues that page. */
module SpaceTokens {
  import opened Collections
  import opened Spaces
  import opened SpaceOrder
  import opened SpaceRepeats

  // ---------------------------------------------------------------- the token of a page

  predicate IdLess(a: string, b: string)
  {
    b != [] && (a == [] || a[0] < b[0] || (a[0] == b[0] && IdLess(a[1..], b[1..])))
  }

  /** The rooms are in the order of their identifiers, as a tree set keeps them. */
  predicate InOrder(rooms: seq<Room>)
  {
    forall i, j :: 0 <= i < j < |rooms| ==> IdLess(rooms[i].id, rooms[j].id)
  }

  /** The short identifiers of those that have one. */
  function ShortsOf(rooms: seq<Room>, shorts: map<Room, nat>): seq<nat>
  {
    if rooms == [] then []
    else (if rooms[0] in shorts then [shorts[rooms[0]]] else []) + ShortsOf(rooms[1..], shorts)
  }

  /** The token of a page names the visited rooms and the first one left in the queue. */
  ghost predicate TokenFor(q: Request, visited: set<Room>, queue: seq<Room>, order: seq<Room>, tokens: seq<nat>)
  {
    && queue != [] && InOrder(order) && Elems(order) == visited + {queue[0]}
    && tokens == ShortsOf(order, q.shorts)
  }

  /** Identifiers compare by the first character in which they differ. */
  lemma {:induction false} IdLessExactly(a: string, b: string)
    ensures IdLess(a, b) <==> (a < b || exists i :: Differs(a, b, i))
    decreases |a|
  {
    if a != [] && b != [] && a[0] == b[0] {
      IdLessExactly(a[1..], b[1..]);
      forall i | 0 < i ensures Differs(a, b, i) <==> Differs(a[1..], b[1..], i - 1) {
        if i < |a| && i < |b| { assert a[..i] == [a[0]] + a[1..][..i - 1] && b[..i] == [b[0]] + b[1..][..i - 1]; }
      }
      assert a < b <==> a[1..] < b[1..];
      if i :| Differs(a[1..], b[1..], i) { assert Differs(a, b, i + 1); }
    } else if a != [] && b != [] {
      assert a[0] < b[0] <==> Differs(a, b, 0);
      forall i | i > 0 ensures !Differs(a, b, i) {
        if i <= |a| && i <= |b| { assert a[..i][0] == a[0] && b[..i][0] == b[0]; }
      }
    }
  }

  predicate Differs(a: string, b: string, i: int)
  {
    0 <= i < |a| && i < |b| && a[..i] == b[..i] && a[i] < b[i]
  }

  lemma {:induction false} IdLessIrreflexive(a: string)
    ensures !IdLess(a, a)
    decreases |a|
  {
    if a != [] { IdLessIrreflexive(a[1..]); }
  }

  lemma {:induction false} Cardinality<T>(s: seq<T>)
    requires NoRepeats(s)
    ensures |Elems(s)| == |s|
    decreases |s|
  {
    if s != [] {
      NoRepeatsPart([s[0]], s[1..]);
      assert s == [s[0]] + s[1..];
      ElemsOfCons(s);
      Cardinality(s[1..]);
    }
  }

  lemma {:induction false} ShortsCount(rooms: seq<Room>, shorts: map<Room, nat>)
    requires forall x :: x in rooms ==> x in shorts
    ensures |ShortsOf(rooms, shorts)| == |rooms|
    decreases |rooms|
  {
    if rooms != [] { ShortsCount(rooms[1..], shorts); }
  }

  /** When all these rooms have short identifiers, the token has an entry for each. */
  lemma TokenLength(q: Request, visited: set<Room>, queue: seq<Room>, order: seq<Room>, tokens: seq<nat>)
    requires TokenFor(q, visited, queue, order, tokens) && forall x :: x in visited + {queue[0]} ==> x in q.shorts
    ensures |tokens| == |visited + {queue[0]}|
  {
    forall x | x in order ensures x in q.shorts { assert x in Elems(order); }
    forall i, j | 0 <= i < j < |order| ensures order[i] != order[j] { IdLessIrreflexive(order[i].id); }
    ShortsCount(order, q.shorts);
    Cardinality(order);
  }

  // ---------------------------------------------------------------- a tree level by level

  /** The rooms that a room adds to the queue when nothing is left out. */
  function Kids(g: Graph, room: Room): seq<Room>
  {
    if Open(g, room) then Reversed(g[room].children) else []
  }

  /** All rooms in breadth-first order, as far as the first `i` lead. */
  function Spread(g: Graph, root: Room, i: nat): seq<Room>
  {
    if i == 0 then [root] else
      var s := Spread(g, root, i - 1);
      if i - 1 < |s| then s + Kids(g, s[i - 1]) else s
  }

  lemma {:induction false} SpreadGrows(g: Graph, root: Room, i: nat, k: nat)
    requires i <= k
    ensures Spread(g, root, i) <= Spread(g, root, k)
    decreases k
  {
    if i < k { SpreadGrows(g, root, i, k - 1); }
  }

  /** The `k`th room is the root or listed by a room before the `i`th. */
  ghost predicate HasParent(g: Graph, root: Room, s: seq<Room>, i: nat, k: nat)
    requires k < |s|
  {
    s[k] == root || exists p :: 0 <= p < i && p < |s| && Edge(g, s[p], s[k])
  }

  ghost predicate Grown(g: Graph, root: Room, s: seq<Room>, i: nat)
  {
    NoRepeats(s) && forall k :: 0 <= k < |s| ==> HasParent(g, root, s, i, k)
  }

  /** What the `i`th room of a tree lists was not there before. */
  lemma KidsAreNew(g: Graph, root: Room, s: seq<Room>, i: nat, x: Room)
    requires Tree(g, root) && Grown(g, root, s, i) && i < |s| && x in Kids(g, s[i])
    ensures x !in s && Edge(g, s[i], x)
  {
    assert Edge(g, s[i], x) && x != root;
    assert forall p :: 0 <= p < i ==> !Edge(g, s[p], x);
    forall k | 0 <= k < |s| ensures s[k] != x { assert HasParent(g, root, s, i, k); }
  }

  lemma ParentStays(g: Graph, root: Room, s: seq<Room>, more: seq<Room>, i: nat, k: nat)
    requires i < |s| && k < |s + more| && (k < |s| ==> HasParent(g, root, s, i, k))
    requires k >= |s| ==> Edge(g, s[i], more[k - |s|])
    ensures HasParent(g, root, s + more, i + 1, k)
  {
    var t := s + more;
    if k >= |s| {
      assert t[i] == s[i] && Edge(g, t[i], t[k]);
    } else if s[k] != root {
      var p :| 0 <= p < i && p < |s| && Edge(g, s[p], s[k]);
      assert t[p] == s[p] && t[k] == s[k];
    }
  }

  lemma GrownNext(g: Graph, root: Room, s: seq<Room>, i: nat)
    requires Tree(g, root) && Grown(g, root, s, i) && i < |s|
    ensures Grown(g, root, s + Kids(g, s[i]), i + 1)
  {
    var more := Kids(g, s[i]);
    if Open(g, s[i]) { ReversedKeeps(g[s[i]].children); }
    forall x | x in more ensures x !in s && Edge(g, s[i], x) { KidsAreNew(g, root, s, i, x); }
    NoRepeatsAppend(s, more);
    var (t, j) := (s + more, i + 1);
    forall k | 0 <= k < |t| ensures HasParent(g, root, t, j, k) {
      assert k >= |s| ==> more[k - |s|] in more;
      ParentStays(g, root, s, more, i, k);
    }
  }

  lemma GrownLater(g: Graph, root: Room, s: seq<Room>, i: nat)
    requires Grown(g, root, s, i)
    ensures Grown(g, root, s, i + 1)
  {
    var j := i + 1;
    forall k | 0 <= k < |s| ensures HasParent(g, root, s, j, k) {
      assert HasParent(g, root, s, i, k);
    }
  }

  lemma GrownStep(g: Graph, root: Room, s: seq<Room>, i: nat, t: seq<Room>, j: nat)
    requires Tree(g, root) && Grown(g, root, s, i) && j == i + 1
    requires t == if i < |s| then s + Kids(g, s[i]) else s
    ensures Grown(g, root, t, j)
  {
    if i < |s| { GrownNext(g, root, s, i); } else { GrownLater(g, root, s, i); }
  }

  lemma GrownStart(g: Graph, root: Room)
    ensures Grown(g, root, Spread(g, root, 0), 0)
  {
    assert Spread(g, root, 0) == [root];
  }

  lemma SpreadStep(g: Graph, root: Room, i: nat)
    requires i > 0
    ensures var s := Spread(g, root, i - 1); Spread(g, root, i) == if i - 1 < |s| then s + Kids(g, s[i - 1]) else s
  {
  }

  lemma {:induction false} SpreadNoRepeats(g: Graph, root: Room, i: nat)
    requires Tree(g, root)
    ensures Grown(g, root, Spread(g, root, i), i)
  {
    if i == 0 {
      GrownStart(g, root);
    } else {
      SpreadNoRepeats(g, root, i - 1);
      SpreadStep(g, root, i);
      GrownStep(g, root, Spread(g, root, i - 1), i - 1, Spread(g, root, i), i);
    }
  }

  // ---------------------------------------------------------------- walks over a tree

  ghost function OpenOf(g: Graph, rooms: seq<Room>): set<Room>
  {
    set x | x in rooms && Open(g, x)
  }

  /** Every visited room but the root was listed by a visited room. */
  ghost predicate Rooted(q: Request, w: Walk)
  {
    Branching(q, w) && forall x :: x in w.parents && x != q.root ==> exists p :: p in w.parents && Edge(q.g, p, x)
  }

  lemma RootedTurn(q: Request, w: Walk, v: Walk)
    requires Tree(q.g, q.root) && Rooted(q, w) && w.queue != [] && Turn(q, w) == More(v)
    ensures Rooted(q, v)
  {
    BranchingTurn(q, w);
    TurnLeads(q, w, v);
    forall x | x in v.parents && x != q.root ensures exists p :: p in v.parents && Edge(q.g, p, x) {
      assert x in w.parents || x == w.queue[0];
      assert w.queue[0] in w.queue;
      var p :| p in w.parents && Edge(q.g, p, x);
      assert p in v.parents;
    }
  }

  lemma {:induction false} NotInAll(rooms: seq<Room>, seen: set<Room>)
    requires forall x :: x in rooms ==> x !in seen
    ensures NotIn(rooms, seen) == rooms
    decreases |rooms|
  {
    if rooms != [] {
      NotInAll(rooms[1..], seen);
      assert rooms == [rooms[0]] + rooms[1..];
    }
  }

  lemma {:induction false} ReversedTail(rooms: seq<Room>, k: nat)
    requires k <= |rooms|
    ensures Reversed(rooms[k..]) <= Reversed(rooms)
  {
    if k == 0 {
      assert rooms[0..] == rooms;
    } else {
      ReversedTail(rooms, k - 1);
      ReversedRest(rooms[k - 1..]);
      assert rooms[k - 1..][1..] == rooms[k..];
    }
  }

  lemma ReversedRest(rooms: seq<Room>)
    requires rooms != []
    ensures Reversed(rooms[1..]) <= Reversed(rooms)
  {
    assert Reversed(rooms) == Reversed(rooms[1..]) + [rooms[0]];
  }

  /** On a tree a walk adds the beginning of what could be added, and all of it without a token. */
  lemma NextIsPrefix(q: Request, w: Walk)
    requires Tree(q.g, q.root) && Rooted(q, w) && w.queue != [] && Open(q.g, w.queue[0])
    ensures var next := Next(q.g[w.queue[0]].children, w.parents, q.shorts, q.tokens);
      next <= Kids(q.g, w.queue[0]) && (q.tokens == [] ==> next == Kids(q.g, w.queue[0]))
  {
    var room := w.queue[0];
    var children := q.g[room].children;
    assert room in w.queue;
    forall x | x in children ensures x !in w.parents {
      assert Edge(q.g, room, x) && x != q.root;
      assert forall p :: p in w.parents ==> !Edge(q.g, p, x);
    }
    NotInAll(children, w.parents);
    if |w.parents| < |q.tokens| {
      ReversedTail(children, SkipTo(children, 0, q.shorts, q.tokens[|w.parents|]));
    }
  }

  predicate Climbs(at: seq<nat>)
  {
    forall i, j :: 0 <= i < j < |at| ==> at[i] < at[j]
  }

  /** How far into the tree the rooms taken off the queue have led. */
  function Reach(taken: nat, at: seq<nat>): nat
    requires taken <= |at|
  {
    if taken == 0 then 0 else at[taken - 1] + 1
  }

  ghost predicate FoundAt<T>(s: seq<T>, all: seq<T>, at: seq<nat>, k: nat)
    requires k < |all| == |at|
  {
    at[k] < |s| && s[at[k]] == all[k]
  }

  ghost predicate FoundAll<T>(s: seq<T>, all: seq<T>, at: seq<nat>)
    requires |all| == |at|
  {
    forall k :: 0 <= k < |all| ==> FoundAt(s, all, at, k)
  }

  /** The rooms taken off the queue and those in it are found in the breadth-first order at places that
      climb. */
  ghost predicate Placing(g: Graph, root: Room, all: seq<Room>, taken: nat, at: seq<nat>)
  {
    taken <= |all| == |at| && Climbs(at) && FoundAll(Spread(g, root, Reach(taken, at)), all, at)
  }

  /** The places of rooms that follow `n` others. */
  function Following(n: nat, count: nat): (r: seq<nat>)
    ensures |r| == count && forall i :: 0 <= i < count ==> r[i] == n + i
  {
    seq(count, i requires 0 <= i < count => n + i)
  }

  lemma PlacesFollow<T>(b: seq<T>, kids: seq<T>, all: seq<T>, at: seq<nat>, next: seq<T>, k: nat)
    requires |at| == |all| && next <= kids && k < |all + next| && (k < |all| ==> FoundAt(b, all, at, k))
    ensures FoundAt(b + kids, all + next, at + Following(|b|, |next|), k)
  {
  }

  lemma PlacesFollowAll<T>(b: seq<T>, kids: seq<T>, all: seq<T>, at: seq<nat>, next: seq<T>, more: seq<nat>)
    requires |at| == |all| && next <= kids && FoundAll(b, all, at) && more == at + Following(|b|, |next|)
    ensures FoundAll(b + kids, all + next, more)
  {
    forall k | 0 <= k < |all + next| ensures FoundAt(b + kids, all + next, more, k) {
      assert k < |all| ==> FoundAt(b, all, at, k);
      PlacesFollow(b, kids, all, at, next, k);
    }
  }

  lemma FoundLater<T>(s: seq<T>, b: seq<T>, all: seq<T>, at: seq<nat>)
    requires s <= b && |at| == |all| && FoundAll(s, all, at)
    ensures FoundAll(b, all, at) && forall k :: 0 <= k < |all| ==> at[k] < |s|
  {
    forall k | 0 <= k < |all| ensures FoundAt(b, all, at, k) && at[k] < |s| { assert FoundAt(s, all, at, k); }
  }

  /** One more room is taken, and the beginning of what it adds is queued. */
  lemma PlacingNext(g: Graph, root: Room, all: seq<Room>, taken: nat, at: seq<nat>, next: seq<Room>)
    returns (more: seq<nat>)
    requires Placing(g, root, all, taken, at) && taken < |all| && next <= Kids(g, all[taken])
    ensures Placing(g, root, all + next, taken + 1, more)
  {
    var (n, p) := (Reach(taken, at), at[taken]);
    SpreadGrows(g, root, n, p);
    var (s, b, t) := (Spread(g, root, n), Spread(g, root, p), Spread(g, root, p + 1));
    SpreadAt(g, root, p, s, b, all, at, taken);
    more := PlacingOn(g, root, p, s, b, t, all, taken, at, next);
  }

  lemma PlacingOn(g: Graph, root: Room, p: nat, s: seq<Room>, b: seq<Room>, t: seq<Room>, all: seq<Room>, taken: nat,
                  at: seq<nat>, next: seq<Room>)
    returns (more: seq<nat>)
    requires taken < |all| == |at| && Climbs(at) && FoundAll(s, all, at) && s <= b && next <= Kids(g, all[taken])
    requires p == at[taken] && t == b + Kids(g, all[taken]) && t == Spread(g, root, p + 1)
    ensures Placing(g, root, all + next, taken + 1, more)
  {
    more := PlacingMore(s, b, all, taken, at, next, Kids(g, all[taken]));
  }

  lemma PlacingMore(s: seq<Room>, b: seq<Room>, all: seq<Room>, taken: nat, at: seq<nat>, next: seq<Room>,
                    kids: seq<Room>)
    returns (more: seq<nat>)
    requires taken < |all| == |at| && Climbs(at) && FoundAll(s, all, at) && s <= b && next <= kids
    ensures |more| == |all + next| && Climbs(more) && FoundAll(b + kids, all + next, more)
    ensures Reach(taken + 1, more) == at[taken] + 1
  {
    FoundLater(s, b, all, at);
    more := at + Following(|b|, |next|);
    PlacingClimbs(at, more, |s|, |b|, |next|);
    PlacesFollowAll(b, kids, all, at, next, more);
  }

  lemma SpreadAt(g: Graph, root: Room, p: nat, s: seq<Room>, b: seq<Room>, all: seq<Room>, at: seq<nat>, k: nat)
    requires k < |all| == |at| && at[k] == p && FoundAll(s, all, at) && s <= b == Spread(g, root, p)
    ensures Spread(g, root, p + 1) == b + Kids(g, all[k])
  {
    FoundLater(s, b, all, at);
    assert FoundAt(b, all, at, k);
    SpreadNext(g, root, p, all, at, k);
  }

  lemma SpreadNext(g: Graph, root: Room, p: nat, all: seq<Room>, at: seq<nat>, k: nat)
    requires k < |all| == |at| && at[k] == p && FoundAt(Spread(g, root, p), all, at, k)
    ensures Spread(g, root, p + 1) == Spread(g, root, p) + Kids(g, all[k])
  {
  }

  lemma PlacingClimbs(at: seq<nat>, more: seq<nat>, low: nat, high: nat, count: nat)
    requires Climbs(at) && low <= high && (forall k :: 0 <= k < |at| ==> at[k] < low)
    requires at <= more && |more| == |at| + count && forall i :: |at| <= i < |more| ==> more[i] == high + (i - |at|)
    ensures Climbs(more)
  {
  }

  // ---------------------------------------------------------------- what a walk has taken

  /** A walk over a tree, with the rooms it has taken off its queue. */
  ghost predicate Tracks(q: Request, w: Walk, taken: seq<Room>, at: seq<nat>)
  {
    && Rooted(q, w) && w.parents == OpenOf(q.g, taken)
    && Placing(q.g, q.root, taken + w.queue, |taken|, at)
  }

  lemma TracksStart(q: Request)
    ensures Tracks(q, Start(q.root), [], [0])
  {
    assert [] + [q.root] == [q.root];
  }

  /** What a turn over a tree does to the queue and the visited rooms. */
  lemma QueueAfter(q: Request, w: Walk, v: Walk) returns (next: seq<Room>)
    requires Tree(q.g, q.root) && Rooted(q, w) && w.queue != [] && Turn(q, w) == More(v)
    ensures v.queue == w.queue[1..] + next && next <= Kids(q.g, w.queue[0])
    ensures v.parents == w.parents + OpenOf(q.g, [w.queue[0]])
    ensures q.tokens == [] && |v.parents| <= q.maxDepth ==> next == Kids(q.g, w.queue[0])
    ensures |v.parents| > q.maxDepth ==> next == []
  {
    TurnLeads(q, w, v);
    var room := w.queue[0];
    next := [];
    assert w.queue[1..] + [] == w.queue[1..];
    if Open(q.g, room) {
      NextIsPrefix(q, w);
      assert OpenOf(q.g, [room]) == {room};
      if |v.parents| <= q.maxDepth { next := Next(q.g[room].children, w.parents, q.shorts, q.tokens); }
    } else {
      assert OpenOf(q.g, [room]) == {};
    }
  }

  lemma OpenOfAppend(g: Graph, a: seq<Room>, b: seq<Room>)
    ensures OpenOf(g, a + b) == OpenOf(g, a) + OpenOf(g, b)
  {
  }

  lemma TakeNext(taken: seq<Room>, queue: seq<Room>, next: seq<Room>)
    requires queue != []
    ensures (taken + queue)[|taken|] == queue[0]
    ensures (taken + queue) + next == (taken + [queue[0]]) + (queue[1..] + next)
  {
  }

  lemma TracksTurn(q: Request, w: Walk, v: Walk, taken: seq<Room>, at: seq<nat>) returns (more: seq<nat>)
    requires Tree(q.g, q.root) && Tracks(q, w, taken, at) && w.queue != [] && Turn(q, w) == More(v)
    ensures Tracks(q, v, taken + [w.queue[0]], more)
  {
    RootedTurn(q, w, v);
    var next := QueueAfter(q, w, v);
    TakeNext(taken, w.queue, next);
    OpenOfAppend(q.g, taken, [w.queue[0]]);
    more := PlacingNext(q.g, q.root, taken + w.queue, |taken|, at, next);
  }

  lemma {:induction false} TracksAlways(q: Request, n: nat) returns (taken: seq<Room>, at: seq<nat>)
    requires Tree(q.g, q.root)
    ensures var v := After(Turns(q), Start(q.root), n); v.More? ==> Tracks(q, v.walk, taken, at)
  {
    if n == 0 {
      TracksStart(q);
      taken, at := [], [0];
    } else {
      taken, at := TracksAlways(q, n - 1);
      var v := After(Turns(q), Start(q.root), n - 1);
      if v.More? && v.walk.queue != [] && Turn(q, v.walk).More? {
        at := TracksTurn(q, v.walk, Turn(q, v.walk).walk, taken, at);
        taken := taken + [v.walk.queue[0]];
      }
    }
  }

  // ---------------------------------------------------------------- where a first page lists its rooms

  /** A first page over a tree takes the rooms in breadth-first order, leaving none out. */
  ghost predicate FirstTracks(q: Request, w: Walk, taken: seq<Room>)
  {
    && Rooted(q, w) && w.parents == OpenOf(q.g, taken) == Elems(w.rooms)
    && taken + w.queue <= Spread(q.g, q.root, |taken|)
    && (|w.parents| <= q.maxDepth ==> taken + w.queue == Spread(q.g, q.root, |taken|))
  }

  lemma SpreadTaken(g: Graph, root: Room, taken: seq<Room>, queue: seq<Room>)
    requires queue != [] && taken + queue <= Spread(g, root, |taken|)
    ensures |taken| < |Spread(g, root, |taken|)| && Spread(g, root, |taken|)[|taken|] == queue[0]
    ensures Spread(g, root, |taken|)[..|taken|] == taken
    ensures Spread(g, root, |taken| + 1) == Spread(g, root, |taken|) + Kids(g, queue[0])
  {
    var s := Spread(g, root, |taken|);
    assert (taken + queue)[|taken|] == queue[0];
    assert s[..|taken|] == (taken + queue)[..|taken|] == taken;
  }

  /** What is taken and queued stays the beginning of the breadth-first order. */
  lemma FirstSpread(g: Graph, root: Room, taken: seq<Room>, queue: seq<Room>, next: seq<Room>, whole: bool)
    requires queue != [] && taken + queue <= Spread(g, root, |taken|) && next <= Kids(g, queue[0])
    requires next != [] || whole ==> taken + queue == Spread(g, root, |taken|)
    requires whole ==> next == Kids(g, queue[0])
    ensures (taken + [queue[0]]) + (queue[1..] + next) <= Spread(g, root, |taken| + 1)
    ensures whole ==> (taken + [queue[0]]) + (queue[1..] + next) == Spread(g, root, |taken| + 1)
  {
    SpreadTaken(g, root, taken, queue);
    FirstPrefix(Spread(g, root, |taken|), Kids(g, queue[0]), taken + queue, next);
    TakeNext(taken, queue, next);
  }

  lemma FirstTurn(q: Request, w: Walk, v: Walk, taken: seq<Room>)
    requires Tree(q.g, q.root) && q.tokens == [] && FirstTracks(q, w, taken) && w.queue != [] && Turn(q, w) == More(v)
    ensures FirstTracks(q, v, taken + [w.queue[0]])
  {
    RootedTurn(q, w, v);
    FirstLists(q, w, v);
    var next := QueueAfter(q, w, v);
    FirstStep(q, w, v, taken, next);
  }

  lemma FirstStep(q: Request, w: Walk, v: Walk, taken: seq<Room>, next: seq<Room>)
    requires FirstTracks(q, w, taken) && w.queue != [] && Rooted(q, v) && v.parents == Elems(v.rooms)
    requires v.queue == w.queue[1..] + next && next <= Kids(q.g, w.queue[0])
    requires v.parents == w.parents + OpenOf(q.g, [w.queue[0]])
    requires if |v.parents| <= q.maxDepth then next == Kids(q.g, w.queue[0]) else next == []
    ensures FirstTracks(q, v, taken + [w.queue[0]])
  {
    OpenOfAppend(q.g, taken, [w.queue[0]]);
    Fewer(w.parents, v.parents);
    FirstSpread(q.g, q.root, taken, w.queue, next, |v.parents| <= q.maxDepth);
  }

  lemma FirstPrefix<T>(b: seq<T>, kids: seq<T>, all: seq<T>, next: seq<T>)
    requires all <= b && next <= kids && (next != [] ==> all == b)
    ensures all + next <= b + kids
    ensures all == b && next == kids ==> all + next == b + kids
  {
  }

  lemma FirstLists(q: Request, w: Walk, v: Walk)
    requires q.tokens == [] && w.queue != [] && Turn(q, w) == More(v) && w.parents == Elems(w.rooms)
    ensures v.parents == Elems(v.rooms)
  {
    assert Elems(w.rooms + [w.queue[0]]) == Elems(w.rooms) + {w.queue[0]};
  }

  lemma {:induction false} FirstAlways(q: Request, n: nat) returns (taken: seq<Room>)
    requires Tree(q.g, q.root) && q.tokens == []
    ensures var v := After(Turns(q), Start(q.root), n); v.More? ==> FirstTracks(q, v.walk, taken)
  {
    if n == 0 {
      taken := [];
      assert [] + [q.root] == [q.root];
    } else {
      taken := FirstAlways(q, n - 1);
      var v := After(Turns(q), Start(q.root), n - 1);
      if v.More? && v.walk.queue != [] && Turn(q, v.walk).More? {
        FirstTurn(q, v.walk, Turn(q, v.walk).walk, taken);
        taken := taken + [v.walk.queue[0]];
      }
    }
  }

  /** The turn lists the room it takes. */
  ghost predicate ListsHead(turn: Turning, w: Walk)
  {
    !Failed(turn(w)) && w.queue != [] && Listed(turn(w)) == w.rooms + [w.queue[0]]
  }

  ghost predicate ListsOne(turn: Turning)
  {
    forall w: Walk :: !Failed(turn(w)) ==> Listed(turn(w)) == w.rooms || ListsHead(turn, w)
  }

  /** The turn that listed the `i`th room. */
  lemma {:induction false} ListedBy(turn: Turning, w0: Walk, n: nat, i: nat) returns (t: nat, w: Walk)
    requires ListsOne(turn) && w0.rooms == [] && !Failed(After(turn, w0, n)) && i < |Listed(After(turn, w0, n))|
    ensures After(turn, w0, t) == More(w) && ListsHead(turn, w)
    ensures var l := Listed(After(turn, w0, n)); w.queue[0] == l[i] && w.rooms == l[..i]
    decreases n
  {
    var v := After(turn, w0, n - 1);
    if i < |Listed(v)| {
      t, w := ListedBy(turn, w0, n - 1, i);
    } else {
      t, w := n - 1, v.walk;
    }
  }

  lemma TurnsListOne(q: Request)
    ensures ListsOne(Turns(q))
  {
  }

  lemma ListsHeadMeans(q: Request, w: Walk)
    requires ListsHead(Turns(q), w)
    ensures Open(q.g, w.queue[0]) && |w.parents| >= |q.tokens|
  {
  }

  lemma ListedAt(q: Request, n: nat, i: nat) returns (t: nat, w: Walk)
    requires var v := After(Turns(q), Start(q.root), n); !Failed(v) && i < |Listed(v)|
    ensures var l := Listed(After(Turns(q), Start(q.root), n));
      && After(Turns(q), Start(q.root), t) == More(w) && w.queue != [] && w.queue[0] == l[i] && w.rooms == l[..i]
      && Open(q.g, l[i]) && |w.parents| >= |q.tokens|
  {
    TurnsListOne(q);
    t, w := ListedBy(Turns(q), Start(q.root), n, i);
    ListsHeadMeans(q, w);
  }

  /** Where in the tree a room of a first page is found: after exactly the rooms listed before it. */
  lemma PlaceOf(q: Request, n: nat, i: nat) returns (p: nat)
    requires Tree(q.g, q.root) && q.tokens == []
    requires var v := After(Turns(q), Start(q.root), n); !Failed(v) && i < |Listed(v)|
    ensures var (s, l) := (Spread(q.g, q.root, p), Listed(After(Turns(q), Start(q.root), n)));
      p < |s| && s[p] == l[i] && OpenOf(q.g, s[..p]) == Elems(l[..i])
  {
    var t, w := ListedAt(q, n, i);
    var taken := FirstAlways(q, t);
    SpreadTaken(q.g, q.root, taken, w.queue);
    p := |taken|;
  }

  // ---------------------------------------------------------------- the page of the token

  /** Whatever a walk has visited when it comes to a room comes before that room in the tree. */
  lemma VisitedBefore(q: Request, w: Walk, taken: seq<Room>, at: seq<nat>, p: nat)
    requires Tree(q.g, q.root) && Tracks(q, w, taken, at) && w.queue != []
    requires p < |Spread(q.g, q.root, p)| && Spread(q.g, q.root, p)[p] == w.queue[0]
    ensures w.parents <= OpenOf(q.g, Spread(q.g, q.root, p)[..p])
  {
    var (r, k) := (Reach(|taken|, at), |taken|);
    assert (taken + w.queue)[k] == w.queue[0];
    assert FoundAt(Spread(q.g, q.root, r), taken + w.queue, at, k);
    SamePlace(q.g, q.root, r, at[k], p, p);
    var (s, b) := (Spread(q.g, q.root, p), Spread(q.g, q.root, r));
    SpreadGrows(q.g, q.root, r, p);
    forall x | x in w.parents ensures x in OpenOf(q.g, s[..p]) {
      var j :| 0 <= j < |taken| && taken[j] == x;
      assert (taken + w.queue)[j] == x && at[j] < at[k] == p;
      assert FoundAt(b, taken + w.queue, at, j);
      assert b[at[j]] == x && s[at[j]] == x && s[..p][at[j]] == x;
    }
  }

  lemma SamePlace(g: Graph, root: Room, m: nat, i: nat, n: nat, j: nat)
    requires Tree(g, root) && i < |Spread(g, root, m)| && j < |Spread(g, root, n)|
    requires Spread(g, root, m)[i] == Spread(g, root, n)[j]
    ensures i == j
  {
    var most := if m <= n then n else m;
    SpreadGrows(g, root, m, most);
    SpreadGrows(g, root, n, most);
    SpreadNoRepeats(g, root, most);
    var s := Spread(g, root, most);
    assert s[i] == s[j];
  }

  /** A room that comes after too few rooms is not listed by a walk with a longer token. */
  lemma NotListed(q: Request, n: nat, p: nat)
    requires Tree(q.g, q.root) && p < |Spread(q.g, q.root, p)|
    requires |OpenOf(q.g, Spread(q.g, q.root, p)[..p])| < |q.tokens|
    ensures Spread(q.g, q.root, p)[p] !in Listed(After(Turns(q), Start(q.root), n))
  {
    var (v, y) := (After(Turns(q), Start(q.root), n), Spread(q.g, q.root, p)[p]);
    if y in Listed(v) {
      var i :| 0 <= i < |Listed(v)| && Listed(v)[i] == y;
      var t, w := ListedAt(q, n, i);
      var taken, at := TracksAlways(q, t);
      VisitedBefore(q, w, taken, at, p);
      Fewer(w.parents, OpenOf(q.g, Spread(q.g, q.root, p)[..p]));
    }
  }

  /** The room that a longer first page would list next is not on the page that the token of the first
      page leads to, whatever that page's limit: the token counts it as visited. */
  lemma TokenSkipsNext(q: Request, limit: nat, m: nat, r: Outcome, n: nat, s: Outcome, order: seq<Room>,
                       tokens: seq<nat>, k: nat, width: nat)
    requires Tree(q.g, q.root) && q.tokens == [] && 1 <= q.limit <= limit
    requires EndsWith(Turns(q), Start(q.root), m, r) && r.Page?
    requires EndsWith(Turns(q.(limit := limit)), Start(q.root), n, s) && s.Page? && |s.rooms| > |r.rooms|
    requires TokenFor(q, Elems(r.rooms), r.queue, order, tokens)
    requires forall x :: x in Elems(r.rooms) + {r.queue[0]} ==> x in q.shorts
    ensures s.rooms[|r.rooms|]
      !in Listed(After(Turns(q.(limit := width, tokens := tokens)), Start(q.root), k))
  {
    LimitTruncates(q, limit, m, r, n, s);
    var (p, next) := (q.(limit := limit), q.(limit := width, tokens := tokens));
    var place := PlaceOf(p, n, |r.rooms|);
    assert s.rooms[..|r.rooms|] == r.rooms;
    TokenLength(q, Elems(r.rooms), r.queue, order, tokens);
    QueueNotListed(q, m, r);
    NotListed(next, k, place);
  }

  /** How a turn ends in a page. */
  lemma PageLeads(q: Request, w: Walk, r: Outcome)
    requires w.queue != [] && Turn(q, w) == Answer(r) && r.Page?
    ensures r.queue == w.queue[1..] && (r.rooms == w.rooms || r.rooms == w.rooms + [w.queue[0]])
  {
  }

  lemma HeadNotListed(rooms: seq<Room>, queue: seq<Room>, page: seq<Room>)
    requires NoRepeats(rooms + queue) && |queue| > 1 && (page == rooms || page == rooms + [queue[0]])
    ensures |Elems(page) + {queue[1]}| == |Elems(page)| + 1
  {
    NoRepeatsPart(rooms, queue);
    assert queue[1] in queue && queue[0] != queue[1];
    assert queue[1] !in Elems(page);
  }

  /** What is left in the queue of a page over a tree is not on the page. */
  lemma QueueNotListed(q: Request, m: nat, r: Outcome)
    requires Tree(q.g, q.root) && EndsWith(Turns(q), Start(q.root), m, r) && r.Page? && r.queue != []
    ensures |Elems(r.rooms) + {r.queue[0]}| == |Elems(r.rooms)| + 1
  {
    var t, w := LastTurn(Turns(q), Start(q.root), m);
    BranchingAlways(q, t);
    PageLeads(q, w, r);
    HeadNotListed(w.rooms, w.queue, r.rooms);
  }

  /** Every state that a walk comes through is valid. */
  lemma {:induction false} ValidAlways(q: Request, n: nat)
    ensures var v := After(Turns(q), Start(q.root), n);
      v.More? ==> Spaces.Valid(q, v.walk)
  {
    if n == 0 {
      ReachableRoot(q.g, q.root);
    } else {
      ValidAlways(q, n - 1);
      var v := After(Turns(q), Start(q.root), n - 1);
      if v.More? && v.walk.queue != [] { TurnKeeps(q, v.walk); }
    }
  }

  /** Every answer means what it should. */
  lemma AnswersAlways(q: Request, n: nat, r: Outcome)
    requires EndsWith(Turns(q), Start(q.root), n, r)
    ensures Answers(q, r)
  {
    ValidAlways(q, n);
    var v := After(Turns(q), Start(q.root), n);
    if v.More? {
      EndAnswers(q, v.walk);
    } else {
      var t, w := LastTurn(Turns(q), Start(q.root), n);
      ValidAlways(q, t);
      if w.queue != [] { TurnKeeps(q, w); }
    }
  }

  /** A walk lists nothing when its token has more entries than there are rooms to visit. */
  lemma NothingListed(q: Request, rooms: seq<Room>, n: nat)
    requires Exhaustive(q.g, q.root, rooms) && |Elems(rooms)| < |q.tokens|
    ensures Listed(After(Turns(q), Start(q.root), n)) == []
  {
    var v := After(Turns(q), Start(q.root), n);
    if Listed(v) != [] {
      var t, w := ListedAt(q, n, 0);
      ValidAlways(q, t);
      forall x | x in w.parents ensures x in Elems(rooms) { assert Reachable(q.g, q.root, x); }
      Fewer(w.parents, Elems(rooms));
    }
  }

  /** On a tree whose rooms have short identifiers, the page that the token of a first page leads to
      continues that page if and only if nothing was left to list. */
  lemma ContinuesExactly(q: Request, limit: nat, m: nat, r: Outcome, n: nat, s: Outcome, order: seq<Room>,
                         tokens: seq<nat>, k: nat, u: Outcome)
    requires Tree(q.g, q.root) && q.tokens == [] && 1 <= q.limit <= limit
    requires EndsWith(Turns(q), Start(q.root), m, r) && r.Page?
    requires EndsWith(Turns(q.(limit := limit)), Start(q.root), n, s) && s.Page?
    requires |s.rooms| < limit && |Elems(s.rooms)| <= q.maxDepth
    requires TokenFor(q, Elems(r.rooms), r.queue, order, tokens)
    requires forall x :: x in Elems(r.rooms) + {r.queue[0]} ==> x in q.shorts
    requires EndsWith(Turns(q.(tokens := tokens)), Start(q.root), k, u) && u.Page?
    ensures r.rooms + u.rooms == s.rooms <==> s.rooms == r.rooms
  {
    LimitTruncates(q, limit, m, r, n, s);
    var next := q.(tokens := tokens);
    if s.rooms == r.rooms {
      AnswersAlways(q.(limit := limit), n, s);
      TokenLength(q, Elems(r.rooms), r.queue, order, tokens);
      QueueNotListed(q, m, r);
      NothingListed(next, s.rooms, k);
      assert r.rooms + [] == r.rooms;
    } else {
      TokenSkipsNext(q, limit, m, r, n, s, order, tokens, k, q.limit);
      Missing(r.rooms, u.rooms, s.rooms);
    }
  }

  lemma Missing<T>(a: seq<T>, b: seq<T>, c: seq<T>)
    requires |c| > |a| && c[|a|] !in b
    ensures a + b != c
  {
    if b != [] { assert (a + b)[|a|] == b[0] && b[0] in b; }
  }

  // ---------------------------------------------------------------- tokens that lead nowhere

  lemma SkipAll(rooms: seq<Room>, shorts: map<Room, nat>, token: nat)
    requires forall x :: x in rooms ==> x in shorts && shorts[x] != token
    ensures SkipTo(rooms, 0, shorts, token) == |rooms|
  {
    assert forall i :: 0 <= i < |rooms| ==> rooms[i] in rooms;
  }

  /** A token that begins with the root, as it does when the root's identifier is the least, is answered
      with an error: no child of the root matches it. */
  lemma RootTokenFails(q: Request)
    requires q.tokens != [] && Open(q.g, q.root)
    requires forall x :: x in q.g[q.root].children ==> x in q.shorts && q.shorts[x] != q.tokens[0]
    ensures EndsWith(Turns(q), Start(q.root), 1, TokenNotFound)
  {
    var children := q.g[q.root].children;
    NotInAll(children, {});
    SkipAll(children, q.shorts, q.tokens[0]);
    assert children[|children|..] == [] && Reversed([]) == [];
    assert After(Turns(q), Start(q.root), 0) == More(Start(q.root));
    assert Next(children, {}, q.shorts, q.tokens) == [];
  }

  /** A room with two children, all with short identifiers. */
  function Star(r: Room, x: Room, y: Room, limit: nat): Request
  {
    Request(map[r := Accessible([x, y]), x := Accessible([]), y := Accessible([])], map[r := 1, x := 2, y := 3],
            r, limit, 10, [])
  }

  lemma StarFirst(r: Room, x: Room, y: Room)
    requires r != x && x != y && r != y
    ensures Turns(Star(r, x, y, 2))(Walk([r] + [], [], {})) == More(Walk([y, x], [r], {r}))
  {
    VisitPair(Star(r, x, y, 2), r, x, y, [], [], {});
    assert [] + [y, x] == [y, x] && [] + [r] == [r] && {} + {r} == {r};
  }

  lemma StarSecond(r: Room, x: Room, y: Room)
    requires r != x && x != y && r != y
    ensures Turns(Star(r, x, y, 2))(Walk([y, x], [r], {r})) == Answer(Page([r, y], [x]))
  {
    assert [r] + [y] == [r, y] && [y, x][1..] == [x];
  }

  lemma TwoTurns(turn: Turning, w: Walk, v: Walk, r: Outcome)
    requires turn(w) == More(v) && turn(v) == Answer(r)
    ensures EndsWith(turn, w, 2, r)
  {
    assert After(turn, w, 1) == More(v);
  }

  lemma StarPage(r: Room, x: Room, y: Room)
    requires r != x && x != y && r != y
    ensures EndsWith(Turns(Star(r, x, y, 2)), Start(r), 2, Page([r, y], [x]))
  {
    StarFirst(r, x, y);
    StarSecond(r, x, y);
    assert [r] + [] == [r];
    TwoTurns(Turns(Star(r, x, y, 2)), Start(r), Walk([y, x], [r], {r}), Page([r, y], [x]));
  }

  lemma StarRefused(r: Room, x: Room, y: Room)
    requires r != x && x != y && r != y
    ensures EndsWith(Turns(Star(r, x, y, 2).(tokens := [1, 2, 3])), Start(r), 1, TokenNotFound)
  {
    RootTokenFails(Star(r, x, y, 2).(tokens := [1, 2, 3]));
  }

  lemma ShortsCons(room: Room, rest: seq<Room>, shorts: map<Room, nat>)
    requires room in shorts
    ensures ShortsOf([room] + rest, shorts) == [shorts[room]] + ShortsOf(rest, shorts)
  {
    assert ([room] + rest)[1..] == rest;
  }

  lemma StarToken(r: Room, x: Room, y: Room)
    requires IdLess(r.id, x.id) && IdLess(x.id, y.id) && IdLess(r.id, y.id) && r != x && x != y && r != y
    ensures TokenFor(Star(r, x, y, 2), Elems([r, y]), [x], [r, x, y], [1, 2, 3])
  {
    var shorts := map[r := 1, x := 2, y := 3];
    ShortsCons(r, [x] + ([y] + []), shorts);
    ShortsCons(x, [y] + [], shorts);
    ShortsCons(y, [], shorts);
    assert [r] + ([x] + ([y] + [])) == [r, x, y] && [1] + ([2] + ([3] + [])) == [1, 2, 3];
    assert Elems([r, x, y]) == Elems([r, y]) + {x};
  }

  /** The first page of a star with a limit of two leaves one room, and its token is refused. */
  lemma StarTokenFails(r: Room, x: Room, y: Room)
    requires IdLess(r.id, x.id) && IdLess(x.id, y.id) && IdLess(r.id, y.id)
    ensures EndsWith(Turns(Star(r, x, y, 2)), Start(r), 2, Page([r, y], [x]))
    ensures TokenFor(Star(r, x, y, 2), Elems([r, y]), [x], [r, x, y], [1, 2, 3])
    ensures EndsWith(Turns(Star(r, x, y, 2).(tokens := [1, 2, 3])), Start(r), 1, TokenNotFound)
  {
    IdLessIrreflexive(r.id);
    IdLessIrreflexive(x.id);
    StarPage(r, x, y);
    StarToken(r, x, y);
    StarRefused(r, x, y);
  }

  // ---------------------------------------------------------------- pages without a token

  lemma {:induction false} QueuedAnyLimit(q: Request, limit: nat, i: nat)
    ensures Queued(q.(limit := limit), i) == Queued(q, i)
  {
    if i > 0 { QueuedAnyLimit(q, limit, i - 1); }
  }

  /** When a cut page leaves nothing in the queue, everything queued is on it. */
  lemma CutQueued(q: Request, m: nat, r: Outcome)
    requires q.tokens == [] && EndsWith(Turns(q), Start(q.root), m, r) && r.Page?
    requires r.queue == [] && |r.rooms| >= q.limit >= 1
    ensures r.rooms != [] && Queued(q, |r.rooms| - 1) == r.rooms
  {
    RootOpen(q, m);
    OnTrackAlways(q, m);
    var v := After(Turns(q), Start(q.root), m);
    if v.Answer? {
      var t, w := LastTurn(Turns(q), Start(q.root), m);
      OnTrackAlways(q, t);
      PageCut(q, w, r);
      CutRest(q, w, r);
    }
  }

  lemma CutRest(q: Request, w: Walk, r: Outcome)
    requires q.tokens == [] && OnTrack(q, w) && Turns(q)(w) == Answer(r) && r.Page? && r.queue == []
    ensures Queued(q, |w.rooms|) == r.rooms
  {
    assert w.queue == [w.queue[0]] + w.queue[1..];
    OnTrackSplit(q, w, w.queue[0], w.queue[1..]);
    assert r.rooms == w.rooms + [w.queue[0]] && r.rooms + [] == r.rooms;
  }

  /** A first page that its limit cut with nothing left in the queue has no token. It is complete if and
      only if the last room listed would have added nothing to the queue. */
  lemma SilentExactly(q: Request, limit: nat, m: nat, r: Outcome, n: nat, s: Outcome)
    requires q.tokens == [] && 1 <= q.limit < limit
    requires EndsWith(Turns(q), Start(q.root), m, r) && r.Page? && r.queue == [] && |r.rooms| >= q.limit
    requires EndsWith(Turns(q.(limit := limit)), Start(q.root), n, s) && s.Page?
    ensures r.rooms != [] && (s.rooms == r.rooms <==> Fresh(q, r.rooms, |r.rooms| - 1) == [])
  {
    LimitTruncates(q, limit, m, r, n, s);
    CutQueued(q, m, r);
    var d := PageQueued(q, m, r);
    var e := PageQueued(q.(limit := limit), n, s);
    QueuedAnyLimit(q, limit, e);
    SilentCount(q, |r.rooms| - 1, r.rooms, e, s.rooms, limit);
  }

  lemma SilentCount(q: Request, i: nat, rooms: seq<Room>, e: nat, page: seq<Room>, limit: nat)
    requires |rooms| == i + 1 < limit && Queued(q, i) == rooms && PageEnds(page, Queued(q, e), e, limit)
    requires |page| >= |rooms| && page[..|rooms|] == rooms
    ensures page == rooms <==> Fresh(q, rooms, i) == []
  {
    assert Queued(q, i + 1) == rooms + Fresh(q, rooms, i);
    if e <= i + 1 { QueuedGrows(q, e, i + 1); } else { QueuedGrows(q, i + 1, e); }
    if Fresh(q, rooms, i) == [] {
      assert rooms + [] == rooms;
    }
  }

  /** With a limit of one the root is listed, its children are not, and there is no token. */
  lemma StarSilent(r: Room, x: Room, y: Room)
    ensures EndsWith(Turns(Star(r, x, y, 1)), Start(r), 1, Page([r], []))
  {
    var q := Star(r, x, y, 1);
    assert After(Turns(q), Start(r), 0) == More(Start(r));
    assert [r][1..] == [] && [] + [r] == [r];
  }
}
