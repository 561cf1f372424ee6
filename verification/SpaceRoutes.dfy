/** Where a request with a token leads: the rooms that the walk comes by, and which of them it lists. */
module SpaceRoutes {
  import opened Collections
  import opened Spaces
  import opened SpaceOrder
  import opened SpaceRepeats
  import opened SpaceTokens

  // ---------------------------------------------------------------- the route of a request

  /** What the `i`th of the rooms `s` offers to the queue: its children that were not visited before
      it, last one first. As long as fewer rooms were visited than the token has entries, those in front
      of the one that the token names are left out. */
  ghost function Offers(q: Request, s: seq<Room>, i: nat): seq<Room>
    requires i < |s|
  {
    if !Open(q.g, s[i]) then [] else
      var seen := OpenOf(q.g, s[..i]);
      var unseen := NotIn(q.g[s[i]].children, seen);
      Reversed(if |seen| < |q.tokens| then unseen[SkipTo(unseen, 0, q.shorts, q.tokens[|seen|])..] else unseen)
  }

  /** The rooms with what the `i`th adds to them, unless too many were visited. */
  ghost function Longer(q: Request, s: seq<Room>, i: nat): seq<Room>
  {
    if i < |s| && |OpenOf(q.g, s[..i + 1])| <= q.maxDepth then s + Offers(q, s, i) else s
  }

  /** All rooms ever queued when `i` rooms have been taken. */
  ghost function Route(q: Request, i: nat): seq<Room>
  {
    if i == 0 then [q.root] else Longer(q, Route(q, i - 1), i - 1)
  }

  /** Which of the first `n` rooms are listed: the open ones before which as many different open ones come
      as the token has entries, or more. */
  ghost function Shown(q: Request, s: seq<Room>, n: nat): seq<Room>
    requires n <= |s|
  {
    if n == 0 then [] else
      Shown(q, s, n - 1) + if Open(q.g, s[n - 1]) && |OpenOf(q.g, s[..n - 1])| >= |q.tokens| then [s[n - 1]] else []
  }

  lemma {:induction false} RouteGrows(q: Request, i: nat, k: nat)
    requires i <= k
    ensures Route(q, i) <= Route(q, k)
    ensures |Route(q, i)| <= i ==> Route(q, k) == Route(q, i)
    decreases k
  {
    if i < k { RouteGrows(q, i, k - 1); }
  }

  lemma {:induction false} ShownSame(q: Request, s: seq<Room>, t: seq<Room>, n: nat)
    requires n <= |s| && s <= t
    ensures Shown(q, t, n) == Shown(q, s, n)
  {
    if n > 0 {
      ShownSame(q, s, t, n - 1);
      assert t[..n - 1] == s[..n - 1];
    }
  }

  // ---------------------------------------------------------------- the walk follows the route

  /** The walk when `n` rooms of its route have been taken. */
  ghost function StateAt(q: Request, n: nat): Walk
    requires n <= |Route(q, n)|
  {
    var s := Route(q, n);
    Walk(s[n..], Shown(q, s, n), OpenOf(q.g, s[..n]))
  }

  lemma OpenOfNext(g: Graph, s: seq<Room>, n: nat)
    requires n < |s|
    ensures OpenOf(g, s[..n + 1]) == OpenOf(g, s[..n]) + if Open(g, s[n]) then {s[n]} else {}
  {
    assert s[..n + 1] == s[..n] + [s[n]];
  }

  lemma OffersIsNext(q: Request, s: seq<Room>, n: nat)
    requires n < |s| && Open(q.g, s[n])
    ensures Offers(q, s, n) == Next(q.g[s[n]].children, OpenOf(q.g, s[..n]), q.shorts, q.tokens)
  {
  }

  /** The route goes on from its `n`th room. */
  lemma RouteNext(q: Request, n: nat, s: seq<Room>, t: seq<Room>)
    requires s == Route(q, n) && n < |s| && t == Route(q, n + 1)
    ensures s <= t && n + 1 <= |t|
    ensures t[n + 1..] == s[n + 1..] + if |OpenOf(q.g, s[..n + 1])| <= q.maxDepth then Offers(q, s, n) else []
    ensures t[..n + 1] == s[..n + 1]
  {
    assert s[n + 1..] + [] == s[n + 1..];
  }

  /** A turn that goes on takes the next room of the route. */
  lemma StepAt(q: Request, n: nat)
    requires n < |Route(q, n)| && Turn(q, StateAt(q, n)).More?
    ensures n + 1 <= |Route(q, n + 1)| && Turn(q, StateAt(q, n)) == More(StateAt(q, n + 1))
  {
    var (s, t) := (Route(q, n), Route(q, n + 1));
    RouteNext(q, n, s, t);
    ShownSame(q, s, t, n + 1);
    OpenOfNext(q.g, s, n);
    StepLeads(q, n, s, StateAt(q, n));
  }

  lemma StepLeads(q: Request, n: nat, s: seq<Room>, w: Walk)
    requires n < |s| && w == Walk(s[n..], Shown(q, s, n), OpenOf(q.g, s[..n])) && Turn(q, w).More?
    requires OpenOf(q.g, s[..n + 1]) == OpenOf(q.g, s[..n]) + if Open(q.g, s[n]) then {s[n]} else {}
    ensures Turn(q, w).walk
         == Walk(s[n + 1..] + (if |OpenOf(q.g, s[..n + 1])| <= q.maxDepth then Offers(q, s, n) else []),
                 Shown(q, s, n + 1), OpenOf(q.g, s[..n + 1]))
  {
    assert w.queue[0] == s[n] && w.queue[1..] == s[n + 1..];
    if Open(q.g, s[n]) {
      OffersIsNext(q, s, n);
      OpenLeads(q, w, s[n], s[n + 1..]);
    } else {
      ClosedLeads(q, w, s[n], s[n + 1..]);
    }
  }

  lemma OpenLeads(q: Request, w: Walk, room: Room, rest: seq<Room>)
    requires w.queue != [] && w.queue[0] == room && w.queue[1..] == rest && Open(q.g, room) && Turn(q, w).More?
    ensures var next := Next(q.g[room].children, w.parents, q.shorts, q.tokens);
      Turn(q, w).walk == Walk(rest + (if |w.parents + {room}| <= q.maxDepth then next else []),
                              w.rooms + (if |w.parents| >= |q.tokens| then [room] else []), w.parents + {room})
  {
    assert rest + [] == rest && w.rooms + [] == w.rooms;
  }

  lemma ClosedLeads(q: Request, w: Walk, room: Room, rest: seq<Room>)
    requires w.queue != [] && w.queue[0] == room && w.queue[1..] == rest && !Open(q.g, room) && Turn(q, w).More?
    ensures Turn(q, w).walk == Walk(rest + [], w.rooms + [], w.parents + {})
  {
  }

  /** The `n`th room is the last of the route, is open, comes after too few open ones and offers nothing. */
  ghost predicate Refused(q: Request, n: nat)
  {
    var s := Route(q, n);
    n + 1 == |s| && Open(q.g, s[n]) && |OpenOf(q.g, s[..n])| < |q.tokens| && Offers(q, s, n) == []
  }

  lemma RefusedAt(q: Request, n: nat)
    requires Refused(q, n)
    ensures Turn(q, StateAt(q, n)) == Answer(TokenNotFound)
  {
    var (s, w) := (Route(q, n), StateAt(q, n));
    assert w.queue == [s[n]];
    OffersIsNext(q, s, n);
  }

  ghost predicate NoneRefused(q: Request, e: nat)
  {
    forall d :: 0 <= d < e ==> !Refused(q, d)
  }

  lemma StateStart(q: Request)
    ensures |Route(q, 0)| == 1 && StateAt(q, 0) == Start(q.root)
  {
    assert Route(q, 0) == [q.root] && [q.root][0..] == [q.root] && [q.root][..0] == [];
    assert OpenOf(q.g, []) == {};
  }

  lemma NotRefusedAt(q: Request, e: nat)
    requires e < |Route(q, e)| && Turn(q, StateAt(q, e)).More? && NoneRefused(q, e)
    ensures NoneRefused(q, e + 1)
  {
    if Refused(q, e) { RefusedAt(q, e); }
  }

  /** Every state of the walk is one of its route. */
  lemma {:induction false} OnRoute(q: Request, n: nat) returns (e: nat)
    requires After(Turns(q), Start(q.root), n).More?
    ensures e <= |Route(q, e)| && After(Turns(q), Start(q.root), n) == More(StateAt(q, e)) && NoneRefused(q, e)
    decreases n
  {
    if n == 0 {
      e := 0;
      StateStart(q);
    } else {
      e := OnRoute(q, n - 1);
      if StateAt(q, e).queue != [] {
        NotRefusedAt(q, e);
        StepAt(q, e);
        e := e + 1;
      }
    }
  }

  /** How a request ends on its route: with the whole of it, or where the limit is met, or refused. */
  ghost predicate EndsAt(q: Request, e: nat, r: Outcome)
  {
    var s := Route(q, e);
    && e <= |s| && (Shown(q, s, e) == [] || |Shown(q, s, e)| < q.limit) && NoneRefused(q, e)
    && match r
       case Page(rooms, queue) =>
         || (e == |s| && rooms == Shown(q, s, e) && queue == [])
         || (e < |s| && Open(q.g, s[e]) && rooms == Shown(q, s, e + 1) && |rooms| >= q.limit && queue == s[e + 1..])
       case TokenNotFound => Refused(q, e)
       case NotFound => q.root !in q.g
       case Forbidden => q.root in q.g && !Open(q.g, q.root)
  }

  lemma AnswerAt(q: Request, e: nat, r: Outcome)
    requires e < |Route(q, e)| && Turn(q, StateAt(q, e)) == Answer(r)
    requires StateAt(q, e).rooms == [] || |StateAt(q, e).rooms| < q.limit
    requires NoneRefused(q, e)
    ensures EndsAt(q, e, r)
  {
    var (s, w) := (Route(q, e), StateAt(q, e));
    assert w.queue[0] == s[e] && w.queue[1..] == s[e + 1..];
    assert w.rooms + [] == w.rooms;
    if Open(q.g, s[e]) { OffersIsNext(q, s, e); }
  }

  /** What every request is answered with, in terms of its route. */
  lemma RouteEnds(q: Request, n: nat, r: Outcome) returns (e: nat)
    requires EndsWith(Turns(q), Start(q.root), n, r)
    ensures EndsAt(q, e, r)
  {
    var v := After(Turns(q), Start(q.root), n);
    if v.More? {
      ValidAlways(q, n);
      e := OnRoute(q, n);
    } else {
      var t, w := LastTurn(Turns(q), Start(q.root), n);
      ValidAlways(q, t);
      e := OnRoute(q, t);
      AnswerAt(q, e, r);
    }
  }

  // ---------------------------------------------------------------- the page that a token leads to

  /** No room that is listed as a child has a short identifier, as when the server is in none of them. */
  ghost predicate NoShorts(q: Request)
  {
    forall p, x :: Edge(q.g, p, x) ==> x !in q.shorts
  }

  /** `c` of the rooms come before `k` different ones have been listed. */
  ghost predicate CaughtUp(rooms: seq<Room>, k: nat, c: nat)
  {
    && c <= |rooms| && (forall i :: 0 <= i < c ==> |Elems(rooms[..i])| < k)
    && (c < |rooms| ==> |Elems(rooms[..c])| >= k)
  }

  lemma OffersAnyToken(q: Request, p: Request, s: seq<Room>, i: nat)
    requires NoShorts(q) && p.g == q.g && p.shorts == q.shorts && q.tokens == [] && i < |s|
    ensures Offers(p, s, i) == Offers(q, s, i)
  {
    if Open(q.g, s[i]) {
      var seen := OpenOf(q.g, s[..i]);
      var unseen := NotIn(q.g[s[i]].children, seen);
      if unseen != [] { assert unseen[0] in unseen && Edge(q.g, s[i], unseen[0]); }
      assert unseen[0..] == unseen;
    }
  }

  type Growing = (seq<Room>, nat) -> seq<Room>

  /** A list that grows from the root, step by step. */
  ghost function Grow(step: Growing, root: Room, i: nat): seq<Room>
  {
    if i == 0 then [root] else step(Grow(step, root, i - 1), i - 1)
  }

  lemma {:induction false} RouteGrown(q: Request, step: Growing, i: nat)
    requires forall s, k :: step(s, k) == Longer(q, s, k)
    ensures Route(q, i) == Grow(step, q.root, i)
  {
    if i > 0 { RouteGrown(q, step, i - 1); }
  }

  lemma LongerAnyToken(q: Request, p: Request, s: seq<Room>, i: nat)
    requires NoShorts(q) && q.tokens == [] && p.g == q.g && p.shorts == q.shorts && p.maxDepth == q.maxDepth
    ensures Longer(p, s, i) == Longer(q, s, i)
  {
    if i < |s| { OffersAnyToken(q, p, s, i); }
  }

  /** Then a token changes nothing about the route. */
  lemma RouteAnyToken(q: Request, p: Request, i: nat)
    requires NoShorts(q) && q.tokens == [] && p == q.(tokens := p.tokens, limit := p.limit)
    ensures Route(p, i) == Route(q, i)
  {
    var step := (s: seq<Room>, k: nat) => Longer(q, s, k);
    forall s: seq<Room>, k: nat ensures step(s, k) == Longer(p, s, k) { LongerAnyToken(q, p, s, k); }
    RouteGrown(q, step, i);
    RouteGrown(p, step, i);
  }

  /** Without a token the open rooms of the route are listed. */
  lemma {:induction false} ShownAll(q: Request, s: seq<Room>, n: nat)
    requires q.tokens == [] && n <= |s|
    ensures Elems(Shown(q, s, n)) == OpenOf(q.g, s[..n])
  {
    if n > 0 {
      ShownAll(q, s, n - 1);
      OpenOfNext(q.g, s, n - 1);
    } else {
      assert s[..0] == [];
    }
  }

  lemma {:induction false} ShownGrows(q: Request, s: seq<Room>, m: nat, n: nat)
    requires m <= n <= |s|
    ensures Shown(q, s, m) <= Shown(q, s, n)
    decreases n
  {
    if m < n { ShownGrows(q, s, m, n - 1); }
  }

  /** With a token, those are listed that come after enough of them. */
  lemma {:induction false} ShownTail(q: Request, p: Request, s: seq<Room>, n: nat, c: nat)
    requires q.tokens == [] && p.g == q.g && n <= |s| && CaughtUp(Shown(q, s, n), |p.tokens|, c)
    ensures Shown(p, s, n) == Shown(q, s, n)[c..]
  {
    if n > 0 {
      var l := Shown(q, s, n - 1);
      ShownAll(q, s, n - 1);
      if !Open(q.g, s[n - 1]) {
        assert l + [] == l && Shown(p, s, n - 1) + [] == Shown(p, s, n - 1);
        ShownTail(q, p, s, n - 1, c);
      } else {
        var d := if c <= |l| then c else |l|;
        CaughtUpFront(l, s[n - 1], |p.tokens|, c, d);
        ShownTail(q, p, s, n - 1, d);
        TailNext(l, s[n - 1], c, d, |p.tokens|);
      }
    }
  }

  lemma CaughtUpFront(l: seq<Room>, room: Room, k: nat, c: nat, d: nat)
    requires CaughtUp(l + [room], k, c) && d == if c <= |l| then c else |l|
    ensures CaughtUp(l, k, d)
  {
    var m := l + [room];
    assert forall i :: 0 <= i <= |l| ==> m[..i] == l[..i];
  }

  lemma TailNext(l: seq<Room>, room: Room, c: nat, d: nat, k: nat)
    requires CaughtUp(l + [room], k, c) && d == if c <= |l| then c else |l|
    ensures (l + [room])[c..] == l[d..] + if |Elems(l)| >= k then [room] else []
  {
    var m := l + [room];
    assert m[..|l|] == l;
    assert c <= |l| ==> |Elems(m[..c])| >= k && m[..c] == l[..c];
    if c <= |l| {
      Fewer(Elems(l[..c]), Elems(l));
      assert m[c..] == l[c..] + [room];
    } else {
      assert m[c..] == [] && l[d..] == [];
    }
  }

  /** All of the route that a part of it belongs to. */
  lemma PartOfRoute(q: Request, f: nat, e: nat)
    requires e == |Route(q, e)| && f <= |Route(q, f)|
    ensures f <= e && Route(q, f) <= Route(q, e) && (f == |Route(q, f)| ==> f == e)
  {
    if f <= e { RouteGrows(q, f, e); } else { RouteGrows(q, e, f); }
  }

  lemma WholeRoute(q: Request, n: nat, s: Outcome) returns (e: nat)
    requires q.tokens == [] && EndsWith(Turns(q), Start(q.root), n, s) && s.Page? && |s.rooms| < q.limit
    ensures e == |Route(q, e)| && s.rooms == Shown(q, Route(q, e), e)
  {
    e := RouteEnds(q, n, s);
  }

  /** A page with a token lists the rooms of the whole first page that come after enough of them. */
  lemma PageOfRoute(q: Request, p: Request, s: seq<Room>, part: seq<Room>, f: nat, rooms: seq<Room>, c: nat)
    requires q.tokens == [] && p.g == q.g && p.limit >= 1 && part <= s && f <= |part|
    requires Shown(p, part, f) == [] || |Shown(p, part, f)| < p.limit
    requires || (f == |part| == |s| && rooms == Shown(p, part, f))
             || (f < |part| && rooms == Shown(p, part, f + 1) && |rooms| >= p.limit)
    requires CaughtUp(Shown(q, s, |s|), |p.tokens|, c)
    ensures rooms == First(p.limit, Shown(q, s, |s|)[c..])
  {
    ShownTail(q, p, s, |s|, c);
    ShownSame(p, part, s, f);
    if f < |part| {
      ShownSame(p, part, s, f + 1);
      ShownGrows(p, s, f + 1, |s|);
    }
  }

  /** A refused token has an entry for every open room, but perhaps the last. */
  lemma RefusedBehind(q: Request, s: seq<Room>, n: nat, k: nat, c: nat)
    requires q.tokens == [] && |s| == n + 1 && Open(q.g, s[n]) && |OpenOf(q.g, s[..n])| < k
    requires CaughtUp(Shown(q, s, n + 1), k, c)
    ensures c == |Shown(q, s, n + 1)|
  {
    var l := Shown(q, s, n + 1);
    ShownAll(q, s, n);
    assert l[..|l| - 1] == Shown(q, s, n);
    if c < |l| { Fewer(Elems(l[..c]), Elems(Shown(q, s, n))); }
  }

  /** The route of a refused token ends there. */
  lemma RefusedRoute(q: Request, p: Request, e: nat, f: nat)
    requires NoShorts(q) && q.tokens == [] && p == q.(tokens := p.tokens, limit := p.limit)
    requires e == |Route(q, e)| && Refused(p, f)
    ensures e == f + 1 && Route(p, f) == Route(q, e)
  {
    RouteAnyToken(q, p, f);
    OffersAnyToken(q, p, Route(q, f), f);
    LongerByNothing(q, Route(q, f), f);
    RouteStep(q, f);
    PartOfRoute(q, f + 1, e);
  }

  lemma RouteStep(q: Request, i: nat)
    ensures Route(q, i + 1) == Longer(q, Route(q, i), i)
  {
  }

  lemma LongerByNothing(q: Request, s: seq<Room>, i: nat)
    requires i < |s| && Offers(q, s, i) == []
    ensures Longer(q, s, i) == s
  {
    assert s + [] == s;
  }

  lemma ListedOfRoute(q: Request, p: Request, e: nat, f: nat, u: Outcome, c: nat)
    requires NoShorts(q) && q.tokens == [] && p == q.(tokens := p.tokens, limit := p.limit) && p.limit >= 1
    requires e == |Route(q, e)| && EndsAt(p, f, u) && u.Page? && CaughtUp(Shown(q, Route(q, e), e), |p.tokens|, c)
    ensures u.rooms == First(p.limit, Shown(q, Route(q, e), e)[c..])
  {
    RouteAnyToken(q, p, f);
    PartOfRoute(q, f, e);
    var (s, part) := (Route(q, e), Route(q, f));
    PageOfRoute(q, p, s, part, f, u.rooms, c);
  }

  lemma BehindOnRoute(q: Request, p: Request, e: nat, f: nat, c: nat)
    requires NoShorts(q) && q.tokens == [] && p == q.(tokens := p.tokens, limit := p.limit)
    requires e == |Route(q, e)| && Refused(p, f) && CaughtUp(Shown(q, Route(q, e), e), |p.tokens|, c)
    ensures c == |Shown(q, Route(q, e), e)|
  {
    RefusedRoute(q, p, e, f);
    var s := Route(p, f);
    RefusedBehind(q, s, f, |p.tokens|, c);
  }

  /** The page that a token leads to when no child has a short identifier. Of the rooms of the whole first
      page it lists those that come after as many different ones as the token has entries, up to its limit;
      when there are none, it lists nothing or is refused. */
  lemma TokenPage(q: Request, n: nat, s: Outcome, tokens: seq<nat>, width: nat, k: nat, u: Outcome, c: nat)
    requires NoShorts(q) && q.tokens == [] && EndsWith(Turns(q), Start(q.root), n, s) && s.Page? && |s.rooms| < q.limit
    requires EndsWith(Turns(q.(tokens := tokens, limit := width)), Start(q.root), k, u) && width >= 1
    requires CaughtUp(s.rooms, |tokens|, c)
    ensures u.Page? || u == TokenNotFound
    ensures u.Page? ==> u.rooms == First(width, s.rooms[c..])
    ensures u == TokenNotFound ==> c == |s.rooms|
  {
    var p := q.(tokens := tokens, limit := width);
    var e := WholeRoute(q, n, s);
    var f := RouteEnds(p, k, u);
    PageRootOpen(q, n, s);
    if u.Page? {
      ListedOfRoute(q, p, e, f, u, c);
    } else if u == TokenNotFound {
      BehindOnRoute(q, p, e, f, c);
    }
  }

  lemma PageRootOpen(q: Request, n: nat, s: Outcome)
    requires EndsWith(Turns(q), Start(q.root), n, s) && s.Page?
    ensures Open(q.g, q.root)
  {
    RootOpen(q, n);
  }

  // ---------------------------------------------------------------- when a token is refused

  ghost predicate AllOpen(g: Graph)
  {
    forall p, x :: Edge(g, p, x) ==> Open(g, x)
  }

  ghost predicate OpensOnly(g: Graph, s: seq<Room>)
  {
    forall x :: x in s ==> Open(g, x)
  }

  lemma {:induction false} GrowOpen(g: Graph, step: Growing, root: Room, i: nat)
    requires Open(g, root) && forall s, k :: OpensOnly(g, s) ==> OpensOnly(g, step(s, k))
    ensures OpensOnly(g, Grow(step, root, i))
  {
    if i > 0 { GrowOpen(g, step, root, i - 1); }
  }

  lemma RouteOpen(q: Request, i: nat)
    requires AllOpen(q.g) && Open(q.g, q.root)
    ensures OpensOnly(q.g, Route(q, i))
  {
    var step := (s: seq<Room>, k: nat) => Longer(q, s, k);
    RouteGrown(q, step, i);
    forall s: seq<Room>, k: nat | OpensOnly(q.g, s) ensures OpensOnly(q.g, step(s, k)) {
      LongerOpen(q, s, k, step(s, k));
    }
    GrowOpen(q.g, step, q.root, i);
  }

  lemma LongerOpen(q: Request, s: seq<Room>, i: nat, t: seq<Room>)
    requires AllOpen(q.g) && OpensOnly(q.g, s) && t == Longer(q, s, i)
    ensures OpensOnly(q.g, t)
  {
    if i < |s| {
      OffersIsNext(q, s, i);
      forall x | x in Offers(q, s, i) ensures Open(q.g, x) { assert Edge(q.g, s[i], x); }
    }
  }

  /** The last room of a route on which all rooms are open offers nothing. */
  lemma LastOffersNothing(q: Request, e: nat)
    requires e > 0 && e == |Route(q, e)| && |OpenOf(q.g, Route(q, e))| <= q.maxDepth
    ensures Route(q, e - 1) == Route(q, e) && Offers(q, Route(q, e), e - 1) == []
  {
    var (s, t) := (Route(q, e), Route(q, e - 1));
    assert s == Longer(q, t, e - 1);
    if e - 1 < |t| {
      assert t[..e] == s[..e] == s;
    }
  }

  /** A token that nothing of the first page comes after is refused at the last room. */
  lemma RefusedAtLast(q: Request, p: Request, e: nat)
    requires NoShorts(q) && q.tokens == [] && p == q.(tokens := p.tokens, limit := p.limit)
    requires AllOpen(q.g) && Open(q.g, q.root) && e == |Route(q, e)|
    requires |Elems(Shown(q, Route(q, e), e))| <= q.maxDepth
    requires CaughtUp(Shown(q, Route(q, e), e), |p.tokens|, |Shown(q, Route(q, e), e)|)
    ensures e > 0 && Refused(p, e - 1)
  {
    RouteGrows(q, 0, e);
    RouteOpen(q, e);
    var (s, n) := (Route(q, e), e - 1);
    ShownAll(q, s, e);
    assert s[..e] == s;
    LastOffersNothing(q, e);
    RouteAnyToken(q, p, n);
    OffersAnyToken(q, p, s, n);
    LastBehind(q, s, n, |p.tokens|);
  }

  lemma LastBehind(q: Request, s: seq<Room>, n: nat, k: nat)
    requires q.tokens == [] && |s| == n + 1 && OpensOnly(q.g, s)
    requires CaughtUp(Shown(q, s, n + 1), k, |Shown(q, s, n + 1)|)
    ensures Open(q.g, s[n]) && |OpenOf(q.g, s[..n])| < k
  {
    var l := Shown(q, s, n + 1);
    assert s[n] in s;
    assert l[..|l| - 1] == Shown(q, s, n);
    ShownAll(q, s, n);
  }

  /** When all children are open and no more rooms are visited than the maximum, a token is refused if and
      only if every room of the first page comes before as many different ones as it has entries. */
  lemma RefusedExactly(q: Request, n: nat, s: Outcome, tokens: seq<nat>, width: nat, k: nat, u: Outcome, c: nat)
    requires NoShorts(q) && q.tokens == [] && EndsWith(Turns(q), Start(q.root), n, s) && s.Page? && |s.rooms| < q.limit
    requires EndsWith(Turns(q.(tokens := tokens, limit := width)), Start(q.root), k, u) && width >= 1
    requires CaughtUp(s.rooms, |tokens|, c) && AllOpen(q.g) && |Elems(s.rooms)| <= q.maxDepth
    ensures u == TokenNotFound <==> c == |s.rooms|
  {
    TokenPage(q, n, s, tokens, width, k, u, c);
    if u.Page? && c == |s.rooms| {
      var p := q.(tokens := tokens, limit := width);
      var e := WholeRoute(q, n, s);
      var f := RouteEnds(p, k, u);
      PageRootOpen(q, n, s);
      RefusedAtLast(q, p, e);
      RouteAnyToken(q, p, f);
      PartOfRoute(q, f, e);
    }
  }

  // ---------------------------------------------------------------- trees, and tokens that count one room

  /** On a tree the entries of the token are counted off. */
  lemma TreeCaughtUp(rooms: seq<Room>, k: nat)
    requires NoRepeats(rooms)
    ensures CaughtUp(rooms, k, if k < |rooms| then k else |rooms|)
  {
    forall i | 0 <= i <= |rooms| ensures |Elems(rooms[..i])| == i { Cardinality(rooms[..i]); }
  }

  /** On a tree without short identifiers of children, a page with a token of `k` entries goes on after the
      first `k` rooms of the whole first page. */
  lemma TreePage(q: Request, n: nat, s: Outcome, tokens: seq<nat>, width: nat, k: nat, u: Outcome)
    requires Tree(q.g, q.root) && NoShorts(q) && q.tokens == [] && width >= 1
    requires EndsWith(Turns(q), Start(q.root), n, s) && s.Page? && |s.rooms| < q.limit
    requires EndsWith(Turns(q.(tokens := tokens, limit := width)), Start(q.root), k, u)
    ensures |tokens| < |s.rooms| ==> u.Page? && u.rooms == First(width, s.rooms[|tokens|..])
    ensures |tokens| >= |s.rooms| ==> u == TokenNotFound || (u.Page? && u.rooms == [])
  {
    TreeNeverRepeats(q, n);
    TreeCaughtUp(s.rooms, |tokens|);
    TokenPage(q, n, s, tokens, width, k, u, if |tokens| < |s.rooms| then |tokens| else |s.rooms|);
  }

  lemma {:induction false} NoShortsOf(rooms: seq<Room>, shorts: map<Room, nat>)
    requires forall x :: x in rooms ==> x !in shorts
    ensures ShortsOf(rooms, shorts) == []
    decreases |rooms|
  {
    if rooms != [] { NoShortsOf(rooms[1..], shorts); }
  }

  lemma {:induction false} OneShortOf(rooms: seq<Room>, shorts: map<Room, nat>, root: Room)
    requires NoRepeats(rooms) && root in rooms && forall x :: x in rooms ==> (x in shorts <==> x == root)
    ensures ShortsOf(rooms, shorts) == [shorts[root]]
    decreases |rooms|
  {
    assert rooms == [rooms[0]] + rooms[1..];
    NoRepeatsPart([rooms[0]], rooms[1..]);
    if rooms[0] == root {
      NoShortsOf(rooms[1..], shorts);
    } else {
      OneShortOf(rooms[1..], shorts, root);
    }
  }

  lemma ReachedByEdge(g: Graph, root: Room, x: Room)
    requires Reachable(g, root, x) && x != root
    ensures exists p :: Edge(g, p, x)
  {
    var p :| Path(g, p) && p[0] == root && p[|p| - 1] == x;
    assert Edge(g, p[|p| - 2], p[|p| - 1]);
  }

  /** The token of a first page has one entry, for the root, if no other room has a short identifier. */
  lemma RootTokenOnly(q: Request, m: nat, r: Outcome, order: seq<Room>, tokens: seq<nat>)
    requires NoShorts(q) && q.root in q.shorts && q.tokens == []
    requires EndsWith(Turns(q), Start(q.root), m, r) && r.Page?
    requires TokenFor(q, Elems(r.rooms), r.queue, order, tokens)
    ensures tokens == [q.shorts[q.root]]
  {
    AnswersAlways(q, m, r);
    forall x | x in order ensures x in q.shorts <==> x == q.root {
      assert x in Elems(order) && r.queue[0] in Elems(r.queue);
      assert Reachable(q.g, q.root, x);
      if x != q.root { ReachedByEdge(q.g, q.root, x); }
    }
    forall i, j | 0 <= i < j < |order| ensures order[i] != order[j] { IdLessIrreflexive(order[i].id); }
    assert q.root in Elems(r.rooms) && q.root in Elems(order);
    OneShortOf(order, q.shorts, q.root);
  }

  /** So however long the first page is, the page of its token starts again with the second room. */
  lemma RootTokenRestarts(q: Request, limit: nat, m: nat, r: Outcome, n: nat, s: Outcome, order: seq<Room>,
                          tokens: seq<nat>, width: nat, k: nat, u: Outcome)
    requires NoShorts(q) && q.root in q.shorts && q.tokens == [] && width >= 1
    requires EndsWith(Turns(q), Start(q.root), m, r) && r.Page?
    requires TokenFor(q, Elems(r.rooms), r.queue, order, tokens)
    requires EndsWith(Turns(q.(limit := limit)), Start(q.root), n, s) && s.Page? && 1 < |s.rooms| < limit
    requires EndsWith(Turns(q.(tokens := tokens, limit := width)), Start(q.root), k, u)
    ensures u.Page? && u.rooms == First(width, s.rooms[1..])
  {
    RootTokenOnly(q, m, r, order, tokens);
    assert s.rooms[..0] == [] && s.rooms[..1] == [s.rooms[0]] && Elems([s.rooms[0]]) == {s.rooms[0]};
    assert CaughtUp(s.rooms, 1, 1);
    TokenPage(q.(limit := limit), n, s, tokens, width, k, u, 1);
  }

  /** A room with a short identifier and three children without. */
  function Remote(r: Room, x: Room, y: Room, z: Room, tokens: seq<nat>): Request
  {
    Request(map[r := Accessible([x, y, z]), x := Accessible([]), y := Accessible([]), z := Accessible([])], map[r := 1],
            r, 2, 10, tokens)
  }

  lemma ThreeReversed(x: Room, y: Room, z: Room)
    ensures Reversed([x, y, z]) == [z, y, x]
  {
    var rooms := [x, y, z];
    assert forall i :: 0 <= i < 3 ==> Reversed(rooms)[i] == rooms[2 - i];
  }

  /** The first turn, when it goes on. */
  lemma FirstOfTurns(q: Request, next: seq<Room>)
    requires Open(q.g, q.root) && next == Next(q.g[q.root].children, {}, q.shorts, q.tokens) && next != []
    requires q.limit >= 2 && q.maxDepth >= 1
    ensures Turns(q)(Start(q.root)) == More(Walk(next, if q.tokens == [] then [q.root] else [], {q.root}))
  {
    var none: seq<Room>, w := [], Start(q.root);
    assert w.queue == [q.root] + none && none + [q.root] == [q.root] && {} + {q.root} == {q.root} && none + next == next;
    OpenTurnIs(q, w, q.root, none, next, if q.tokens == [] then [q.root] else none);
  }

  lemma NoneSkipped(children: seq<Room>, shorts: map<Room, nat>, tokens: seq<nat>)
    requires children != [] && children[0] !in shorts
    ensures Next(children, {}, shorts, tokens) == Reversed(children)
  {
    NotInAll(children, {});
    assert children[0..] == children;
  }

  lemma RemoteFirst(r: Room, x: Room, y: Room, z: Room, tokens: seq<nat>)
    requires r != x && r != y && r != z && x != y && x != z && y != z
    ensures Turns(Remote(r, x, y, z, tokens))(Start(r)) == More(Walk([z, y, x], if tokens == [] then [r] else [], {r}))
  {
    ThreeReversed(x, y, z);
    NoneSkipped([x, y, z], map[r := 1], tokens);
    FirstOfTurns(Remote(r, x, y, z, tokens), [z, y, x]);
  }

  lemma RemoteLeaf(r: Room, x: Room, y: Room, z: Room)
    requires r != x && r != y && r != z && x != y && x != z && y != z
    ensures Turns(Remote(r, x, y, z, [1]))(Walk([z, y, x], [], {r})) == More(Walk([y, x], [z], {r, z}))
    ensures Turns(Remote(r, x, y, z, [1]))(Walk([y, x], [z], {r, z})) == Answer(Page([z, y], [x]))
    ensures Turns(Remote(r, x, y, z, []))(Walk([z, y, x], [r], {r})) == Answer(Page([r, z], [y, x]))
  {
    assert NotIn([], {r}) == [] && Reversed([]) == [];
    assert [z, y, x][1..] == [y, x] && [y, x][1..] == [x] && [y, x] + [] == [y, x];
    assert [] + [z] == [z] && [z] + [y] == [z, y] && [r] + [z] == [r, z] && {r} + {z} == {r, z};
  }

  /** The first page of such a room, and the page that its token leads to, which repeats the last room. */
  lemma RemoteRepeats(r: Room, x: Room, y: Room, z: Room)
    requires r != x && r != y && r != z && x != y && x != z && y != z
    ensures EndsWith(Turns(Remote(r, x, y, z, [])), Start(r), 2, Page([r, z], [y, x]))
    ensures EndsWith(Turns(Remote(r, x, y, z, [1])), Start(r), 3, Page([z, y], [x]))
  {
    RemoteFirst(r, x, y, z, []);
    RemoteFirst(r, x, y, z, [1]);
    RemoteLeaf(r, x, y, z);
    TwoTurns(Turns(Remote(r, x, y, z, [])), Start(r), Walk([z, y, x], [r], {r}), Page([r, z], [y, x]));
    ThreeTurns(Turns(Remote(r, x, y, z, [1])), Start(r), Walk([z, y, x], [], {r}), Walk([y, x], [z], {r, z}),
               Page([z, y], [x]));
  }

  lemma ThreeTurns(turn: Turning, w: Walk, v: Walk, x: Walk, r: Outcome)
    requires turn(w) == More(v) && turn(v) == More(x) && turn(x) == Answer(r)
    ensures EndsWith(turn, w, 3, r)
  {
    assert After(turn, w, 1) == More(v);
    assert After(turn, w, 2) == More(x);
  }
}
