/** State resolution: the ordering of power events that every server of a room must agree on. */
module StateRes {
  import opened Bytes
  import opened Collections

  type Id = seq<Byte>

  /** Every event with the events it depends on. */
  type Graph = map<Id, set<Id>>

  /** What ties are broken by, together with the event's identifier. */
  datatype Rank = Rank(power: int, ts: int)

  function RankOf(ranks: map<Id, Rank>, id: Id): Rank
  {
    if id in ranks then ranks[id] else Rank(0, 0)
  }

  /** The tie breaker: more power first, then the older event, then the smaller identifier. */
  predicate Earlier(ranks: map<Id, Rank>, a: Id, b: Id)
  {
    var (x, y) := (RankOf(ranks, a), RankOf(ranks, b));
    x.power > y.power || (x.power == y.power && (x.ts < y.ts || (x.ts == y.ts && Less(a, b))))
  }

  lemma EarlierTotal(ranks: map<Id, Rank>, a: Id, b: Id)
    ensures Earlier(ranks, a, b) || Earlier(ranks, b, a) || a == b
  {
    LessTotal(a, b);
  }

  lemma EarlierTransitive(ranks: map<Id, Rank>, a: Id, b: Id, c: Id)
    requires Earlier(ranks, a, b) && Earlier(ranks, b, c)
    ensures Earlier(ranks, a, c)
  {
    if Less(a, b) && Less(b, c) { LessTransitive(a, b, c); }
  }

  lemma EarlierIrreflexive(ranks: map<Id, Rank>, a: Id)
    ensures !Earlier(ranks, a, a)
  {
    LessIrreflexive(a);
  }

  predicate IsLeast(ranks: map<Id, Rank>, s: set<Id>, m: Id)
  {
    m in s && forall x :: x in s && x != m ==> Earlier(ranks, m, x)
  }

  lemma LeastUnique(ranks: map<Id, Rank>, s: set<Id>, m: Id, n: Id)
    requires IsLeast(ranks, s, m) && IsLeast(ranks, s, n)
    ensures m == n
  {
    if m != n {
      EarlierTransitive(ranks, m, n, m);
      EarlierIrreflexive(ranks, m);
    }
  }

  // ---------------------------------------------------------------- what the order is

  /** The events not done yet all of whose dependencies are. */
  function Ready(g: Graph, done: set<Id>): set<Id>
  {
    set n | n in g && n !in done && g[n] <= done
  }

  /** `s` lists further events, each of them after everything it depends on. */
  ghost predicate Topological(g: Graph, done: set<Id>, s: seq<Id>)
    decreases |s|
  {
    s == [] || (s[0] in Ready(g, done) && Topological(g, done + {s[0]}, s[1..]))
  }

  /** The specified order: of the events that are ready, the least by the tie breaker comes next. */
  ghost function Order(g: Graph, ranks: map<Id, Rank>, done: set<Id>): seq<Id>
    decreases g.Keys - done
  {
    var ready := Ready(g, done);
    if ready == {} then [] else
      LeastExists(ranks, ready);
      var m :| IsLeast(ranks, ready, m);
      [m] + Order(g, ranks, done + {m})
  }

  lemma {:induction false} LeastExists(ranks: map<Id, Rank>, s: set<Id>)
    requires s != {}
    ensures exists m :: IsLeast(ranks, s, m)
    decreases s
  {
    var x :| x in s;
    var rest := s - {x};
    if rest == {} {
      assert s == {x};
      assert IsLeast(ranks, s, x);
    } else {
      LeastExists(ranks, rest);
      var m :| IsLeast(ranks, rest, m);
      EarlierTotal(ranks, x, m);
      if Earlier(ranks, x, m) {
        forall y | y in s && y != x ensures Earlier(ranks, x, y) {
          if y != m { EarlierTransitive(ranks, x, m, y); }
        }
        assert IsLeast(ranks, s, x);
      } else {
        assert IsLeast(ranks, s, m);
      }
    }
  }

  lemma OrderStep(g: Graph, ranks: map<Id, Rank>, done: set<Id>, m: Id)
    requires IsLeast(ranks, Ready(g, done), m)
    ensures Order(g, ranks, done) == [m] + Order(g, ranks, done + {m})
  {
    var o := Order(g, ranks, done);
    assert IsLeast(ranks, Ready(g, done), o[0]);
    LeastUnique(ranks, Ready(g, done), m, o[0]);
  }

  // ---------------------------------------------------------------- what the order guarantees

  /** The order is topological, and it goes on for as long as any event is ready. */
  lemma {:induction false} OrderTopological(g: Graph, ranks: map<Id, Rank>, done: set<Id>)
    ensures Topological(g, done, Order(g, ranks, done))
    ensures Ready(g, done + Elems(Order(g, ranks, done))) == {}
    decreases g.Keys - done
  {
    var o := Order(g, ranks, done);
    if o == [] {
      assert done + Elems(o) == done;
    } else {
      var m := o[0];
      assert IsLeast(ranks, Ready(g, done), m);
      OrderStep(g, ranks, done, m);
      OrderTopological(g, ranks, done + {m});
      assert o[1..] == Order(g, ranks, done + {m});
      ElemsOfCons(o);
      assert done + Elems(o) == done + {m} + Elems(o[1..]);
    }
  }

  /** A topological listing has no duplicates, and every dependency comes first. */
  lemma {:induction false} TopologicalMeans(g: Graph, done: set<Id>, s: seq<Id>, i: nat)
    requires Topological(g, done, s) && i < |s|
    ensures s[i] in g && s[i] !in done && s[i] !in s[..i]
    ensures g[s[i]] <= done + Elems(s[..i])
    decreases |s|
  {
    if i > 0 {
      TopologicalMeans(g, done + {s[0]}, s[1..], i - 1);
      assert s[..i] == [s[0]] + s[1..][..i - 1];
      ElemsOfCons(s[..i]);
      assert s[..i][1..] == s[1..][..i - 1];
    }
  }

  /** Every topological listing of events stays within the events that the order lists. */
  lemma {:induction false} OrderMaximal(g: Graph, w: set<Id>, done: set<Id>, t: seq<Id>)
    requires Ready(g, w) == {} && done <= w && Topological(g, done, t)
    ensures Elems(t) <= w
    decreases |t|
  {
    if t != [] {
      var x := t[0];
      assert x !in w ==> x in Ready(g, w);
      OrderMaximal(g, w, done + {x}, t[1..]);
      ElemsOfCons(t);
    }
  }

  /** `s` is no later than `t` in the dictionary order that the tie breaker induces on listings,
      where a listing comes before its prefixes. */
  ghost predicate NoLater(ranks: map<Id, Rank>, s: seq<Id>, t: seq<Id>)
    decreases |t|
  {
    t == [] || (s != [] && (Earlier(ranks, s[0], t[0]) || (s[0] == t[0] && NoLater(ranks, s[1..], t[1..]))))
  }

  /** Among all topological listings the order is the first, so it is the same on every server. */
  lemma {:induction false} OrderFirst(g: Graph, ranks: map<Id, Rank>, done: set<Id>, t: seq<Id>)
    requires Topological(g, done, t)
    ensures NoLater(ranks, Order(g, ranks, done), t)
    decreases |t|
  {
    if t != [] {
      var o := Order(g, ranks, done);
      var m := o[0];
      assert IsLeast(ranks, Ready(g, done), m);
      if t[0] == m {
        OrderStep(g, ranks, done, m);
        OrderFirst(g, ranks, done + {m}, t[1..]);
        assert o[1..] == Order(g, ranks, done + {m});
      }
    }
  }

  /** More power, or the same and an older event, or the same and a smaller identifier. */
  ghost predicate Ranked(ranks: map<Id, Rank>, a: Id, b: Id)
    requires a in ranks && b in ranks
  {
    && ranks[a].power >= ranks[b].power
    && (ranks[a].power == ranks[b].power ==> ranks[a].ts <= ranks[b].ts)
    && (ranks[a].power == ranks[b].power && ranks[a].ts == ranks[b].ts ==> Less(a, b))
  }

  /** An event that could have been listed in the place of another ranks after it. */
  ghost predicate ByRank(g: Graph, ranks: map<Id, Rank>, done: set<Id>, o: seq<Id>)
    requires Elems(o) <= ranks.Keys
  {
    forall i, j :: 0 <= i < j < |o| && o[j] in g && g[o[j]] <= done + Elems(o[..i]) ==> Ranked(ranks, o[i], o[j])
  }

  /** Of the events that could come next, the order lists the one that ranks first. */
  lemma {:induction false} OrderByRank(g: Graph, ranks: map<Id, Rank>, done: set<Id>)
    requires Elems(Order(g, ranks, done)) <= ranks.Keys
    ensures ByRank(g, ranks, done, Order(g, ranks, done))
    decreases g.Keys - done
  {
    var o := Order(g, ranks, done);
    if o != [] {
      var m := o[0];
      assert IsLeast(ranks, Ready(g, done), m);
      OrderStep(g, ranks, done, m);
      var rest := Order(g, ranks, done + {m});
      assert o[1..] == rest;
      ElemsOfCons(o);
      OrderByRank(g, ranks, done + {m});
      OrderTopological(g, ranks, done);
      forall i, j | 0 <= i < j < |o| && o[j] in g && g[o[j]] <= done + Elems(o[..i])
        ensures Ranked(ranks, o[i], o[j])
      {
        RankedAt(g, ranks, done, o, i, j);
      }
    }
  }

  lemma RankedAt(g: Graph, ranks: map<Id, Rank>, done: set<Id>, o: seq<Id>, i: nat, j: nat)
    requires Topological(g, done, o) && Elems(o) <= ranks.Keys && i < j < |o|
    requires IsLeast(ranks, Ready(g, done), o[0]) && Elems(o[1..]) <= Elems(o)
    requires ByRank(g, ranks, done + {o[0]}, o[1..]) && o[j] in g && g[o[j]] <= done + Elems(o[..i])
    ensures Ranked(ranks, o[i], o[j])
  {
    TopologicalMeans(g, done, o, j);
    assert o[i] in Elems(o) && o[j] in Elems(o);
    if i == 0 {
      assert Elems(o[..0]) == {} && o[..j][0] == o[0];
      assert o[j] in Ready(g, done);
    } else {
      ElemsOfCons(o[..i]);
      assert o[..i][1..] == o[1..][..i - 1];
      assert done + {o[0]} + Elems(o[1..][..i - 1]) == done + Elems(o[..i]);
      assert o[1..][i - 1] == o[i] && o[1..][j - 1] == o[j];
    }
  }

  /** Nothing but the order is such a listing: topological, by rank, and as long as any event is ready. */
  lemma {:induction false} OnlyOrder(g: Graph, ranks: map<Id, Rank>, done: set<Id>, t: seq<Id>)
    requires Topological(g, done, t) && Ready(g, done + Elems(t)) == {} && Elems(t) <= ranks.Keys
    requires ByRank(g, ranks, done, t)
    ensures t == Order(g, ranks, done)
    decreases |t|
  {
    if t == [] {
      assert done + Elems(t) == done;
    } else {
      FirstIsLeast(g, ranks, done, t);
      OrderStep(g, ranks, done, t[0]);
      ElemsOfCons(t);
      assert done + Elems(t) == done + {t[0]} + Elems(t[1..]);
      RestByRank(g, ranks, done, t);
      OnlyOrder(g, ranks, done + {t[0]}, t[1..]);
      ConsOf(t);
    }
  }

  lemma FirstIsLeast(g: Graph, ranks: map<Id, Rank>, done: set<Id>, t: seq<Id>)
    requires Topological(g, done, t) && Ready(g, done + Elems(t)) == {} && Elems(t) <= ranks.Keys
    requires ByRank(g, ranks, done, t) && t != []
    ensures IsLeast(ranks, Ready(g, done), t[0])
  {
    forall x | x in Ready(g, done) && x != t[0] ensures Earlier(ranks, t[0], x) {
      assert x !in done + Elems(t) ==> x in Ready(g, done + Elems(t));
      var j :| 0 <= j < |t| && t[j] == x;
      assert Elems(t[..0]) == {} && t[0] in Elems(t) && x in Elems(t);
      assert Ranked(ranks, t[0], t[j]);
    }
  }

  lemma RestByRank(g: Graph, ranks: map<Id, Rank>, done: set<Id>, t: seq<Id>)
    requires t != [] && Elems(t) <= ranks.Keys && ByRank(g, ranks, done, t)
    ensures Elems(t[1..]) <= ranks.Keys && ByRank(g, ranks, done + {t[0]}, t[1..])
  {
    ElemsOfCons(t);
    var rest := t[1..];
    forall i, j | 0 <= i < j < |rest| && rest[j] in g && g[rest[j]] <= done + {t[0]} + Elems(rest[..i])
      ensures Ranked(ranks, rest[i], rest[j])
    {
      ElemsOfCons(t[..i + 1]);
      assert t[..i + 1][1..] == rest[..i];
      assert done + {t[0]} + Elems(rest[..i]) == done + Elems(t[..i + 1]);
      assert Ranked(ranks, t[i + 1], t[j + 1]);
    }
  }

  /** The dependencies are well founded: `depth` grows along them, and they all are events of the graph. */
  ghost predicate Founded(g: Graph, depth: map<Id, nat>)
  {
    g.Keys <= depth.Keys && forall n, e :: n in g && e in g[n] ==> e in g && depth[e] < depth[n]
  }

  /** The order lists every event exactly when the graph has no cycle and no dangling dependency. */
  lemma OrderComplete(g: Graph, ranks: map<Id, Rank>)
    ensures Elems(Order(g, ranks, {})) == g.Keys <==> exists depth :: Founded(g, depth)
  {
    var o := Order(g, ranks, {});
    OrderTopological(g, ranks, {});
    if depth :| Founded(g, depth) {
      FoundedListed(g, depth, o);
    }
    if Elems(o) == g.Keys {
      PositionsFounded(g, o);
    }
  }

  lemma FoundedListed(g: Graph, depth: map<Id, nat>, o: seq<Id>)
    requires Founded(g, depth) && Topological(g, {}, o) && Ready(g, Elems(o)) == {}
    ensures Elems(o) == g.Keys
  {
    forall x | x in o ensures x in g {
      var i :| 0 <= i < |o| && o[i] == x;
      TopologicalMeans(g, {}, o, i);
    }
    forall n | n in g ensures n in o {
      FoundedReached(g, depth, Elems(o), n);
    }
  }

  lemma {:induction false} FoundedReached(g: Graph, depth: map<Id, nat>, w: set<Id>, n: Id)
    requires Founded(g, depth) && Ready(g, w) == {} && n in g
    ensures n in w
    decreases depth[n]
  {
    forall e | e in g[n] ensures e in w {
      FoundedReached(g, depth, w, e);
    }
    assert n !in w ==> n in Ready(g, w);
  }

  lemma PositionsFounded(g: Graph, o: seq<Id>)
    requires Topological(g, {}, o) && Elems(o) == g.Keys
    ensures exists depth :: Founded(g, depth)
  {
    forall n | n in g ensures exists i :: 0 <= i < |o| && o[i] == n {
      assert n in Elems(o);
    }
    var depth: map<Id, nat> := map n | n in g :: var i: nat :| i < |o| && o[i] == n; i;
    forall n, e | n in g && e in g[n] ensures e in g && depth[e] < depth[n] {
      TopologicalMeans(g, {}, o, depth[n]);
      assert e in o[..depth[n]];
      var j :| 0 <= j < depth[n] && o[j] == e;
      assert e in Elems(o);
      var i := depth[e];
      TopologicalMeans(g, {}, o, i);
      assert forall k :: 0 <= k < i ==> o[k] == o[..i][k];
    }
    assert Founded(g, depth);
  }

  // ---------------------------------------------------------------- how it is computed

  datatype Result<+T> = Ok(value: T) | NotFound

  method PopLeast(ranks: map<Id, Rank>, heap: set<Id>) returns (m: Id, rest: set<Id>)
    requires heap != {}
    ensures IsLeast(ranks, heap, m) && rest == heap - {m}
  {
    m :| m in heap;
    var seen, todo := {m}, heap - {m};
    while todo != {}
      invariant seen + todo == heap && m in seen
      invariant IsLeast(ranks, seen, m)
      decreases todo
    {
      var x :| x in todo;
      EarlierTotal(ranks, x, m);
      if Earlier(ranks, x, m) {
        forall y | y in seen ensures Earlier(ranks, x, y) {
          if y != m { EarlierTransitive(ranks, x, m, y); }
        }
        m := x;
      }
      seen, todo := seen + {x}, todo - {x};
    }
    assert seen == heap;
    rest := heap - {m};
  }

  ghost predicate Closed(g: Graph, done: set<Id>)
  {
    forall n :: n in done ==> n in g && g[n] <= done
  }

  /** The events that depend on `n`. */
  ghost function Dependents(g: Graph, n: Id): set<Id>
  {
    set p | p in g && n in g[p]
  }

  /** Invert the graph and collect the events without dependencies, in any order of the events. */
  method Prepare(g: Graph, ranks: map<Id, Rank>) returns (r: Result<set<Id>>, reverse: map<Id, set<Id>>)
    ensures r.Ok? ==> r.value == Ready(g, {}) && r.value <= ranks.Keys
    ensures r.Ok? ==> g.Keys <= reverse.Keys
    ensures r.Ok? ==> forall n :: n in reverse ==> reverse[n] == Dependents(g, n)
    ensures r.NotFound? ==> exists n :: n in Ready(g, {}) && n !in ranks
  {
    var zero: set<Id> := {};
    reverse := map[];
    var todo := g.Keys;
    while todo != {}
      invariant todo <= g.Keys && zero == Ready(g, {}) - todo && zero <= ranks.Keys
      invariant g.Keys - todo <= reverse.Keys
      invariant forall n, p :: p in g && p !in todo && n in g[p] ==> n in reverse
      invariant forall n :: n in reverse ==> reverse[n] == Dependents(g, n) - todo
      decreases todo
    {
      var node :| node in todo;
      var edges := g[node];
      if edges == {} {
        if node !in ranks {
          return NotFound, reverse;
        }
        zero := zero + {node};
      }
      reverse := AddEdges(g, reverse, node, todo);
      todo := todo - {node};
    }
    r := Ok(zero);
  }

  /** The events outside `todo` that refer to `n`, and `node` as well if its reference was added. */
  ghost function Added(g: Graph, todo: set<Id>, node: Id, left: set<Id>, n: Id): set<Id>
    requires node in g
  {
    (Dependents(g, n) - todo) + if n in g[node] && n !in left then {node} else {}
  }

  lemma AddedAll(g: Graph, todo: set<Id>, node: Id, n: Id)
    requires node in todo && todo <= g.Keys
    ensures Added(g, todo, node, {}, n) == Dependents(g, n) - (todo - {node})
  {
    assert node in Dependents(g, n) <==> n in g[node];
  }

  lemma AddedNext(g: Graph, todo: set<Id>, node: Id, left: set<Id>, edge: Id, n: Id)
    requires node in g && left <= g[node] && edge in left
    ensures Added(g, todo, node, left - {edge}, n)
         == if n == edge then (Dependents(g, n) - todo) + {node} else Added(g, todo, node, left, n)
  {
  }

  method AddEdges(g: Graph, reverse: map<Id, set<Id>>, node: Id, ghost todo: set<Id>) returns (r: map<Id, set<Id>>)
    requires node in todo && todo <= g.Keys
    requires forall n, p :: p in g && p !in todo && n in g[p] ==> n in reverse
    requires forall n :: n in reverse ==> reverse[n] == Dependents(g, n) - todo
    ensures r.Keys == reverse.Keys + {node} + g[node]
    ensures forall n :: n in r ==> r[n] == Dependents(g, n) - (todo - {node})
  {
    r := if node in reverse then reverse else reverse[node := {}];
    var left := g[node];
    forall n | n in r ensures r[n] == Added(g, todo, node, left, n) {
      assert n !in reverse ==> Dependents(g, n) - todo == {};
    }
    while left != {}
      invariant left <= g[node]
      invariant r.Keys == reverse.Keys + {node} + (g[node] - left)
      invariant forall n :: n in r ==> r[n] == Added(g, todo, node, left, n)
      decreases left
    {
      var edge :| edge in left;
      r := AddEdge(g, reverse, node, todo, left, r, edge);
      left := left - {edge};
    }
    forall n | n in r ensures r[n] == Dependents(g, n) - (todo - {node}) {
      AddedAll(g, todo, node, n);
    }
  }

  method AddEdge(g: Graph, ghost reverse: map<Id, set<Id>>, node: Id, ghost todo: set<Id>, ghost left: set<Id>,
                 before: map<Id, set<Id>>, edge: Id)
    returns (r: map<Id, set<Id>>)
    requires node in todo && todo <= g.Keys && left <= g[node] && edge in left && reverse.Keys <= before.Keys
    requires forall n, p :: p in g && p !in todo && n in g[p] ==> n in reverse
    requires forall n :: n in before ==> before[n] == Added(g, todo, node, left, n)
    ensures r.Keys == before.Keys + {edge}
    ensures forall n :: n in r ==> r[n] == Added(g, todo, node, left - {edge}, n)
  {
    var known := if edge in before then before[edge] else {};
    assert known == Dependents(g, edge) - todo;
    r := before[edge := known + {node}];
    forall n | n in r ensures r[n] == Added(g, todo, node, left - {edge}, n) {
      AddedNext(g, todo, node, left, edge, n);
    }
  }

  /** An event that is ready will be listed. */
  lemma ReadyListed(g: Graph, ranks: map<Id, Rank>, done: set<Id>, n: Id)
    requires n in Ready(g, done)
    ensures n in Elems(Order(g, ranks, done))
  {
    OrderTopological(g, ranks, done);
    var w := done + Elems(Order(g, ranks, done));
    assert n !in w ==> n in Ready(g, w);
  }

  /** Clear `node` from the dependencies of its dependents, walked in any order, and collect those
      that become ready by it. */
  method Release(g: Graph, ranks: map<Id, Rank>, ghost done: set<Id>, node: Id, outdegree: Graph, parents: set<Id>)
    returns (r: Result<set<Id>>, out: Graph)
    requires node in Ready(g, done) && parents == Dependents(g, node) && Closed(g, done)
    requires outdegree.Keys == g.Keys && forall n :: n in g ==> outdegree[n] == g[n] - done
    ensures r.Ok? ==> out.Keys == g.Keys && forall n :: n in g ==> out[n] == g[n] - (done + {node})
    ensures r.Ok? ==> r.value == Ready(g, done + {node}) - Ready(g, done) && r.value <= ranks.Keys
    ensures r.NotFound? ==> exists n :: n in Ready(g, done + {node}) && n !in ranks
  {
    out := outdegree;
    var released: set<Id> := {};
    var todo := parents;
    while todo != {}
      invariant todo <= parents && out.Keys == g.Keys
      invariant forall n :: n in g ==> out[n] == if n in parents - todo then g[n] - (done + {node}) else g[n] - done
      invariant released == (Ready(g, done + {node}) * parents) - todo && released <= ranks.Keys
      decreases todo
    {
      var parent :| parent in todo;
      var left := out[parent] - {node};
      out := out[parent := left];
      if left == {} {
        assert parent in Ready(g, done + {node});
        if parent !in ranks {
          return NotFound, out;
        }
        released := released + {parent};
      }
      todo := todo - {parent};
    }
    r := Ok(released);
  }

  /** Kahn's algorithm with a heap. Whatever order the hash maps are walked in, the result is the
      specified order; it is an error exactly when some event of that order has no rank. */
  method LexicographicalTopologicalSort(g: Graph, ranks: map<Id, Rank>) returns (r: Result<seq<Id>>)
    ensures r.Ok? <==> Elems(Order(g, ranks, {})) <= ranks.Keys
    ensures r.Ok? ==> r.value == Order(g, ranks, {}) && ByRank(g, ranks, {}, r.value)
  {
    var zero, reverse := Prepare(g, ranks);
    var sorted: seq<Id> := [];
    ghost var done: set<Id> := {};
    assert [] + Order(g, ranks, {}) == Order(g, ranks, {});
    if zero.NotFound? {
      Unranked(g, ranks, sorted, done);
      return NotFound;
    }
    var heap, outdegree := zero.value, g;
    while heap != {}
      invariant heap == Ready(g, done) && heap <= ranks.Keys
      invariant Closed(g, done) && Elems(sorted) <= ranks.Keys
      invariant outdegree.Keys == g.Keys
      invariant forall n :: n in g ==> outdegree[n] == g[n] - done
      invariant Order(g, ranks, {}) == sorted + Order(g, ranks, done)
      decreases g.Keys - done
    {
      var node, rest := PopLeast(ranks, heap);
      var released;
      released, outdegree := Release(g, ranks, done, node, outdegree, reverse[node]);
      OrderAdvance(g, ranks, sorted, done, node);
      sorted, done := sorted + [node], done + {node};
      if released.NotFound? {
        Unranked(g, ranks, sorted, done);
        return NotFound;
      }
      heap := rest + released.value;
    }
    assert sorted + [] == sorted;
    OrderByRank(g, ranks, {});
    r := Ok(sorted);
  }

  lemma OrderAdvance(g: Graph, ranks: map<Id, Rank>, sorted: seq<Id>, done: set<Id>, node: Id)
    requires Order(g, ranks, {}) == sorted + Order(g, ranks, done) && IsLeast(ranks, Ready(g, done), node)
    ensures Order(g, ranks, {}) == (sorted + [node]) + Order(g, ranks, done + {node})
    ensures Elems(sorted + [node]) == Elems(sorted) + {node}
  {
    OrderStep(g, ranks, done, node);
  }

  lemma Unranked(g: Graph, ranks: map<Id, Rank>, sorted: seq<Id>, done: set<Id>)
    requires Order(g, ranks, {}) == sorted + Order(g, ranks, done)
    requires exists n :: n in Ready(g, done) && n !in ranks
    ensures !(Elems(Order(g, ranks, {})) <= ranks.Keys)
  {
    var n :| n in Ready(g, done) && n !in ranks;
    ReadyListed(g, ranks, done, n);
    assert n in Order(g, ranks, {});
  }
}
