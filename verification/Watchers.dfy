/** Prefix watchers: callers wait for a key under a prefix to change, and a two-phase wake, which
    scans under the read lock and removes under the write lock, releases them. */
module Watchers {
  import opened Bytes

  type Key = seq<Byte>

  /** Who keeps a receiver of a channel: the table, or the subscription with that number. */
  datatype Holder = Stored | Subscriber(id: nat)

  /** A watch channel: the prefix it was made for, how often it was sent to, and its receivers. */
  datatype Channel = Channel(prefix: Key, sent: nat, holders: set<Holder>)

  /** The table of current channels by prefix, and every channel ever made. */
  datatype Hub = Hub(table: map<Key, nat>, chans: seq<Channel>)

  /** Every table entry is a channel for its prefix, not sent to yet, whose stored receiver is alive;
      every channel was sent to at most once, and exactly when it left the table. */
  ghost predicate HubValid(h: Hub)
  {
    && (forall p :: p in h.table ==> h.table[p] < |h.chans| && h.chans[h.table[p]].prefix == p)
    && (forall c :: 0 <= c < |h.chans| ==> ChannelValid(h, c))
  }

  ghost predicate ChannelValid(h: Hub, c: nat)
    requires c < |h.chans|
  {
    var ch := h.chans[c];
    if Current(h, c) then ch.sent == 0 && Stored in ch.holders else ch.sent == 1
  }

  predicate Current(h: Hub, c: nat)
    requires c < |h.chans|
  {
    h.chans[c].prefix in h.table && h.table[h.chans[c].prefix] == c
  }

  /** The channel a new subscription to `prefix` gets. */
  function ChannelFor(h: Hub, prefix: Key): nat
  {
    if prefix in h.table then h.table[prefix] else |h.chans|
  }

  /** Subscribe: join the current channel of the prefix, or make one. */
  function Subscribe(h: Hub, prefix: Key, id: nat): Hub
    requires prefix in h.table ==> h.table[prefix] < |h.chans|
  {
    if prefix in h.table then
      var c := h.table[prefix];
      h.(chans := h.chans[c := h.chans[c].(holders := h.chans[c].holders + {Subscriber(id)})])
    else
      Hub(h.table[prefix := |h.chans|], h.chans + [Channel(prefix, 0, {Stored, Subscriber(id)})])
  }

  /** Whether sending to the channel of `prefix` finds a receiver. */
  predicate SendWorks(h: Hub, prefix: Key)
  {
    prefix in h.table && h.table[prefix] < |h.chans| ==> h.chans[h.table[prefix]].holders != {}
  }

  /** Remove the channel of `prefix` from the table, if there is one, and send to it. */
  function Release(h: Hub, prefix: Key): Hub
  {
    if prefix in h.table && h.table[prefix] < |h.chans| then
      var c := h.table[prefix];
      var ch := h.chans[c];
      Hub(h.table - {prefix}, h.chans[c := ch.(sent := ch.sent + 1, holders := ch.holders - {Stored})])
    else h
  }

  function ReleaseAll(h: Hub, prefixes: seq<Key>): Hub
    decreases |prefixes|
  {
    if prefixes == [] then h else ReleaseAll(Release(h, prefixes[0]), prefixes[1..])
  }

  /** The prefixes of `key`, no longer than `n`, that are watched: shortest first. */
  function Triggered(table: map<Key, nat>, key: Key, n: nat): seq<Key>
    requires n <= |key|
  {
    var before := if n == 0 then [] else Triggered(table, key, n - 1);
    before + if key[..n] in table then [key[..n]] else []
  }

  /** A key triggers exactly the watched keys that are prefixes of it. */
  lemma {:induction false} TriggeredExact(table: map<Key, nat>, key: Key, n: nat)
    requires n <= |key|
    ensures forall p :: p in Triggered(table, key, n) <==> p in table && p <= key && |p| <= n
  {
    if n > 0 { TriggeredExact(table, key, n - 1); }
    assert forall p :: p <= key && |p| == n <==> p == key[..n];
  }

  class Watchers {
    var table: map<Key, nat>
    var chans: seq<Channel>

    ghost function Value(): Hub
      reads this
    {
      Hub(table, chans)
    }

    constructor ()
      ensures table == map[] && chans == []
      ensures HubValid(Value())
    {
      table, chans := map[], [];
    }

    /** Under the write lock. */
    method Watch(prefix: Key, id: nat) returns (c: nat)
      requires HubValid(Value())
      modifies this
      ensures c == ChannelFor(old(Value()), prefix) && Value() == Subscribe(old(Value()), prefix, id)
      ensures HubValid(Value())
    {
      SubscribeValid(Value(), prefix, id);
      if prefix in table {
        c := table[prefix];
        chans := chans[c := chans[c].(holders := chans[c].holders + {Subscriber(id)})];
      } else {
        c := |chans|;
        chans := chans + [Channel(prefix, 0, {Stored, Subscriber(id)})];
        table := table[prefix := c];
      }
    }

    /** The first phase of a wake, under the read lock. */
    method Scan(key: Key) returns (triggered: seq<Key>)
      ensures triggered == Triggered(table, key, |key|)
    {
      triggered := [];
      var length := 0;
      while length <= |key|
        invariant length <= |key| + 1
        invariant triggered == if length == 0 then [] else Triggered(table, key, length - 1)
      {
        if key[..length] in table {
          triggered := triggered + [key[..length]];
        }
        length := length + 1;
      }
    }

    /** The second phase, under the write lock. No send fails. */
    method Remove(triggered: seq<Key>)
      requires HubValid(Value())
      modifies this
      ensures HubValid(Value())
      ensures Value() == ReleaseAll(old(Value()), triggered)
    {
      var i := 0;
      while i < |triggered|
        invariant i <= |triggered| && HubValid(Value())
        invariant ReleaseAll(old(Value()), triggered) == ReleaseAll(Value(), triggered[i..])
      {
        var prefix := triggered[i];
        assert triggered[i..][0] == prefix && triggered[i..][1..] == triggered[i + 1..];
        ReleaseValid(Value(), prefix);
        if prefix in table {
          var c := table[prefix];
          assert chans[c].holders != {}; // the send finds a receiver
          table := table - {prefix};
          chans := chans[c := chans[c].(sent := chans[c].sent + 1, holders := chans[c].holders - {Stored})];
        }
        i := i + 1;
      }
    }
  }

  lemma SubscribeValid(h: Hub, prefix: Key, id: nat)
    requires HubValid(h)
    ensures HubValid(Subscribe(h, prefix, id))
  {
    var g := Subscribe(h, prefix, id);
    forall c | 0 <= c < |g.chans| ensures ChannelValid(g, c) {
      if c < |h.chans| { assert ChannelValid(h, c); }
    }
  }

  lemma ReleaseValid(h: Hub, prefix: Key)
    requires HubValid(h)
    ensures HubValid(Release(h, prefix)) && SendWorks(h, prefix)
  {
    var g := Release(h, prefix);
    if prefix in h.table { assert ChannelValid(h, h.table[prefix]); }
    forall c | 0 <= c < |g.chans| ensures ChannelValid(g, c) {
      assert ChannelValid(h, c);
    }
  }

  // ---------------------------------------------------------------- any number of callers at once

  /** Where a call of `wake` stands: not scanned yet, waiting for the write lock with what it
      scanned, holding the lock with what is left to remove, or returned. */
  datatype Phase = Started | Scanned(found: seq<Key>) | Removing(left: seq<Key>) | Returned
  datatype Call = Call(key: Key, phase: Phase)

  /** All the shared state: the table, the channel of every subscription, every call of `wake`,
      and whether a call holds the write lock. `failed` records a send without a receiver. */
  datatype World = World(hub: Hub, subs: seq<nat>, calls: seq<Call>, locked: bool, failed: bool)

  const INITIAL := World(Hub(map[], []), [], [], false, false)

  /** What can happen next. A dropped subscription is a future its owner gave up on. */
  datatype Action =
    | Watch(prefix: Key)
    | Drop(sub: nat)
    | Wake(key: Key)
    | Scan(call: nat)
    | Lock(call: nat)
    | RemoveOne(call: nat)
    | Unlock(call: nat)

  ghost predicate Enabled(w: World, a: Action)
  {
    match a
    case Watch(p) => !w.locked && (p in w.hub.table ==> w.hub.table[p] < |w.hub.chans|)
    case Drop(s) => s < |w.subs| && w.subs[s] < |w.hub.chans|
    case Wake(_) => true
    case Scan(i) => !w.locked && i < |w.calls| && w.calls[i].phase.Started?
    case Lock(i) => !w.locked && i < |w.calls| && w.calls[i].phase.Scanned? && w.calls[i].phase.found != []
    case RemoveOne(i) => i < |w.calls| && w.calls[i].phase.Removing? && w.calls[i].phase.left != []
    case Unlock(i) => i < |w.calls| && w.calls[i].phase == Removing([])
  }

  function SetPhase(w: World, i: nat, phase: Phase): World
    requires i < |w.calls|
  {
    w.(calls := w.calls[i := w.calls[i].(phase := phase)])
  }

  ghost function Apply(w: World, a: Action): World
    requires Enabled(w, a)
  {
    match a
    case Watch(p) => w.(hub := Subscribe(w.hub, p, |w.subs|), subs := w.subs + [ChannelFor(w.hub, p)])
    case Drop(s) =>
      var (c, cs) := (w.subs[s], w.hub.chans);
      w.(hub := w.hub.(chans := cs[c := cs[c].(holders := cs[c].holders - {Subscriber(s)})]))
    case Wake(key) => w.(calls := w.calls + [Call(key, Started)])
    case Scan(i) =>
      var key := w.calls[i].key;
      var found := Triggered(w.hub.table, key, |key|);
      SetPhase(w, i, if found == [] then Returned else Scanned(found))
    case Lock(i) => SetPhase(w, i, Removing(w.calls[i].phase.found)).(locked := true)
    case RemoveOne(i) =>
      var left := w.calls[i].phase.left;
      SetPhase(w, i, Removing(left[1..]))
        .(hub := Release(w.hub, left[0]), failed := w.failed || !SendWorks(w.hub, left[0]))
    case Unlock(i) => SetPhase(w, i, Returned).(locked := false)
  }

  /** A run of the system: any interleaving of the actions of any number of callers. */
  ghost predicate Run(ws: seq<World>, actions: seq<Action>)
  {
    |ws| == |actions| + 1 && ws[0] == INITIAL &&
    forall t :: 0 <= t < |actions| ==> Enabled(ws[t], actions[t]) && ws[t + 1] == Apply(ws[t], actions[t])
  }

  ghost predicate Invariant(w: World)
  {
    && HubValid(w.hub) && !w.failed
    && (forall s :: 0 <= s < |w.subs| ==> w.subs[s] < |w.hub.chans|)
  }

  lemma InvariantStep(w: World, a: Action)
    requires Invariant(w) && Enabled(w, a)
    ensures Invariant(Apply(w, a))
  {
    match a
    case Watch(p) => SubscribeValid(w.hub, p, |w.subs|);
    case RemoveOne(i) => ReleaseValid(w.hub, w.calls[i].phase.left[0]);
    case Drop(s) => DropValid(w, s);
    case Wake(_) | Scan(_) | Lock(_) | Unlock(_) =>
  }

  lemma DropValid(w: World, s: nat)
    requires Invariant(w) && Enabled(w, Drop(s))
    ensures Invariant(Apply(w, Drop(s)))
  {
    var v := Apply(w, Drop(s));
    forall c | 0 <= c < |v.hub.chans| ensures ChannelValid(v.hub, c) {
      assert ChannelValid(w.hub, c);
    }
  }

  lemma {:induction false} InvariantAlways(ws: seq<World>, actions: seq<Action>, t: nat)
    requires Run(ws, actions) && t < |ws|
    ensures Invariant(ws[t])
  {
    if t > 0 {
      InvariantAlways(ws, actions, t - 1);
      InvariantStep(ws[t - 1], actions[t - 1]);
    }
  }

  // ---------------------------------------------------------------- what every run satisfies

  ghost function PrefixOf(w: World, s: nat): Key
    requires s < |w.subs| && w.subs[s] < |w.hub.chans|
  {
    w.hub.chans[w.subs[s]].prefix
  }

  /** The subscription's future can complete: its channel has an unseen value. */
  ghost predicate IsReady(w: World, s: nat)
    requires s < |w.subs| && w.subs[s] < |w.hub.chans|
  {
    w.hub.chans[w.subs[s]].sent > 0
  }

  /** In every reachable state a subscription is pending exactly while its channel is in the table,
      so no channel is ever closed without a value; each channel is sent to at most once, and no
      send ever failed. */
  lemma PendingExactlyWhileListed(ws: seq<World>, actions: seq<Action>, t: nat, s: nat)
    requires Run(ws, actions) && t < |ws| && s < |ws[t].subs|
    ensures ws[t].subs[s] < |ws[t].hub.chans|
    ensures !IsReady(ws[t], s) <==> Current(ws[t].hub, ws[t].subs[s])
    ensures ws[t].hub.chans[ws[t].subs[s]].sent <= 1 && !ws[t].failed
  {
    InvariantAlways(ws, actions, t);
    assert ChannelValid(ws[t].hub, ws[t].subs[s]);
  }

  /** Subscriptions and calls keep what identifies them, and ready ones stay ready. */
  ghost predicate Extends(v: World, w: World)
    requires Invariant(v) && Invariant(w)
  {
    && |v.subs| <= |w.subs| && |v.calls| <= |w.calls|
    && (forall s :: 0 <= s < |v.subs| ==> PrefixOf(w, s) == PrefixOf(v, s) && (IsReady(v, s) ==> IsReady(w, s)))
    && (forall i :: 0 <= i < |v.calls| ==> w.calls[i].key == v.calls[i].key)
  }

  lemma ExtendsStep(w: World, a: Action)
    requires Invariant(w) && Enabled(w, a)
    ensures Invariant(Apply(w, a)) && Extends(w, Apply(w, a))
  {
    InvariantStep(w, a);
  }

  /** What call `i` still owes subscription `s`. */
  ghost predicate Covered(w: World, i: nat, s: nat)
    requires Invariant(w) && i < |w.calls| && s < |w.subs|
  {
    PrefixOf(w, s) <= w.calls[i].key && !IsReady(w, s) ==>
      match w.calls[i].phase
      case Started => true
      case Scanned(found) => PrefixOf(w, s) in found
      case Removing(left) => PrefixOf(w, s) in left
      case Returned => false
  }

  lemma CoveredStep(w: World, a: Action, i: nat, s: nat)
    requires Invariant(w) && Enabled(w, a) && i < |w.calls| && s < |w.subs| && Covered(w, i, s)
    ensures Invariant(Apply(w, a)) && Covered(Apply(w, a), i, s)
  {
    ExtendsStep(w, a);
    assert ChannelValid(w.hub, w.subs[s]);
    if a == Scan(i) { TriggeredExact(w.hub.table, w.calls[i].key, |w.calls[i].key|); }
    if a == RemoveOne(i) {
      var left := w.calls[i].phase.left;
      assert left == [left[0]] + left[1..];
    }
  }

  lemma {:induction false} CoveredUntil(ws: seq<World>, actions: seq<Action>, t: nat, u: nat, i: nat, s: nat)
    requires Run(ws, actions) && t < u < |ws| && s < |ws[t].subs|
    requires i == |ws[t].calls| < |ws[t + 1].calls|
    ensures Invariant(ws[t]) && Invariant(ws[u]) && Extends(ws[t], ws[u])
    ensures i < |ws[u].calls| && Covered(ws[u], i, s)
  {
    InvariantAlways(ws, actions, t);
    InvariantAlways(ws, actions, u);
    if u == t + 1 {
      ExtendsStep(ws[t], actions[t]);
    } else {
      CoveredUntil(ws, actions, t, u - 1, i, s);
      ExtendsStep(ws[u - 1], actions[u - 1]);
      CoveredStep(ws[u - 1], actions[u - 1], i, s);
    }
  }

  /** No lost wake-up: a subscription made before a call of `wake` starts, to a prefix of its key,
      is ready once the call has returned, whatever the other callers do meanwhile. */
  lemma NoLostWakeup(ws: seq<World>, actions: seq<Action>, t: nat, u: nat, key: Key, s: nat)
    requires Run(ws, actions) && t < u < |ws| && s < |ws[t].subs| && actions[t] == Wake(key)
    requires var i := |ws[t].calls|; i < |ws[u].calls| && ws[u].calls[i].phase.Returned?
    requires ws[t].subs[s] < |ws[t].hub.chans| && PrefixOf(ws[t], s) <= key
    ensures s < |ws[u].subs| && ws[u].subs[s] < |ws[u].hub.chans| && IsReady(ws[u], s)
  {
    var i := |ws[t].calls|;
    CoveredUntil(ws, actions, t, u, i, s);
    CoveredUntil(ws, actions, t, t + 1, i, s);
    CallKeeps(ws, actions, t + 1, u, i);
  }

  lemma {:induction false} CallKeeps(ws: seq<World>, actions: seq<Action>, t: nat, u: nat, i: nat)
    requires Run(ws, actions) && t <= u < |ws| && i < |ws[t].calls|
    ensures i < |ws[u].calls| && ws[u].calls[i].key == ws[t].calls[i].key
  {
    if t < u {
      CallKeeps(ws, actions, t, u - 1, i);
    }
  }

  /** Every prefix a call removes is a prefix of its key. */
  ghost predicate CallsRemovePrefixes(w: World)
  {
    forall i :: 0 <= i < |w.calls| ==> AllPrefixes(Owed(w.calls[i].phase), w.calls[i].key)
  }

  ghost predicate AllPrefixes(ps: seq<Key>, key: Key)
  {
    forall k :: 0 <= k < |ps| ==> ps[k] <= key
  }

  /** What a call has yet to remove. */
  function Owed(phase: Phase): seq<Key>
  {
    match phase
    case Scanned(found) => found
    case Removing(left) => left
    case Started | Returned => []
  }

  lemma TriggeredArePrefixes(table: map<Key, nat>, key: Key)
    ensures AllPrefixes(Triggered(table, key, |key|), key)
  {
    TriggeredExact(table, key, |key|);
    var ps := Triggered(table, key, |key|);
    forall k | 0 <= k < |ps| ensures ps[k] <= key {
      assert ps[k] in ps;
    }
  }

  lemma {:induction false} CallsRemovePrefixesAlways(ws: seq<World>, actions: seq<Action>, t: nat)
    requires Run(ws, actions) && t < |ws|
    ensures CallsRemovePrefixes(ws[t])
  {
    if t > 0 {
      CallsRemovePrefixesAlways(ws, actions, t - 1);
      var (v, a) := (ws[t - 1], actions[t - 1]);
      assert Enabled(v, a) && ws[t] == Apply(v, a);
      if a.Scan? { TriggeredArePrefixes(v.hub.table, v.calls[a.call].key); }
    }
  }

  /** No spurious wake-up: a subscription becomes ready only by the removal step of a call of
      `wake` whose key extends its prefix. */
  lemma NoSpuriousWakeup(ws: seq<World>, actions: seq<Action>, t: nat, s: nat)
    requires Run(ws, actions) && t + 1 < |ws| && s < |ws[t].subs|
    requires ws[t].subs[s] < |ws[t].hub.chans| && !IsReady(ws[t], s)
    requires s < |ws[t + 1].subs| && ws[t + 1].subs[s] < |ws[t + 1].hub.chans| && IsReady(ws[t + 1], s)
    ensures actions[t].RemoveOne? && actions[t].call < |ws[t].calls|
    ensures PrefixOf(ws[t], s) <= ws[t].calls[actions[t].call].key
  {
    InvariantAlways(ws, actions, t);
    CallsRemovePrefixesAlways(ws, actions, t);
    assert ChannelValid(ws[t].hub, ws[t].subs[s]);
    assert ws[t + 1] == Apply(ws[t], actions[t]);
    if actions[t].RemoveOne? {
      assert AllPrefixes(Owed(ws[t].calls[actions[t].call].phase), ws[t].calls[actions[t].call].key);
    }
  }

  /** The write lock: at most one call is ever removing. */
  ghost predicate LockValid(w: World)
  {
    && (w.locked <==> exists i :: 0 <= i < |w.calls| && w.calls[i].phase.Removing?)
    && (forall i, j :: 0 <= i < j < |w.calls| ==> !(w.calls[i].phase.Removing? && w.calls[j].phase.Removing?))
  }

  lemma {:induction false} AtMostOneRemoves(ws: seq<World>, actions: seq<Action>, t: nat)
    requires Run(ws, actions) && t < |ws|
    ensures LockValid(ws[t])
  {
    if t > 0 {
      AtMostOneRemoves(ws, actions, t - 1);
      LockStep(ws[t - 1], actions[t - 1]);
    }
  }

  lemma LockStep(v: World, a: Action)
    requires LockValid(v) && Enabled(v, a)
    ensures LockValid(Apply(v, a))
  {
    var w := Apply(v, a);
    if a.Lock? || a.RemoveOne? { assert w.calls[a.call].phase.Removing?; }
    if i :| 0 <= i < |v.calls| && v.calls[i].phase.Removing? {
      assert a != Unlock(i) ==> w.calls[i].phase.Removing?;
    }
  }

  /** A new subscription waits, for the prefix that it was made with. */
  lemma WatchMeans(ws: seq<World>, actions: seq<Action>, t: nat, prefix: Key)
    requires Run(ws, actions) && t < |actions| && actions[t] == Watch(prefix)
    ensures var (w, s) := (ws[t + 1], |ws[t].subs|);
      |w.subs| == s + 1 && w.subs[s] < |w.hub.chans| && PrefixOf(w, s) == prefix && !IsReady(w, s)
  {
    InvariantAlways(ws, actions, t);
    InvariantAlways(ws, actions, t + 1);
    assert Enabled(ws[t], actions[t]) && ws[t + 1] == Apply(ws[t], actions[t]);
    assert ChannelValid(ws[t + 1].hub, ws[t + 1].subs[|ws[t].subs|]);
  }

  lemma {:induction false} FoundSomething(ws: seq<World>, actions: seq<Action>, t: nat, i: nat)
    requires Run(ws, actions) && t < |ws| && i < |ws[t].calls| && ws[t].calls[i].phase.Scanned?
    ensures ws[t].calls[i].phase.found != []
  {
    if t > 0 {
      var (v, a) := (ws[t - 1], actions[t - 1]);
      assert Enabled(v, a) && ws[t] == Apply(v, a);
      if i < |v.calls| && v.calls[i].phase.Scanned? { FoundSomething(ws, actions, t - 1, i); }
    }
  }

  /** No deadlock: as long as a call has not returned, some call can go on. */
  lemma NoDeadlock(ws: seq<World>, actions: seq<Action>, t: nat, i: nat) returns (a: Action)
    requires Run(ws, actions) && t < |ws| && i < |ws[t].calls| && !ws[t].calls[i].phase.Returned?
    ensures (a.Scan? || a.Lock? || a.RemoveOne? || a.Unlock?) && Enabled(ws[t], a)
  {
    AtMostOneRemoves(ws, actions, t);
    var w := ws[t];
    if w.locked {
      var j :| 0 <= j < |w.calls| && w.calls[j].phase.Removing?;
      a := if w.calls[j].phase.left == [] then Unlock(j) else RemoveOne(j);
    } else if w.calls[i].phase.Started? {
      a := Scan(i);
    } else {
      assert !w.calls[i].phase.Removing?;
      FoundSomething(ws, actions, t, i);
      a := Lock(i);
    }
  }
}
