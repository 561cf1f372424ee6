/** Shutdown, restart and reload compete over three atomic flags. */
module Lifecycle {
  datatype Flags = Flags(stopping: bool, reloading: bool, restarting: bool)

  datatype Kind = Shutdown | Restart | Reload

  // ---------------------------------------------------------------- one caller alone

  /** The effect of a call that nothing interferes with. `delivered` says whether the signal found
      a receiver. */
  function Alone(kind: Kind, f: Flags, delivered: bool): (r: (Flags, bool))
  {
    match kind
    case Shutdown =>
      if f.stopping || !delivered then (f, false) else (f.(stopping := true), true)
    case Restart =>
      if f.restarting || f.stopping || !delivered then (f, false)
      else (f.(stopping := true, restarting := true), true)
    case Reload =>
      if f.reloading then (f, false)
      else if f.stopping then (f.(reloading := true), false)
      else if !delivered then (f, false)
      else (f.(stopping := true, reloading := true), true)
  }

  /** A call succeeds if and only if its signal is delivered, the server is not stopping, and no call of its
      kind is under way; then the server is stopping, and marked as restarting or reloading. */
  lemma AloneSucceeds(kind: Kind, f: Flags, delivered: bool)
    ensures var (g, ok) := Alone(kind, f, delivered);
      && (ok <==> delivered && !f.stopping && !(kind == Restart && f.restarting) && !(kind == Reload && f.reloading))
      && (ok ==> g == Flags(true, f.reloading || kind == Reload, f.restarting || kind == Restart))
  {
  }

  /** A failed call leaves the flags as they were, except exactly a reload that finds the server
      stopping: it leaves `reloading` set. */
  lemma AloneUndoes(kind: Kind, f: Flags, delivered: bool)
    requires !Alone(kind, f, delivered).1
    ensures Alone(kind, f, delivered).0 == f <==> !(kind == Reload && f.stopping && !f.reloading)
  {
    assert f.(reloading := true) == f <==> f.reloading;
  }

  /** A reload of a stopping server fails and leaves a flag set that was not set before. */
  lemma RefusedReloadStays(delivered: bool)
    ensures Alone(Reload, Flags(true, false, false), delivered) == (Flags(true, true, false), false)
  {
  }

  class Server {
    var stopping: bool
    var reloading: bool
    var restarting: bool

    ghost function Value(): Flags
      reads this
    {
      Flags(stopping, reloading, restarting)
    }

    constructor ()
      ensures Value() == Flags(false, false, false)
    {
      stopping, reloading, restarting := false, false, false;
    }

    method Shutdown(delivered: bool) returns (ok: bool)
      modifies this
      ensures (Value(), ok) == Alone(Kind.Shutdown, old(Value()), delivered)
    {
      var was := stopping;
      stopping := true;
      if was {
        return false;
      }
      ok := delivered;
      if !ok { stopping := false; }
    }

    method Restart(delivered: bool) returns (ok: bool)
      modifies this
      ensures (Value(), ok) == Alone(Kind.Restart, old(Value()), delivered)
    {
      var was := restarting;
      restarting := true;
      if was {
        return false;
      }
      ok := Shutdown(delivered);
      if !ok { restarting := false; }
    }

    method Reload(delivered: bool) returns (ok: bool)
      modifies this
      ensures (Value(), ok) == Alone(Kind.Reload, old(Value()), delivered)
    {
      var was := reloading;
      reloading := true;
      if was {
        return false;
      }
      was := stopping;
      stopping := true;
      if was {
        return false;
      }
      ok := delivered;
      if !ok {
        stopping := false;
        reloading := false;
      }
    }
  }

  // ---------------------------------------------------------------- any number of callers at once

  /** Where a call stands, between two of its atomic operations. `Refused` and `Failed` are both
      errors to the caller; `Refused` is the one that met `stopping` already set in a reload. */
  datatype Pc = Begin | TakeStopping | Signal | PutStopping | PutMark | Ok | Failed | Refused

  datatype Call = Call(kind: Kind, pc: Pc)

  datatype World = World(flags: Flags, calls: seq<Call>)

  const INITIAL := World(Flags(false, false, false), [])

  datatype Action = Enter(kind: Kind) | Step(call: nat, delivered: bool)

  predicate Finished(c: Call)
  {
    c.pc in {Ok, Failed, Refused}
  }

  predicate Enabled(w: World, a: Action)
  {
    a.Step? ==> a.call < |w.calls| && !Finished(w.calls[a.call])
  }

  /** One atomic operation of a call. */
  function Advance(f: Flags, c: Call, delivered: bool): (r: (Flags, Pc))
    requires !Finished(c)
  {
    match c.pc
    case Begin => (match c.kind
      case Shutdown => TrySwapStopping(f, c)
      case Restart => (f.(restarting := true), if f.restarting then Failed else TakeStopping)
      case Reload => (f.(reloading := true), if f.reloading then Failed else TakeStopping))
    case TakeStopping => TrySwapStopping(f, c)
    case Signal => (f, if delivered then Ok else PutStopping)
    case PutStopping => (f.(stopping := false), if c.kind == Shutdown then Failed else PutMark)
    case PutMark =>
      (if c.kind == Restart then f.(restarting := false) else f.(reloading := false), Failed)
    case Ok | Failed | Refused => (f, c.pc)
  }

  function TrySwapStopping(f: Flags, c: Call): (Flags, Pc)
  {
    (f.(stopping := true),
     if !f.stopping then Signal
     else match c.kind case Shutdown => Failed case Restart => PutMark case Reload => Refused)
  }

  function Apply(w: World, a: Action): World
    requires Enabled(w, a)
  {
    match a
    case Enter(kind) => w.(calls := w.calls + [Call(kind, Begin)])
    case Step(i, delivered) =>
      var (f, pc) := Advance(w.flags, w.calls[i], delivered);
      World(f, w.calls[i := w.calls[i].(pc := pc)])
  }

  ghost predicate Run(ws: seq<World>, actions: seq<Action>)
  {
    |ws| == |actions| + 1 && ws[0] == INITIAL &&
    forall t :: 0 <= t < |actions| ==> Enabled(ws[t], actions[t]) && ws[t + 1] == Apply(ws[t], actions[t])
  }

  /** The calls a flag belongs to: the one that set it and has neither lost nor returned it. */
  predicate OwnsStopping(c: Call)
  {
    c.pc in {Signal, PutStopping, Ok}
  }

  predicate OwnsRestarting(c: Call)
  {
    c.kind == Restart && c.pc in {TakeStopping, Signal, PutStopping, PutMark, Ok}
  }

  predicate OwnsReloading(c: Call)
  {
    c.kind == Reload && c.pc in {TakeStopping, Signal, PutStopping, PutMark, Ok, Refused}
  }

  /** A flag is set exactly when a call owns it, and then one call does. */
  ghost predicate Owned(flag: bool, owns: Call -> bool, calls: seq<Call>)
  {
    && (forall i :: 0 <= i < |calls| && owns(calls[i]) ==> flag)
    && (flag ==> exists i :: 0 <= i < |calls| && owns(calls[i]))
    && (forall i, j :: 0 <= i < j < |calls| ==> !(owns(calls[i]) && owns(calls[j])))
  }

  ghost predicate Invariant(w: World)
  {
    && Owned(w.flags.stopping, OwnsStopping, w.calls)
    && Owned(w.flags.restarting, OwnsRestarting, w.calls)
    && Owned(w.flags.reloading, OwnsReloading, w.calls)
    && forall i :: 0 <= i < |w.calls| ==> PcValid(w.calls[i])
  }

  /** The program counters that a call of its kind can have. */
  predicate PcValid(c: Call)
  {
    && (c.kind == Shutdown ==> c.pc !in {TakeStopping, PutMark})
    && (c.pc == Refused ==> c.kind == Reload)
  }

  lemma OwnedAfterUpdate(flag: bool, flag': bool, owns: Call -> bool, calls: seq<Call>, i: nat, c: Call)
    requires Owned(flag, owns, calls) && i < |calls|
    requires owns(c) ==> flag' && (flag ==> owns(calls[i]))
    requires !owns(c) ==> flag' == (flag && !owns(calls[i]))
    ensures Owned(flag', owns, calls[i := c])
  {
    var next := calls[i := c];
    if owns(c) {
      assert owns(next[i]);
    } else if flag' {
      var j :| 0 <= j < |calls| && owns(calls[j]);
      assert owns(next[j]);
    }
  }

  lemma OwnedAfterEnter(flag: bool, owns: Call -> bool, calls: seq<Call>, c: Call)
    requires Owned(flag, owns, calls) && !owns(c)
    ensures Owned(flag, owns, calls + [c])
  {
    if flag {
      var j :| 0 <= j < |calls| && owns(calls[j]);
      assert owns((calls + [c])[j]);
    }
  }

  lemma StoppingStep(w: World, a: Action)
    requires Owned(w.flags.stopping, OwnsStopping, w.calls) && Enabled(w, a)
    ensures Owned(Apply(w, a).flags.stopping, OwnsStopping, Apply(w, a).calls)
  {
    var v := Apply(w, a);
    match a
    case Enter(kind) => OwnedAfterEnter(w.flags.stopping, OwnsStopping, w.calls, Call(kind, Begin));
    case Step(i, _) =>
      OwnedAfterUpdate(w.flags.stopping, v.flags.stopping, OwnsStopping, w.calls, i, v.calls[i]);
  }

  lemma RestartingStep(w: World, a: Action)
    requires Owned(w.flags.restarting, OwnsRestarting, w.calls) && Enabled(w, a)
    requires a.Step? ==> PcValid(w.calls[a.call])
    ensures Owned(Apply(w, a).flags.restarting, OwnsRestarting, Apply(w, a).calls)
  {
    var v := Apply(w, a);
    match a
    case Enter(kind) => OwnedAfterEnter(w.flags.restarting, OwnsRestarting, w.calls, Call(kind, Begin));
    case Step(i, _) =>
      OwnedAfterUpdate(w.flags.restarting, v.flags.restarting, OwnsRestarting, w.calls, i, v.calls[i]);
  }

  lemma ReloadingStep(w: World, a: Action)
    requires Owned(w.flags.reloading, OwnsReloading, w.calls) && Enabled(w, a)
    requires a.Step? ==> PcValid(w.calls[a.call])
    ensures Owned(Apply(w, a).flags.reloading, OwnsReloading, Apply(w, a).calls)
  {
    var v := Apply(w, a);
    match a
    case Enter(kind) => OwnedAfterEnter(w.flags.reloading, OwnsReloading, w.calls, Call(kind, Begin));
    case Step(i, _) =>
      OwnedAfterUpdate(w.flags.reloading, v.flags.reloading, OwnsReloading, w.calls, i, v.calls[i]);
  }

  lemma InvariantStep(w: World, a: Action)
    requires Invariant(w) && Enabled(w, a)
    ensures Invariant(Apply(w, a))
  {
    StoppingStep(w, a);
    RestartingStep(w, a);
    ReloadingStep(w, a);
  }

  /** In every reachable state each set flag has exactly one owning call. */
  lemma {:induction false} FlagsOwned(ws: seq<World>, actions: seq<Action>, t: nat)
    requires Run(ws, actions) && t < |ws|
    ensures Invariant(ws[t])
  {
    if t > 0 {
      FlagsOwned(ws, actions, t - 1);
      InvariantStep(ws[t - 1], actions[t - 1]);
    } else {
      assert INITIAL.calls == [];
    }
  }

  /** At most one call ever succeeds, and from then on the server stays stopping. */
  lemma AtMostOneSucceeds(ws: seq<World>, actions: seq<Action>, t: nat, u: nat, i: nat, j: nat)
    requires Run(ws, actions) && t <= u < |ws| && i < |ws[t].calls| && j < |ws[u].calls|
    requires ws[t].calls[i].pc == Ok && ws[u].calls[j].pc == Ok
    ensures i == j && ws[u].flags.stopping
  {
    OkStays(ws, actions, t, u, i);
    FlagsOwned(ws, actions, u);
    assert OwnsStopping(ws[u].calls[i]) && OwnsStopping(ws[u].calls[j]);
  }

  lemma {:induction false} OkStays(ws: seq<World>, actions: seq<Action>, t: nat, u: nat, i: nat)
    requires Run(ws, actions) && t <= u < |ws| && i < |ws[t].calls| && ws[t].calls[i].pc == Ok
    ensures i < |ws[u].calls| && ws[u].calls[i].pc == Ok
  {
    if t < u {
      OkStays(ws, actions, t, u - 1, i);
      assert ws[u] == Apply(ws[u - 1], actions[u - 1]);
    }
  }

  /** A step of one call never clears a flag that another call owns. */
  lemma UndoOnlyOwn(ws: seq<World>, actions: seq<Action>, t: nat, j: nat)
    requires Run(ws, actions) && t < |actions| && j < |ws[t].calls|
    requires actions[t].Step? ==> actions[t].call != j
    ensures OwnsStopping(ws[t].calls[j]) ==> ws[t + 1].flags.stopping
    ensures OwnsRestarting(ws[t].calls[j]) ==> ws[t + 1].flags.restarting
    ensures OwnsReloading(ws[t].calls[j]) ==> ws[t + 1].flags.reloading
  {
    FlagsOwned(ws, actions, t + 1);
    assert ws[t + 1] == Apply(ws[t], actions[t]);
    assert ws[t + 1].calls[j] == ws[t].calls[j];
  }

  ghost predicate Quiescent(w: World)
  {
    forall i :: 0 <= i < |w.calls| ==> Finished(w.calls[i])
  }

  lemma QuiescentStopping(f: Flags, cs: seq<Call>)
    requires Owned(f.stopping, OwnsStopping, cs) && forall i :: 0 <= i < |cs| ==> Finished(cs[i]) && PcValid(cs[i])
    ensures f.stopping <==> exists i :: 0 <= i < |cs| && cs[i].pc == Ok
  {
    if i :| 0 <= i < |cs| && cs[i].pc == Ok { assert OwnsStopping(cs[i]); }
  }

  lemma QuiescentRestarting(f: Flags, cs: seq<Call>)
    requires Owned(f.restarting, OwnsRestarting, cs) && Owned(f.stopping, OwnsStopping, cs)
    requires forall i :: 0 <= i < |cs| ==> Finished(cs[i]) && PcValid(cs[i])
    ensures f.restarting <==> exists i :: 0 <= i < |cs| && cs[i] == Call(Restart, Ok)
    ensures f.restarting ==> f.stopping && !exists i :: 0 <= i < |cs| && cs[i].pc == Ok && cs[i].kind != Restart
  {
    if i :| 0 <= i < |cs| && cs[i] == Call(Restart, Ok) { assert OwnsRestarting(cs[i]); }
    if f.restarting {
      var i :| 0 <= i < |cs| && OwnsRestarting(cs[i]);
      assert Finished(cs[i]) && OwnsStopping(cs[i]);
      assert forall j :: 0 <= j < |cs| && cs[j].pc == Ok ==> OwnsStopping(cs[j]);
    }
  }

  lemma QuiescentReloading(f: Flags, cs: seq<Call>)
    requires Owned(f.reloading, OwnsReloading, cs) && forall i :: 0 <= i < |cs| ==> Finished(cs[i]) && PcValid(cs[i])
    ensures f.reloading <==> exists i :: 0 <= i < |cs| && cs[i].kind == Reload && cs[i].pc in {Ok, Refused}
  {
    if i :| 0 <= i < |cs| && cs[i].kind == Reload && cs[i].pc in {Ok, Refused} { assert OwnsReloading(cs[i]); }
  }

  /** Once every call has returned, the server is stopping exactly when some call succeeded, it will
      restart exactly when that call was a restart (so never without stopping), and `reloading` is
      set exactly when a reload succeeded or was refused because the server was already stopping. */
  lemma AtQuiescence(ws: seq<World>, actions: seq<Action>, t: nat)
    requires Run(ws, actions) && t < |ws| && Quiescent(ws[t])
    ensures var (f, cs) := (ws[t].flags, ws[t].calls);
      && (f.stopping <==> exists i :: 0 <= i < |cs| && cs[i].pc == Ok)
      && (f.restarting <==> exists i :: 0 <= i < |cs| && cs[i] == Call(Restart, Ok))
      && (f.reloading <==> exists i :: 0 <= i < |cs| && cs[i].kind == Reload && cs[i].pc in {Ok, Refused})
      && (f.restarting ==> f.stopping && !exists i :: 0 <= i < |cs| && cs[i].pc == Ok && cs[i].kind != Restart)
  {
    FlagsOwned(ws, actions, t);
    var (f, cs) := (ws[t].flags, ws[t].calls);
    QuiescentStopping(f, cs);
    QuiescentRestarting(f, cs);
    QuiescentReloading(f, cs);
  }

  /** How many operations a call has left at most, whatever the others do. */
  function Remaining(c: Call): nat
  {
    match c.pc
    case Begin => 5
    case TakeStopping => 4
    case Signal => 3
    case PutStopping => 2
    case PutMark => 1
    case Ok | Failed | Refused => 0
  }

  /** All the steps of one call in a row. */
  function RunAlone(f: Flags, c: Call, delivered: bool): (Flags, Pc)
    decreases Remaining(c)
  {
    if Finished(c) then (f, c.pc) else
      var (g, pc) := Advance(f, c, delivered);
      RunAlone(g, c.(pc := pc), delivered)
  }

  /** Uninterrupted, the steps of a call amount to the call. */
  lemma StepsMatchCall(kind: Kind, f: Flags, delivered: bool)
    ensures var (g, pc) := RunAlone(f, Call(kind, Begin), delivered);
      Finished(Call(kind, pc)) && (g, pc == Ok) == Alone(kind, f, delivered)
  {
    var (f1, p1) := Advance(f, Call(kind, Begin), delivered);
    if !Finished(Call(kind, p1)) {
      var (f2, p2) := Advance(f1, Call(kind, p1), delivered);
      if !Finished(Call(kind, p2)) {
        var (f3, p3) := Advance(f2, Call(kind, p2), delivered);
        assert RunAlone(f2, Call(kind, p2), delivered) == RunAlone(f3, Call(kind, p3), delivered);
      }
      assert RunAlone(f1, Call(kind, p1), delivered) == RunAlone(f2, Call(kind, p2), delivered);
    }
  }

  // ---------------------------------------------------------------- when every signal is delivered

  /** No call has its signal fail, and one has failed only if the server is stopping or a call is about to
      make it stop. */
  ghost predicate Delivering(w: World)
  {
    && (forall i :: 0 <= i < |w.calls| ==> w.calls[i].pc != PutStopping)
    && (forall i :: 0 <= i < |w.calls| && w.calls[i].pc in {PutMark, Failed, Refused} ==> w.flags.stopping || SomeTaking(w))
  }

  ghost predicate SomeTaking(w: World)
  {
    exists j :: 0 <= j < |w.calls| && w.calls[j].pc == TakeStopping
  }

  lemma TakingStep(w: World, a: Action)
    requires Invariant(w) && Delivering(w) && Enabled(w, a) && (a.Step? ==> a.delivered)
    requires w.flags.stopping || SomeTaking(w)
    ensures Apply(w, a).flags.stopping || SomeTaking(Apply(w, a))
  {
    var v := Apply(w, a);
    if !w.flags.stopping {
      var j :| 0 <= j < |w.calls| && w.calls[j].pc == TakeStopping;
      if a.Step? && a.call == j {
        assert v.flags.stopping;
      } else {
        assert v.calls[j].pc == TakeStopping;
      }
    }
  }

  /** A call that fails at once has met a flag whose owner has stopped the server or is about to. */
  lemma FailedAtOnce(w: World, i: nat)
    requires Invariant(w) && Delivering(w) && i < |w.calls| && w.calls[i].pc == Begin
    requires (w.calls[i].kind == Restart && w.flags.restarting) || (w.calls[i].kind == Reload && w.flags.reloading)
    ensures w.flags.stopping || SomeTaking(w)
  {
    if w.calls[i].kind == Restart {
      var j :| 0 <= j < |w.calls| && OwnsRestarting(w.calls[j]);
      assert w.calls[j].pc in {Signal, Ok} ==> OwnsStopping(w.calls[j]);
    } else {
      var j :| 0 <= j < |w.calls| && OwnsReloading(w.calls[j]);
      assert w.calls[j].pc in {Signal, Ok} ==> OwnsStopping(w.calls[j]);
    }
  }

  lemma DeliveringStep(w: World, a: Action)
    requires Invariant(w) && Delivering(w) && Enabled(w, a) && (a.Step? ==> a.delivered)
    ensures Delivering(Apply(w, a))
  {
    var v := Apply(w, a);
    if w.flags.stopping || SomeTaking(w) {
      TakingStep(w, a);
    } else if a.Step? {
      var c := w.calls[a.call];
      if c.pc == Begin && ((c.kind == Restart && w.flags.restarting) || (c.kind == Reload && w.flags.reloading)) {
        FailedAtOnce(w, a.call);
      }
    }
    forall i | 0 <= i < |v.calls| && v.calls[i].pc in {PutMark, Failed, Refused}
      ensures v.flags.stopping || SomeTaking(v)
    {
      if i < |w.calls| && v.calls[i] == w.calls[i] { assert w.calls[i].pc in {PutMark, Failed, Refused}; }
    }
  }

  lemma {:induction false} DeliveringAlways(ws: seq<World>, actions: seq<Action>, t: nat)
    requires Run(ws, actions) && t < |ws|
    requires forall u :: 0 <= u < t && actions[u].Step? ==> actions[u].delivered
    ensures Delivering(ws[t])
  {
    if t > 0 {
      DeliveringAlways(ws, actions, t - 1);
      FlagsOwned(ws, actions, t - 1);
      DeliveringStep(ws[t - 1], actions[t - 1]);
    }
  }

  /** If every signal is delivered, then of calls that have all returned exactly one has succeeded. */
  lemma OneSucceeds(ws: seq<World>, actions: seq<Action>, t: nat) returns (i: nat)
    requires Run(ws, actions) && t < |ws| && Quiescent(ws[t]) && ws[t].calls != []
    requires forall u :: 0 <= u < t && actions[u].Step? ==> actions[u].delivered
    ensures i < |ws[t].calls| && ws[t].calls[i].pc == Ok
    ensures forall j :: 0 <= j < |ws[t].calls| && j != i ==> ws[t].calls[j].pc != Ok
  {
    DeliveringAlways(ws, actions, t);
    AtQuiescence(ws, actions, t);
    var w := ws[t];
    assert Finished(w.calls[0]);
    if w.calls[0].pc == Ok {
      i := 0;
    } else {
      assert !SomeTaking(w);
      i :| 0 <= i < |w.calls| && w.calls[i].pc == Ok;
    }
    forall j | 0 <= j < |w.calls| && w.calls[j].pc == Ok ensures j == i { AtMostOneSucceeds(ws, actions, t, t, i, j); }
  }
}
