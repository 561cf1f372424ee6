/** The hot-reload loop of dynamic builds: which modules are loaded, and whether services are held. */
module HotReload {
  import opened Collections

  const MODULE_NAMES: seq<string> :=
    ["conduwuit_database", "conduwuit_service", "conduwuit_api", "conduwuit_admin", "conduwuit_router"]

  /** Position of "conduwuit_service": services survive a reload only of modules after it. */
  const RESTART_THRESH := 1

  /** Whether a module's file was deleted, which asks for it to be reloaded; the question can fail. */
  datatype Deleted = No | Yes | Unknown

  /** What the outside does in one iteration: which loads succeed, whether start, run and stop
      succeed, whether a reload was requested, and the module files' state seen by `run` and then
      by `close`. */
  datatype Round = Round(
    loads: seq<bool>,
    startOk: bool,
    runOk: bool,
    reload: bool,
    atRun: seq<Deleted>,
    stopFound: bool,
    stopOk: bool,
    atClose: seq<Deleted>)

  predicate RoundValid(r: Round)
  {
    |r.loads| == |r.atRun| == |r.atClose| == |MODULE_NAMES|
  }

  // ---------------------------------------------------------------- what the steps compute

  function OpenTo(mods: seq<string>, loads: seq<bool>): (r: (bool, seq<string>))
    requires |loads| == |MODULE_NAMES|
    decreases |MODULE_NAMES| - |mods|
  {
    if |mods| >= |MODULE_NAMES| then (true, mods)
    else if !loads[|mods|] then (false, mods)
    else OpenTo(mods + [MODULE_NAMES[|mods|]], loads)
  }

  /** The first deleted module from `i` on, or their number; nothing when asking fails first. */
  function Stale(deleted: seq<Deleted>, i: nat, n: nat): (r: Option<nat>)
    requires i <= n <= |deleted|
    ensures r.Some? ==> i <= r.value <= n && forall k :: i <= k < r.value ==> deleted[k] == No
    ensures r.Some? && r.value < n ==> deleted[r.value] == Yes
    decreases n - i
  {
    if i == n then Some(n) else
    match deleted[i]
    case Yes => Some(i)
    case Unknown => None
    case No => Stale(deleted, i + 1, n)
  }

  /** How many modules stay loaded, and whether asking about them succeeded. */
  function CloseTo(force: bool, deleted: seq<Deleted>, n: nat): (r: (bool, nat))
    requires n <= |deleted|
    ensures r.1 <= n
    ensures force ==> r == (true, 0)
    ensures !force && r.0 ==> (forall k :: r.1 <= k < n ==> deleted[k] == Yes) && (r.1 > 0 ==> deleted[r.1 - 1] == No)
  {
    if n == 0 then (true, 0)
    else if force || deleted[n - 1] == Yes then CloseTo(force, deleted, n - 1)
    else (deleted[n - 1] == No, n)
  }

  /** The end of `run`: flags for the loop, an error, or a failed `expect`. */
  datatype Ran = RanOk(services: bool, starts: bool, reloads: bool) | RanErr(services: bool) | RanPanic

  function RunOnce(mods: seq<string>, services: bool, starts: bool, r: Round): Ran
    requires RoundValid(r) && |mods| <= |MODULE_NAMES|
  {
    if mods == [] then RanPanic
    else if starts && !r.startOk then RanErr(services)
    else if !(services || starts) then RanPanic
    else if !r.runOk then RanErr(true)
    else
      var stale := if r.reload then Stale(r.atRun, 0, |mods|) else Some(0);
      if stale.None? then RanErr(true)
      else if r.reload && stale.value > RESTART_THRESH then RanOk(true, false, true)
      else if !r.stopFound then RanErr(true)
      else if !r.stopOk then RanErr(false)
      else RanOk(false, r.reload, r.reload)
  }

  /** The state at the head of the loop. */
  datatype Head = Head(mods: seq<string>, services: bool, starts: bool)

  datatype Exit = Continue(head: Head) | Stopped(mods: seq<string>, services: bool) | Errored | Panicked

  function Iterate(h: Head, r: Round): Exit
    requires RoundValid(r) && |h.mods| <= |MODULE_NAMES|
  {
    var (loaded, mods) := OpenTo(h.mods, r.loads);
    OpenLength(h.mods, r.loads);
    if !loaded then Errored else
    match RunOnce(mods, h.services, h.starts, r)
    case RanPanic => Panicked
    case RanErr(_) => Errored
    case RanOk(services, starts, reloads) =>
      var (closed, n) := CloseTo(!reloads, r.atClose, |mods|);
      if !closed then Errored
      else if reloads then Continue(Head(mods[..n], services, starts))
      else Stopped(mods[..n], services)
  }

  lemma {:induction false} OpenLength(mods: seq<string>, loads: seq<bool>)
    requires |loads| == |MODULE_NAMES| && |mods| <= |MODULE_NAMES|
    ensures |OpenTo(mods, loads).1| <= |MODULE_NAMES|
    ensures OpenTo(mods, loads).0 ==> |OpenTo(mods, loads).1| == |MODULE_NAMES|
    decreases |MODULE_NAMES| - |mods|
  {
    if |mods| < |MODULE_NAMES| && loads[|mods|] {
      OpenLength(mods + [MODULE_NAMES[|mods|]], loads);
    }
  }

  /** The loop over any number of rounds. */
  function Loop(h: Head, rounds: seq<Round>): Exit
    requires |h.mods| <= |MODULE_NAMES| && forall k :: 0 <= k < |rounds| ==> RoundValid(rounds[k])
    decreases |rounds|
  {
    if rounds == [] then Continue(h) else
    match Iterate(h, rounds[0])
    case Continue(next) => IterateLength(h, rounds[0]); Loop(next, rounds[1..])
    case exit => exit
  }

  lemma IterateLength(h: Head, r: Round)
    requires RoundValid(r) && |h.mods| <= |MODULE_NAMES| && Iterate(h, r).Continue?
    ensures |Iterate(h, r).head.mods| <= |MODULE_NAMES|
  {
    OpenLength(h.mods, r.loads);
  }

  // ---------------------------------------------------------------- how they are computed

  class Server {
    var mods: seq<string>
    var services: bool
    var stopping: bool
    var reloading: bool

    constructor ()
      ensures mods == [] && !services && !stopping && !reloading
    {
      mods, services, stopping, reloading := [], false, false, false;
    }

    method Open(loads: seq<bool>) returns (ok: bool)
      requires |loads| == |MODULE_NAMES| && |mods| <= |MODULE_NAMES|
      modifies this`mods
      ensures (ok, mods) == OpenTo(old(mods), loads)
    {
      var i := 0;
      while i < |MODULE_NAMES|
        invariant i <= |MODULE_NAMES| && |mods| <= |MODULE_NAMES|
        invariant i <= |mods| && (i < |old(mods)| ==> mods == old(mods)) && (i >= |old(mods)| ==> |mods| == i)
        invariant OpenTo(mods, loads) == OpenTo(old(mods), loads)
      {
        if i >= |mods| {
          if !loads[i] {
            return false;
          }
          mods := mods + [MODULE_NAMES[i]];
        }
        i := i + 1;
      }
      ok := true;
    }

    /** One life of the server between two looks at its modules. */
    method Run(starts: bool, r: Round) returns (ran: Ran)
      requires RoundValid(r) && mods != [] && |mods| <= |MODULE_NAMES| && (services || starts)
      modifies this`services, this`stopping, this`reloading
      ensures ran == RunOnce(mods, old(services), starts, r) && !ran.RanPanic?
      ensures services == ran.services
      ensures ran.RanOk? ==> !stopping && !reloading
    {
      if starts {
        if !r.startOk {
          return RanErr(services);
        }
        services := true;
      }
      stopping := false;
      assert services; // "services initialized"
      if !r.runOk {
        return RanErr(services);
      }
      var reloads := r.reload;
      reloading := false;
      var stops := true;
      if reloads {
        var stale := StaleIndex(r.atRun);
        if stale.None? {
          return RanErr(services);
        }
        stops := stale.value <= RESTART_THRESH;
      }
      if stops {
        if !r.stopFound {
          return RanErr(services);
        }
        assert services; // "services initialized"
        services := false;
        if !r.stopOk {
          return RanErr(services);
        }
      }
      ran := RanOk(services, reloads && stops, reloads);
    }

    method StaleIndex(deleted: seq<Deleted>) returns (r: Option<nat>)
      requires |mods| <= |deleted|
      ensures r == Stale(deleted, 0, |mods|)
    {
      var i := 0;
      while i < |mods|
        invariant i <= |mods|
        invariant Stale(deleted, 0, |mods|) == Stale(deleted, i, |mods|)
      {
        if deleted[i] == Unknown {
          return None;
        }
        if deleted[i] == Yes {
          return Some(i);
        }
        i := i + 1;
      }
      r := Some(|mods|);
    }

    method Close(force: bool, deleted: seq<Deleted>) returns (ok: bool)
      requires |mods| <= |deleted|
      modifies this`mods
      ensures var (closed, n) := CloseTo(force, deleted, |old(mods)|); ok == closed && mods == old(mods)[..n]
    {
      while mods != []
        invariant |mods| <= |old(mods)| && mods == old(mods)[..|mods|]
        invariant CloseTo(force, deleted, |mods|) == CloseTo(force, deleted, |old(mods)|)
        decreases |mods|
      {
        if !force && deleted[|mods| - 1] == Unknown {
          return false;
        }
        if force || deleted[|mods| - 1] == Yes {
          mods := mods[..|mods| - 1];
        } else {
          break;
        }
      }
      ok := true;
    }
  }

  lemma LoopStep(h: Head, rounds: seq<Round>, i: nat)
    requires i < |rounds| && |h.mods| <= |MODULE_NAMES| && forall k :: 0 <= k < |rounds| ==> RoundValid(rounds[k])
    ensures var exit := Iterate(h, rounds[i]);
      if exit.Continue? then
        |exit.head.mods| <= |MODULE_NAMES| && Loop(h, rounds[i..]) == Loop(exit.head, rounds[i + 1..])
      else Loop(h, rounds[i..]) == exit
  {
    var rest := rounds[i..];
    assert rest[0] == rounds[i] && rest[1..] == rounds[i + 1..];
    if Iterate(h, rounds[i]).Continue? { IterateLength(h, rounds[i]); }
  }

  /** One iteration: open, run, close. */
  method Once(server: Server, starts: bool, r: Round) returns (exit: Exit)
    requires RoundValid(r) && |server.mods| <= |MODULE_NAMES| && (starts <==> !server.services)
    modifies server
    ensures exit == Iterate(Head(old(server.mods), old(server.services), starts), r)
    ensures exit.Continue? ==> exit.head == Head(server.mods, server.services, !server.services)
    ensures exit.Stopped? ==> exit == Stopped(server.mods, server.services)
  {
    OpenLength(server.mods, r.loads);
    var loaded := server.Open(r.loads);
    if !loaded {
      return Errored;
    }
    var ran := server.Run(starts, r);
    var reloads := true;
    if ran.RanOk? {
      reloads := ran.reloads;
    }
    var closed := server.Close(!reloads || ran.RanErr?, r.atClose);
    if !closed || ran.RanErr? {
      return Errored;
    }
    exit := if reloads then Continue(Head(server.mods, server.services, ran.starts))
            else Stopped(server.mods, server.services);
  }

  /** Operate the server over any number of rounds. None of the `expect`s in it can fail. */
  method AsyncMain(server: Server, rounds: seq<Round>) returns (exit: Exit)
    requires server.mods == [] && !server.services
    requires forall k :: 0 <= k < |rounds| ==> RoundValid(rounds[k])
    modifies server
    ensures exit == Loop(Head([], false, true), rounds)
    ensures exit.Continue? ==> exit.head == Head(server.mods, server.services, exit.head.starts)
    ensures exit.Stopped? ==> exit == Stopped(server.mods, server.services)
  {
    exit := Continue(Head([], false, true));
    ghost var whole := Loop(exit.head, rounds);
    var i := 0;
    assert rounds[0..] == rounds;
    while i < |rounds| && exit.Continue?
      invariant i <= |rounds|
      invariant exit.Continue? ==> |server.mods| <= |MODULE_NAMES|
      invariant exit.Continue? ==> exit.head == Head(server.mods, server.services, !server.services)
      invariant exit.Stopped? ==> exit == Stopped(server.mods, server.services)
      invariant whole == if exit.Continue? then Loop(exit.head, rounds[i..]) else exit
    {
      LoopStep(exit.head, rounds, i);
      exit := Once(server, exit.head.starts, rounds[i]);
      i := i + 1;
    }
  }

  // ---------------------------------------------------------------- what every run satisfies

  /** Services are held exactly when the next iteration will not start them, and the loaded modules
      are the first ones of the list, in order. */
  predicate HeadValid(h: Head)
  {
    (h.starts <==> !h.services) && h.mods <= MODULE_NAMES
  }

  lemma {:induction false} OpenInOrder(mods: seq<string>, loads: seq<bool>)
    requires |loads| == |MODULE_NAMES| && mods <= MODULE_NAMES
    ensures OpenTo(mods, loads).1 <= MODULE_NAMES
    ensures OpenTo(mods, loads).0 ==> OpenTo(mods, loads).1 == MODULE_NAMES
    decreases |MODULE_NAMES| - |mods|
  {
    if |mods| < |MODULE_NAMES| && loads[|mods|] {
      OpenInOrder(mods + [MODULE_NAMES[|mods|]], loads);
    }
  }

  lemma IterateValid(h: Head, r: Round)
    requires RoundValid(r) && HeadValid(h)
    ensures !Iterate(h, r).Panicked?
    ensures Iterate(h, r).Continue? ==> HeadValid(Iterate(h, r).head)
    ensures Iterate(h, r).Stopped? ==> Iterate(h, r) == Stopped([], false)
  {
    OpenInOrder(h.mods, r.loads);
  }

  /** Nothing goes wrong while the modules run: they load, services that are needed start, the run ends
      well, and, for a reload, the first replaced module can be told. */
  ghost predicate RunsWell(h: Head, r: Round)
    requires RoundValid(r)
  {
    && (forall k :: |h.mods| <= k < |MODULE_NAMES| ==> r.loads[k]) && (h.starts ==> r.startOk) && r.runOk
    && (r.reload ==> forall k :: 0 <= k < |r.atRun| && r.atRun[k] == Unknown ==> exists j :: 0 <= j < k && r.atRun[j] == Yes)
  }

  /** The services survive a reload that replaces neither the database module nor the service module. */
  predicate Keeps(r: Round)
    requires RoundValid(r)
  {
    && r.reload
    && forall k :: 0 <= k < |MODULE_NAMES| && MODULE_NAMES[k] in {"conduwuit_database", "conduwuit_service"} ==> r.atRun[k] == No
  }

  /** Nothing goes wrong when they are stopped and, for a reload, the last module that is not replaced
      can be told. */
  ghost predicate EndsWell(r: Round)
    requires RoundValid(r)
  {
    && (Keeps(r) || (r.stopFound && r.stopOk))
    && (r.reload ==> forall k :: 0 <= k < |r.atClose| && r.atClose[k] == Unknown ==>
                       exists j :: k < j < |r.atClose| && r.atClose[j] == No)
  }

  lemma {:induction false} OpenExactly(mods: seq<string>, loads: seq<bool>)
    requires |loads| == |MODULE_NAMES| && |mods| <= |MODULE_NAMES|
    ensures OpenTo(mods, loads).0 <==> forall k :: |mods| <= k < |MODULE_NAMES| ==> loads[k]
    decreases |MODULE_NAMES| - |mods|
  {
    if |mods| < |MODULE_NAMES| && loads[|mods|] {
      OpenExactly(mods + [MODULE_NAMES[|mods|]], loads);
    }
  }

  ghost predicate YesBefore(deleted: seq<Deleted>, i: nat, k: nat)
    requires k <= |deleted|
  {
    exists j :: i <= j < k && deleted[j] == Yes
  }

  lemma {:induction false} StaleExactly(deleted: seq<Deleted>, i: nat, n: nat)
    requires i <= n <= |deleted|
    ensures Stale(deleted, i, n).Some? <==> forall k :: i <= k < n && deleted[k] == Unknown ==> YesBefore(deleted, i, k)
    decreases n - i
  {
    if i < n {
      if deleted[i] == No {
        StaleExactly(deleted, i + 1, n);
        forall k | i < k < n ensures YesBefore(deleted, i, k) <==> YesBefore(deleted, i + 1, k) {
        }
      } else if deleted[i] == Unknown {
        assert !YesBefore(deleted, i, i);
      } else {
        forall k | i <= k < n && deleted[k] == Unknown ensures YesBefore(deleted, i, k) {
          assert deleted[i] == Yes && i < k;
        }
      }
    }
  }

  ghost predicate NoAfter(deleted: seq<Deleted>, k: nat, n: nat)
    requires n <= |deleted|
  {
    exists j :: k < j < n && deleted[j] == No
  }

  lemma {:induction false} CloseExactly(deleted: seq<Deleted>, n: nat)
    requires n <= |deleted|
    ensures CloseTo(false, deleted, n).0 <==> forall k :: 0 <= k < n && deleted[k] == Unknown ==> NoAfter(deleted, k, n)
  {
    if n > 0 {
      if deleted[n - 1] == Yes {
        CloseExactly(deleted, n - 1);
        forall k | 0 <= k < n - 1 ensures NoAfter(deleted, k, n) <==> NoAfter(deleted, k, n - 1) {
        }
      } else if deleted[n - 1] == Unknown {
        assert !NoAfter(deleted, n - 1, n);
      } else {
        forall k | 0 <= k < n && deleted[k] == Unknown ensures NoAfter(deleted, k, n) {
          assert deleted[n - 1] == No && k < n - 1;
        }
      }
    }
  }

  lemma StaleKeeps(r: Round, n: nat)
    requires RoundValid(r) && n == |MODULE_NAMES| && r.reload && Stale(r.atRun, 0, n).Some?
    ensures Stale(r.atRun, 0, n).value > RESTART_THRESH <==> Keeps(r)
  {
    assert MODULE_NAMES[0] == "conduwuit_database" && MODULE_NAMES[1] == "conduwuit_service";
    assert forall k :: 2 <= k < n ==> MODULE_NAMES[k] !in {"conduwuit_database", "conduwuit_service"};
  }

  /** What a round leads to. It goes on if and only if a reload was asked for and nothing went wrong, with
      the services kept if and only if neither the database nor the service module was replaced; it stops
      if and only if no reload was asked for and nothing went wrong. */
  lemma IterateExactly(h: Head, r: Round)
    requires RoundValid(r) && HeadValid(h)
    ensures Iterate(h, r).Continue? <==> RunsWell(h, r) && EndsWell(r) && r.reload
    ensures Iterate(h, r).Stopped? <==> RunsWell(h, r) && EndsWell(r) && !r.reload
    ensures Iterate(h, r).Continue? ==> (Iterate(h, r).head.services <==> Keeps(r))
  {
    var n := |MODULE_NAMES|;
    OpenExactly(h.mods, r.loads);
    OpenInOrder(h.mods, r.loads);
    StaleExactly(r.atRun, 0, n);
    CloseExactly(r.atClose, n);
    assert forall k :: 0 <= k < n ==> (YesBefore(r.atRun, 0, k) <==> exists j :: 0 <= j < k && r.atRun[j] == Yes);
    assert forall k :: 0 <= k < n ==> (NoAfter(r.atClose, k, n) <==> exists j :: k < j < n && r.atClose[j] == No);
    if r.reload && Stale(r.atRun, 0, n).Some? { StaleKeeps(r, n); }
  }

  /** Over every run: the loop head stays valid, no `expect` fails, and a regular exit has stopped
      the services and unloaded every module. */
  lemma {:induction false} LoopValid(h: Head, rounds: seq<Round>)
    requires HeadValid(h) && forall k :: 0 <= k < |rounds| ==> RoundValid(rounds[k])
    ensures !Loop(h, rounds).Panicked?
    ensures Loop(h, rounds).Continue? ==> HeadValid(Loop(h, rounds).head)
    ensures Loop(h, rounds).Stopped? ==> Loop(h, rounds) == Stopped([], false)
    decreases |rounds|
  {
    if rounds != [] {
      IterateValid(h, rounds[0]);
      if Iterate(h, rounds[0]).Continue? {
        LoopValid(Iterate(h, rounds[0]).head, rounds[1..]);
      }
    }
  }

  /** The database and service modules are loaded. */
  predicate Supported(h: Head)
  {
    MODULE_NAMES[..RESTART_THRESH + 1] <= h.mods
  }

  /** Services kept across a reload keep their modules exactly when `close` finds some module at or
      above the service module not deleted. */
  lemma KeptExactly(h: Head, r: Round)
    requires RoundValid(r) && HeadValid(h)
    requires Iterate(h, r).Continue? && Iterate(h, r).head.services
    ensures Supported(Iterate(h, r).head)
        <==> exists k :: RESTART_THRESH <= k < |MODULE_NAMES| && r.atClose[k] == No
  {
    OpenInOrder(h.mods, r.loads);
    var n := CloseTo(false, r.atClose, |MODULE_NAMES|).1;
    assert Iterate(h, r).head.mods == MODULE_NAMES[..n];
    if n > RESTART_THRESH { assert r.atClose[n - 1] == No; }
  }

  /** No module is replaced when it is decided to keep the services, and all are when closing: the
      services stay and every module goes. */
  lemma KeptWithoutModules(h: Head)
    requires HeadValid(h) && h.mods == MODULE_NAMES && h.services
    ensures var r := Round([true, true, true, true, true], true, true, true, [No, No, No, No, No], true, true,
                           [Yes, Yes, Yes, Yes, Yes]);
      Iterate(h, r) == Continue(Head([], true, false))
  {
    var deleted := [Yes, Yes, Yes, Yes, Yes];
    assert Stale([No, No, No, No, No], 4, 5) == Some(5);
    assert Stale([No, No, No, No, No], 2, 5) == Some(5);
    assert CloseTo(false, deleted, 2) == (true, 0);
    assert CloseTo(false, deleted, 4) == (true, 0);
  }

  /** So if deletions do not change between the two looks, held services always have their modules. */
  lemma {:induction false} KeptWhenStable(h: Head, rounds: seq<Round>)
    requires HeadValid(h) && (h.services ==> Supported(h))
    requires forall k :: 0 <= k < |rounds| ==> RoundValid(rounds[k]) && rounds[k].atRun == rounds[k].atClose
    ensures Loop(h, rounds).Continue? && Loop(h, rounds).head.services ==> Supported(Loop(h, rounds).head)
    decreases |rounds|
  {
    if rounds != [] {
      var r := rounds[0];
      IterateValid(h, r);
      if Iterate(h, r).Continue? {
        var next := Iterate(h, r).head;
        OpenInOrder(h.mods, r.loads);
        if next.services {
          assert Stale(r.atRun, 0, |MODULE_NAMES|).value > RESTART_THRESH;
          assert r.atClose[RESTART_THRESH] == No;
          KeptExactly(h, r);
        }
        KeptWhenStable(next, rounds[1..]);
      }
    }
  }
}
