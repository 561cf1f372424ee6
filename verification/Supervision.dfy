/** The service manager: it starts a worker for every service and replaces the ones that panic. */
module Supervision {
  import opened Collections

  /** How a worker ends, and what the manager then did about it. */
  datatype Ending = Good | Bad | Panic
  datatype Fate = Finished | Ignored | Fatal | Pending | Replaced(successor: nat) | Abandoned
  datatype Status = Running | Ended(ending: Ending) | Joined(ending: Ending, fate: Fate)

  /** A worker task, with the worker it was spawned to replace, if any. */
  datatype Worker = Worker(service: nat, status: Status, origin: Option<nat>)

  predicate Live(k: Worker)
  {
    !k.status.Joined?
  }

  // ---------------------------------------------------------------- what the manager does

  /** Take a worker that ended out of the set and settle its fate, up to the restart of a panicked one. */
  function JoinFate(e: Ending, running: bool): Fate
  {
    match e
    case Good => Finished
    case Bad => if running then Fatal else Ignored
    case Panic => if running then Pending else Ignored
  }

  function JoinOne(ws: seq<Worker>, k: nat, running: bool): seq<Worker>
    requires k < |ws| && ws[k].status.Ended?
  {
    var e := ws[k].status.ending;
    ws[k := ws[k].(status := Joined(e, JoinFate(e, running)))]
  }

  /** The restart, after the delay: nothing is started once the server is stopping. */
  function Respawn(ws: seq<Worker>, k: nat, running: bool): seq<Worker>
    requires k < |ws| && ws[k].status.Joined?
  {
    var e := ws[k].status.ending;
    if running then
      ws[k := ws[k].(status := Joined(e, Replaced(|ws|)))] + [Worker(ws[k].service, Running, Some(k))]
    else ws[k := ws[k].(status := Joined(e, Abandoned))]
  }

  class Manager {
    var workers: seq<Worker>

    constructor ()
      ensures workers == []
    {
      workers := [];
    }

    method StartWorker(service: nat, origin: Option<nat>, running: bool) returns (ok: bool)
      modifies this
      ensures ok == running
      ensures workers == if ok then old(workers) + [Worker(service, Running, origin)] else old(workers)
    {
      ok := running;
      if ok {
        workers := workers + [Worker(service, Running, origin)];
      }
    }

    /** Handle the result of worker `k`. `running` is asked once before the delay and once after. */
    method HandleResult(k: nat, running: bool, runningAfter: bool) returns (ok: bool)
      requires k < |workers| && workers[k].status.Ended?
      modifies this
      ensures var joined := JoinOne(old(workers), k, running);
        var again := joined[k].status.fate == Pending;
        && workers == (if again then Respawn(joined, k, runningAfter) else joined)
        && (ok <==> if again then runningAfter else joined[k].status.fate != Fatal)
      ensures var e := old(workers)[k].status.ending;
        && (ok <==> e == Good || !running || (e == Panic && runningAfter))
        && |workers| == |old(workers)| + (if e == Panic && running && runningAfter then 1 else 0)
        && (e == Panic && running && runningAfter ==>
              workers[|old(workers)|] == Worker(old(workers)[k].service, Running, Some(k)))
    {
      var w := workers[k];
      var e := w.status.ending;
      if e == Good {
        workers := workers[k := w.(status := Joined(e, Finished))];
        return true;
      }
      if !running {
        workers := workers[k := w.(status := Joined(e, Ignored))];
        return true;
      }
      if e != Panic {
        workers := workers[k := w.(status := Joined(e, Fatal))];
        return false;
      }
      var replacement := |workers|;
      ok := StartWorker(w.service, Some(k), runningAfter);
      workers := workers[k := w.(status := Joined(e, if ok then Replaced(replacement) else Abandoned))];
    }
  }

  // ---------------------------------------------------------------- all tasks at once

  /** The call that starts the workers of services 0, 1, ..., and the manager task. Both need the lock. */
  datatype StartPc = Idle | Starting(next: nat) | StartOk(count: nat) | StartErr(count: nat)
  datatype ManagerPc = Absent | Waiting | Holding | Restarting(worker: nat) | ManagerOk | ManagerErr

  datatype World = World(services: nat, workers: seq<Worker>, start: StartPc, manager: ManagerPc, running: bool)

  /** The worker lock is held while the starter is starting and while the manager is not waiting. */
  predicate LockFree(w: World)
  {
    !w.start.Starting? && !w.manager.Holding? && !w.manager.Restarting?
  }

  datatype Action =
    | Begin | StartNext | StartEnd
    | Toggle
    | End(worker: nat, ending: Ending)
    | Acquire | Join(worker: nat) | JoinNone | Restart

  predicate AllJoined(ws: seq<Worker>)
  {
    forall k :: 0 <= k < |ws| ==> !Live(ws[k])
  }

  predicate Enabled(w: World, a: Action)
  {
    match a
    case Begin => w.start.Idle? && LockFree(w)
    case StartNext => w.start.Starting? && w.start.next < w.services
    case StartEnd => w.start == Starting(w.services)
    case Toggle => true
    case End(k, _) => k < |w.workers| && w.workers[k].status.Running?
    case Acquire => w.manager.Waiting? && LockFree(w)
    case Join(k) => w.manager.Holding? && k < |w.workers| && w.workers[k].status.Ended?
    case JoinNone => w.manager.Holding? && AllJoined(w.workers)
    case Restart =>
      w.manager.Restarting? && w.manager.worker < |w.workers| && w.workers[w.manager.worker].status.Joined?
  }

  function Apply(w: World, a: Action): World
    requires Enabled(w, a)
  {
    match a
    case Begin => w.(start := Starting(0), manager := Waiting)
    case StartNext =>
      var i := w.start.next;
      if w.running then w.(workers := w.workers + [Worker(i, Running, None)], start := Starting(i + 1))
      else w.(start := StartErr(i))
    case StartEnd => w.(start := StartOk(w.services))
    case Toggle => w.(running := !w.running)
    case End(k, e) => w.(workers := w.workers[k := w.workers[k].(status := Ended(e))])
    case Acquire => w.(manager := Holding)
    case Join(k) =>
      var ws := JoinOne(w.workers, k, w.running);
      w.(workers := ws,
         manager := match ws[k].status.fate
           case Pending => Restarting(k)
           case Fatal => ManagerErr
           case Finished | Ignored | Replaced(_) | Abandoned => Waiting)
    case JoinNone => w.(manager := ManagerOk)
    case Restart =>
      w.(workers := Respawn(w.workers, w.manager.worker, w.running),
         manager := if w.running then Waiting else ManagerErr)
  }

  function Initial(services: nat): World
  {
    World(services, [], Idle, Absent, true)
  }

  ghost predicate Run(ws: seq<World>, actions: seq<Action>)
  {
    |ws| == |actions| + 1 && ws[0] == Initial(ws[0].services) &&
    forall t :: 0 <= t < |actions| ==> Enabled(ws[t], actions[t]) && ws[t + 1] == Apply(ws[t], actions[t])
  }

  /** How many services the starter has started. */
  function Started(s: StartPc): nat
  {
    match s
    case Idle => 0
    case Starting(i) => i
    case StartOk(i) => i
    case StartErr(i) => i
  }

  /** No two live workers serve the same service, and none serves one that was not started. */
  ghost predicate OneEach(w: World)
  {
    && (forall k :: 0 <= k < |w.workers| ==> w.workers[k].service < Started(w.start))
    && (forall j, k :: 0 <= j < k < |w.workers| && Live(w.workers[j]) && Live(w.workers[k]) ==>
          w.workers[j].service != w.workers[k].service)
  }

  /** A panicked worker is waiting for its replacement exactly while the manager is restarting it,
      and then nothing serves its service. */
  ghost predicate PendingValid(w: World)
  {
    && (forall k :: 0 <= k < |w.workers| && w.workers[k].status.Joined? && w.workers[k].status.fate == Pending ==>
          w.manager == Restarting(k))
    && (w.manager.Restarting? ==>
          var k := w.manager.worker;
          && k < |w.workers| && w.workers[k].status == Joined(Panic, Pending)
          && forall j :: 0 <= j < |w.workers| && Live(w.workers[j]) ==> w.workers[j].service != w.workers[k].service)
  }

  /** Worker `j` was replaced by `k`. */
  predicate ReplacedBy(ws: seq<Worker>, j: nat, k: nat)
    requires j < |ws| && k < |ws|
  {
    ws[j].status == Joined(Panic, Replaced(k)) && ws[j].service == ws[k].service
  }

  /** Replacements and the workers they replace are in one-to-one correspondence. */
  ghost predicate OriginsValid(ws: seq<Worker>)
  {
    && (forall k :: 0 <= k < |ws| && ws[k].origin.Some? ==> ws[k].origin.value < k && ReplacedBy(ws, ws[k].origin.value, k))
    && (forall j :: 0 <= j < |ws| && ws[j].status.Joined? && ws[j].status.fate.Replaced? ==>
          var k := ws[j].status.fate.successor; k < |ws| && ws[k].origin == Some(j))
  }

  /** The fate of every joined worker fits how it ended. */
  ghost predicate FatesValid(w: World)
  {
    && (forall k :: 0 <= k < |w.workers| && w.workers[k].status.Joined? ==> FateFits(w.workers[k].status))
    && (w.manager.ManagerErr? <==> exists k :: 0 <= k < |w.workers| && Lost(w.workers[k]))
  }

  predicate FateFits(s: Status)
    requires s.Joined?
  {
    match s.fate
    case Finished => s.ending == Good
    case Ignored => s.ending != Good
    case Fatal => s.ending == Bad
    case Pending | Replaced(_) | Abandoned => s.ending == Panic
  }

  /** The worker's end is why the manager gives up. */
  predicate Lost(k: Worker)
  {
    k.status.Joined? && k.status.fate in {Fatal, Abandoned}
  }

  ghost predicate PhaseValid(w: World)
  {
    && Started(w.start) <= w.services
    && (w.manager.Absent? <==> w.start.Idle?)
    && (w.start.Starting? ==> w.manager.Waiting?)
    && (w.start.StartOk? ==> w.start.count == w.services)
    && (w.manager.ManagerOk? ==> AllJoined(w.workers))
  }

  ghost predicate Invariant(w: World)
  {
    PhaseValid(w) && OneEach(w) && PendingValid(w) && OriginsValid(w.workers) && FatesValid(w)
  }

  lemma PhaseStep(w: World, a: Action)
    requires Invariant(w) && Enabled(w, a)
    ensures PhaseValid(Apply(w, a))
  {
  }

  lemma OneEachStep(w: World, a: Action)
    requires Invariant(w) && Enabled(w, a)
    ensures OneEach(Apply(w, a))
  {
  }

  lemma PendingStep(w: World, a: Action)
    requires Invariant(w) && Enabled(w, a)
    ensures PendingValid(Apply(w, a))
  {
  }

  lemma OriginsPush(ws: seq<Worker>, w: Worker)
    requires OriginsValid(ws) && w.origin.None? && w.status.Running?
    ensures OriginsValid(ws + [w])
  {
    var v := ws + [w];
    forall k | 0 <= k < |v| && v[k].origin.Some?
      ensures v[k].origin.value < k && ReplacedBy(v, v[k].origin.value, k)
    {
      assert v[k] == ws[k] && ReplacedBy(ws, ws[k].origin.value, k);
    }
  }

  lemma OriginsUpdate(ws: seq<Worker>, k: nat, s: Status)
    requires OriginsValid(ws) && k < |ws| && Live(ws[k]) && (s.Joined? ==> !s.fate.Replaced?)
    ensures OriginsValid(ws[k := ws[k].(status := s)])
  {
    var v := ws[k := ws[k].(status := s)];
    forall i | 0 <= i < |v| && v[i].origin.Some?
      ensures v[i].origin.value < i && ReplacedBy(v, v[i].origin.value, i)
    {
      assert ReplacedBy(ws, ws[i].origin.value, i);
    }
  }

  lemma OriginsRespawn(ws: seq<Worker>, k: nat, running: bool)
    requires OriginsValid(ws) && k < |ws| && ws[k].status == Joined(Panic, Pending)
    ensures OriginsValid(Respawn(ws, k, running))
  {
    var v := Respawn(ws, k, running);
    forall i | 0 <= i < |v| && v[i].origin.Some?
      ensures v[i].origin.value < i && ReplacedBy(v, v[i].origin.value, i)
    {
      if i < |ws| { assert ReplacedBy(ws, ws[i].origin.value, i); }
    }
  }

  lemma OriginsStep(w: World, a: Action)
    requires Invariant(w) && Enabled(w, a)
    ensures OriginsValid(Apply(w, a).workers)
  {
    match a
    case StartNext => OriginsPush(w.workers, Worker(w.start.next, Running, None));
    case End(k, e) => OriginsUpdate(w.workers, k, Ended(e));
    case Join(k) => OriginsUpdate(w.workers, k, JoinOne(w.workers, k, w.running)[k].status);
    case Restart => OriginsRespawn(w.workers, w.manager.worker, w.running);
    case Begin | StartEnd | Toggle | Acquire | JoinNone =>
  }

  lemma FatesStep(w: World, a: Action)
    requires Invariant(w) && Enabled(w, a)
    ensures FatesValid(Apply(w, a))
  {
    var v := Apply(w, a);
    if a.Join? { assert Lost(v.workers[a.worker]) <==> v.manager.ManagerErr?; }
    if a.Restart? { assert Lost(v.workers[w.manager.worker]) <==> v.manager.ManagerErr?; }
    if k :| 0 <= k < |w.workers| && Lost(w.workers[k]) {
      assert Lost(v.workers[k]);
    }
  }

  lemma {:induction false} Always(ws: seq<World>, actions: seq<Action>, t: nat)
    requires Run(ws, actions) && t < |ws|
    ensures Invariant(ws[t])
  {
    if t > 0 {
      Always(ws, actions, t - 1);
      var (w, a) := (ws[t - 1], actions[t - 1]);
      PhaseStep(w, a);
      OneEachStep(w, a);
      PendingStep(w, a);
      OriginsStep(w, a);
      FatesStep(w, a);
    }
  }

  // ---------------------------------------------------------------- what every run satisfies

  /** At every moment each service has at most one live worker. */
  lemma AtMostOneLive(ws: seq<World>, actions: seq<Action>, t: nat, j: nat, k: nat)
    requires Run(ws, actions) && t < |ws| && j < |ws[t].workers| && k < |ws[t].workers|
    requires Live(ws[t].workers[j]) && Live(ws[t].workers[k]) && ws[t].workers[j].service == ws[t].workers[k].service
    ensures j == k
  {
    Always(ws, actions, t);
  }

  /** Startup gives the next service a worker while the server runs, and fails on shutdown. */
  lemma StartMeans(ws: seq<World>, actions: seq<Action>, t: nat)
    requires Run(ws, actions) && t < |actions| && actions[t] == StartNext
    ensures var (w, v) := (ws[t], ws[t + 1]);
      && w.start.Starting? && w.start.next < w.services
      && v.start == (if w.running then Starting(w.start.next + 1) else StartErr(w.start.next))
      && v.workers == w.workers + if w.running then [Worker(w.start.next, Running, None)] else []
  {
    assert Enabled(ws[t], actions[t]);
    assert ws[t].workers + [] == ws[t].workers;
  }

  /** What the manager does about a worker it joins. While the server runs, a panic is restarted and
      another failure ends the manager; on shutdown both are ignored. */
  lemma JoinMeans(ws: seq<World>, actions: seq<Action>, t: nat, k: nat)
    requires Run(ws, actions) && t < |actions| && actions[t] == Join(k)
    ensures var (w, v) := (ws[t], ws[t + 1]);
      && k < |w.workers| == |v.workers| && w.workers[k].status.Ended? && v.workers[k].status.Joined?
      && v.workers[k].status.ending == w.workers[k].status.ending
      && (v.workers[k].status.fate == Ignored <==> w.workers[k].status.ending != Good && !w.running)
      && (v.workers[k].status.fate == Finished <==> w.workers[k].status.ending == Good)
      && v.manager == if w.workers[k].status.ending == Good || !w.running then Waiting
                      else if w.workers[k].status.ending == Panic then Restarting(k) else ManagerErr
  {
    assert Enabled(ws[t], actions[t]);
  }

  /** The restart of worker `k` spawns one worker for its service, or ends the manager on shutdown. */
  lemma RestartMeans(ws: seq<World>, actions: seq<Action>, t: nat)
    requires Run(ws, actions) && t < |actions| && actions[t] == Restart
    ensures var (w, v) := (ws[t], ws[t + 1]);
      && w.manager.Restarting? && w.manager.worker < |w.workers|
      && v.manager == (if w.running then Waiting else ManagerErr)
      && |v.workers| == (if w.running then |w.workers| + 1 else |w.workers|)
      && (w.running ==>
            v.workers[|w.workers|] == Worker(w.workers[w.manager.worker].service, Running, Some(w.manager.worker)))
  {
    assert Enabled(ws[t], actions[t]);
  }

  /** Still joined, and ignored or not. */
  predicate StillJoined(before: Worker, now: Worker)
    requires before.status.Joined?
  {
    && now.status.Joined? && now.service == before.service && now.status.ending == before.status.ending
    && (now.status.fate == Ignored <==> before.status.fate == Ignored)
  }

  lemma JoinedStep(w: World, a: Action, j: nat)
    requires Enabled(w, a) && PendingValid(w) && j < |w.workers| && w.workers[j].status.Joined?
    ensures j < |Apply(w, a).workers| && StillJoined(w.workers[j], Apply(w, a).workers[j])
  {
  }

  lemma {:induction false} JoinedStays(ws: seq<World>, actions: seq<Action>, s: nat, t: nat, j: nat)
    requires Run(ws, actions) && s <= t < |ws| && j < |ws[s].workers| && ws[s].workers[j].status.Joined?
    ensures j < |ws[t].workers| && StillJoined(ws[s].workers[j], ws[t].workers[j])
    decreases t
  {
    if s < t {
      JoinedStays(ws, actions, s, t - 1, j);
      Always(ws, actions, t - 1);
      JoinedStep(ws[t - 1], actions[t - 1], j);
    }
  }

  ghost predicate OnlyReplacement(w: World, j: nat, k: nat)
    requires j < |w.workers| && k < |w.workers|
  {
    && w.workers[k].origin == Some(j) && w.workers[k].service == w.workers[j].service
    && forall i :: 0 <= i < |w.workers| && w.workers[i].origin == Some(j) ==> i == k
  }

  /** A worker that panicked and was joined while the server ran has, at every later moment, exactly one
      replacement for its service, or is being replaced, or has ended the manager with an error. */
  lemma PanicReplaced(ws: seq<World>, actions: seq<Action>, s: nat, t: nat, j: nat)
    requires Run(ws, actions) && s < t < |ws| && actions[s] == Join(j) && ws[s].running
    requires j < |ws[s].workers| && ws[s].workers[j].status == Ended(Panic)
    ensures j < |ws[t].workers|
    ensures var w := ws[t];
      || (exists k :: j < k < |w.workers| && OnlyReplacement(w, j, k))
      || w.manager == Restarting(j)
      || w.manager.ManagerErr?
  {
    JoinMeans(ws, actions, s, j);
    JoinedStays(ws, actions, s + 1, t, j);
    Always(ws, actions, t);
    var w := ws[t];
    var fate := w.workers[j].status.fate;
    assert FateFits(w.workers[j].status);
    if fate.Replaced? {
      assert ReplacedBy(w.workers, j, fate.successor) && OnlyReplacement(w, j, fate.successor);
    } else if fate == Abandoned {
      assert Lost(w.workers[j]);
    }
  }

  /** A worker that failed or panicked and was joined on shutdown is never replaced. */
  lemma IgnoredNotReplaced(ws: seq<World>, actions: seq<Action>, s: nat, t: nat, j: nat, k: nat)
    requires Run(ws, actions) && s < t < |ws| && actions[s] == Join(j) && !ws[s].running
    requires k < |ws[t].workers|
    ensures ws[t].workers[k].origin != Some(j) && ws[t].manager != Restarting(j)
  {
    JoinMeans(ws, actions, s, j);
    JoinedStays(ws, actions, s + 1, t, j);
    Always(ws, actions, t);
  }

  /** The manager returns Ok only when no worker is live and the starter has let go of the lock;
      it returns an error only because of a worker that failed while the server was running. */
  lemma ManagerEnd(ws: seq<World>, actions: seq<Action>, t: nat)
    requires Run(ws, actions) && t < |ws|
    ensures ws[t].manager.ManagerOk? ==> AllJoined(ws[t].workers) && !ws[t].start.Starting? && !ws[t].start.Idle?
    ensures ws[t].manager.ManagerErr? <==> exists k :: 0 <= k < |ws[t].workers| && Lost(ws[t].workers[k])
  {
    Always(ws, actions, t);
  }

  /** After a successful start and a manager that returned Ok, every service had a worker, and all
      of them ended. */
  lemma {:induction false} EveryServiceServed(ws: seq<World>, actions: seq<Action>, t: nat, s: nat)
    requires Run(ws, actions) && t < |ws| && s < Started(ws[t].start)
    ensures exists k :: 0 <= k < |ws[t].workers| && ws[t].workers[k].service == s
  {
    if t > 0 {
      var (v, a) := (ws[t - 1], actions[t - 1]);
      Always(ws, actions, t - 1);
      assert Enabled(v, a) && ws[t] == Apply(v, a);
      if s < Started(v.start) {
        EveryServiceServed(ws, actions, t - 1, s);
        var k :| 0 <= k < |v.workers| && v.workers[k].service == s;
        assert ws[t].workers[k].service == s;
      } else {
        assert ws[t].workers[|v.workers|].service == s;
      }
    }
  }

  function Replacements(ws: seq<Worker>): nat
  {
    if ws == [] then 0 else Replacements(ws[..|ws| - 1]) + (if ws[|ws| - 1].origin.Some? then 1 else 0)
  }

  lemma {:induction false} ReplacementsUpdate(ws: seq<Worker>, k: nat, w: Worker)
    requires k < |ws| && w.origin == ws[k].origin
    ensures Replacements(ws[k := w]) == Replacements(ws)
    decreases |ws|
  {
    var n := |ws| - 1;
    if k < n {
      ReplacementsUpdate(ws[..n], k, w);
      assert ws[k := w][..n] == ws[..n][k := w];
    } else {
      assert ws[k := w][..n] == ws[..n];
    }
  }

  lemma ReplacementsPush(ws: seq<Worker>, w: Worker)
    ensures Replacements(ws + [w]) == Replacements(ws) + (if w.origin.Some? then 1 else 0)
  {
    assert (ws + [w])[..|ws|] == ws;
  }

  /** Conservation: every worker ever spawned is the first of a started service or the replacement
      of one that panicked. */
  ghost predicate Accounted(w: World)
  {
    |w.workers| == Started(w.start) + Replacements(w.workers)
  }

  lemma SpawnStep(v: World, a: Action)
    requires Enabled(v, a) && Accounted(v)
    ensures Accounted(Apply(v, a))
  {
    var w := Apply(v, a);
    match a
    case StartNext => ReplacementsPush(v.workers, Worker(v.start.next, Running, None));
    case End(k, _) => ReplacementsUpdate(v.workers, k, w.workers[k]);
    case Join(k) => ReplacementsUpdate(v.workers, k, w.workers[k]);
    case Restart =>
      var k := v.manager.worker;
      ReplacementsUpdate(v.workers, k, w.workers[k]);
      ReplacementsPush(v.workers[k := w.workers[k]], Worker(v.workers[k].service, Running, Some(k)));
    case Begin | StartEnd | Toggle | Acquire | JoinNone =>
  }

  lemma {:induction false} SpawnsAccounted(ws: seq<World>, actions: seq<Action>, t: nat)
    requires Run(ws, actions) && t < |ws|
    ensures Accounted(ws[t])
  {
    if t > 0 {
      SpawnsAccounted(ws, actions, t - 1);
      SpawnStep(ws[t - 1], actions[t - 1]);
    }
  }

  /** No deadlock: until the manager has ended, there is something that the starter, a worker or the
      manager can do. */
  lemma NoDeadlock(ws: seq<World>, actions: seq<Action>, t: nat) returns (a: Action)
    requires Run(ws, actions) && t < |ws| && !ws[t].manager.ManagerOk? && !ws[t].manager.ManagerErr?
    ensures !a.Toggle? && Enabled(ws[t], a)
  {
    Always(ws, actions, t);
    var w := ws[t];
    match w.manager
    case Absent => a := Begin;
    case Waiting => a := if !w.start.Starting? then Acquire else if w.start.next < w.services then StartNext else StartEnd;
    case Restarting(_) => a := Restart;
    case Holding =>
      if k :| 0 <= k < |w.workers| && w.workers[k].status.Ended? {
        a := Join(k);
      } else if k :| 0 <= k < |w.workers| && w.workers[k].status.Running? {
        a := End(k, Good);
      } else {
        a := JoinNone;
      }
  }
}
