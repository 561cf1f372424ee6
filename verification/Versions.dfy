/** The schema version and the markers of one-off migrations, over runs that may stop anywhere. */
module Versions {
  const DATABASE_VERSION := 17

  datatype Marker = Sha256Media | DoubleSeparator | RoomUserJoined | MissingSep | ReceiptDuplicates

  const ALL: set<Marker> := {Sha256Media, DoubleSeparator, RoomUserJoined, MissingSep, ReceiptDuplicates}

  datatype Meta = Meta(version: nat, markers: set<Marker>)

  /** The steps of a run, in order. Each leaves one durable trace, as its last act. */
  datatype Step = To12 | To13 | Mark(marker: Marker) | To17

  const STEPS: seq<Step> :=
    [To12, To13, Mark(Sha256Media), Mark(DoubleSeparator), Mark(RoomUserJoined), Mark(MissingSep),
     Mark(ReceiptDuplicates), To17]

  /** Whether a run performs the step when it comes to it. The last two fixes are repeated until the
      version that includes them is reached. */
  predicate Due(s: Step, m: Meta)
  {
    match s
    case To12 => m.version < 12
    case To13 => m.version < 13
    case To17 => m.version < 17
    case Mark(x) => x !in m.markers || (x in {MissingSep, ReceiptDuplicates} && m.version < 17)
  }

  function Perform(s: Step, m: Meta): Meta
  {
    match s
    case To12 => m.(version := 12)
    case To13 => m.(version := 13)
    case To17 => m.(version := 17)
    case Mark(x) => m.(markers := m.markers + {x})
  }

  /** A run is refused for a schema too old, finishes its steps, is cut off by an error or a crash
      during one of them, or fails the final check of the version. */
  datatype End = Refused | Completed | CutOff | WrongVersion

  /** The given steps, cut off after `budget` of them were performed: the outcome, what was
      performed, and whether the end was reached. */
  function Steps(steps: seq<Step>, m: Meta, budget: nat): (r: (Meta, seq<Step>, bool))
    decreases |steps|
  {
    if steps == [] then (m, [], true)
    else if !Due(steps[0], m) then Steps(steps[1..], m, budget)
    else if budget == 0 then (m, [], false)
    else Prepend([steps[0]], Steps(steps[1..], Perform(steps[0], m), budget - 1))
  }

  function Prepend(done: seq<Step>, r: (Meta, seq<Step>, bool)): (Meta, seq<Step>, bool)
  {
    (r.0, done + r.1, r.2)
  }

  lemma PrependStep(done: seq<Step>, s: Step, r: (Meta, seq<Step>, bool))
    ensures Prepend(done, Prepend([s], r)) == Prepend(done + [s], r)
  {
    assert done + ([s] + r.1) == (done + [s]) + r.1;
  }

  function RunOf(m: Meta, budget: nat): (r: (Meta, seq<Step>, End))
  {
    if m.version < 11 then (m, [], Refused) else
      var (n, done, finished) := Steps(STEPS, m, budget);
      (n, done, if !finished then CutOff else if n.version != DATABASE_VERSION then WrongVersion else Completed)
  }

  class Globals {
    var version: nat
    var markers: set<Marker>

    ghost function Value(): Meta
      reads this
    {
      Meta(version, markers)
    }

    constructor (m: Meta)
      ensures Value() == m
    {
      version, markers := m.version, m.markers;
    }

    method PerformDue(steps: seq<Step>, budget: nat) returns (performed: seq<Step>, finished: bool)
      modifies this
      ensures (Value(), performed, finished) == Steps(steps, old(Value()), budget)
    {
      performed := [];
      ghost var whole := Steps(steps, Value(), budget);
      var i, left := 0, budget;
      assert [] + whole.1 == whole.1 && steps[0..] == steps;
      while i < |steps|
        invariant i <= |steps| && whole == Prepend(performed, Steps(steps[i..], Value(), left))
      {
        var s := steps[i];
        assert steps[i..][1..] == steps[i + 1..];
        if Due(s, Meta(version, markers)) {
          if left == 0 {
            assert performed + [] == performed;
            return performed, false;
          }
          var n := Perform(s, Meta(version, markers));
          PrependStep(performed, s, Steps(steps[i + 1..], n, left - 1));
          version, markers := n.version, n.markers;
          performed, left := performed + [s], left - 1;
        }
        i := i + 1;
      }
      assert performed + [] == performed;
      finished := true;
    }

    /** Apply what is due; below version 11 the database is refused. */
    method Migrate(budget: nat) returns (performed: seq<Step>, end: End)
      modifies this
      ensures (Value(), performed, end) == RunOf(old(Value()), budget)
    {
      if version < 11 {
        return [], Refused;
      }
      var finished;
      performed, finished := PerformDue(STEPS, budget);
      end := if !finished then CutOff else if version != DATABASE_VERSION then WrongVersion else Completed;
    }
  }

  // ---------------------------------------------------------------- what every history satisfies

  lemma {:induction false} StepsGrow(steps: seq<Step>, m: Meta, budget: nat)
    ensures var n := Steps(steps, m, budget).0; m.version <= n.version && m.markers <= n.markers
    decreases |steps|
  {
    if steps != [] {
      if !Due(steps[0], m) {
        StepsGrow(steps[1..], m, budget);
      } else if budget > 0 {
        StepsGrow(steps[1..], Perform(steps[0], m), budget - 1);
      }
    }
  }

  /** A history of runs, interrupted or not: `budgets` says where each was cut off. */
  function History(m: Meta, budgets: seq<nat>): Meta
    decreases |budgets|
  {
    if budgets == [] then m else History(RunOf(m, budgets[0]).0, budgets[1..])
  }

  /** The version never decreases and no marker is ever cleared; below version 11 nothing changes. */
  lemma {:induction false} HistoryGrows(m: Meta, budgets: seq<nat>)
    ensures m.version <= History(m, budgets).version && m.markers <= History(m, budgets).markers
    ensures m.version < 11 ==> History(m, budgets) == m
    decreases |budgets|
  {
    if budgets != [] {
      StepsGrow(STEPS, m, budgets[0]);
      HistoryGrows(RunOf(m, budgets[0]).0, budgets[1..]);
    }
  }

  /** No step goes beyond the version the software knows. */
  lemma {:induction false} StepsBounded(steps: seq<Step>, m: Meta, budget: nat)
    requires m.version <= 17
    ensures Steps(steps, m, budget).0.version <= 17
    decreases |steps|
  {
    if steps != [] {
      if !Due(steps[0], m) {
        StepsBounded(steps[1..], m, budget);
      } else if budget > 0 {
        StepsBounded(steps[1..], Perform(steps[0], m), budget - 1);
      }
    }
  }

  /** What a step leaves behind once it has been passed, performed or not. */
  predicate Settled(s: Step, m: Meta)
  {
    match s
    case To12 => m.version >= 12
    case To13 => m.version >= 13
    case To17 => m.version >= 17
    case Mark(x) => x in m.markers
  }

  /** When the end is reached, every step is settled. */
  lemma {:induction false} StepsSettle(steps: seq<Step>, m: Meta, budget: nat, s: Step)
    requires Steps(steps, m, budget).2 && s in steps
    ensures Settled(s, Steps(steps, m, budget).0)
    decreases |steps|
  {
    var first := steps[0];
    var (next, left) := if Due(first, m) then (Perform(first, m), budget - 1) else (m, budget);
    assert steps == [first] + steps[1..];
    StepsGrow(steps[1..], next, left);
    if s != first { StepsSettle(steps[1..], next, left, s); }
  }

  lemma {:induction false} StepsFinish(steps: seq<Step>, m: Meta, budget: nat)
    requires budget >= |steps|
    ensures Steps(steps, m, budget).2
    decreases |steps|
  {
    if steps != [] {
      if Due(steps[0], m) {
        StepsFinish(steps[1..], Perform(steps[0], m), budget - 1);
      } else {
        StepsFinish(steps[1..], m, budget);
      }
    }
  }

  lemma EveryMarker(x: Marker)
    ensures x in ALL
  {
    match x case Sha256Media | DoubleSeparator | RoomUserJoined | MissingSep | ReceiptDuplicates =>
  }

  /** The steps end with the newest version and include every marker. */
  ghost predicate Complete(steps: seq<Step>)
  {
    To17 in steps && forall x: Marker :: Mark(x) in steps
  }

  lemma AllStepsComplete()
    ensures Complete(STEPS)
  {
    assert STEPS[7] == To17;
    assert STEPS[2] == Mark(Sha256Media) && STEPS[3] == Mark(DoubleSeparator) && STEPS[4] == Mark(RoomUserJoined);
    assert STEPS[5] == Mark(MissingSep) && STEPS[6] == Mark(ReceiptDuplicates);
    forall x: Marker ensures Mark(x) in STEPS {
      match x case Sha256Media | DoubleSeparator | RoomUserJoined | MissingSep | ReceiptDuplicates =>
    }
  }

  lemma EndSettled(steps: seq<Step>, m: Meta, budget: nat)
    requires Complete(steps) && Steps(steps, m, budget).2
    ensures var n := Steps(steps, m, budget).0; n.version >= 17 && n.markers == ALL
  {
    var n := Steps(steps, m, budget).0;
    StepsSettle(steps, m, budget, To17);
    forall x: Marker ensures x in n.markers && x in ALL {
      StepsSettle(steps, m, budget, Mark(x));
      EveryMarker(x);
    }
  }

  /** A completed run ends at version 17 with every marker, and a run completes, given time, exactly
      from versions 11 to 17. */
  lemma CompletedRun(m: Meta, budget: nat)
    ensures RunOf(m, budget).2 == Completed ==> RunOf(m, budget).0 == Meta(17, ALL)
    ensures budget >= |STEPS| ==> (RunOf(m, budget).2 == Completed <==> 11 <= m.version <= 17)
  {
    var steps := STEPS;
    AllStepsComplete();
    if budget >= |steps| { StepsFinish(steps, m, budget); }
    if m.version <= 17 { StepsBounded(steps, m, budget); }
    StepsGrow(steps, m, budget);
    if Steps(steps, m, budget).2 { EndSettled(steps, m, budget); }
  }

  lemma {:induction false} NothingDue(steps: seq<Step>, budget: nat)
    ensures Steps(steps, Meta(17, ALL), budget) == (Meta(17, ALL), [], true)
    decreases |steps|
  {
    if steps != [] {
      NothingDue(steps[1..], budget);
      if steps[0].Mark? { EveryMarker(steps[0].marker); }
    }
  }

  /** After a completed run every later run performs no migration, even if it is given no time. */
  lemma NextRunIdle(m: Meta, budget: nat, next: nat)
    requires RunOf(m, budget).2 == Completed
    ensures var n := RunOf(m, budget).0; RunOf(n, next) == (n, [], Completed)
  {
    CompletedRun(m, budget);
    NothingDue(STEPS, next);
  }

  lemma {:induction false} HistoryBounded(m: Meta, budgets: seq<nat>)
    requires m.version <= 17
    ensures History(m, budgets).version <= 17
    decreases |budgets|
  {
    if budgets != [] {
      StepsBounded(STEPS, m, budgets[0]);
      HistoryBounded(RunOf(m, budgets[0]).0, budgets[1..]);
    }
  }

  /** However often the migration is interrupted, the next undisturbed run completes it. */
  lemma EventuallyMigrated(m: Meta, budgets: seq<nat>, budget: nat)
    requires 11 <= m.version <= 17 && budget >= |STEPS|
    ensures RunOf(History(m, budgets), budget).2 == Completed
  {
    HistoryGrows(m, budgets);
    HistoryBounded(m, budgets);
    CompletedRun(History(m, budgets), budget);
  }

  // ---------------------------------------------------------------- which steps a run performs

  function When(due: bool, s: Step): seq<Step>
  {
    if due then [s] else []
  }

  /** What the stored version and markers call for, in the order of the code. */
  function Wanted(m: Meta): seq<Step>
  {
    When(m.version < 12, To12) + (When(m.version < 13, To13) + (
      When(Sha256Media !in m.markers, Mark(Sha256Media)) + (
      When(DoubleSeparator !in m.markers, Mark(DoubleSeparator)) + (
      When(RoomUserJoined !in m.markers, Mark(RoomUserJoined)) + (
      When(MissingSep !in m.markers || m.version < 17, Mark(MissingSep)) + (
      When(ReceiptDuplicates !in m.markers || m.version < 17, Mark(ReceiptDuplicates)) +
      When(m.version < 17, To17)))))))
  }

  /** The steps that are due before any is performed. */
  function DueOf(steps: seq<Step>, m: Meta): seq<Step>
  {
    if steps == [] then [] else When(Due(steps[0], m), steps[0]) + DueOf(steps[1..], m)
  }

  /** Performing a step does not change whether the other is due. */
  ghost predicate Apart(s: Step, t: Step)
  {
    forall m :: Due(s, m) ==> (Due(t, Perform(s, m)) <==> Due(t, m))
  }

  ghost predicate AllApart(steps: seq<Step>)
  {
    forall i, j :: 0 <= i < j < |steps| ==> Apart(steps[i], steps[j])
  }

  lemma {:induction false} DueStays(s: Step, later: seq<Step>, m: Meta)
    requires Due(s, m) && forall k :: 0 <= k < |later| ==> Apart(s, later[k])
    ensures DueOf(later, Perform(s, m)) == DueOf(later, m)
    decreases |later|
  {
    if later != [] {
      assert Apart(s, later[0]);
      DueStays(s, later[1..], m);
    }
  }

  /** Then a run performs, as far as it gets, the steps that were due at first. */
  lemma {:induction false} StepsPerform(steps: seq<Step>, m: Meta, budget: nat)
    requires AllApart(steps)
    ensures var (r, due) := (Steps(steps, m, budget), DueOf(steps, m));
      r.1 == due[..if budget < |due| then budget else |due|] && (r.2 <==> |due| <= budget)
    decreases |steps|
  {
    if steps != [] {
      var (s, later) := (steps[0], steps[1..]);
      assert forall k :: 0 <= k < |later| ==> later[k] == steps[k + 1];
      if !Due(s, m) {
        StepsPerform(later, m, budget);
      } else {
        DueStays(s, later, m);
        if budget > 0 { StepsPerform(later, Perform(s, m), budget - 1); }
      }
    }
  }

  lemma AllStepsApart(steps: seq<Step>)
    requires steps == STEPS
    ensures AllApart(steps)
  {
    forall i, j | 0 <= i < j < |steps| ensures Apart(steps[i], steps[j]) {
      StepsApart(steps[i], steps[j], i, j);
    }
  }

  /** What a step leaves behind makes no later step due or done, only itself. */
  lemma StepsApart(s: Step, t: Step, i: nat, j: nat)
    requires i < j < |STEPS| && s == STEPS[i] && t == STEPS[j]
    ensures Apart(s, t)
  {
  }

  lemma DueCons(s: Step, later: seq<Step>, m: Meta)
    ensures DueOf([s] + later, m) == When(Due(s, m), s) + DueOf(later, m)
  {
    assert ([s] + later)[1..] == later;
  }

  lemma DueIsWanted(m: Meta)
    ensures DueOf(STEPS, m) == Wanted(m)
  {
    var s7 := [To17];
    var s6 := [Mark(ReceiptDuplicates)] + s7;
    var s5 := [Mark(MissingSep)] + s6;
    var s4 := [Mark(RoomUserJoined)] + s5;
    var s3 := [Mark(DoubleSeparator)] + s4;
    var s2 := [Mark(Sha256Media)] + s3;
    var s1 := [To13] + s2;
    assert STEPS == [To12] + s1 && s7 == [To17] + [];
    DueCons(To12, s1, m);
    DueCons(To13, s2, m);
    DueCons(Mark(Sha256Media), s3, m);
    DueCons(Mark(DoubleSeparator), s4, m);
    DueCons(Mark(RoomUserJoined), s5, m);
    DueCons(Mark(MissingSep), s6, m);
    DueCons(Mark(ReceiptDuplicates), s7, m);
    DueCons(To17, [], m);
    assert When(m.version < 17, To17) + [] == When(m.version < 17, To17);
  }

  /** A run performs exactly what the version and the markers called for when it started, in that order,
      as far as its budget goes; it is cut off if and only if the budget does not suffice. */
  lemma RunPerforms(m: Meta, budget: nat)
    requires m.version >= 11
    ensures var (done, wanted) := (RunOf(m, budget).1, Wanted(m));
      done == wanted[..if budget < |wanted| then budget else |wanted|]
    ensures RunOf(m, budget).2 == CutOff <==> budget < |Wanted(m)|
  {
    AllStepsApart(STEPS);
    StepsPerform(STEPS, m, budget);
    DueIsWanted(m);
  }

  lemma DonePerformed(steps: seq<Step>, m: Meta, budget: nat, s: Step)
    requires AllApart(steps) && s in steps && Steps(steps, m, budget).2
    ensures s in Steps(steps, m, budget).1 <==> Due(s, m)
  {
    StepsPerform(steps, m, budget);
    DueMember(steps, m, s);
  }

  /** Which of the steps are due, on the fields. */
  lemma PerformedOf(steps: seq<Step>, m: Meta, budget: nat, x: Marker)
    requires AllApart(steps) && Complete(steps) && To12 in steps && To13 in steps && Steps(steps, m, budget).2
    ensures var done := Steps(steps, m, budget).1;
      && (To12 in done <==> m.version < 12) && (To13 in done <==> m.version < 13) && (To17 in done <==> m.version < 17)
      && (Mark(x) in done <==> x !in m.markers || (x in {MissingSep, ReceiptDuplicates} && m.version < 17))
  {
    DonePerformed(steps, m, budget, To12);
    DonePerformed(steps, m, budget, To13);
    DonePerformed(steps, m, budget, To17);
    DonePerformed(steps, m, budget, Mark(x));
  }

  /** Which steps a run performs that is not cut off. */
  lemma PerformedExactly(m: Meta, budget: nat, x: Marker)
    requires m.version >= 11 && RunOf(m, budget).2 != CutOff
    ensures var done := RunOf(m, budget).1;
      && (To12 in done <==> m.version < 12) && (To13 in done <==> m.version < 13) && (To17 in done <==> m.version < 17)
      && (Mark(x) in done <==> x !in m.markers || (x in {MissingSep, ReceiptDuplicates} && m.version < 17))
  {
    AllStepsComplete();
    AllStepsApart(STEPS);
    assert STEPS[0] == To12 && STEPS[1] == To13;
    PerformedOf(STEPS, m, budget, x);
  }

  lemma {:induction false} DueMember(steps: seq<Step>, m: Meta, s: Step)
    ensures s in DueOf(steps, m) <==> s in steps && Due(s, m)
    decreases |steps|
  {
    if steps != [] {
      DueMember(steps[1..], m, s);
      assert steps == [steps[0]] + steps[1..];
    }
  }

  /** At least `version`, and at least `to` if that was performed. */
  function Raised(version: nat, performed: bool, to: nat): nat
  {
    if performed && version < to then to else version
  }

  /** The version and the markers say what was performed, wherever the run was cut off. */
  ghost predicate Recorded(m: Meta, done: seq<Step>, n: Meta)
  {
    && n.version == Raised(Raised(Raised(m.version, To12 in done, 12), To13 in done, 13), To17 in done, 17)
    && forall x :: x in n.markers <==> x in m.markers || Mark(x) in done
  }

  lemma RecordedNext(m: Meta, s: Step, done: seq<Step>, n: Meta)
    requires Due(s, m) && Recorded(Perform(s, m), done, n)
    ensures Recorded(m, [s] + done, n)
  {
    assert forall t :: t in [s] + done <==> t == s || t in done;
  }

  lemma {:induction false} StepsRecorded(steps: seq<Step>, m: Meta, budget: nat)
    ensures Recorded(m, Steps(steps, m, budget).1, Steps(steps, m, budget).0)
    decreases |steps|
  {
    if steps != [] {
      if !Due(steps[0], m) {
        StepsRecorded(steps[1..], m, budget);
      } else if budget > 0 {
        var next := Perform(steps[0], m);
        StepsRecorded(steps[1..], next, budget - 1);
        RecordedNext(m, steps[0], Steps(steps[1..], next, budget - 1).1, Steps(steps, m, budget).0);
      }
    }
  }

  lemma RunRecorded(m: Meta, budget: nat)
    ensures Recorded(m, RunOf(m, budget).1, RunOf(m, budget).0)
  {
    var steps := STEPS;
    StepsRecorded(steps, m, budget);
  }
}
