/** The migration that deletes repeated read receipts: of neighbouring keys with the same room and user
    only the first stays, which is the oldest. */
module Receipts {
  import opened Bytes
  import opened Codec
  import opened Collections
  import Rewriting

  /** A decoded key of `readreceiptid_readreceipt`. */
  datatype Row = Row(room: seq<Byte>, count: U64, user: seq<Byte>)

  predicate Same(a: Row, b: Row)
  {
    a.room == b.room && a.user == b.user
  }

  /** The first row of every maximal run of rows with equal room and user. */
  function FirstOfRuns(rows: seq<Row>): (r: seq<Row>)
    decreases |rows|
  {
    if rows == [] then [] else [rows[0]] + FirstOfRuns(AfterRun(rows[0], rows[1..]))
  }

  /** What follows the rows that continue a run of `first`. */
  function AfterRun(first: Row, rows: seq<Row>): (r: seq<Row>)
    ensures |r| <= |rows| && r == rows[|rows| - |r|..]
    ensures forall i :: 0 <= i < |rows| - |r| ==> Same(first, rows[i])
    ensures r != [] ==> !Same(first, r[0])
  {
    if rows != [] && Same(first, rows[0]) then AfterRun(first, rows[1..]) else rows
  }

  /** Whether `row` repeats the row before it. */
  predicate IsDup(last: Option<Row>, row: Row)
  {
    last.Some? && Same(last.value, row)
  }

  /** The rows that do not repeat the row before them, where `last` precedes the first one. */
  function Survivors(last: Option<Row>, rows: seq<Row>): (r: seq<Row>)
    ensures |r| <= |rows|
    decreases |rows|
  {
    if rows == [] then []
    else (if IsDup(last, rows[0]) then [] else [rows[0]]) + Survivors(Some(rows[0]), rows[1..])
  }

  lemma {:induction false} SurvivorsAreRuns(last: Option<Row>, rows: seq<Row>)
    ensures Survivors(last, rows) == FirstOfRuns(if last.Some? then AfterRun(last.value, rows) else rows)
    decreases |rows|
  {
    if rows != [] {
      SurvivorsAreRuns(Some(rows[0]), rows[1..]);
      if IsDup(last, rows[0]) { SameRun(last.value, rows[0], rows[1..]); }
    }
  }

  lemma {:induction false} SameRun(a: Row, b: Row, rows: seq<Row>)
    requires Same(a, b)
    ensures AfterRun(a, rows) == AfterRun(b, rows)
    decreases |rows|
  {
    if rows != [] && Same(a, rows[0]) { SameRun(a, b, rows[1..]); }
  }

  predicate NeighboursDiffer(rows: seq<Row>)
  {
    forall i :: 0 < i < |rows| ==> !Same(rows[i - 1], rows[i])
  }

  lemma ConsDiffers(first: Row, rows: seq<Row>)
    requires NeighboursDiffer(rows) && (rows != [] ==> !Same(first, rows[0]))
    ensures NeighboursDiffer([first] + rows)
  {
    var all := [first] + rows;
    forall i | 0 < i < |all| ensures !Same(all[i - 1], all[i]) {
      assert all[i] == rows[i - 1];
      if i > 1 { assert all[i - 1] == rows[i - 2]; }
    }
  }

  /** No two neighbouring survivors are duplicates. */
  lemma {:induction false} SurvivorsDiffer(rows: seq<Row>)
    ensures NeighboursDiffer(FirstOfRuns(rows))
    ensures rows != [] ==> FirstOfRuns(rows) != [] && FirstOfRuns(rows)[0] == rows[0]
    decreases |rows|
  {
    if rows != [] {
      var rest := AfterRun(rows[0], rows[1..]);
      SurvivorsDiffer(rest);
      ConsDiffers(rows[0], FirstOfRuns(rest));
    }
  }

  lemma {:induction false} DifferentStay(rows: seq<Row>)
    requires NeighboursDiffer(rows)
    ensures FirstOfRuns(rows) == rows
    decreases |rows|
  {
    if rows != [] {
      var rest := rows[1..];
      assert NeighboursDiffer(rest) by {
        forall i | 0 < i < |rest| ensures !Same(rest[i - 1], rest[i]) {
          assert rest[i] == rows[i + 1] && rest[i - 1] == rows[i + 1 - 1];
        }
      }
      if rest != [] { assert !Same(rows[1 - 1], rows[1]); }
      DifferentStay(rest);
      assert rows == [rows[0]] + rest;
    }
  }

  /** A second pass deletes nothing, and nothing is ever deleted from a column without duplicates. */
  lemma SecondPass(rows: seq<Row>)
    ensures FirstOfRuns(FirstOfRuns(rows)) == FirstOfRuns(rows)
    ensures FirstOfRuns(rows) == rows <==> NeighboursDiffer(rows)
  {
    SurvivorsDiffer(rows);
    DifferentStay(FirstOfRuns(rows));
    if NeighboursDiffer(rows) { DifferentStay(rows); }
  }

  lemma SurvivorsSame(a: Row, b: Row, rows: seq<Row>)
    requires Same(a, b)
    ensures Survivors(Some(a), rows) == Survivors(Some(b), rows)
  {
    SurvivorsAreRuns(Some(a), rows);
    SurvivorsAreRuns(Some(b), rows);
    SameRun(a, b, rows);
  }

  lemma SurvivorsCons(last: Option<Row>, row: Row, rows: seq<Row>)
    ensures Survivors(last, [row] + rows) == (if IsDup(last, row) then [] else [row]) + Survivors(Some(row), rows)
  {
    assert ([row] + rows)[1..] == rows;
  }

  /** Row number `i` repeats the row before it. */
  predicate Repeats(rows: seq<Row>, i: nat)
    requires i < |rows|
  {
    i > 0 && Same(rows[i - 1], rows[i])
  }

  /** What a pass leaves that is cut off when it would delete more than `budget` rows, or stops at a
      row that `stuck` holds of. */
  function Pass(stuck: Row -> bool, rows: seq<Row>, budget: nat): seq<Row>
  {
    PassFrom(stuck, rows, 0, budget)
  }

  /** What it leaves of the rows from number `i` on. */
  function PassFrom(stuck: Row -> bool, rows: seq<Row>, i: nat, n: nat): seq<Row>
    requires i <= |rows|
    decreases |rows| - i
  {
    if i == |rows| || stuck(rows[i]) || (Repeats(rows, i) && n == 0) then rows[i..]
    else if Repeats(rows, i) then PassFrom(stuck, rows, i + 1, n - 1)
    else [rows[i]] + PassFrom(stuck, rows, i + 1, n)
  }

  /** The row before row number `i`. */
  function Last(rows: seq<Row>, i: nat): Option<Row>
    requires i <= |rows|
  {
    if i == 0 then None else Some(rows[i - 1])
  }

  lemma SurvivorsFrom(rows: seq<Row>, i: nat)
    requires i < |rows|
    ensures var rest := Survivors(Some(rows[i]), rows[i + 1..]);
      Survivors(Last(rows, i), rows[i..]) == if Repeats(rows, i) then rest else [rows[i]] + rest
  {
    SurvivorsCons(Last(rows, i), rows[i], rows[i + 1..]);
    assert rows[i..] == [rows[i]] + rows[i + 1..];
    assert [] + Survivors(Some(rows[i]), rows[i + 1..]) == Survivors(Some(rows[i]), rows[i + 1..]);
  }

  /** A pass that ends early deletes nothing that a whole one would keep, and keeps nothing that
      would make the next one delete more. */
  lemma {:induction false} PassKeeps(stuck: Row -> bool, rows: seq<Row>, i: nat, n: nat)
    requires i <= |rows|
    ensures Survivors(Last(rows, i), PassFrom(stuck, rows, i, n)) == Survivors(Last(rows, i), rows[i..])
    decreases |rows| - i
  {
    if i < |rows| && !stuck(rows[i]) {
      SurvivorsFrom(rows, i);
      if !Repeats(rows, i) {
        PassKeeps(stuck, rows, i + 1, n);
        SurvivorsCons(Last(rows, i), rows[i], PassFrom(stuck, rows, i + 1, n));
      } else if n > 0 {
        PassKeeps(stuck, rows, i + 1, n - 1);
        SurvivorsSame(rows[i - 1], rows[i], PassFrom(stuck, rows, i + 1, n - 1));
      }
    }
  }

  /** How many of the first `n` rows repeat the row before them. */
  function CountDups(rows: seq<Row>, n: nat): nat
    requires n <= |rows|
  {
    if n == 0 then 0 else CountDups(rows, n - 1) + if Repeats(rows, n - 1) then 1 else 0
  }

  /** Those that do not. */
  function NotRepeated(rows: seq<Row>, n: nat): (r: seq<Row>)
    requires n <= |rows|
    ensures |r| == n - CountDups(rows, n)
  {
    if n == 0 then []
    else if Repeats(rows, n - 1) then NotRepeated(rows, n - 1)
    else NotRepeated(rows, n - 1) + [rows[n - 1]]
  }

  /** The rows without row number `k`. */
  function Without(rows: seq<Row>, k: nat): seq<Row>
    requires k < |rows|
  {
    rows[..k] + rows[k + 1..]
  }

  /** What is left when the first `n` rows have been gone through and the repeated ones deleted. */
  function Left(rows: seq<Row>, n: nat): (r: seq<Row>)
    requires n <= |rows|
    ensures |r| == |rows| - CountDups(rows, n) && CountDups(rows, n) <= n
  {
    if n == 0 then rows
    else if Repeats(rows, n - 1) then Without(Left(rows, n - 1), n - 1 - CountDups(rows, n - 1))
    else Left(rows, n - 1)
  }

  lemma {:induction false} LeftIs(rows: seq<Row>, n: nat)
    requires n <= |rows|
    ensures Left(rows, n) == NotRepeated(rows, n) + rows[n..]
  {
    if n == 0 {
      assert rows[0..] == rows && [] + rows == rows;
    } else {
      LeftIs(rows, n - 1);
      LeftIsNext(rows, n, NotRepeated(rows, n - 1), Left(rows, n - 1));
    }
  }

  lemma LeftIsNext(rows: seq<Row>, n: nat, kept: seq<Row>, left: seq<Row>)
    requires 0 < n <= |rows| && kept == NotRepeated(rows, n - 1) && left == Left(rows, n - 1) == kept + rows[n - 1..]
    ensures Left(rows, n) == NotRepeated(rows, n) + rows[n..]
  {
    ConsTail(kept, rows, n - 1);
    if Repeats(rows, n - 1) {
      assert Left(rows, n) == Without(left, |kept|) && NotRepeated(rows, n) == kept;
    } else {
      assert Left(rows, n) == left && NotRepeated(rows, n) == kept + [rows[n - 1]];
    }
  }

  lemma ConsTail(kept: seq<Row>, rows: seq<Row>, i: nat)
    requires i < |rows|
    ensures kept + rows[i..] == (kept + [rows[i]]) + rows[i + 1..]
    ensures Without(kept + rows[i..], |kept|) == kept + rows[i + 1..]
  {
    assert rows[i..] == [rows[i]] + rows[i + 1..];
    Assoc(kept, [rows[i]], rows[i + 1..]);
  }

  lemma {:induction false} CountGrows(rows: seq<Row>, m: nat, n: nat)
    requires m <= n <= |rows|
    ensures CountDups(rows, m) <= CountDups(rows, n)
    ensures m < n && Repeats(rows, m) ==> CountDups(rows, m) < CountDups(rows, n)
    decreases n
  {
    if m < n { CountGrows(rows, m, n - 1); }
  }

  /** A pass that is not cut off is a whole one. */
  lemma {:induction false} PassWhole(stuck: Row -> bool, rows: seq<Row>, i: nat, n: nat)
    requires i <= |rows| && n + CountDups(rows, i) >= CountDups(rows, |rows|)
    requires forall k :: 0 <= k < |rows| ==> !stuck(rows[k])
    ensures PassFrom(stuck, rows, i, n) == Survivors(Last(rows, i), rows[i..])
    decreases |rows| - i
  {
    if i < |rows| {
      SurvivorsFrom(rows, i);
      CountGrows(rows, i, |rows|);
      PassWhole(stuck, rows, i + 1, if Repeats(rows, i) then n - 1 else n);
    }
  }

  /** Some pass over `rows` was cut off or stopped when it had left `left`. */
  ghost predicate CutOff(rows: seq<Row>, left: seq<Row>)
  {
    exists stuck: Row -> bool, budget: nat :: left == Pass(stuck, rows, budget)
  }

  /** Crash safety: after any number of passes that were cut off, a whole pass leaves what it would
      have left at once. */
  lemma {:induction false} CrashSafe(states: seq<seq<Row>>, i: nat)
    requires i < |states| && forall k :: 0 < k < |states| ==> CutOff(states[k - 1], states[k])
    ensures FirstOfRuns(states[i]) == FirstOfRuns(states[0])
  {
    if i > 0 {
      CrashSafe(states, i - 1);
      assert CutOff(states[i - 1], states[i]);
      var stuck: Row -> bool, budget: nat :| states[i] == Pass(stuck, states[i - 1], budget);
      PassKeeps(stuck, states[i - 1], 0, budget);
      assert states[i - 1][0..] == states[i - 1];
      SurvivorsAreRuns(None, states[i - 1]);
      SurvivorsAreRuns(None, states[i]);
    }
  }

  /** A row that does not repeat the one before it survives. */
  lemma {:induction false} SurvivorStays(last: Option<Row>, rows: seq<Row>, i: nat)
    requires i < |rows| && (if i == 0 then !IsDup(last, rows[0]) else !Same(rows[i - 1], rows[i]))
    ensures rows[i] in Survivors(last, rows)
    decreases i
  {
    if i > 0 {
      var rest := rows[1..];
      assert i > 1 ==> rest[i - 2] == rows[i - 1];
      SurvivorStays(Some(rows[0]), rest, i - 1);
    }
  }

  /** Where the run begins that a row belongs to. */
  lemma {:induction false} RunStart(rows: seq<Row>, i: nat) returns (j: nat)
    requires i < |rows|
    ensures j <= i && !Repeats(rows, j) && forall k :: j <= k <= i ==> Same(rows[k], rows[i])
    decreases i
  {
    j := i;
    if Repeats(rows, i) { j := RunStart(rows, i - 1); }
  }

  /** Every (room, user) that has a receipt keeps one: the first of the run. */
  lemma NoneForgotten(rows: seq<Row>, i: nat) returns (j: nat)
    requires i < |rows|
    ensures j <= i && rows[j] in FirstOfRuns(rows)
    ensures forall k :: j <= k <= i ==> rows[k].room == rows[i].room && rows[k].user == rows[i].user
  {
    j := RunStart(rows, i);
    SurvivorStays(None, rows, j);
    SurvivorsAreRuns(None, rows);
  }

  /** A pass has gone through `total` rows and deleted `fixed`. */
  ghost predicate Gone(stuck: Row -> bool, seen: seq<Row>, total: nat, fixed: nat, budget: nat)
  {
    total <= Rewriting.Handled(stuck, seen) && fixed == CountDups(seen, total) <= budget
  }

  lemma GoneStep(stuck: Row -> bool, seen: seq<Row>, total: nat, fixed: nat, budget: nat)
    requires Gone(stuck, seen, total, fixed, budget) && total < |seen| && !stuck(seen[total])
    requires !(IsDup(Last(seen, total), seen[total]) && fixed == budget)
    ensures Gone(stuck, seen, total + 1, CountDups(seen, total + 1), budget)
  {
    assert IsDup(Last(seen, total), seen[total]) <==> Repeats(seen, total);
  }

  lemma GoneEnd(stuck: Row -> bool, seen: seq<Row>, total: nat, fixed: nat, budget: nat)
    requires Gone(stuck, seen, total, fixed, budget)
    requires total < |seen| && !stuck(seen[total]) ==> IsDup(Last(seen, total), seen[total]) && fixed == budget
    ensures total < Rewriting.Handled(stuck, seen) ==> Repeats(seen, total) && fixed == budget
  {
  }

  /** The longest identifier that can be remembered. */
  const MAX_BYTES := 255

  /** The rows that end a pass. */
  function Stops(garbled: Row -> bool): Row -> bool
  {
    (r: Row) => garbled(r) || |r.room| > MAX_BYTES || |r.user| > MAX_BYTES
  }

  /** Nothing stops a pass if and only if every key decodes and no identifier is too long. */
  lemma NothingStops(garbled: Row -> bool, rows: seq<Row>)
    ensures Rewriting.Handled(Stops(garbled), rows) == |rows|
        <==> forall r :: r in rows ==> !garbled(r) && |r.room| <= 255 && |r.user| <= 255
  {
    var h := Rewriting.Handled(Stops(garbled), rows);
    if h < |rows| { assert rows[h] in rows; }
  }

  datatype Progress = Done(total: nat, fixed: nat) | Crashed | Panicked

  class Column {
    var rows: seq<Row>

    constructor (rows: seq<Row>)
      ensures this.rows == rows
    {
      this.rows := rows;
    }

    /** Delete row number `i` of the `seen` ones if it repeats the last one. */
    method HandleRow(last: Option<Row>, seen: seq<Row>, i: nat, fixed: nat) returns (more: nat)
      requires i < |seen| && last == Last(seen, i) && rows == Left(seen, i) && fixed == CountDups(seen, i)
      modifies this
      ensures rows == Left(seen, i + 1) && more == CountDups(seen, i + 1)
    {
      more := fixed;
      if IsDup(last, seen[i]) {
        rows, more := Without(rows, i - fixed), fixed + 1;
      }
    }

    /** Go through the rows that the iterator saw when the run began, in key order, remembering the
        room and user of the last one, and delete repeated ones, up to a row that `stuck` holds of or
        up to the first deletion over the budget. */
    method DeleteRepeated(stuck: Row -> bool, budget: nat) returns (total: nat, fixed: nat)
      modifies this
      ensures total <= Rewriting.Handled(stuck, old(rows)) && fixed == CountDups(old(rows), total) <= budget
      ensures total < Rewriting.Handled(stuck, old(rows)) ==> Repeats(old(rows), total) && fixed == budget
      ensures rows == Left(old(rows), total)
    {
      var seen := rows;
      var last: Option<Row> := None;
      total, fixed := 0, 0;
      while total < |seen| && !stuck(seen[total]) && !(IsDup(last, seen[total]) && fixed == budget)
        invariant Gone(stuck, seen, total, fixed, budget) && last == Last(seen, total)
        invariant rows == Left(seen, total)
      {
        GoneStep(stuck, seen, total, fixed, budget);
        fixed := HandleRow(last, seen, total, fixed);
        last, total := Some(seen[total]), total + 1;
      }
      GoneEnd(stuck, seen, total, fixed, budget);
    }

    /** The migration, cut off after `budget` deletions. A row with an identifier that is too long ends
        it, and so does one whose key does not decode, which `garbled` tells. */
    method FixDuplicates(garbled: Row -> bool, budget: nat) returns (p: Progress)
      modifies this
      ensures rows == Pass(Stops(garbled), old(rows), budget)
      ensures var h := Rewriting.Handled(Stops(garbled), old(rows));
        && (p.Crashed? <==> budget < CountDups(old(rows), h))
        && (p.Done? <==> h == |old(rows)| && budget >= CountDups(old(rows), h))
      ensures p.Done? ==> rows == FirstOfRuns(old(rows))
      ensures p.Done? ==> p.total == |old(rows)| && p.fixed == CountDups(old(rows), p.total)
      ensures p.Done? ==> p.fixed + |rows| == p.total
    {
      var seen, stuck := rows, Stops(garbled);
      var total, fixed := DeleteRepeated(stuck, budget);
      CountGrows(seen, total, Rewriting.Handled(stuck, seen));
      PassSplit(stuck, seen, total, budget);
      LeftIs(seen, total);
      if total == |seen| {
        PassWhole(stuck, seen, 0, budget);
        assert seen[0..] == seen;
        SurvivorsAreRuns(None, seen);
        return Done(total, fixed);
      }
      p := if stuck(seen[total]) then Panicked else Crashed;
    }
  }

  /** One row of a pass. */
  lemma PassStep(stuck: Row -> bool, kept: seq<Row>, rows: seq<Row>, i: nat, n: nat)
    requires i < |rows| && !stuck(rows[i])
    ensures Repeats(rows, i) && n > 0 ==> PassFrom(stuck, rows, i, n) == PassFrom(stuck, rows, i + 1, n - 1)
    ensures !Repeats(rows, i) ==>
      kept + PassFrom(stuck, rows, i, n) == (kept + [rows[i]]) + PassFrom(stuck, rows, i + 1, n)
  {
    if !Repeats(rows, i) { Assoc(kept, [rows[i]], PassFrom(stuck, rows, i + 1, n)); }
  }

  /** A pass that has come to row number `i`. */
  lemma {:induction false} PassSplit(stuck: Row -> bool, rows: seq<Row>, i: nat, budget: nat)
    requires i <= Rewriting.Handled(stuck, rows) && CountDups(rows, i) <= budget
    ensures Pass(stuck, rows, budget) == NotRepeated(rows, i) + PassFrom(stuck, rows, i, budget - CountDups(rows, i))
  {
    if i > 0 {
      PassSplit(stuck, rows, i - 1, budget);
      PassStep(stuck, NotRepeated(rows, i - 1), rows, i - 1, budget - CountDups(rows, i - 1));
    } else {
      assert [] + Pass(stuck, rows, budget) == Pass(stuck, rows, budget);
    }
  }

  function KeyOf(r: Row): seq<Value>
  {
    [Just(Text(r.room)), Just(Unsigned(r.count)), Just(Text(r.user))]
  }

  /** The rows are in the order of their keys, as the column holds them. */
  ghost predicate InKeyOrder(rows: seq<Row>)
  {
    forall i, j :: 0 <= i < j < |rows| ==> Less(Encode(KeyOf(rows[i])), Encode(KeyOf(rows[j])))
  }

  /** Because the count is an unsigned record, within one room the rows come by increasing count. */
  lemma CountsAscend(rows: seq<Row>, i: nat, j: nat)
    requires InKeyOrder(rows) && i < j < |rows| && rows[i].room == rows[j].room
    ensures rows[i].count <= rows[j].count
  {
    var (a, b) := (rows[i], rows[j]);
    var (room, x, y) := ([Just(Text(a.room))], [Just(Text(a.user))], [Just(Text(b.user))]);
    assert room + [Just(Unsigned(a.count))] + x == KeyOf(a) && room + [Just(Unsigned(b.count))] + y == KeyOf(b);
    assert Less(Encode(KeyOf(a)), Encode(KeyOf(b)));
    if a.count != b.count { NumericOrder(room, a.count, b.count, x, y); }
  }

  lemma OlderInRun(rows: seq<Row>, j: nat, k: nat, i: nat)
    requires InKeyOrder(rows) && j <= k <= i < |rows|
    requires Same(rows[j], rows[i]) && Same(rows[k], rows[i])
    ensures rows[j].count <= rows[k].count
  {
    if j < k { CountsAscend(rows, j, k); }
  }

  /** So the row of a run that survives is its oldest receipt. */
  lemma SurvivorIsOldest(rows: seq<Row>, i: nat) returns (j: nat)
    requires InKeyOrder(rows) && i < |rows|
    ensures j <= i && rows[j] in FirstOfRuns(rows)
    ensures forall k :: j <= k <= i ==>
      rows[k].room == rows[i].room && rows[k].user == rows[i].user && rows[j].count <= rows[k].count
  {
    j := NoneForgotten(rows, i);
    forall k | j <= k <= i ensures rows[j].count <= rows[k].count { OlderInRun(rows, j, k, i); }
  }

  /** What a whole pass leaves, row by row. */
  lemma RunsNotRepeated(rows: seq<Row>)
    ensures FirstOfRuns(rows) == NotRepeated(rows, |rows|)
  {
    var (stuck, budget) := ((r: Row) => false, CountDups(rows, |rows|));
    PassSplit(stuck, rows, |rows|, budget);
    PassWhole(stuck, rows, 0, budget);
    SurvivorsAreRuns(None, rows);
    assert rows[0..] == rows && NotRepeated(rows, |rows|) + [] == NotRepeated(rows, |rows|);
  }

  lemma {:induction false} NotRepeatedHas(rows: seq<Row>, n: nat, i: nat)
    requires NoRepeats(rows) && i < |rows| && n <= |rows|
    ensures rows[i] in NotRepeated(rows, n) <==> i < n && !Repeats(rows, i)
  {
    if n > 0 { NotRepeatedHas(rows, n - 1, i); }
  }

  /** No row occurs twice in a column in key order. */
  lemma RowsDiffer(rows: seq<Row>)
    requires InKeyOrder(rows)
    ensures NoRepeats(rows)
  {
    forall i, j | 0 <= i < j < |rows| ensures rows[i] != rows[j] {
      assert Less(Encode(KeyOf(rows[i])), Encode(KeyOf(rows[j])));
      LessIrreflexive(Encode(KeyOf(rows[i])));
    }
  }

  /** A row of a column in key order is deleted if and only if the one before it has the same room and
      the same user. */
  lemma DeletedExactly(rows: seq<Row>, i: nat)
    requires InKeyOrder(rows) && i < |rows|
    ensures rows[i] !in FirstOfRuns(rows)
        <==> i > 0 && rows[i - 1].room == rows[i].room && rows[i - 1].user == rows[i].user
  {
    RowsDiffer(rows);
    RunsNotRepeated(rows);
    NotRepeatedHas(rows, |rows|, i);
  }

  /** The newest receipt of a run is among those left if and only if it is the only one. */
  lemma NewestSurvives(rows: seq<Row>, j: nat, i: nat)
    requires NoRepeats(rows) && j <= i < |rows|
    requires !Repeats(rows, j) && forall k :: j < k <= i ==> Repeats(rows, k)
    ensures rows[i] in NotRepeated(rows, |rows|) <==> i == j
  {
    NotRepeatedHas(rows, |rows|, i);
  }

  /** Of two receipts of one user in one room the newer is deleted. */
  lemma NewerIsDeleted(room: seq<Byte>, user: seq<Byte>)
    ensures FirstOfRuns([Row(room, 1, user), Row(room, 2, user)]) == [Row(room, 1, user)]
  {
    var (older, newer) := (Row(room, 1, user), Row(room, 2, user));
    assert [older, newer][1..] == [newer] && [newer][1..] == [];
    assert AfterRun(older, [newer]) == [];
  }
}
