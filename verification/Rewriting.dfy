/** Rewriting the keys of a map in place, one put and one remove at a time, on a database that may
    crash in between. The rewriting is a parameter. */
module Rewriting {
  import opened Collections

  /** Which keys are rewritten, to what, and how to tell where a key came from. */
  datatype Rewriter<!K> = Rewriter(broken: K -> bool, fix: K -> K, unfix: K -> K)

  /** A rewritten key needs no further rewriting and tells which key it was. */
  ghost predicate Lawful<K(!new)>(r: Rewriter<K>)
  {
    forall k {:trigger r.fix(k)} :: r.broken(k) ==> !r.broken(r.fix(k)) && r.unfix(r.fix(k)) == k
  }

  /** Whether `key` is what some broken key of the map is rewritten to. */
  ghost predicate Target<K(!new), V>(r: Rewriter<K>, m: map<K, V>, key: K)
  {
    var k := r.unfix(key);
    k in m && r.broken(k) && r.fix(k) == key
  }

  // ---------------------------------------------------------------- what a full run produces

  function Lookup<K, V>(m: map<K, V>, key: K): Option<V>
  {
    if key in m then Some(m[key]) else None
  }

  /** What a full run leaves under a key: every record under its rewritten key, where a rewritten
      record wins over one already there. */
  ghost function Final<K(!new), V>(r: Rewriter<K>, m: map<K, V>, key: K): Option<V>
  {
    if Target(r, m, key) then Some(m[r.unfix(key)])
    else if r.broken(key) then None
    else Lookup(m, key)
  }

  /** Writing the rewritten copy of a broken record changes nothing about the outcome. */
  lemma PutKeeps<K(!new), V>(r: Rewriter<K>, m: map<K, V>, k: K, key: K)
    requires Lawful(r) && k in m && r.broken(k)
    ensures Final(r, m[r.fix(k) := m[k]], key) == Final(r, m, key)
  {
    assert Target(r, m, r.fix(k));
    assert Target(r, m[r.fix(k) := m[k]], key) == Target(r, m, key);
  }

  /** Nor does removing a broken record whose rewritten copy is there. */
  lemma RemoveKeeps<K(!new), V>(r: Rewriter<K>, m: map<K, V>, k: K, key: K)
    requires Lawful(r) && k in m && r.broken(k) && r.fix(k) in m && m[r.fix(k)] == m[k]
    ensures Final(r, m - {k}, key) == Final(r, m, key)
  {
    assert Target(r, m - {k}, key) == (Target(r, m, key) && key != r.fix(k));
  }

  // ---------------------------------------------------------------- interrupted runs

  predicate Lists<K(==), V>(m: map<K, V>, keys: seq<K>)
  {
    (forall i :: 0 <= i < |keys| ==> keys[i] in m) && forall i, j :: 0 <= i < j < |keys| ==> keys[i] != keys[j]
  }

  /** The map after one record has been moved. */
  ghost function Move<K, V>(r: Rewriter<K>, m: map<K, V>, k: K): map<K, V>
    requires k in m
  {
    m[r.fix(k) := m[k]] - {k}
  }

  lemma MoveKeeps<K(!new), V>(r: Rewriter<K>, m: map<K, V>, k: K, key: K)
    requires Lawful(r) && k in m && r.broken(k)
    ensures Final(r, Move(r, m, k), key) == Final(r, m, key)
  {
    PutKeeps(r, m, k, key);
    RemoveKeeps(r, m[r.fix(k) := m[k]], k, key);
  }

  lemma ListsAfter<K, V>(r: Rewriter<K>, m: map<K, V>, keys: seq<K>)
    requires keys != [] && Lists(m, keys)
    ensures Lists(m, keys[1..]) && Lists(Move(r, m, keys[0]), keys[1..])
  {
    forall i | 0 <= i < |keys| - 1 ensures keys[1..][i] in m && keys[1..][i] != keys[0] {
    }
  }

  /** The first `n` single operations of a run that goes through `keys`. */
  ghost function RunFor<K, V>(r: Rewriter<K>, m: map<K, V>, keys: seq<K>, n: nat): map<K, V>
    requires Lists(m, keys)
    decreases |keys|
  {
    if keys == [] || n == 0 then m else
      var k := keys[0];
      ListsAfter(r, m, keys);
      if !r.broken(k) then RunFor(r, m, keys[1..], n)
      else if n == 1 then m[r.fix(k) := m[k]]
      else RunFor(r, Move(r, m, k), keys[1..], n - 2)
  }

  /** Stopping anywhere leaves a map with the same outcome. */
  lemma {:induction false} RunKeepsFinal<K(!new), V>(r: Rewriter<K>, m: map<K, V>, keys: seq<K>, n: nat, key: K)
    requires Lawful(r) && Lists(m, keys)
    ensures Final(r, RunFor(r, m, keys, n), key) == Final(r, m, key)
    decreases |keys|
  {
    if keys != [] && n > 0 {
      var k := keys[0];
      ListsAfter(r, m, keys);
      if !r.broken(k) {
        RunKeepsFinal(r, m, keys[1..], n, key);
      } else if n == 1 {
        PutKeeps(r, m, k, key);
      } else {
        MoveKeeps(r, m, k, key);
        RunKeepsFinal(r, Move(r, m, k), keys[1..], n - 2, key);
      }
    }
  }

  /** The rewritten copy of a record stays as it is while other records are rewritten. */
  lemma {:induction false} KeepsFixed<K(!new), V>(r: Rewriter<K>, m: map<K, V>, keys: seq<K>, n: nat, x: K)
    requires Lawful(r) && Lists(m, keys) && r.broken(x) && x !in m && r.fix(x) in m
    ensures var f := RunFor(r, m, keys, n); r.fix(x) in f && f[r.fix(x)] == m[r.fix(x)]
    decreases |keys|
  {
    if keys != [] && n > 0 {
      var k := keys[0];
      ListsAfter(r, m, keys);
      if !r.broken(k) {
        KeepsFixed(r, m, keys[1..], n, x);
      } else if n > 1 {
        KeepsFixed(r, Move(r, m, k), keys[1..], n - 2, x);
      }
    }
  }

  /** No record is lost on the way: stopped anywhere, every record is under its old key or its
      rewritten one, and only a record that is rewritten to the same key can replace its value. */
  lemma {:induction false} NothingLost<K(!new), V>(r: Rewriter<K>, m: map<K, V>, keys: seq<K>, n: nat, x: K)
    requires Lawful(r) && Lists(m, keys) && x in m
    ensures var f := RunFor(r, m, keys, n);
      if r.broken(x) then (x in f && f[x] == m[x]) || (r.fix(x) in f && f[r.fix(x)] == m[x])
      else x in f && (f[x] == m[x] || (Target(r, m, x) && f[x] == m[r.unfix(x)]))
    decreases |keys|
  {
    if keys != [] && n > 0 {
      var k := keys[0];
      ListsAfter(r, m, keys);
      if !r.broken(k) {
        NothingLost(r, m, keys[1..], n, x);
      } else if n > 1 && x == k {
        KeepsFixed(r, Move(r, m, k), keys[1..], n - 2, k);
      } else if n > 1 {
        NothingLost(r, Move(r, m, k), keys[1..], n - 2, x);
      }
    }
  }

  ghost predicate ListsBroken<K(!new), V>(r: Rewriter<K>, m: map<K, V>, keys: seq<K>)
  {
    forall k :: k in m && r.broken(k) ==> k in keys
  }

  lemma {:induction false} RunRemovesBroken<K(!new), V>(r: Rewriter<K>, m: map<K, V>, keys: seq<K>, n: nat)
    requires Lawful(r) && Lists(m, keys) && ListsBroken(r, m, keys) && n >= 2 * |keys|
    ensures forall k :: k in RunFor(r, m, keys, n) ==> !r.broken(k)
    decreases |keys|
  {
    if keys != [] {
      var k := keys[0];
      assert keys == [k] + keys[1..];
      ListsAfter(r, m, keys);
      if !r.broken(k) {
        RunRemovesBroken(r, m, keys[1..], n);
      } else {
        RunRemovesBroken(r, Move(r, m, k), keys[1..], n - 2);
      }
    }
  }

  /** A run that is not interrupted reaches the final map. */
  lemma RunCompletes<K(!new), V>(r: Rewriter<K>, m: map<K, V>, keys: seq<K>, n: nat, key: K)
    requires Lawful(r) && Lists(m, keys) && ListsBroken(r, m, keys) && n >= 2 * |keys|
    ensures Lookup(RunFor(r, m, keys, n), key) == Final(r, m, key)
  {
    RunKeepsFinal(r, m, keys, n, key);
    RunRemovesBroken(r, m, keys, n);
  }

  /** Some run from `m` was cut off when the map was `n`. */
  ghost predicate Interrupted<K(!new), V>(r: Rewriter<K>, m: map<K, V>, n: map<K, V>)
  {
    exists keys, ops :: Lists(m, keys) && n == RunFor(r, m, keys, ops)
  }

  /** A history of interrupted runs: each starts from what the one before left behind. */
  ghost predicate Crashes<K(!new), V>(r: Rewriter<K>, states: seq<map<K, V>>)
  {
    states != [] && forall i :: 0 < i < |states| ==> Interrupted(r, states[i - 1], states[i])
  }

  lemma {:induction false} CrashesKeepFinal<K(!new), V>(r: Rewriter<K>, states: seq<map<K, V>>, i: nat, key: K)
    requires Lawful(r) && Crashes(r, states) && i < |states|
    ensures Final(r, states[i], key) == Final(r, states[0], key)
  {
    if i > 0 {
      CrashesKeepFinal(r, states, i - 1, key);
      assert Interrupted(r, states[i - 1], states[i]);
      var keys, ops :| Lists(states[i - 1], keys) && states[i] == RunFor(r, states[i - 1], keys, ops);
      RunKeepsFinal(r, states[i - 1], keys, ops, key);
    }
  }

  /** Crash safety: after any number of runs, each stopped after any number of operations, one
      complete run leaves under every key what an undisturbed run would have left at once. */
  lemma CrashSafe<K(!new), V>(r: Rewriter<K>, states: seq<map<K, V>>, keys: seq<K>, n: nat, key: K)
    requires Lawful(r) && Crashes(r, states) && n >= 2 * |keys|
    requires var m := states[|states| - 1]; Lists(m, keys) && ListsBroken(r, m, keys)
    ensures Lookup(RunFor(r, states[|states| - 1], keys, n), key) == Final(r, states[0], key)
  {
    CrashesKeepFinal(r, states, |states| - 1, key);
    RunCompletes(r, states[|states| - 1], keys, n, key);
  }

  // ---------------------------------------------------------------- the loop

  datatype Progress = Done(last: nat, fixed: nat) | Crashed | Panicked

  /** The number of broken keys among the first `n`. */
  function CountBroken<K>(r: Rewriter<K>, keys: seq<K>, n: nat): nat
    requires n <= |keys|
  {
    if n == 0 then 0 else CountBroken(r, keys, n - 1) + if r.broken(keys[n - 1]) then 1 else 0
  }

  lemma {:induction false} CountGrows<K>(r: Rewriter<K>, keys: seq<K>, m: nat, n: nat)
    requires m < n <= |keys| && r.broken(keys[m])
    ensures CountBroken(r, keys, m) < CountBroken(r, keys, n)
    decreases n
  {
    if m < n - 1 { CountGrows(r, keys, m, n - 1); }
  }

  /** The number of keys before the first one that `stuck` holds of. */
  function Handled<K>(stuck: K -> bool, keys: seq<K>): (h: nat)
    ensures h <= |keys| && (h < |keys| ==> stuck(keys[h]))
    ensures forall i :: 0 <= i < h ==> !stuck(keys[i])
  {
    HandledFrom(stuck, keys, 0)
  }

  function HandledFrom<K>(stuck: K -> bool, keys: seq<K>, i: nat): (h: nat)
    requires i <= |keys|
    ensures i <= h <= |keys| && (h < |keys| ==> stuck(keys[h]))
    ensures forall k :: i <= k < h ==> !stuck(keys[k])
    decreases |keys| - i
  {
    if i == |keys| || stuck(keys[i]) then i else HandledFrom(stuck, keys, i + 1)
  }

  /** What one key of a run amounts to. */
  lemma RunStep<K, V>(r: Rewriter<K>, m: map<K, V>, keys: seq<K>, i: nat, n: nat)
    requires i < |keys| && Lists(m, keys[i..])
    ensures keys[i] in m
    ensures !r.broken(keys[i]) ==>
      Lists(m, keys[i + 1..]) && RunFor(r, m, keys[i..], n) == RunFor(r, m, keys[i + 1..], n)
    ensures r.broken(keys[i]) && n < 2 ==>
      RunFor(r, m, keys[i..], n) == if n == 0 then m else m[r.fix(keys[i]) := m[keys[i]]]
    ensures r.broken(keys[i]) && n >= 2 ==>
      var moved := m[r.fix(keys[i]) := m[keys[i]]] - {keys[i]};
      Lists(moved, keys[i + 1..]) && RunFor(r, m, keys[i..], n) == RunFor(r, moved, keys[i + 1..], n - 2)
  {
    var rest := keys[i..];
    assert rest[0] == keys[i] && rest[1..] == keys[i + 1..];
    ListsAfter(r, m, rest);
  }

  class Column<!K(==), V> {
    var db: map<K, V>

    constructor (db: map<K, V>)
      ensures this.db == db
    {
      this.db := db;
    }

    /** Handle one key, with `n` writes to go. */
    method RewriteOne(r: Rewriter<K>, k: K, ghost keys: seq<K>, ghost i: nat, n: nat) returns (left: nat, crashed: bool)
      requires i < |keys| && k == keys[i] && Lists(db, keys[i..])
      modifies this
      ensures crashed <==> r.broken(k) && n < 2
      ensures crashed ==> db == RunFor(r, old(db), keys[i..], n)
      ensures !crashed ==> left == n - (if r.broken(k) then 2 else 0)
      ensures !crashed ==> Lists(db, keys[i + 1..])
      ensures !crashed ==> RunFor(r, db, keys[i + 1..], left) == RunFor(r, old(db), keys[i..], n)
    {
      RunStep(r, db, keys, i, n);
      left, crashed := n, false;
      if r.broken(k) {
        if n == 0 {
          return 0, true;
        }
        var val := db[k];
        db := db[r.fix(k) := val];
        if n == 1 {
          return 0, true;
        }
        db := db - {k};
        left := n - 2;
      }
    }

    /** Go through the keys that the iterator saw when the run began, and be cut off after `budget`
        writes. A key that `stuck` holds of cannot be handled and ends the run; what is written by then
        is an interrupted run over the keys before it. What is reported as the total is the index of
        the last key. */
    method Rewrite(r: Rewriter<K>, stuck: K -> bool, keys: seq<K>, budget: nat) returns (p: Progress)
      requires Lists(db, keys)
      modifies this
      ensures var h := Handled(stuck, keys);
        && db == RunFor(r, old(db), keys[..h], budget)
        && (p.Crashed? <==> budget < 2 * CountBroken(r, keys, h))
        && (p.Done? <==> h == |keys| && budget >= 2 * CountBroken(r, keys, h))
      ensures p.Done? ==> p.last == (if keys == [] then 0 else |keys| - 1) && p.fixed == CountBroken(r, keys, |keys|)
    {
      var i, n, last, fixed := 0, budget, 0, 0;
      ghost var h := Handled(stuck, keys);
      ghost var all := keys[..h];
      assert all[0..] == all;
      while i < |keys| && !stuck(keys[i])
        invariant i <= h && Lists(db, all[i..])
        invariant RunFor(r, db, all[i..], n) == RunFor(r, old(db), all, budget)
        invariant n == budget - 2 * fixed && fixed == CountBroken(r, keys, i)
        invariant last == (if i == 0 then 0 else i - 1)
      {
        var crashed;
        n, crashed := RewriteOne(r, keys[i], all, i, n);
        if crashed {
          CountGrows(r, keys, i, h);
          return Crashed;
        }
        fixed := fixed + if r.broken(keys[i]) then 1 else 0;
        last := if i > last then i else last;
        i := i + 1;
      }
      assert all[i..] == [];
      p := if i < |keys| then Panicked else Done(last, fixed);
    }
  }
}
