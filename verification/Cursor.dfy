/** Cursors over a column of the database: the `init` and `seek` flags above a raw iterator. */
module Cursor {
  import opened Bytes
  import opened Codec
  import opened Collections

  type Key = seq<Byte>

  predicate Sorted(keys: seq<Key>)
  {
    forall i, j :: 0 <= i < j < |keys| ==> Less(keys[i], keys[j])
  }

  /** The number of keys that sort before `key`. */
  function Before(keys: seq<Key>, key: Key): (n: nat)
    requires Sorted(keys)
    ensures n <= |keys|
    ensures forall i :: 0 <= i < |keys| ==> (Less(keys[i], key) <==> i < n)
  {
    if keys == [] || !Less(keys[0], key) then
      assert forall i :: 0 <= i < |keys| ==> !Less(keys[i], key) by {
        forall i | 0 <= i < |keys| ensures !Less(keys[i], key) {
          if i > 0 && Less(keys[i], key) { LessTransitive(keys[0], keys[i], key); }
        }
      }
      0
    else
      assert forall i :: 0 < i < |keys| ==> keys[i] == keys[1..][i - 1];
      1 + Before(keys[1..], key)
  }

  /** The number of keys that do not sort after `key`. */
  function UpTo(keys: seq<Key>, key: Key): (n: nat)
    requires Sorted(keys)
    ensures n <= |keys|
    ensures forall i :: 0 <= i < |keys| ==> (Less(key, keys[i]) <==> i >= n)
  {
    var b := Before(keys, key);
    if b < |keys| && keys[b] == key then
      assert forall i :: 0 <= i < |keys| ==> (Less(key, keys[i]) <==> i >= b + 1) by {
        LessIrreflexive(key);
        forall i | 0 <= i < b ensures !Less(key, keys[i]) {
          if Less(key, keys[i]) { LessTransitive(key, keys[i], key); }
        }
      }
      b + 1
    else
      assert forall i :: 0 <= i < |keys| ==> (Less(key, keys[i]) <==> i >= b) by {
        LessIrreflexive(key);
        forall i | 0 <= i < |keys| ensures Less(key, keys[i]) <==> i >= b {
          if i < b {
            if Less(key, keys[i]) { LessTransitive(key, keys[i], key); }
          } else {
            LessTotal(keys[i], key);
            if i > b { LessTotal(keys[b], key); }
          }
        }
      }
      b
  }

  class State {
    /** The keys of the column when the iterator was made, and where the iterator stands. */
    const keys: seq<Key>
    var at: int
    var seek: bool
    var init: bool

    ghost predicate Valid()
      reads this
    {
      Sorted(keys) && -1 <= at < |keys|
    }

    constructor (keys: seq<Key>)
      requires Sorted(keys)
      ensures Valid() && this.keys == keys && at == -1 && init && !seek
    {
      this.keys := keys;
      at, init, seek := -1, true, false;
    }

    method InitFwd(from: Option<Key>)
      requires Valid() && init && !seek
      modifies this`at, this`seek
      ensures Valid() && seek
      ensures var n := if from.None? then 0 else Before(keys, from.value); at == if n < |keys| then n else -1
    {
      var n := if from.None? then 0 else Before(keys, from.value);
      at := if n < |keys| then n else -1;
      seek := true;
    }

    method InitRev(from: Option<Key>)
      requires Valid() && init && !seek
      modifies this`at, this`seek
      ensures Valid() && seek
      ensures at == (if from.None? then |keys| else UpTo(keys, from.value)) - 1
    {
      at := (if from.None? then |keys| else UpTo(keys, from.value)) - 1;
      seek := true;
    }

    /** The first call after `InitFwd` stays; without it the first call goes to the first key. */
    method SeekFwd()
      requires Valid()
      modifies this`at, this`init
      ensures Valid() && !init
      ensures at == if !old(init) then (if 0 <= old(at) < |keys| - 1 then old(at) + 1 else -1)
                    else if old(seek) then old(at)
                    else if keys == [] then -1 else 0
    {
      var first := init;
      init := false;
      if !first {
        at := if 0 <= at < |keys| - 1 then at + 1 else -1;
      } else if !seek {
        at := if keys == [] then -1 else 0;
      }
    }

    method SeekRev()
      requires Valid()
      modifies this`at, this`init
      ensures Valid() && !init
      ensures at == if !old(init) then (if old(at) >= 0 then old(at) - 1 else -1)
                    else if old(seek) then old(at)
                    else |keys| - 1
    {
      var first := init;
      init := false;
      if !first {
        at := if at >= 0 then at - 1 else -1;
      } else if !seek {
        at := |keys| - 1;
      }
    }

    function Get(): Option<Key>
      requires Valid()
      reads this
    {
      if at >= 0 then Some(keys[at]) else None
    }
  }

  /** Run a forward cursor to its end. `eager` says whether it was initialised before the first
      poll, as it must be to start from a key. The cursor yields the keys at or after the start,
      ascending, each once, and then nothing in any number of further polls. */
  method CollectFwd(keys: seq<Key>, eager: bool, from: Option<Key>, polls: nat)
    returns (out: seq<Key>, again: seq<Option<Key>>)
    requires Sorted(keys) && (from.Some? ==> eager)
    ensures out == keys[if from.None? then 0 else Before(keys, from.value)..]
    ensures |again| == polls && forall i :: 0 <= i < polls ==> again[i].None?
  {
    var s := new State(keys);
    if eager { s.InitFwd(from); }
    ghost var start := if from.None? then 0 else Before(keys, from.value);
    s.SeekFwd();
    out := [];
    while s.Get().Some?
      invariant s.Valid() && s.keys == keys && !s.init
      invariant s.at >= 0 ==> start <= s.at && out == keys[start..s.at]
      invariant s.at == -1 ==> out == keys[start..]
      decreases if s.at >= 0 then |keys| - s.at else 0
    {
      out := out + [keys[s.at]];
      s.SeekFwd();
    }
    again := [];
    while |again| < polls
      invariant s.Valid() && !s.init && s.at == -1 && |again| <= polls
      invariant forall i :: 0 <= i < |again| ==> again[i].None?
    {
      s.SeekFwd();
      again := again + [s.Get()];
    }
  }

  /** Likewise backwards: the keys at or before the start, descending. */
  method CollectRev(keys: seq<Key>, eager: bool, from: Option<Key>, polls: nat)
    returns (out: seq<Key>, again: seq<Option<Key>>)
    requires Sorted(keys) && (from.Some? ==> eager)
    ensures |out| == if from.None? then |keys| else UpTo(keys, from.value)
    ensures forall i :: 0 <= i < |out| ==> out[i] == keys[|out| - 1 - i]
    ensures |again| == polls && forall i :: 0 <= i < polls ==> again[i].None?
  {
    var s := new State(keys);
    if eager { s.InitRev(from); }
    ghost var end := if from.None? then |keys| else UpTo(keys, from.value);
    s.SeekRev();
    out := [];
    while s.Get().Some?
      invariant s.Valid() && s.keys == keys && !s.init && |out| == end - 1 - s.at
      invariant forall i :: 0 <= i < |out| ==> out[i] == keys[end - 1 - i]
      decreases s.at + 1
    {
      out := out + [keys[s.at]];
      s.SeekRev();
    }
    again := [];
    while |again| < polls
      invariant s.Valid() && !s.init && s.at == -1 && |again| <= polls
      invariant forall i :: 0 <= i < |again| ==> again[i].None?
    {
      s.SeekRev();
      again := again + [s.Get()];
    }
  }

  // ---------------------------------------------------------------- prefix scans

  /** The keys that start with `prefix`, in order. */
  function WithPrefix(keys: seq<Key>, prefix: Key): (r: seq<Key>)
  {
    if keys == [] then [] else
      (if prefix <= keys[0] then [keys[0]] else []) + WithPrefix(keys[1..], prefix)
  }

  lemma {:induction false} WithPrefixRun(keys: seq<Key>, prefix: Key, a: nat, b: nat)
    requires a <= b <= |keys|
    requires forall i :: 0 <= i < |keys| ==> (prefix <= keys[i] <==> a <= i < b)
    ensures WithPrefix(keys, prefix) == keys[a..b]
    decreases |keys|
  {
    if keys != [] {
      var rest := keys[1..];
      if b == 0 {
        WithPrefixRun(rest, prefix, 0, 0);
      } else if a == 0 {
        WithPrefixRun(rest, prefix, 0, b - 1);
        assert keys[0..b] == [keys[0]] + rest[0..b - 1];
      } else {
        WithPrefixRun(rest, prefix, a - 1, b - 1);
        assert keys[a..b] == rest[a - 1..b - 1];
      }
    }
  }

  /** The keys with a prefix are one contiguous run, which begins at the first key not before it. */
  lemma PrefixRun(keys: seq<Key>, prefix: Key, end: nat)
    requires Sorted(keys) && Before(keys, prefix) <= end <= |keys|
    requires forall i :: Before(keys, prefix) <= i < end ==> prefix <= keys[i]
    requires end < |keys| ==> !(prefix <= keys[end])
    ensures WithPrefix(keys, prefix) == keys[Before(keys, prefix)..end]
  {
    var start := Before(keys, prefix);
    forall i | 0 <= i < |keys| ensures prefix <= keys[i] <==> start <= i < end {
      if prefix <= keys[i] {
        PrefixNotAfter(prefix, keys[i]);
        if i > end {
          if Less(keys[i], keys[end]) {
            LessTransitive(keys[i], keys[end], keys[i]);
            LessIrreflexive(keys[i]);
          }
          PrefixConvex(prefix, prefix, keys[end], keys[i]);
        }
      }
    }
    WithPrefixRun(keys, prefix, start, end);
  }

  /** A scan from `prefix` that stops at the first key without it finds exactly the keys with it. */
  method ScanPrefix(keys: seq<Key>, prefix: Key) returns (out: seq<Key>)
    requires Sorted(keys)
    ensures out == WithPrefix(keys, prefix)
  {
    var s := new State(keys);
    s.InitFwd(Some(prefix));
    s.SeekFwd();
    ghost var start := Before(keys, prefix);
    ghost var end := start;
    out := [];
    while s.Get().Some? && prefix <= s.Get().value
      invariant s.Valid() && s.keys == keys && !s.init
      invariant start <= end <= |keys| && s.at == if end < |keys| then end else -1
      invariant forall i :: start <= i < end ==> prefix <= keys[i]
      invariant out == keys[start..end]
      decreases |keys| - end
    {
      out := out + [keys[s.at]];
      s.SeekFwd();
      end := end + 1;
    }
    PrefixRun(keys, prefix, end);
  }

  /** The reverse prefix scan as written: it starts at the last key not after `prefix` and stops
      at the first key without it. */
  method ScanPrefixRev(keys: seq<Key>, prefix: Key) returns (out: seq<Key>)
    requires Sorted(keys)
    ensures out == if prefix in keys then [prefix] else []
  {
    var s := new State(keys);
    s.InitRev(Some(prefix));
    s.SeekRev();
    out := [];
    ghost var n := UpTo(keys, prefix) - 1;
    UpToOfMember(keys, prefix);
    while s.Get().Some? && prefix <= s.Get().value
      invariant s.Valid() && s.keys == keys && !s.init && s.at <= n
      invariant s.at == n ==> out == []
      invariant s.at < n ==> n >= 0 && keys[n] == prefix && out == [prefix] && s.at == n - 1
      decreases s.at + 1
    {
      NothingBelow(keys, prefix, s.at, n);
      out := out + [keys[s.at]];
      s.SeekRev();
    }
  }

  lemma UpToOfMember(keys: seq<Key>, prefix: Key)
    requires Sorted(keys)
    ensures var n := UpTo(keys, prefix) - 1; prefix in keys <==> n >= 0 && keys[n] == prefix
  {
    if prefix in keys {
      var i :| 0 <= i < |keys| && keys[i] == prefix;
      LessIrreflexive(prefix);
    }
  }

  /** Among the keys not after `prefix`, only `prefix` itself starts with it, and it is the last of them. */
  lemma NothingBelow(keys: seq<Key>, prefix: Key, i: nat, n: nat)
    requires Sorted(keys) && i <= n == UpTo(keys, prefix) - 1 && prefix <= keys[i]
    ensures i == n && keys[n] == prefix
  {
    assert !Less(prefix, keys[i]) && !Less(prefix, keys[n]);
    PrefixNotAfter(prefix, keys[i]);
    LessTotal(prefix, keys[i]);
  }

  lemma {:induction false} WithPrefixMember(keys: seq<Key>, prefix: Key, k: Key)
    ensures k in WithPrefix(keys, prefix) <==> k in keys && prefix <= k
    decreases |keys|
  {
    if keys != [] {
      WithPrefixMember(keys[1..], prefix, k);
      ConsOf(keys);
    }
  }

  lemma {:induction false} WithPrefixOnly(keys: seq<Key>, prefix: Key)
    requires Sorted(keys) && forall k :: k in keys ==> !(prefix < k)
    ensures WithPrefix(keys, prefix) == if prefix in keys then [prefix] else []
    decreases |keys|
  {
    if keys != [] {
      ConsOf(keys);
      assert forall k :: k in keys[1..] ==> k in keys;
      WithPrefixOnly(keys[1..], prefix);
      LessIrreflexive(prefix);
      assert keys[0] in keys;
      if keys[0] == prefix {
        assert prefix !in keys[1..];
        assert [prefix] + [] == [prefix];
      }
    }
  }

  /** So the reverse scan finds the keys with the prefix, as its documentation says, exactly when
      none of them is longer than the prefix. */
  lemma ReverseScanExact(keys: seq<Key>, prefix: Key)
    requires Sorted(keys)
    ensures (if prefix in keys then [prefix] else []) == WithPrefix(keys, prefix)
        <==> forall k :: k in keys ==> !(prefix < k)
  {
    if k :| k in keys && prefix < k {
      WithPrefixMember(keys, prefix, k);
    } else {
      WithPrefixOnly(keys, prefix);
    }
  }

  /** The room "a" has a record, which the forward scan finds and the reverse one does not. */
  lemma ReverseScanMisses()
    ensures var (keys, prefix) := ([[0x61, SEP, 0x62]], [0x61, SEP]);
      Sorted(keys) && WithPrefix(keys, prefix) == keys && prefix !in keys
  {
    var (keys, prefix) := ([[0x61, SEP, 0x62]], [0x61, SEP]);
    assert keys[1..] == [] && prefix <= keys[0];
    assert WithPrefix(keys, prefix) == [keys[0]] + [];
  }

  // ---------------------------------------------------------------- scans of encoded tuples

  function Keys(rows: seq<seq<Value>>): (keys: seq<Key>)
    ensures |keys| == |rows|
    ensures forall i :: 0 <= i < |rows| ==> keys[i] == Encode(rows[i])
  {
    seq(|rows|, i requires 0 <= i < |rows| => Encode(rows[i]))
  }

  /** The rows that begin with the values `p`. */
  function RowsWith(rows: seq<seq<Value>>, p: seq<Value>): seq<seq<Value>>
  {
    if rows == [] then [] else (if p <= rows[0] then [rows[0]] else []) + RowsWith(rows[1..], p)
  }

  lemma KeysOfCons(r: seq<Value>, rows: seq<seq<Value>>)
    ensures Keys([r] + rows) == [Encode(r)] + Keys(rows)
  {
  }

  lemma KeysOfRest(rows: seq<seq<Value>>)
    requires rows != []
    ensures Keys(rows)[1..] == Keys(rows[1..])
  {
  }

  /** A prefix scan over a column of encoded tuples returns exactly the tuples that begin with the
      queried values, in key order. */
  lemma {:induction false} ScanRows(kinds: seq<Kind>, rows: seq<seq<Value>>, p: seq<Value>)
    requires forall i :: 0 <= i < |rows| ==> RecordOf(kinds, rows[i]) && Faithful(kinds, rows[i])
    requires |p| < |kinds| && RecordOf(kinds[..|p|], p) && Faithful(kinds[..|p|], p)
    ensures WithPrefix(Keys(rows), EncodePrefix(p)) == Keys(RowsWith(rows, p))
    decreases |rows|
  {
    if rows != [] {
      var (r, rest) := (rows[0], rows[1..]);
      ScanRows(kinds, rest, p);
      PrefixExact(kinds, p, r);
      assert p <= r <==> EncodePrefix(p) <= Encode(r);
      KeysOfRest(rows);
      KeysOfCons(r, RowsWith(rest, p));
    }
  }

  /** Within one room a forward scan of (room, count, user) keys visits the counts in order. More
      generally, rows that agree up to an unsigned column are sorted by that column. */
  lemma ScanSortsByNumber(rows: seq<seq<Value>>, c: nat, i: nat, j: nat)
    requires Sorted(Keys(rows)) && i < j < |rows| && c < |rows[i]| && c < |rows[j]|
    requires rows[i][..c] == rows[j][..c] && rows[i][c].Just? && rows[j][c].Just?
    requires rows[i][c].atom.Unsigned? && rows[j][c].atom.Unsigned?
    ensures rows[i][c].atom.n <= rows[j][c].atom.n
  {
    var (r, s) := (rows[i], rows[j]);
    var (a, b) := (r[c].atom.n, s[c].atom.n);
    assert r == r[..c] + [r[c]] + r[c + 1..] && s == s[..c] + [s[c]] + s[c + 1..];
    assert Less(Keys(rows)[i], Keys(rows)[j]);
    if a != b { NumericOrder(r[..c], a, b, r[c + 1..], s[c + 1..]); }
  }
}
