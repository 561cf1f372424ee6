/** The migration that inserts the missing separator between room and event in the keys of
    `referencedevents`. */
module SepMigration {
  import opened Bytes
  import opened Codec
  import opened Collections
  import opened Rewriting
  import Utf8

  type Key = seq<Byte>

  const DOLLAR: Byte := 0x24

  /** A key that lacks its separator and has the '$' that every event identifier starts with. */
  predicate Broken(k: Key)
  {
    SEP !in k && DOLLAR in k
  }

  /** A key the migration cannot handle: no separator, and not text or without a '$'. */
  predicate Stuck(k: Key)
  {
    SEP !in k && !(Utf8.Valid(k) && DOLLAR in k)
  }

  function FirstDollar(k: Key): (i: nat)
    requires DOLLAR in k
    ensures i < |k| && k[i] == DOLLAR && forall j :: 0 <= j < i ==> k[j] != DOLLAR
  {
    if k[0] == DOLLAR then 0 else 1 + FirstDollar(k[1..])
  }

  /** The room and the event of a broken key. */
  function Halves(k: Key): (vals: seq<Value>)
    requires DOLLAR in k
    ensures |vals| == 2 && vals[0].Just? && vals[0].atom.Text? && vals[1].Just? && vals[1].atom.Text?
  {
    var i := FirstDollar(k);
    [Just(Text(k[..i])), Just(Text(k[i..]))]
  }

  function Fix(k: Key): Key
  {
    if Broken(k) then Encode(Halves(k)) else k
  }

  /** The key without its first separator. */
  function Unfix(k: Key): Key
  {
    var i := FirstSep(k);
    if i < |k| then k[..i] + k[i + 1..] else k
  }

  const SEPARATE := Rewriter(Broken, Fix, Unfix)

  lemma FixShape(k: Key)
    requires Broken(k)
    ensures var i := FirstDollar(k); Fix(k) == k[..i] + ([SEP] + k[i..])
  {
    var i := FirstDollar(k);
    var (a, b) := (Just(Text(k[..i])), Just(Text(k[i..])));
    assert [a, b][1..] == [b];
    assert Encode([b]) == k[i..] + [] == k[i..];
    assert Encode([a, b]) == k[..i] + Frame([b]);
  }

  /** The migration is a lawful rewriting, so everything about interrupted runs applies to it. */
  lemma SeparateLawful()
    ensures Lawful(SEPARATE)
  {
    forall k: Key | Broken(k) ensures !Broken(Fix(k)) && Unfix(Fix(k)) == k {
      FixShape(k);
      var i := FirstDollar(k);
      assert Fix(k)[i] == SEP;
      FirstSepOf(k[..i], [SEP] + k[i..]);
      assert Fix(k)[i + 1..] == k[i..];
      assert k == k[..i] + k[i..];
    }
  }

  lemma TwoTexts(a: seq<Byte>, b: seq<Byte>)
    requires Utf8.Valid(a) && Utf8.Valid(b)
    ensures RecordOf([One(Str), One(Str)], [Just(Text(a)), Just(Text(b))])
    ensures Faithful([One(Str), One(Str)], [Just(Text(a)), Just(Text(b))])
  {
    var (kinds, vals) := ([One(Str)], [Just(Text(b))]);
    assert kinds[1..] == [] && vals[1..] == [];
    assert RecordOf(kinds, vals) && Faithful(kinds, vals);
    assert [One(Str), One(Str)][1..] == kinds && [Just(Text(a)), Just(Text(b))][1..] == vals;
  }

  lemma PairDecodes(checks: bool, kinds: seq<Kind>, vals: seq<Value>)
    requires |vals| == 2 && RecordOf(kinds, vals) && Faithful(kinds, vals)
    ensures Decode(checks, kinds, Encode(vals)) == Ok(vals)
  {
    RoundTrip(checks, kinds, vals);
  }

  lemma HalvesText(k: Key)
    requires Broken(k) && !Stuck(k)
    ensures RecordOf([One(Str), One(Str)], Halves(k)) && Faithful([One(Str), One(Str)], Halves(k))
  {
    var i := FirstDollar(k);
    Utf8.SplitAtAscii(k, i);
    TwoTexts(k[..i], k[i..]);
  }

  /** The room and the event of a key make up the key. */
  lemma HalvesWhole(k: Key)
    requires DOLLAR in k
    ensures Halves(k)[0].atom.bytes + Halves(k)[1].atom.bytes == k
  {
    var i := FirstDollar(k);
    assert k == k[..i] + k[i..];
  }

  /** A room without a '$' and an event that starts with one, written without a separator, are told apart. */
  lemma JoinedSplits(room: Key, event: Key)
    requires 0x24 !in room && event != [] && event[0] == 0x24 && Utf8.Valid(room) && Utf8.Valid(event)
    ensures Broken(room + event) && !Stuck(room + event)
    ensures Halves(room + event) == [Just(Text(room)), Just(Text(event))]
    ensures Fix(room + event) == room + [0xFF] + event
  {
    Utf8.ValidAppend(room, event);
    Utf8.ValidHasNoSep(room + event);
    var (k, n) := (room + event, |room|);
    assert k[n] == DOLLAR;
    assert forall j :: 0 <= j < n ==> k[j] == room[j];
    assert FirstDollar(k) == n;
    assert k[..n] == room && k[n..] == event;
    FixShape(k);
    Assoc(room, [SEP], event);
  }

  /** A rewritten key reads back as its room and its event. */
  lemma FixDecodes(checks: bool, k: Key)
    requires Broken(k) && !Stuck(k)
    ensures Decode(checks, [One(Str), One(Str)], Fix(k)) == Ok(Halves(k))
  {
    HalvesText(k);
    PairDecodes(checks, [One(Str), One(Str)], Halves(k));
  }

  /** What the migration guarantees about a column none of whose keys is stuck: after any number of
      crashes, a complete run over all keys gives every key a separator, keeps every record, and
      ends where an undisturbed run would have. */
  lemma MigrationCrashSafe<V>(states: seq<map<Key, V>>, keys: seq<Key>, n: nat, key: Key)
    requires Crashes(SEPARATE, states) && n >= 2 * |keys|
    requires forall k :: k in states[0] ==> !Stuck(k)
    requires var m := states[|states| - 1]; Lists(m, keys) && forall k :: k in m ==> k in keys
    ensures var m := RunFor(SEPARATE, states[|states| - 1], keys, n);
      && Lookup(m, key) == Final(SEPARATE, states[0], key)
      && (key in m ==> SEP in key)
      && (key in states[0] ==> Fix(key) in m)
      && (key in states[0] && Broken(key) ==> m[Fix(key)] == states[0][key])
      && (key in states[0] && !Broken(key) ==>
            m[key] == states[0][if Target(SEPARATE, states[0], key) then Unfix(key) else key])
  {
    SeparateLawful();
    CrashSafe(SEPARATE, states, keys, n, key);
    if Target(SEPARATE, states[0], key) {
      FixShape(Unfix(key));
      assert Fix(Unfix(key))[FirstDollar(Unfix(key))] == SEP;
    }
    if key in states[0] {
      CrashSafe(SEPARATE, states, keys, n, Fix(key));
      assert Broken(key) ==> SEPARATE.unfix(SEPARATE.fix(key)) == key;
    }
  }

  /** The migration over a column, cut off after `budget` writes. */
  method FixReferencedEventsMissingSep<V>(column: Column<Key, V>, keys: seq<Key>, budget: nat) returns (p: Progress)
    requires Lists(column.db, keys)
    modifies column
    ensures var h := Handled(Stuck, keys);
      && column.db == RunFor(SEPARATE, old(column.db), keys[..h], budget)
      && (p.Crashed? <==> budget < 2 * CountBroken(SEPARATE, keys, h))
      && (p.Done? <==> h == |keys| && budget >= 2 * CountBroken(SEPARATE, keys, h))
    ensures p.Done? ==> p.last == (if keys == [] then 0 else |keys| - 1)
    ensures p.Done? ==> p.fixed == CountBroken(SEPARATE, keys, |keys|)
  {
    p := column.Rewrite(SEPARATE, Stuck, keys, budget);
  }
}
