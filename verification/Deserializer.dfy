/** The deserializer as the state machine it is: a position and a record count over a fixed buffer. */
module De {
  import opened Bytes
  import opened Codec
  import opened Collections
  import Utf8

  lemma FirstSepAt(buf: seq<Byte>, pos: nat, i: nat)
    requires pos <= i <= |buf| && SEP !in buf[pos..i] && (i < |buf| ==> buf[i] == SEP)
    ensures FirstSep(buf[pos..]) == i - pos
    ensures buf[pos..][..i - pos] == buf[pos..i] && buf[pos..][i - pos..] == buf[i..]
  {
    FirstSepOf(buf[pos..i], buf[i..]);
    assert buf[pos..] == buf[pos..i] + buf[i..];
  }

  class Deserializer {
    const checks: bool
    const buf: seq<Byte>
    var pos: nat
    var rec: nat
    var inSeq: bool

    /** The position never passes the end of the buffer. */
    ghost predicate Valid()
      reads this
    {
      pos <= |buf|
    }

    /** What the current record is read from. */
    ghost function Rest(): seq<Byte>
      requires Valid()
      reads this
    {
      buf[pos..]
    }

    /** What the next record is read from: as `Rest`, but with the separator that the first record lacks. */
    ghost function Framed(): seq<Byte>
      requires Valid()
      reads this
    {
      if pos == 0 && rec == 0 && buf != [] then [SEP] + buf else buf[pos..]
    }

    constructor (checks: bool, buf: seq<Byte>)
      ensures this.checks == checks && this.buf == buf && pos == 0 && rec == 0 && !inSeq
    {
      this.checks, this.buf := checks, buf;
      pos, rec, inSeq := 0, 0, false;
    }

    /** Consume the current record up to its separator or the end of the buffer. */
    method RecordNext() returns (record: seq<Byte>)
      requires Valid()
      modifies this`pos
      ensures Valid()
      ensures var n := FirstSep(old(Rest())); record == old(Rest())[..n] && Rest() == old(Rest())[n..]
    {
      var i := pos;
      while i < |buf| && buf[i] != SEP
        invariant pos <= i <= |buf|
        invariant SEP !in buf[pos..i]
      {
        i := i + 1;
      }
      record := buf[pos..i];
      FirstSepAt(buf, pos, i);
      pos := i;
    }

    /** Consume everything that is left. */
    method RecordTrail() returns (record: seq<Byte>)
      requires Valid()
      modifies this`pos
      ensures Valid() && record == old(Rest()) && Rest() == []
    {
      record := buf[pos..];
      pos := |buf|;
    }

    /** Step over the separator in front of every record but the first. Fails when a debug build
        finds another byte there. */
    method RecordStart() returns (ok: bool)
      requires Valid() && pos < |buf|
      modifies this`pos, this`rec
      ensures Valid() && rec > 0
      ensures ok <==> !(checks && old(Framed())[0] != SEP)
      ensures Rest() == old(Framed())[1..]
    {
      var started := pos != 0 || rec > 0;
      ok := !(checks && started && buf[pos] != SEP);
      pos := pos + if started then 1 else 0;
      rec := rec + 1;
    }

    /** The `Ignore` directive: one record inside a tuple, everything at the top level. */
    method RecordIgnore()
      requires Valid()
      modifies this`pos
      ensures Valid()
      ensures Rest() == if inSeq then SkipField(old(Rest())) else []
    {
      if inSeq {
        var _ := RecordNext();
      } else {
        var _ := RecordTrail();
      }
    }

    method ReadAtom(k: Scalar) returns (r: Outcome<Atom>)
      requires Valid()
      modifies this`pos
      ensures Valid() && !r.Panic?
      ensures r.Err? ==> ParseAtom(k, old(Rest())) == Err(r.error)
      ensures r.Ok? ==> ParseAtom(k, old(Rest())) == Ok((r.value, Rest()))
    {
      if k == Str {
        var record := RecordNext();
        r := if Utf8.Valid(record) then Ok(Text(record)) else Err(NotUtf8);
      } else {
        var end := if pos + 8 < |buf| then pos + 8 else |buf|;
        var bytes := buf[pos..end];
        if |bytes| < 8 {
          return Err(Underflow);
        }
        assert bytes == Rest()[..8];
        ToFromBe(bytes);
        Pow256Of8();
        pos := pos + 8;
        var n := FromBe(bytes);
        r := Ok(if k == U64 then Unsigned(n) else Signed(FromTwosComplement(n)));
      }
    }

    method ReadField(k: Kind) returns (r: Outcome<Value>)
      requires Valid()
      modifies this`pos
      ensures Valid() && !r.Panic?
      ensures r.Err? ==> ParseField(k, old(Rest())) == Err(r.error)
      ensures r.Ok? ==> ParseField(k, old(Rest())) == Ok((r.value, Rest()))
    {
      if k.Raw? {
        var bytes := RecordTrail();
        r := Ok(Blob(bytes));
      } else if k.Opt? && (pos >= |buf| || buf[pos] == SEP) {
        r := Ok(Null);
      } else {
        var a := ReadAtom(k.scalar);
        r := match a case Ok(x) => Ok(Just(x)) case Err(e) => Err(e) case Panic(f) => Panic(f);
      }
    }

    /** The next element of the tuple, if any bytes are left for one. */
    method NextElement(k: Kind) returns (r: Outcome<Option<Value>>)
      requires Valid()
      modifies this`pos, this`rec
      ensures Valid()
      ensures old(Framed()) == [] <==> r == Ok(None)
      ensures r == Panic(MissingSeparator) <==> checks && old(Framed()) != [] && old(Framed())[0] != SEP
      ensures r.Panic? ==> r == Panic(MissingSeparator)
      ensures r.Err? ==> ParseField(k, old(Framed())[1..]) == Err(r.error)
      ensures r.Ok? && r.value.Some? ==> rec > 0 && ParseField(k, old(Framed())[1..]) == Ok((r.value.value, Framed()))
    {
      if pos >= |buf| {
        return Ok(None);
      }
      var ok := RecordStart();
      if !ok {
        return Panic(MissingSeparator);
      }
      var v := ReadField(k);
      r := match v case Ok(x) => Ok(Some(x)) case Err(e) => Err(e) case Panic(f) => Panic(f);
    }
  }

  lemma AfterStep(vals: seq<Value>, v: Value, r: Outcome<(seq<Value>, seq<Byte>)>)
    ensures After(vals, After([v], r)) == After(vals + [v], r)
  {
    if r.Ok? { Assoc(vals, [v], r.value.0); }
  }

  lemma TupleStep(checks: bool, kinds: seq<Kind>, i: nat, vals: seq<Value>, s: seq<Byte>, v: Value, rest: seq<Byte>)
    requires i < |kinds| && s != [] && (checks ==> s[0] == SEP)
    requires ParseField(kinds[i], s[1..]) == Ok((v, rest))
    ensures After(vals, ParseFrame(checks, kinds[i..], s)) == After(vals + [v], ParseFrame(checks, kinds[i + 1..], rest))
  {
    FrameStep(checks, kinds[i..], s, v, rest);
    assert kinds[i..][1..] == kinds[i + 1..];
    AfterStep(vals, v, ParseFrame(checks, kinds[i + 1..], rest));
  }

  /** How far a reading has come whose outcome will be `whole`: what it has read, and that the records
      declared by `kinds` are still to come from `s`; or the error or failure that ended it. */
  predicate Midway(checks: bool, whole: Outcome<(seq<Value>, seq<Byte>)>, r: Outcome<seq<Value>>, kinds: seq<Kind>,
                   s: seq<Byte>)
  {
    match r
    case Ok(vals) => whole == After(vals, ParseFrame(checks, kinds, s))
    case Err(e) => whole == Err(e)
    case Panic(f) => whole == Panic(f)
  }

  /** Read element number `i`, after `vals`. */
  method ReadNext(d: Deserializer, kinds: seq<Kind>, i: nat, vals: seq<Value>) returns (r: Outcome<seq<Value>>)
    requires d.Valid() && i < |kinds|
    modifies d`pos, d`rec
    ensures d.Valid() && (r.Ok? ==> d.rec > 0)
    ensures var whole := After(vals, ParseFrame(d.checks, kinds[i..], old(d.Framed())));
      Midway(d.checks, whole, r, kinds[i + 1..], d.Framed())
  {
    ghost var s := d.Framed();
    var e := d.NextElement(kinds[i]);
    if e == Ok(None) {
      return Err(TooShort);
    } else if e.Err? {
      return Err(e.error);
    } else if e.Panic? {
      return Panic(e.fault);
    }
    TupleStep(d.checks, kinds, i, vals, s, e.value.value, d.Framed());
    r := Ok(vals + [e.value.value]);
  }

  /** Read the elements of a tuple one after the other. */
  method ReadTuple(d: Deserializer, kinds: seq<Kind>) returns (r: Outcome<seq<Value>>)
    requires d.Valid() && d.rec == 0 && !d.inSeq
    modifies d
    ensures d.inSeq && d.Valid() && (kinds != [] && r.Ok? ==> d.rec > 0)
    ensures Midway(d.checks, ParseFrame(d.checks, kinds, old(d.Framed())), r, [], d.Framed())
  {
    d.inSeq := true;
    r := Ok([]);
    ghost var whole := ParseFrame(d.checks, kinds, d.Framed());
    if whole.Ok? { assert [] + whole.value.0 == whole.value.0; }
    assert kinds[0..] == kinds;
    var i := 0;
    while i < |kinds| && r.Ok?
      invariant i <= |kinds| && d.Valid() && d.inSeq
      invariant i > 0 && r.Ok? ==> d.rec > 0
      invariant Midway(d.checks, whole, r, kinds[i..], d.Framed())
    {
      r := ReadNext(d, kinds, i, r.value);
      i := i + 1;
    }
    if r.Ok? { assert kinds[i..] == []; }
  }

  /** The check of debug builds that nothing but one separator is left over. */
  method Finished(d: Deserializer, vals: seq<Value>) returns (r: Outcome<seq<Value>>)
    requires d.Valid()
    ensures r == Finish(d.checks, Ok((vals, d.Rest())))
  {
    var remain := |d.buf| - d.pos;
    var finished := remain == 0 || (remain == 1 && d.buf[d.pos] == SEP);
    r := if d.checks && !finished then Panic(TrailingBytes) else Ok(vals);
  }

  /** Deserialize a tuple: the machine computes what `Decode` describes, on every buffer. */
  method FromSlice(checks: bool, kinds: seq<Kind>, buf: seq<Byte>) returns (r: Outcome<seq<Value>>)
    requires kinds != []
    ensures r == Decode(checks, kinds, buf)
  {
    var d := new Deserializer(checks, buf);
    r := ReadTuple(d, kinds);
    if r.Ok? {
      assert r.value + [] == r.value;
      r := Finished(d, r.value);
    }
  }

  /** Deserialize a value that is not part of a tuple. */
  method FromSliceOne(checks: bool, kind: Kind, buf: seq<Byte>) returns (r: Outcome<seq<Value>>)
    ensures r == DecodeOne(checks, kind, buf)
  {
    var d := new Deserializer(checks, buf);
    assert d.Rest() == buf;
    var v := d.ReadField(kind);
    match v
    case Ok(x) => r := Finished(d, [x]);
    case Err(e) => r := Err(e);
    case Panic(f) => r := Panic(f);
  }
}
