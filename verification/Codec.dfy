/** The record format of database keys: what the serializer writes, what the deserializer
    accepts, and the laws that tie the two together. */
module Codec {
  import opened Bytes
  import opened Collections
  import Utf8

  type U64 = x: int | 0 <= x < 0x1_0000_0000_0000_0000
  type I64 = x: int | -0x8000_0000_0000_0000 <= x < 0x8000_0000_0000_0000

  /** The types a record can be declared to have: a scalar, an optional scalar, or raw bytes. */
  datatype Scalar = Str | U64 | I64
  datatype Kind = One(scalar: Scalar) | Opt(scalar: Scalar) | Raw

  datatype Atom = Text(bytes: seq<Byte>) | Unsigned(n: U64) | Signed(i: I64)
  datatype Value = Null | Just(atom: Atom) | Blob(bytes: seq<Byte>)

  predicate AtomOf(s: Scalar, a: Atom)
  {
    match s
    case Str => a.Text? && Utf8.Valid(a.bytes)
    case U64 => a.Unsigned?
    case I64 => a.Signed?
  }

  predicate ValueOf(k: Kind, v: Value)
  {
    match k
    case One(s) => v.Just? && AtomOf(s, v.atom)
    case Opt(s) => v.Null? || (v.Just? && AtomOf(s, v.atom))
    case Raw => v.Blob?
  }

  predicate RecordOf(kinds: seq<Kind>, vals: seq<Value>)
  {
    |kinds| == |vals| && (vals == [] || (ValueOf(kinds[0], vals[0]) && RecordOf(kinds[1..], vals[1..])))
  }

  // ---------------------------------------------------------------- what is written

  function TwosComplement(i: I64): (n: U64)
  {
    if i < 0 then i + 0x1_0000_0000_0000_0000 else i
  }

  function FromTwosComplement(n: U64): (i: I64)
  {
    if n >= 0x8000_0000_0000_0000 then n - 0x1_0000_0000_0000_0000 else n
  }

  function AtomImage(a: Atom): seq<Byte>
  {
    match a
    case Text(b) => b
    case Unsigned(n) => ToBe(n, 8)
    case Signed(i) => ToBe(TwosComplement(i), 8)
  }

  /** The bytes of one record, without any separator. */
  function Image(v: Value): seq<Byte>
  {
    match v
    case Null => []
    case Just(a) => AtomImage(a)
    case Blob(b) => b
  }

  /** A key: the records with a separator between neighbours. */
  function Encode(vals: seq<Value>): seq<Byte>
    decreases |vals|, 0
  {
    if vals == [] then [] else Image(vals[0]) + Frame(vals[1..])
  }

  /** The same with a separator in front of the first record too. */
  function Frame(vals: seq<Value>): seq<Byte>
    decreases |vals|, 1
  {
    if vals == [] then [] else [SEP] + Encode(vals)
  }

  /** A scan prefix: the leading records followed by the `Interfix` directive. */
  function EncodePrefix(vals: seq<Value>): seq<Byte>
  {
    if vals == [] then [] else Encode(vals) + [SEP]
  }

  lemma {:induction false} FrameAppend(a: seq<Value>, b: seq<Value>)
    ensures Frame(a + b) == Frame(a) + Frame(b)
    decreases |a|
  {
    if a == [] {
      assert a + b == b;
    } else {
      FrameAppend(a[1..], b);
      assert (a + b)[1..] == a[1..] + b;
      Assoc(Image(a[0]), Frame(a[1..]), Frame(b));
      Assoc([SEP], Encode(a), Frame(b));
    }
  }

  // ---------------------------------------------------------------- what is read

  datatype Error = TooShort | Underflow | NotUtf8
  datatype Fault = MissingSeparator | TrailingBytes

  /** The outcome of reading: a value, an error returned to the caller, or a failed debug assertion. */
  datatype Outcome<+T> = Ok(value: T) | Err(error: Error) | Panic(fault: Fault)

  /** Index of the first separator, or the length when there is none. */
  function FirstSep(s: seq<Byte>): (n: nat)
    ensures n <= |s| && (n < |s| ==> s[n] == SEP)
    ensures forall i :: 0 <= i < n ==> s[i] != SEP
  {
    if s == [] || s[0] == SEP then 0 else 1 + FirstSep(s[1..])
  }

  function ParseAtom(k: Scalar, s: seq<Byte>): Outcome<(Atom, seq<Byte>)>
  {
    match k
    case Str =>
      var n := FirstSep(s);
      if Utf8.Valid(s[..n]) then Ok((Text(s[..n]), s[n..])) else Err(NotUtf8)
    case U64 =>
      if |s| < 8 then Err(Underflow) else
        ToFromBe(s[..8]);
        Ok((Unsigned(FromBe(s[..8])), s[8..]))
    case I64 =>
      if |s| < 8 then Err(Underflow) else
        ToFromBe(s[..8]);
        Ok((Signed(FromTwosComplement(FromBe(s[..8]))), s[8..]))
  }

  /** Read one record from the front of `s`; the result carries the unread rest. */
  function ParseField(k: Kind, s: seq<Byte>): Outcome<(Value, seq<Byte>)>
  {
    match k
    case Raw => Ok((Blob(s), []))
    case Opt(_) | One(_) =>
      if k.Opt? && (s == [] || s[0] == SEP) then Ok((Null, s)) else
      match ParseAtom(k.scalar, s)
      case Ok((a, rest)) => Ok((Just(a), rest))
      case Err(e) => Err(e)
  }

  /** Read records that are each preceded by a separator. `checks` says whether debug assertions
      are compiled in; without them the separator is skipped unseen. */
  function ParseFrame(checks: bool, kinds: seq<Kind>, s: seq<Byte>): Outcome<(seq<Value>, seq<Byte>)>
  {
    if kinds == [] then Ok(([], s))
    else if s == [] then Err(TooShort)
    else if checks && s[0] != SEP then Panic(MissingSeparator)
    else match ParseField(kinds[0], s[1..])
      case Err(e) => Err(e)
      case Ok((v, rest)) =>
        After([v], ParseFrame(checks, kinds[1..], rest))
  }

  /** `vals` in front of what a reading yields. */
  function After(vals: seq<Value>, r: Outcome<(seq<Value>, seq<Byte>)>): Outcome<(seq<Value>, seq<Byte>)>
  {
    match r
    case Ok((vs, end)) => Ok((vals + vs, end))
    case Err(e) => Err(e)
    case Panic(f) => Panic(f)
  }

  /** Debug builds insist that at most one separator is left unread. */
  function Finish(checks: bool, r: Outcome<(seq<Value>, seq<Byte>)>): Outcome<seq<Value>>
  {
    match r
    case Err(e) => Err(e)
    case Panic(f) => Panic(f)
    case Ok((vals, rest)) =>
      if checks && rest != [] && rest != [SEP] then Panic(TrailingBytes) else Ok(vals)
  }

  /** Read a tuple from a key. The first record has no separator in front of it, and an empty key
      has no record at all. */
  function Decode(checks: bool, kinds: seq<Kind>, buf: seq<Byte>): Outcome<seq<Value>>
    requires kinds != []
  {
    Finish(checks, ParseFrame(checks, kinds, if buf == [] then [] else [SEP] + buf))
  }

  /** Read a value that is not part of a tuple: it fills the key. */
  function DecodeOne(checks: bool, kind: Kind, buf: seq<Byte>): Outcome<seq<Value>>
  {
    match ParseField(kind, buf)
    case Ok((v, rest)) => Finish(checks, Ok(([v], rest)))
    case Err(e) => Err(e)
    case Panic(f) => Panic(f)
  }

  // ---------------------------------------------------------------- one record

  /** What a record must satisfy to survive a trip through a key: an optional record must not
      look absent, that is, be empty or begin with the separator byte. */
  predicate Distinct(k: Kind, v: Value)
  {
    k.Opt? && v.Just? ==> Image(v) != [] && Image(v)[0] != SEP
  }

  predicate AtBoundary(s: seq<Byte>)
  {
    s == [] || s[0] == SEP
  }

  lemma {:induction false} FirstSepOf(t: seq<Byte>, s: seq<Byte>)
    requires SEP !in t && AtBoundary(s)
    ensures FirstSep(t + s) == |t|
    decreases |t|
  {
    if t == [] {
      assert t + s == s;
    } else {
      assert (t + s)[1..] == t[1..] + s && t[0] in t;
      FirstSepOf(t[1..], s);
    }
  }

  lemma Pow256Of8()
    ensures Pow256(8) == 0x1_0000_0000_0000_0000
  {
    assert Pow256(4) == 256 * (256 * (256 * (256 * Pow256(0))));
    assert Pow256(8) == 256 * (256 * (256 * (256 * Pow256(4))));
  }

  /** Reading back a scalar, followed by the end of the key or a separator, returns that scalar. */
  lemma AtomRoundTrip(k: Scalar, a: Atom, s: seq<Byte>)
    requires AtomOf(k, a) && AtBoundary(s)
    ensures ParseAtom(k, AtomImage(a) + s) == Ok((a, s))
  {
    var t := AtomImage(a) + s;
    match k
    case Str =>
      Utf8.ValidHasNoSep(a.bytes);
      FirstSepOf(a.bytes, s);
      assert t[..|a.bytes|] == a.bytes;
    case U64 =>
      Pow256Of8();
      FromToBe(a.n, 8);
      assert t[..8] == AtomImage(a);
    case I64 =>
      Pow256Of8();
      FromToBe(TwosComplement(a.i), 8);
      assert t[..8] == AtomImage(a);
  }

  lemma FieldRoundTrip(k: Kind, v: Value, s: seq<Byte>)
    requires ValueOf(k, v) && !k.Raw? && Distinct(k, v) && AtBoundary(s)
    ensures ParseField(k, Image(v) + s) == Ok((v, s))
  {
    if v.Just? {
      AtomRoundTrip(k.scalar, v.atom, s);
    } else {
      assert [] + s == s;
    }
  }

  /** Whatever one record is read as, writing it again restores the bytes that were consumed. */
  lemma FieldSound(k: Kind, s: seq<Byte>)
    ensures !ParseField(k, s).Panic?
    ensures ParseField(k, s).Ok? ==>
      var (v, rest) := ParseField(k, s).value;
      ValueOf(k, v) && Distinct(k, v) && s == Image(v) + rest
  {
    if ParseField(k, s).Ok? {
      var (v, rest) := ParseField(k, s).value;
      if v.Just? && k.scalar != Str {
        ToFromBe(s[..8]);
        Pow256Of8();
        assert AtomImage(v.atom) == s[..8];
      }
    }
  }

  // ---------------------------------------------------------------- whole keys

  /** The tuples that survive a trip through a key. Every clause can be checked before encoding. */
  predicate Faithful(kinds: seq<Kind>, vals: seq<Value>)
    requires |kinds| == |vals|
  {
    vals == [] ||
    (Distinct(kinds[0], vals[0]) && (kinds[0].Raw? ==> |vals| == 1) && Faithful(kinds[1..], vals[1..]))
  }

  lemma FrameAtBoundary(vals: seq<Value>)
    ensures AtBoundary(Frame(vals))
  {
  }

  /** Reading the first record of a key that starts with a faithful one leaves the rest of the key. */
  lemma FrameHead(k: Kind, v: Value, rest: seq<Value>)
    requires ValueOf(k, v) && Distinct(k, v) && (k.Raw? ==> rest == [])
    ensures ParseField(k, Image(v) + Frame(rest)) == Ok((v, Frame(rest)))
  {
    FrameAtBoundary(rest);
    if k.Raw? {
      assert Image(v) + Frame(rest) == Image(v);
    } else {
      FieldRoundTrip(k, v, Frame(rest));
    }
  }

  /** One step of reading a frame. */
  lemma FrameStep(checks: bool, kinds: seq<Kind>, s: seq<Byte>, v: Value, rest: seq<Byte>)
    requires kinds != [] && s != [] && (checks ==> s[0] == SEP)
    requires ParseField(kinds[0], s[1..]) == Ok((v, rest))
    ensures ParseFrame(checks, kinds, s) == After([v], ParseFrame(checks, kinds[1..], rest))
  {
  }

  /** The step that a successful reading of a frame began with. */
  lemma FrameUnstep(checks: bool, kinds: seq<Kind>, s: seq<Byte>) returns (rest: seq<Byte>)
    requires kinds != [] && ParseFrame(checks, kinds, [SEP] + s).Ok?
    ensures var (vals, end) := ParseFrame(checks, kinds, [SEP] + s).value;
      && vals != [] && ValueOf(kinds[0], vals[0]) && Distinct(kinds[0], vals[0])
      && s == Image(vals[0]) + rest
      && (kinds[0].Raw? ==> |kinds| == 1)
      && ParseFrame(checks, kinds[1..], rest) == Ok((vals[1..], end))
  {
    assert ([SEP] + s)[1..] == s;
    FieldSound(kinds[0], s);
    var v := ParseField(kinds[0], s).value.0;
    rest := ParseField(kinds[0], s).value.1;
    FrameStep(checks, kinds, [SEP] + s, v, rest);
    var (vs, end) := ParseFrame(checks, kinds[1..], rest).value;
    assert ([v] + vs)[1..] == vs;
  }

  lemma {:induction false} FrameRoundTrip(checks: bool, kinds: seq<Kind>, vals: seq<Value>)
    requires RecordOf(kinds, vals) && Faithful(kinds, vals)
    ensures ParseFrame(checks, kinds, Frame(vals)) == Ok((vals, []))
    decreases |vals|
  {
    if vals != [] {
      FrameRoundTrip(checks, kinds[1..], vals[1..]);
      FrameHead(kinds[0], vals[0], vals[1..]);
      assert Frame(vals)[1..] == Encode(vals);
      FrameStep(checks, kinds, Frame(vals), vals[0], Frame(vals[1..]));
      ConsOf(vals);
    }
  }

  /** A tuple that comes back unchanged was faithful. */
  lemma {:induction false} FrameRoundTripOnly(checks: bool, kinds: seq<Kind>, vals: seq<Value>)
    requires RecordOf(kinds, vals)
    requires var r := ParseFrame(checks, kinds, Frame(vals)); r.Ok? && r.value.0 == vals
    ensures Faithful(kinds, vals)
    decreases |vals|
  {
    if vals != [] {
      var r := FrameUnstep(checks, kinds, Encode(vals));
      assert r == Encode(vals)[|Image(vals[0])|..] == Frame(vals[1..]);
      FrameRoundTripOnly(checks, kinds[1..], vals[1..]);
    }
  }

  /** Round trip: decoding an encoded tuple returns it exactly when the tuple is faithful and is
      not a single record without any bytes. Debug assertions make no difference to that. */
  lemma RoundTrip(checks: bool, kinds: seq<Kind>, vals: seq<Value>)
    requires RecordOf(kinds, vals) && vals != []
    ensures Decode(checks, kinds, Encode(vals)) == Ok(vals)
        <==> Faithful(kinds, vals) && (|vals| > 1 || Image(vals[0]) != [])
  {
    if |vals| > 1 {
      assert Encode(vals)[|Image(vals[0])|] == SEP;
    } else {
      assert Encode(vals) == Image(vals[0]) + [];
    }
    if Faithful(kinds, vals) {
      FrameRoundTrip(checks, kinds, vals);
    } else if Decode(checks, kinds, Encode(vals)) == Ok(vals) {
      FrameRoundTripOnly(checks, kinds, vals);
    }
  }

  /** An empty text in an optional record reads back as an absent one. */
  lemma EmptyTextVanishes(checks: bool)
    ensures var (kinds, vals) := ([Opt(Str), One(Str)], [Just(Text([])), Just(Text([0x61]))]);
      RecordOf(kinds, vals) && Decode(checks, kinds, Encode(vals)) != Ok(vals)
  {
    var (kinds, vals) := ([Opt(Str), One(Str)], [Just(Text([])), Just(Text([0x61]))]);
    var (ks, vs) := ([One(Str)], [Just(Text([0x61]))]);
    assert ks[1..] == [] && vs[1..] == [] && RecordOf(ks, vs);
    assert kinds[1..] == ks && vals[1..] == vs;
    assert !Distinct(kinds[0], vals[0]);
    RoundTrip(checks, kinds, vals);
  }

  /** A value on its own reads back as written exactly when an optional one does not look absent. */
  lemma RoundTripOne(checks: bool, k: Kind, v: Value)
    requires ValueOf(k, v)
    ensures DecodeOne(checks, k, Image(v)) == Ok([v]) <==> Distinct(k, v)
  {
    assert Image(v) + [] == Image(v);
    if Distinct(k, v) && !k.Raw? { FieldRoundTrip(k, v, []); }
    FieldSound(k, Image(v));
  }

  lemma {:induction false} FrameSound(kinds: seq<Kind>, s: seq<Byte>)
    requires ParseFrame(true, kinds, s).Ok?
    ensures var (vals, rest) := ParseFrame(true, kinds, s).value;
      RecordOf(kinds, vals) && Faithful(kinds, vals) && s == Frame(vals) + rest
    decreases |kinds|
  {
    if kinds != [] {
      var tail := s[1..];
      assert s == [SEP] + tail;
      var (vals, end) := ParseFrame(true, kinds, s).value;
      var rest := FrameUnstep(true, kinds, tail);
      FrameSound(kinds[1..], rest);
      Assoc(Image(vals[0]), Frame(vals[1..]), end);
      Assoc([SEP], Encode(vals), end);
    }
  }

  /** The decoder accepts nothing but encodings: a buffer it takes without complaint is the
      encoding of the faithful tuple it returns, up to one trailing separator. */
  lemma DecodeSound(kinds: seq<Kind>, buf: seq<Byte>)
    requires kinds != [] && Decode(true, kinds, buf).Ok?
    ensures var vals := Decode(true, kinds, buf).value;
      && RecordOf(kinds, vals) && Faithful(kinds, vals)
      && (buf == Encode(vals) || buf == Encode(vals) + [SEP])
  {
    FrameSound(kinds, [SEP] + buf);
    var (vals, rest) := ParseFrame(true, kinds, [SEP] + buf).value;
    assert [SEP] + buf == [SEP] + (Encode(vals) + rest);
    assert buf == ([SEP] + buf)[1..] == Encode(vals) + rest;
    assert Encode(vals) + [] == Encode(vals);
  }

  /** Different faithful tuples never share a key. */
  lemma EncodeInjective(kinds: seq<Kind>, a: seq<Value>, b: seq<Value>)
    requires RecordOf(kinds, a) && Faithful(kinds, a) && RecordOf(kinds, b) && Faithful(kinds, b)
    requires Encode(a) == Encode(b)
    ensures a == b
  {
    if a != [] {
      FrameRoundTrip(true, kinds, a);
      FrameRoundTrip(true, kinds, b);
    }
  }

  // ---------------------------------------------------------------- debug assertions

  lemma {:induction false} FrameChecksOnlyPanic(kinds: seq<Kind>, s: seq<Byte>)
    requires !ParseFrame(true, kinds, s).Panic?
    ensures ParseFrame(false, kinds, s) == ParseFrame(true, kinds, s)
    decreases |kinds|
  {
    if kinds != [] && s != [] {
      FieldSound(kinds[0], s[1..]);
      if ParseField(kinds[0], s[1..]).Ok? {
        FrameChecksOnlyPanic(kinds[1..], ParseField(kinds[0], s[1..]).value.1);
      }
    }
  }

  /** A release build reads whatever a debug build reads, with the same result. */
  lemma ChecksOnlyPanic(kinds: seq<Kind>, buf: seq<Byte>)
    requires kinds != [] && !Decode(true, kinds, buf).Panic?
    ensures Decode(false, kinds, buf) == Decode(true, kinds, buf)
  {
    FrameChecksOnlyPanic(kinds, if buf == [] then [] else [SEP] + buf);
  }

  predicate Textual(kinds: seq<Kind>)
  {
    forall i :: 0 <= i < |kinds| ==> !kinds[i].Raw? && kinds[i].scalar == Str
  }

  lemma {:induction false} TextFrameNeverLosesStep(kinds: seq<Kind>, s: seq<Byte>)
    requires Textual(kinds) && AtBoundary(s)
    ensures ParseFrame(true, kinds, s) != Panic(MissingSeparator)
    decreases |kinds|
  {
    if kinds != [] && s != [] && ParseField(kinds[0], s[1..]).Ok? {
      TextFrameNeverLosesStep(kinds[1..], ParseField(kinds[0], s[1..]).value.1);
    }
  }

  /** With only text records, no buffer whatever, however corrupt, makes the decoder miss a separator. */
  lemma TextNeverLosesStep(kinds: seq<Kind>, buf: seq<Byte>)
    requires kinds != [] && Textual(kinds)
    ensures Decode(true, kinds, buf) != Panic(MissingSeparator)
  {
    TextFrameNeverLosesStep(kinds, [SEP] + buf);
  }

  // ---------------------------------------------------------------- ignored records

  /** What is left after the `Ignore` directive stepped over a record without reading it. */
  function SkipField(s: seq<Byte>): seq<Byte>
  {
    s[FirstSep(s)..]
  }

  /** `Ignore` lands on the next record exactly when the record it skips holds no separator byte:
      always over text, but not over every integer. */
  lemma IgnoreExact(v: Value, rest: seq<Value>)
    ensures SkipField(Image(v) + Frame(rest)) == Frame(rest) <==> SEP !in Image(v)
  {
    var (t, r) := (Image(v), Frame(rest));
    if SEP in t {
      var i :| 0 <= i < |t| && t[i] == SEP;
      assert (t + r)[i] == SEP;
      assert |SkipField(t + r)| > |r|;
    } else {
      FrameAtBoundary(rest);
      FirstSepOf(t, r);
    }
  }

  // ---------------------------------------------------------------- scans

  /** A record and a separator begin the same bytes as another record of that kind and its
      separator only if the records are equal. */
  lemma HeadUnique(k: Kind, x: Value, y: Value, p: seq<Byte>, t: seq<Byte>)
    requires ValueOf(k, x) && ValueOf(k, y) && !k.Raw? && Distinct(k, x) && Distinct(k, y)
    ensures Image(x) + ([SEP] + p) <= Image(y) + ([SEP] + t) <==> x == y && p <= t
  {
    var (a, b) := (Image(x) + ([SEP] + p), Image(y) + ([SEP] + t));
    FieldRoundTrip(k, y, [SEP] + t);
    if x == y && p <= t {
      Assoc([SEP], p, t[|p|..]);
      Assoc(Image(x), [SEP] + p, t[|p|..]);
      assert b == a + t[|p|..];
    }
    if a <= b {
      var z := b[|a|..];
      assert b == a + z;
      Assoc(Image(x), [SEP] + p, z);
      Assoc([SEP], p, z);
      FieldRoundTrip(k, x, [SEP] + (p + z));
      assert t == ([SEP] + t)[1..] == ([SEP] + (p + z))[1..] == p + z;
    }
  }

  lemma PrefixSplit(p: seq<Value>)
    requires p != []
    ensures EncodePrefix(p) == Image(p[0]) + ([SEP] + EncodePrefix(p[1..]))
  {
    Assoc(Image(p[0]), Frame(p[1..]), [SEP]);
    if |p| > 1 { Assoc([SEP], Encode(p[1..]), [SEP]); }
  }

  lemma ConsEqual<T>(a: seq<T>, b: seq<T>)
    requires a != [] && b != []
    ensures a == b <==> a[0] == b[0] && a[1..] == b[1..]
  {
    assert a == [a[0]] + a[1..] && b == [b[0]] + b[1..];
  }

  lemma {:induction false} PrefixExactStep(lead: seq<Kind>, kinds: seq<Kind>, p: seq<Value>, t: seq<Value>)
    requires lead < kinds && RecordOf(lead, p) && Faithful(lead, p)
    requires RecordOf(kinds, t) && Faithful(kinds, t)
    ensures EncodePrefix(p) <= Encode(t) <==> p == t[..|p|]
    decreases |p|
  {
    if p != [] {
      PrefixExactStep(lead[1..], kinds[1..], p[1..], t[1..]);
      PrefixSplit(p);
      HeadUnique(kinds[0], p[0], t[0], EncodePrefix(p[1..]), Encode(t[1..]));
      ConsEqual(p, t[..|p|]);
      assert t[..|p|][1..] == t[1..][..|p[1..]|];
    }
  }

  /** Prefix scans are exact: the scan prefix of some leading records begins the key of a longer
      tuple precisely when the tuple begins with those records. */
  lemma PrefixExact(kinds: seq<Kind>, p: seq<Value>, t: seq<Value>)
    requires |p| < |t| && RecordOf(kinds, t) && Faithful(kinds, t)
    requires RecordOf(kinds[..|p|], p) && Faithful(kinds[..|p|], p)
    ensures EncodePrefix(p) <= Encode(t) <==> p == t[..|p|]
  {
    PrefixExactStep(kinds[..|p|], kinds, p, t);
  }

  /** Without the `Interfix` a scan would also match records that merely begin with the last one. */
  lemma InterfixNeeded()
    ensures var kinds := [One(Str), One(Str)];
      var (p, t) := ([Just(Text([0x61]))], [Just(Text([0x61, 0x62])), Just(Text([0x63]))]);
      RecordOf(kinds, t) && Faithful(kinds, t) && RecordOf(kinds[..1], p)
      && Encode(p) <= Encode(t) && p != t[..1]
  {
    assert Utf8.Valid([0x61]) && Utf8.Valid([0x63]) by { assert Utf8.Valid([]); }
    assert Utf8.Valid([0x61, 0x62]) by { assert Utf8.Valid([]) && [0x61, 0x62][1..] == [0x62]; }
    assert Encode([Just(Text([0x61]))]) == [0x61];
    assert Encode([Just(Text([0x61, 0x62])), Just(Text([0x63]))]) == [0x61, 0x62] + Frame([Just(Text([0x63]))]);
  }

  lemma FrameSplit(p: seq<Value>, v: Value, x: seq<Value>)
    ensures Frame(p + [v] + x) == (Frame(p) + [SEP]) + (Image(v) + Frame(x))
  {
    Assoc(p, [v], x);
    FrameAppend(p, [v] + x);
    assert ([v] + x)[1..] == x;
    Assoc(Frame(p), [SEP], Image(v) + Frame(x));
  }

  /** Keys that agree up to an unsigned record sort by that record's number, whatever follows. */
  lemma NumericOrder(p: seq<Value>, a: U64, b: U64, x: seq<Value>, y: seq<Value>)
    requires a != b
    ensures Less(Encode(p + [Just(Unsigned(a))] + x), Encode(p + [Just(Unsigned(b))] + y)) <==> a < b
  {
    var (va, vb) := (Just(Unsigned(a)), Just(Unsigned(b)));
    var (s, t) := (p + [va] + x, p + [vb] + y);
    FrameSplit(p, va, x);
    FrameSplit(p, vb, y);
    Pow256Of8();
    FromToBe(a, 8);
    FromToBe(b, 8);
    BeOrder(a, b, 8);
    LessByHead(ToBe(a, 8), ToBe(b, 8), Frame(x), Frame(y));
    LessAfterPrefix(Frame(p) + [SEP], ToBe(a, 8) + Frame(x), ToBe(b, 8) + Frame(y));
    LessAfterPrefix([SEP], Encode(s), Encode(t));
  }

  // ---------------------------------------------------------------- keys that are no encoding of the tuple

  /** A record fails to be read if and only if it is a text that is not valid, or a number with fewer than
      eight bytes left, and in neither case an optional record that looks absent. */
  lemma FieldErrors(k: Kind, s: seq<Byte>)
    ensures ParseField(k, s).Err? <==>
      !k.Raw? && !(k.Opt? && AtBoundary(s)) && if k.scalar == Str then !Utf8.Valid(s[..FirstSep(s)]) else |s| < 8
    ensures ParseField(k, s).Err? ==> ParseField(k, s).error == if k.scalar == Str then NotUtf8 else Underflow
  {
  }

  lemma {:induction false} FrameTooShort(checks: bool, kinds: seq<Kind>, vals: seq<Value>)
    requires |vals| < |kinds| && RecordOf(kinds[..|vals|], vals) && Faithful(kinds[..|vals|], vals)
    ensures ParseFrame(checks, kinds, Frame(vals)) == Err(TooShort)
    decreases |vals|
  {
    if vals != [] {
      var front := kinds[..|vals|];
      assert front[1..] == kinds[1..][..|vals| - 1];
      FrameTooShort(checks, kinds[1..], vals[1..]);
      FrameHead(kinds[0], vals[0], vals[1..]);
      assert Frame(vals)[1..] == Encode(vals);
      FrameStep(checks, kinds, Frame(vals), vals[0], Frame(vals[1..]));
    }
  }

  /** A key with too few records is answered with an error, in release builds too. */
  lemma ShortKeyFails(checks: bool, kinds: seq<Kind>, vals: seq<Value>)
    requires |vals| < |kinds| && RecordOf(kinds[..|vals|], vals) && Faithful(kinds[..|vals|], vals)
    ensures Decode(checks, kinds, Encode(vals)) == Err(TooShort)
  {
    FrameTooShort(checks, kinds, vals);
    if vals == [] || Encode(vals) == [] { assert ParseFrame(checks, kinds, []) == Err(TooShort); }
  }

  lemma {:induction false} FrameTrailing(checks: bool, kinds: seq<Kind>, vals: seq<Value>)
    requires RecordOf(kinds, vals) && Faithful(kinds, vals) && Raw !in kinds
    ensures ParseFrame(checks, kinds, Frame(vals) + [SEP]) == Ok((vals, [SEP]))
    decreases |vals|
  {
    if vals != [] {
      var (s, rest) := (Frame(vals) + [SEP], Frame(vals[1..]) + [SEP]);
      FrameTrailing(checks, kinds[1..], vals[1..]);
      FieldRoundTrip(kinds[0], vals[0], rest);
      Assoc(Image(vals[0]), Frame(vals[1..]), [SEP]);
      Assoc([SEP], Encode(vals), [SEP]);
      assert s == [SEP] + (Image(vals[0]) + rest);
      assert s[1..] == Image(vals[0]) + rest;
      FrameStep(checks, kinds, s, vals[0], rest);
      ConsOf(vals);
    } else {
      assert [] + [SEP] == [SEP];
    }
  }

  /** One separator too many at the end does no harm. */
  lemma TrailingSeparator(checks: bool, kinds: seq<Kind>, vals: seq<Value>)
    requires RecordOf(kinds, vals) && Faithful(kinds, vals) && Raw !in kinds && vals != []
    ensures Decode(checks, kinds, Encode(vals) + [SEP]) == Ok(vals)
  {
    FrameTrailing(checks, kinds, vals);
    Assoc([SEP], Encode(vals), [SEP]);
  }

  // ---------------------------------------------------------------- what keys look like

  /** A signed number is written as the unsigned number that is equal to it modulo two to the 64. */
  lemma SignedImage(i: I64)
    ensures |AtomImage(Signed(i))| == 8
    ensures FromBe(AtomImage(Signed(i))) == if i >= 0 then i else 18446744073709551616 + i
  {
    Pow256Of8();
    FromToBe(TwosComplement(i), 8);
  }

  /** The layout of a key of a text, a number and a text: nothing is written but them and two separators. */
  lemma KeyLayout(a: seq<Byte>, n: U64, b: seq<Byte>)
    ensures Encode([Just(Text(a)), Just(Unsigned(n)), Just(Text(b))]) == a + ([0xFF] + (ToBe(n, 8) + ([0xFF] + b)))
  {
    var (x, y, z) := (Just(Text(a)), Just(Unsigned(n)), Just(Text(b)));
    assert [x, y, z][1..] == [y, z] && [y, z][1..] == [z] && [z][1..] == [];
    assert Encode([z]) == b + [] == b;
    assert Encode([y, z]) == ToBe(n, 8) + Frame([z]);
    assert Encode([x, y, z]) == a + Frame([y, z]);
  }

  /** A number is written with its most significant byte first. */
  lemma ImageOf258()
    ensures AtomImage(Unsigned(258)) == [0, 0, 0, 0, 0, 0, 1, 2]
  {
    assert ToBe(0, 2) == [0, 0];
    assert ToBe(0, 4) == [0, 0, 0, 0];
    assert ToBe(0, 6) == [0, 0, 0, 0, 0, 0];
    assert ToBe(1, 7) == [0, 0, 0, 0, 0, 0, 1];
  }
}
