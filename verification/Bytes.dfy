/** Bytes, the bytewise order RocksDB keeps keys in, and big-endian integers. */
module Bytes {
  type Byte = x: int | 0 <= x < 256

  /** The record separator, a byte that no UTF-8 text contains. */
  const SEP: Byte := 0xFF

  /** RocksDB's default comparator: `a` sorts strictly before `b`. */
  predicate Less(a: seq<Byte>, b: seq<Byte>)
    decreases |a|
  {
    |b| > 0 && (|a| == 0 || a[0] < b[0] || (a[0] == b[0] && Less(a[1..], b[1..])))
  }

  lemma {:induction false} LessIrreflexive(a: seq<Byte>)
    ensures !Less(a, a)
    decreases |a|
  {
    if |a| > 0 { LessIrreflexive(a[1..]); }
  }

  lemma {:induction false} LessTransitive(a: seq<Byte>, b: seq<Byte>, c: seq<Byte>)
    requires Less(a, b) && Less(b, c)
    ensures Less(a, c)
    decreases |a|
  {
    if |a| > 0 && a[0] == b[0] == c[0] { LessTransitive(a[1..], b[1..], c[1..]); }
  }

  /** Two keys that are not ordered either way are the same key. */
  lemma {:induction false} LessTotal(a: seq<Byte>, b: seq<Byte>)
    ensures Less(a, b) || Less(b, a) || a == b
    decreases |a|
  {
    if |a| > 0 && |b| > 0 && a[0] == b[0] {
      LessTotal(a[1..], b[1..]);
      assert a == [a[0]] + a[1..] && b == [b[0]] + b[1..];
    }
  }

  /** A common prefix does not affect the order. */
  lemma {:induction false} LessAfterPrefix(p: seq<Byte>, a: seq<Byte>, b: seq<Byte>)
    ensures Less(p + a, p + b) <==> Less(a, b)
    decreases |p|
  {
    if |p| == 0 {
      assert p + a == a && p + b == b;
    } else {
      LessAfterPrefix(p[1..], a, b);
      assert (p + a)[1..] == p[1..] + a && (p + b)[1..] == p[1..] + b;
    }
  }

  /** The order of equally long, different heads decides, whatever follows them. */
  lemma {:induction false} LessByHead(a: seq<Byte>, b: seq<Byte>, x: seq<Byte>, y: seq<Byte>)
    requires |a| == |b| && a != b
    ensures Less(a + x, b + y) <==> Less(a, b)
    decreases |a|
  {
    if a[0] == b[0] {
      assert a == [a[0]] + a[1..] && b == [b[0]] + b[1..];
      LessByHead(a[1..], b[1..], x, y);
      assert (a + x)[1..] == a[1..] + x && (b + y)[1..] == b[1..] + y;
    }
  }

  /** A prefix sorts no later than its extensions. */
  lemma {:induction false} PrefixNotAfter(p: seq<Byte>, a: seq<Byte>)
    requires p <= a
    ensures !Less(a, p)
    decreases |p|
  {
    if |p| > 0 { PrefixNotAfter(p[1..], a[1..]); }
  }

  /** Keys sharing a prefix are contiguous: nothing sorts between two of them without sharing it. */
  lemma {:induction false} PrefixConvex(p: seq<Byte>, a: seq<Byte>, b: seq<Byte>, c: seq<Byte>)
    requires p <= a && p <= c
    requires !Less(b, a) && !Less(c, b)
    ensures p <= b
    decreases |p|
  {
    if |p| > 0 {
      assert b != [] && b[0] == p[0];
      PrefixConvex(p[1..], a[1..], b[1..], c[1..]);
      assert b == [b[0]] + b[1..];
    }
  }

  function Pow256(k: nat): (p: nat)
    ensures p > 0
  {
    if k == 0 then 1 else 256 * Pow256(k - 1)
  }

  /** The low `width` bytes of `v`, most significant first. */
  function ToBe(v: nat, width: nat): (s: seq<Byte>)
    ensures |s| == width
  {
    if width == 0 then [] else ToBe(v / 256, width - 1) + [v % 256]
  }

  function FromBe(s: seq<Byte>): nat
  {
    if s == [] then 0 else 256 * FromBe(s[..|s| - 1]) + s[|s| - 1]
  }

  lemma {:induction false} FromToBe(v: nat, width: nat)
    requires v < Pow256(width)
    ensures FromBe(ToBe(v, width)) == v
  {
    if width > 0 {
      FromToBe(v / 256, width - 1);
      var s := ToBe(v, width);
      assert s[..|s| - 1] == ToBe(v / 256, width - 1);
    }
  }

  lemma {:induction false} ToFromBe(s: seq<Byte>)
    ensures FromBe(s) < Pow256(|s|)
    ensures ToBe(FromBe(s), |s|) == s
    decreases |s|
  {
    if s != [] {
      ToFromBe(s[..|s| - 1]);
      assert FromBe(s) / 256 == FromBe(s[..|s| - 1]);
      assert s == s[..|s| - 1] + [s[|s| - 1]];
    }
  }

  lemma LessBySplit(x: seq<Byte>, i: Byte, y: seq<Byte>, j: Byte)
    requires |x| == |y|
    ensures Less(x + [i], y + [j]) <==> if x == y then i < j else Less(x, y)
  {
    if x == y {
      LessAfterPrefix(x, [i], [j]);
    } else {
      LessByHead(x, y, [i], [j]);
    }
  }

  /** Big-endian bytes of a fixed width compare as the numbers they encode. */
  lemma {:induction false} BeOrder(a: nat, b: nat, width: nat)
    requires a < Pow256(width) && b < Pow256(width)
    ensures Less(ToBe(a, width), ToBe(b, width)) <==> a < b
  {
    if width > 0 {
      BeOrder(a / 256, b / 256, width - 1);
      FromToBe(a / 256, width - 1);
      FromToBe(b / 256, width - 1);
      LessBySplit(ToBe(a / 256, width - 1), a % 256, ToBe(b / 256, width - 1), b % 256);
    }
  }
}

/** Well-formed UTF-8, as Rust's `std::str::from_utf8` decides it. */
module Utf8 {
  import opened Bytes

  predicate Continuation(b: Byte)
  {
    0x80 <= b <= 0xBF
  }

  /** Length of the character at the front of `s`; 0 when `s` does not start with one. */
  function CharLength(s: seq<Byte>): (n: nat)
    ensures n <= |s|
    ensures forall i :: 0 <= i < n ==> s[i] != SEP
    ensures n > 1 ==> forall i :: 0 <= i < n ==> s[i] >= 0x80
  {
    if |s| >= 1 && s[0] < 0x80 then 1
    else if |s| >= 2 && 0xC2 <= s[0] <= 0xDF && Continuation(s[1]) then 2
    else if |s| >= 3 && Continuation(s[1]) && Continuation(s[2]) && 0xE0 <= s[0] <= 0xEF
            && (s[0] == 0xE0 ==> s[1] >= 0xA0) && (s[0] == 0xED ==> s[1] <= 0x9F) then 3
    else if |s| >= 4 && Continuation(s[1]) && Continuation(s[2]) && Continuation(s[3]) && 0xF0 <= s[0] <= 0xF4
            && (s[0] == 0xF0 ==> s[1] >= 0x90) && (s[0] == 0xF4 ==> s[1] <= 0x8F) then 4
    else 0
  }

  predicate Valid(s: seq<Byte>)
    decreases |s|
  {
    s == [] || (CharLength(s) > 0 && Valid(s[CharLength(s)..]))
  }

  /** The separator never occurs in text, which is what makes it usable as one. */
  lemma {:induction false} ValidHasNoSep(s: seq<Byte>)
    requires Valid(s)
    ensures SEP !in s
    decreases |s|
  {
    if s != [] {
      var n := CharLength(s);
      ValidHasNoSep(s[n..]);
      assert s == s[..n] + s[n..];
    }
  }

  lemma CharLengthOfPrefix(s: seq<Byte>, i: nat)
    requires 0 < CharLength(s) <= i <= |s|
    ensures CharLength(s[..i]) == CharLength(s)
  {
  }

  /** Cutting text in front of an ASCII character leaves two pieces of text. */
  lemma {:induction false} SplitAtAscii(s: seq<Byte>, i: nat)
    requires Valid(s) && i < |s| && s[i] < 0x80
    ensures Valid(s[..i]) && Valid(s[i..])
    decreases |s|
  {
    if i > 0 {
      var n := CharLength(s);
      assert n <= i;
      SplitAtAscii(s[n..], i - n);
      CharLengthOfPrefix(s, i);
      assert s[n..][i - n..] == s[i..];
      assert s[..i][n..] == s[n..][..i - n];
    }
  }

  // ---------------------------------------------------------------- which byte strings are text

  /** The numbers of characters: all up to the last code point but the surrogates. */
  predicate Scalar(c: nat)
  {
    c < 0xD800 || 0xE000 <= c <= 0x10FFFF
  }

  /** A continuation byte with the six lowest bits of `c`. */
  function Tail(c: nat): Byte
  {
    0x80 + c % 64
  }

  /** The bytes of one character: up to 7, 11, 16 or 21 bits, six of them in every byte but the first. */
  function EncodeChar(c: nat): seq<Byte>
    requires Scalar(c)
  {
    if c < 0x80 then [c]
    else if c < 0x800 then [0xC0 + c / 64, Tail(c)]
    else if c < 0x10000 then [0xE0 + c / 4096, Tail(c / 64), Tail(c)]
    else [0xF0 + c / 262144, Tail(c / 4096), Tail(c / 64), Tail(c)]
  }

  function EncodeText(cs: seq<nat>): seq<Byte>
    requires forall c :: c in cs ==> Scalar(c)
  {
    if cs == [] then [] else EncodeChar(cs[0]) + EncodeText(cs[1..])
  }

  lemma ThreeBounds(c: nat, s: seq<Byte>)
    requires 0x800 <= c < 0x10000 && Scalar(c) && s == [0xE0 + c / 4096, Tail(c / 64), Tail(c)]
    ensures CharLength(s) == 3
  {
    assert c / 4096 == 0 ==> c / 64 % 64 == c / 64 >= 0x20;
    assert c / 4096 == 0xD ==> c / 64 % 64 < 0x20;
  }

  lemma FourBounds(c: nat, s: seq<Byte>)
    requires 0x10000 <= c <= 0x10FFFF && s == [0xF0 + c / 262144, Tail(c / 4096), Tail(c / 64), Tail(c)]
    ensures CharLength(s) == 4
  {
    assert c / 262144 == 0 ==> c / 4096 % 64 == c / 4096 >= 0x10;
    assert c / 262144 == 4 ==> c / 4096 % 64 < 0x10;
  }

  lemma EncodedBytes(c: nat, s: seq<Byte>)
    requires Scalar(c) && s == EncodeChar(c)
    ensures CharLength(s) == |s| > 0
  {
    if c < 0x80 {
      assert s == [c];
    } else if c < 0x800 {
      assert Continuation(s[1]) && 0xC2 <= s[0] <= 0xDF;
    } else if c < 0x10000 {
      ThreeBounds(c, s);
    } else {
      FourBounds(c, s);
    }
  }

  lemma EncodedLength(c: nat, rest: seq<Byte>)
    requires Scalar(c)
    ensures CharLength(EncodeChar(c) + rest) == |EncodeChar(c)|
  {
    var s := EncodeChar(c);
    EncodedBytes(c, s);
    FrontLength(s, rest);
  }

  /** What comes after a character does not matter. */
  lemma FrontLength(s: seq<Byte>, rest: seq<Byte>)
    requires CharLength(s) == |s| > 0
    ensures CharLength(s + rest) == |s|
  {
    var t := s + rest;
    assert forall i :: 0 <= i < |s| ==> t[i] == s[i];
  }

  lemma SixBits(a: nat, b: nat)
    requires b < 64
    ensures (a * 64 + b) / 64 == a && (a * 64 + b) % 64 == b
  {
  }

  lemma TwelveBits(c: nat)
    ensures c / 64 / 64 == c / 4096 && c / 4096 / 64 == c / 262144
  {
  }

  lemma TwoBytes(a: nat, b: nat)
    requires 0x2 <= a < 0x20 && b < 64
    ensures var c := a * 64 + b; Scalar(c) && EncodeChar(c) == [0xC0 + a, 0x80 + b]
  {
    SixBits(a, b);
  }

  lemma ThreeBytes(a: nat, b: nat, d: nat)
    requires a < 0x10 && b < 64 && d < 64 && (a == 0 ==> b >= 0x20) && (a == 0xD ==> b < 0x20)
    ensures var c := (a * 64 + b) * 64 + d; Scalar(c) && EncodeChar(c) == [0xE0 + a, 0x80 + b, 0x80 + d]
  {
    SixBits(a, b);
    SixBits(a * 64 + b, d);
    TwelveBits((a * 64 + b) * 64 + d);
  }

  lemma FourBytes(a: nat, b: nat, d: nat, e: nat)
    requires a < 5 && b < 64 && d < 64 && e < 64 && (a == 0 ==> b >= 0x10) && (a == 4 ==> b < 0x10)
    ensures var c := ((a * 64 + b) * 64 + d) * 64 + e;
      Scalar(c) && EncodeChar(c) == [0xF0 + a, 0x80 + b, 0x80 + d, 0x80 + e]
  {
    SixBits(a, b);
    SixBits(a * 64 + b, d);
    SixBits((a * 64 + b) * 64 + d, e);
    TwelveBits(((a * 64 + b) * 64 + d) * 64 + e);
  }

  /** Whatever counts as one character is the bytes of one. */
  lemma CharIsEncoded(s: seq<Byte>) returns (c: nat)
    requires CharLength(s) > 0
    ensures Scalar(c) && EncodeChar(c) == s[..CharLength(s)]
  {
    var n := CharLength(s);
    if n == 1 {
      c := s[0];
    } else if n == 2 {
      TwoBytes(s[0] as int - 0xC0, s[1] as int - 0x80);
      c := (s[0] as int - 0xC0) * 64 + (s[1] as int - 0x80);
    } else if n == 3 {
      ThreeBytes(s[0] as int - 0xE0, s[1] as int - 0x80, s[2] as int - 0x80);
      c := ((s[0] as int - 0xE0) * 64 + (s[1] as int - 0x80)) * 64 + (s[2] as int - 0x80);
    } else {
      FourBytes(s[0] as int - 0xF0, s[1] as int - 0x80, s[2] as int - 0x80, s[3] as int - 0x80);
      c := (((s[0] as int - 0xF0) * 64 + (s[1] as int - 0x80)) * 64 + (s[2] as int - 0x80)) * 64 + (s[3] as int - 0x80);
    }
  }

  ghost predicate IsText(s: seq<Byte>, cs: seq<nat>)
  {
    (forall c :: c in cs ==> Scalar(c)) && EncodeText(cs) == s
  }

  lemma {:induction false} ValidIsText(s: seq<Byte>) returns (cs: seq<nat>)
    requires Valid(s)
    ensures IsText(s, cs)
    decreases |s|
  {
    if s == [] {
      cs := [];
    } else {
      var n := CharLength(s);
      var rest := ValidIsText(s[n..]);
      var c := CharIsEncoded(s);
      cs := [c] + rest;
      assert cs[1..] == rest;
      assert s == s[..n] + s[n..];
    }
  }

  lemma {:induction false} TextIsValid(s: seq<Byte>, cs: seq<nat>)
    requires IsText(s, cs)
    ensures Valid(s)
    decreases |cs|
  {
    if cs != [] {
      var rest := EncodeText(cs[1..]);
      TextIsValid(rest, cs[1..]);
      EncodedLength(cs[0], rest);
      assert s[CharLength(s)..] == rest;
    }
  }

  /** The valid byte strings are exactly the encodings of sequences of characters. */
  lemma ValidExactly(s: seq<Byte>)
    ensures Valid(s) <==> exists cs :: IsText(s, cs)
  {
    if Valid(s) {
      var cs := ValidIsText(s);
    }
    if cs :| IsText(s, cs) {
      TextIsValid(s, cs);
    }
  }

  lemma FirstOfText(a: seq<Byte>, b: seq<Byte>)
    requires CharLength(a) > 0
    ensures CharLength(a + b) == CharLength(a)
  {
    var n := CharLength(a);
    CharLengthOfPrefix(a, n);
    FrontLength(a[..n], a[n..] + b);
    assert a + b == a[..n] + (a[n..] + b);
  }

  lemma ValidCons(s: seq<Byte>, n: nat)
    requires CharLength(s) == n > 0 && Valid(s[n..])
    ensures Valid(s)
  {
  }

  /** Text followed by text is text. */
  lemma {:induction false} ValidAppend(a: seq<Byte>, b: seq<Byte>)
    requires Valid(a) && Valid(b)
    ensures Valid(a + b)
    decreases |a|
  {
    if a == [] {
      assert a + b == b;
    } else {
      var n := CharLength(a);
      ValidAppend(a[n..], b);
      FirstOfText(a, b);
      assert (a + b)[n..] == a[n..] + b;
      ValidCons(a + b, n);
    }
  }
}
