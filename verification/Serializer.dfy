/** The serializer as the state machine it is: `out`, `depth`, `sep` and `fin` change step by step. */
module Ser {
  import opened Bytes
  import opened Codec
  import opened Collections

  /** An element of a tuple: a record, or one of the two directives. */
  datatype Item = Record(v: Value) | Interfix | Separator

  function ItemImage(item: Item): seq<Byte>
  {
    match item
    case Record(v) => Image(v)
    case Interfix => []
    case Separator => [SEP]
  }

  /** The images of the items with a separator between neighbours. */
  function EncodeItems(items: seq<Item>): seq<Byte>
  {
    EncodeFirst(items, |items|)
  }

  /** The bytes of the first `n` items. */
  function EncodeFirst(items: seq<Item>, n: nat): seq<Byte>
    requires n <= |items|
  {
    if n == 0 then [] else
      EncodeFirst(items, n - 1) + (if n > 1 then [SEP] else []) + ItemImage(items[n - 1])
  }

  lemma {:induction false} EncodeFirstOf(items: seq<Item>, more: seq<Item>, n: nat)
    requires n <= |items|
    ensures EncodeFirst(items + more, n) == EncodeFirst(items, n)
  {
    if n > 0 { EncodeFirstOf(items, more, n - 1); }
  }

  function Records(vals: seq<Value>): (items: seq<Item>)
  {
    seq(|vals|, i requires 0 <= i < |vals| => Record(vals[i]))
  }

  class Serializer {
    const checks: bool
    var out: seq<Byte>
    var depth: nat
    var sep: bool
    var fin: bool

    constructor (checks: bool)
      ensures this.checks == checks && out == [] && depth == 0 && !sep && !fin
    {
      this.checks := checks;
      out, depth, sep, fin := [], 0, false, false;
    }

    /** Enter a tuple; fails when the debug assertion of a fresh tuple does. */
    method TupleStart() returns (ok: bool)
      modifies this`depth
      ensures ok <==> !(checks && (sep || fin))
      ensures depth == if ok && checks then old(depth) + 1 else old(depth)
    {
      ok := !(checks && (sep || fin));
      if ok && checks { depth := depth + 1; }
    }

    method TupleEnd()
      modifies this`depth
      ensures depth == if checks && old(depth) > 0 then old(depth) - 1 else old(depth)
    {
      if checks && depth > 0 { depth := depth - 1; }
    }

    /** Separate the next record from the one before it; fails after finalization in debug builds. */
    method RecordStart() returns (ok: bool)
      modifies this`sep, this`out
      ensures ok <==> !(checks && fin)
      ensures ok ==> sep && out == old(out) + (if old(sep) then [SEP] else [])
      ensures !ok ==> sep == old(sep) && out == old(out)
    {
      ok := !(checks && fin);
      if ok {
        var before := sep;
        sep := true;
        if before { out := out + [SEP]; }
      }
    }

    method WriteItem(item: Item)
      requires !fin
      modifies this`out, this`fin
      ensures out == old(out) + ItemImage(item)
      ensures fin <==> checks && item.Interfix?
    {
      match item
      case Record(v) =>
        match v {
          case Null =>
          case Just(Text(b)) => out := out + b;
          case Just(Unsigned(n)) => out := out + ToBe(n, 8);
          case Just(Signed(i)) => out := out + ToBe(TwosComplement(i), 8);
          case Blob(b) => out := out + b;
        }
      case Interfix =>
        if checks { fin := true; }
      case Separator =>
        out := out + [SEP];
    }
  }

  /** Serialize a tuple into a fresh buffer. The outcome is nothing exactly when a debug build meets
      an element after the `Interfix`; a release build, which tracks no finalization, goes on. */
  method Serialize(checks: bool, items: seq<Item>) returns (ok: bool, out: seq<Byte>)
    ensures ok <==> !(checks && exists i :: 0 <= i < |items| - 1 && items[i].Interfix?)
    ensures ok ==> out == EncodeItems(items)
  {
    var s := new Serializer(checks);
    ok := s.TupleStart();
    var n := 0;
    while n < |items|
      invariant n <= |items| && s.checks == checks
      invariant s.sep <==> n > 0
      invariant s.fin <==> checks && n > 0 && items[n - 1].Interfix?
      invariant s.depth == if checks then 1 else 0
      invariant checks ==> forall i :: 0 <= i < n - 1 ==> !items[i].Interfix?
      invariant s.out == EncodeFirst(items, n)
    {
      ok := s.RecordStart();
      if !ok {
        return false, [];
      }
      s.WriteItem(items[n]);
      n := n + 1;
    }
    s.TupleEnd();
    assert s.depth == 0;
    ok, out := true, s.out;
  }

  lemma EncodeSnoc(vals: seq<Value>, v: Value)
    requires vals != []
    ensures Encode(vals + [v]) == Encode(vals) + [SEP] + Image(v)
  {
    assert (vals + [v])[1..] == vals[1..] + [v];
    FrameAppend(vals[1..], [v]);
    assert Encode([v]) == Image(v) + [] == Image(v);
    Assoc(Image(vals[0]), Frame(vals[1..]), [SEP] + Image(v));
    Assoc(Encode(vals), [SEP], Image(v));
  }

  /** A tuple of plain records is written as the key that `Encode` describes. */
  lemma {:induction false} RecordsEncode(vals: seq<Value>)
    ensures EncodeItems(Records(vals)) == Encode(vals)
    decreases |vals|
  {
    if vals != [] {
      var n := |vals| - 1;
      RecordsEncode(vals[..n]);
      EncodeFirstOf(Records(vals[..n]), [Record(vals[n])], n);
      assert Records(vals) == Records(vals[..n]) + [Record(vals[n])];
      assert vals == vals[..n] + [vals[n]];
      if n > 0 {
        EncodeSnoc(vals[..n], vals[n]);
      } else {
        assert Image(vals[0]) + [] == Image(vals[0]);
      }
    }
  }

  /** Records followed by the `Interfix` directive are written as a scan prefix. */
  lemma InterfixEncode(vals: seq<Value>)
    ensures EncodeItems(Records(vals) + [Interfix]) == EncodePrefix(vals)
  {
    EncodeFirstOf(Records(vals), [Interfix], |vals|);
    RecordsEncode(vals);
  }
}
