/** Paging through the public room directory with offset tokens. */
module Paging {
  import opened Collections

  const USIZE_MAX := 0xFFFF_FFFF_FFFF_FFFF

  // ---------------------------------------------------------------- tokens

  function Digit(d: nat): char
    requires d < 10
  {
    '0' + d as char
  }

  function Format(n: nat): (s: string)
    ensures s != [] && forall i :: 0 <= i < |s| ==> '0' <= s[i] <= '9'
  {
    if n < 10 then [Digit(n)] else Format(n / 10) + [Digit(n % 10)]
  }

  /** The number that a string of digits denotes, if it is one. */
  function Digits(s: string): Option<nat>
  {
    if s == [] then None else
      var n := |s| - 1;
      if !('0' <= s[n] <= '9') then None else
        var d := s[n] as nat - '0' as nat;
        if n == 0 then Some(d) else
          match Digits(s[..n])
          case None => None
          case Some(v) => Some(10 * v + d)
  }

  /** As Rust parses a `usize`: digits, after an optional plus sign, and no overflow. */
  function Parse(s: string): Option<nat>
  {
    var v := Digits(if s != [] && s[0] == '+' then s[1..] else s);
    if v.Some? && v.value <= USIZE_MAX then v else None
  }

  lemma {:induction false} DigitsOfFormat(n: nat)
    ensures Digits(Format(n)) == Some(n)
  {
    if n >= 10 {
      DigitsOfFormat(n / 10);
      var s := Format(n);
      assert s[..|s| - 1] == Format(n / 10);
    }
  }

  /** A number reads back if and only if it fits, with a plus sign or without. */
  lemma ParseFormat(n: nat)
    ensures Parse(Format(n)) == Parse(['+'] + Format(n)) == if n <= USIZE_MAX then Some(n) else None
  {
    DigitsOfFormat(n);
    assert (['+'] + Format(n))[1..] == Format(n);
  }

  predicate Decimal(s: string)
  {
    s != [] && forall i :: 0 <= i < |s| ==> '0' <= s[i] <= '9'
  }

  lemma {:induction false} DigitsExactly(s: string)
    ensures Digits(s).Some? <==> Decimal(s)
    decreases |s|
  {
    if |s| > 1 { DigitsExactly(s[..|s| - 1]); }
  }

  /** Where a page starts; nothing for a token that is not one. */
  function Offset(since: Option<string>, limit: nat): Option<nat>
  {
    match since
    case None => Some(0)
    case Some(s) =>
      if s == [] || (s[0] != 'n' && s[0] != 'p') then None else
      match Parse(s[1..])
      case None => None
      case Some(n) => Some(if s[0] == 'n' then n else if n < limit then 0 else n - limit)
  }

  // ---------------------------------------------------------------- pages

  datatype Response<+T> = Invalid | Overflow | Page(chunk: seq<T>, prev: Option<string>, next: Option<string>)

  /** At most `limit` rooms after skipping `num`. */
  function Window<T>(rooms: seq<T>, num: nat, limit: nat): (w: seq<T>)
    ensures |w| <= limit
    ensures num <= |rooms| && |w| < limit ==> w == rooms[num..]
    ensures |w| == limit && num <= |rooms| ==> num + limit <= |rooms| && w == rooms[num..num + limit]
    ensures num > |rooms| ==> w == []
  {
    if num > |rooms| then [] else if num + limit > |rooms| then rooms[num..] else rooms[num..num + limit]
  }

  function PageAt<T>(rooms: seq<T>, num: nat, limit: nat): Response<T>
  {
    if num + limit > USIZE_MAX then Overflow else
      var chunk := Window(rooms, num, limit);
      Page(chunk,
           if num != 0 then Some(['p'] + Format(num)) else None,
           if |chunk| >= limit then Some(['n'] + Format(num + limit)) else None)
  }

  function Answer<T>(rooms: seq<T>, since: Option<string>, limit: nat): Response<T>
  {
    match Offset(since, limit)
    case None => Invalid
    case Some(num) => PageAt(rooms, num, limit)
  }

  method ReadSince(since: Option<string>, limit: nat) returns (r: Option<nat>)
    ensures r == Offset(since, limit)
  {
    var num := 0;
    if since.Some? {
      var s := since.value;
      if s == [] || (s[0] != 'n' && s[0] != 'p') {
        return None;
      }
      var backwards := s[0] == 'p';
      var parsed := Parse(s[1..]);
      if parsed.None? {
        return None;
      }
      num := parsed.value;
      if backwards {
        num := if num < limit then 0 else num - limit;
      }
    }
    r := Some(num);
  }

  method GetPublicRooms<T>(rooms: seq<T>, since: Option<string>, limit: nat) returns (r: Response<T>)
    ensures r == Answer(rooms, since, limit)
  {
    var start := ReadSince(since, limit);
    if start.None? {
      return Invalid;
    }
    var num := start.value;
    if num + limit > USIZE_MAX {
      return Overflow;
    }
    var chunk := Window(rooms, num, limit);
    var prev := if num != 0 then Some(['p'] + Format(num)) else None;
    var next := if |chunk| >= limit then Some(['n'] + Format(num + limit)) else None;
    r := Page(chunk, prev, next);
  }

  lemma TokenRoundTrip(letter: char, n: nat, limit: nat)
    requires (letter == 'n' || letter == 'p') && n <= USIZE_MAX
    ensures Offset(Some([letter] + Format(n)), limit)
         == Some(if letter == 'n' then n else if n < limit then 0 else n - limit)
  {
    ParseFormat(n);
    assert ([letter] + Format(n))[1..] == Format(n);
  }

  /** A token that a page hands out leads forward by the limit, or back by it and no further than to
      the start. */
  lemma TokensLead<T>(rooms: seq<T>, num: nat, limit: nat)
    requires PageAt(rooms, num, limit).Page?
    ensures var p := PageAt(rooms, num, limit);
      && (p.next.Some? ==> Offset(p.next, limit) == Some(num + limit))
      && (p.prev.Some? ==> Offset(p.prev, limit) == Some(if num < limit then 0 else num - limit))
  {
    TokenRoundTrip('n', num + limit, limit);
    TokenRoundTrip('p', num, limit);
  }

  /** There is a token back from every page but the first, and one forward from every page that is full. */
  lemma TokensExactly<T>(rooms: seq<T>, num: nat, limit: nat)
    ensures var p := PageAt(rooms, num, limit);
      && (p.Overflow? <==> num + limit > 18446744073709551615) && !p.Invalid?
      && (p.Page? ==> (p.prev.None? <==> num == 0) && (p.next.Some? <==> limit == 0 || num + limit <= |rooms|))
  {
  }

  /** Only tokens that begin with one of two letters and go on with a number are accepted. */
  lemma AcceptedTokens(s: string, limit: nat)
    requires Offset(Some(s), limit).Some?
    ensures s != [] && (s[0] == 'n' || s[0] == 'p')
    ensures var rest := s[1..]; Decimal(rest) || (rest != [] && rest[0] == '+' && Decimal(rest[1..]))
  {
    var rest := s[1..];
    DigitsExactly(if rest != [] && rest[0] == '+' then rest[1..] else rest);
  }

  // ---------------------------------------------------------------- following the tokens

  /** All the pages from offset `num` on, by following `next_batch` until there is none. */
  ghost function Pages<T>(rooms: seq<T>, num: nat, limit: nat): seq<seq<T>>
    requires limit >= 1 && num <= |rooms| && |rooms| + limit <= USIZE_MAX
    decreases |rooms| - num
  {
    var p := PageAt(rooms, num, limit);
    TokensLead(rooms, num, limit);
    [p.chunk] + if p.next.None? then [] else Pages(rooms, Offset(p.next, limit).value, limit)
  }

  ghost function Flatten<T>(pages: seq<seq<T>>): seq<T>
  {
    if pages == [] then [] else pages[0] + Flatten(pages[1..])
  }

  /** The page at `num` and the pages after it. */
  lemma PagesStep<T>(rooms: seq<T>, num: nat, limit: nat)
    requires limit >= 1 && num <= |rooms| && |rooms| + limit <= USIZE_MAX
    ensures num + limit > |rooms| ==> Pages(rooms, num, limit) == [rooms[num..]]
    ensures num + limit <= |rooms| ==>
      Pages(rooms, num, limit) == [rooms[num..num + limit]] + Pages(rooms, num + limit, limit)
  {
    TokensLead(rooms, num, limit);
    assert [rooms[num..]] + [] == [rooms[num..]];
  }

  /** A list cut into pieces of `limit`, the last of them shorter. */
  ghost function Chunks<T>(rooms: seq<T>, limit: nat): seq<seq<T>>
    requires limit >= 1
    decreases |rooms|
  {
    if |rooms| < limit then [rooms] else [rooms[..limit]] + Chunks(rooms[limit..], limit)
  }

  lemma ChunksStep<T>(rooms: seq<T>, num: nat, limit: nat)
    requires limit >= 1 && num <= |rooms|
    ensures num + limit > |rooms| ==> Chunks(rooms[num..], limit) == [rooms[num..]]
    ensures num + limit <= |rooms| ==>
      Chunks(rooms[num..], limit) == [rooms[num..num + limit]] + Chunks(rooms[num + limit..], limit)
  {
    if num + limit <= |rooms| {
      assert rooms[num..][limit..] == rooms[num + limit..];
      assert rooms[num..][..limit] == rooms[num..num + limit];
    }
  }

  lemma {:induction false} PagesAreChunks<T>(rooms: seq<T>, num: nat, limit: nat)
    requires limit >= 1 && num <= |rooms| && |rooms| + limit <= USIZE_MAX
    ensures Pages(rooms, num, limit) == Chunks(rooms[num..], limit)
    decreases |rooms| - num
  {
    PagesStep(rooms, num, limit);
    ChunksStep(rooms, num, limit);
    if num + limit <= |rooms| { PagesAreChunks(rooms, num + limit, limit); }
  }

  lemma {:induction false} ChunksFlatten<T>(rooms: seq<T>, limit: nat)
    requires limit >= 1
    ensures Flatten(Chunks(rooms, limit)) == rooms
    decreases |rooms|
  {
    if |rooms| < limit {
      assert rooms + [] == rooms;
    } else {
      var rest := Chunks(rooms[limit..], limit);
      ChunksFlatten(rooms[limit..], limit);
      assert ([rooms[..limit]] + rest)[1..] == rest;
      assert rooms == rooms[..limit] + rooms[limit..];
    }
  }

  lemma {:induction false} ChunksCount<T>(rooms: seq<T>, limit: nat)
    requires limit >= 1
    ensures |Chunks(rooms, limit)| == |rooms| / limit + 1
    decreases |rooms|
  {
    if |rooms| < limit {
      Quotient(|rooms|, limit, 0, |rooms|);
    } else {
      ChunksCount(rooms[limit..], limit);
      DivideStep(|rooms|, limit);
    }
  }

  lemma DivideStep(n: nat, limit: nat)
    requires 1 <= limit <= n
    ensures n / limit == (n - limit) / limit + 1
  {
    var q := (n - limit) / limit;
    assert (q + 1) * limit == q * limit + limit;
    Quotient(n, limit, q + 1, (n - limit) % limit);
  }

  lemma Quotient(n: nat, d: nat, q: nat, r: nat)
    requires d > 0 && n == q * d + r && r < d
    ensures n / d == q
  {
    var m := n / d;
    if m < q {
      Multiply(m + 1, q, d);
    } else if m > q {
      Multiply(q + 1, m, d);
    }
  }

  lemma Multiply(a: nat, b: nat, d: nat)
    requires a <= b
    ensures a * d <= b * d
  {
  }

  /** The pages partition the directory: following the tokens from the start visits every room once,
      in order. */
  lemma PagesPartition<T>(rooms: seq<T>, limit: nat)
    requires limit >= 1 && |rooms| + limit <= USIZE_MAX
    ensures Flatten(Pages(rooms, 0, limit)) == rooms
  {
    PagesAreChunks(rooms, 0, limit);
    ChunksFlatten(rooms, limit);
    assert rooms[0..] == rooms;
  }

  /** It takes floor(n / limit) + 1 pages: the last one is empty when the limit divides the number. */
  lemma PagesCount<T>(rooms: seq<T>, limit: nat)
    requires limit >= 1 && |rooms| + limit <= USIZE_MAX
    ensures |Pages(rooms, 0, limit)| == |rooms| / limit + 1
  {
    PagesAreChunks(rooms, 0, limit);
    ChunksCount(rooms, limit);
    assert rooms[0..] == rooms;
  }

  /** Going back from a page that was reached by going forward returns to the page before. */
  lemma BackAndForth<T>(rooms: seq<T>, num: nat, limit: nat)
    requires limit >= 1 && num + 2 * limit <= USIZE_MAX && PageAt(rooms, num, limit).next.Some?
    ensures var forth := Answer(rooms, PageAt(rooms, num, limit).next, limit);
      forth.Page? && forth.prev.Some? && Answer(rooms, forth.prev, limit) == PageAt(rooms, num, limit)
  {
    TokensLead(rooms, num, limit);
    TokensLead(rooms, num + limit, limit);
  }

  /** A page offers itself as the next one, so that following the tokens never ends, exactly when
      the limit is zero. */
  lemma StuckExactly<T>(rooms: seq<T>, num: nat, limit: nat)
    requires num + limit <= USIZE_MAX
    ensures var p := PageAt(rooms, num, limit);
      p.next.Some? && Answer(rooms, p.next, limit) == p && Offset(p.next, limit) == Some(num) <==> limit == 0
  {
    TokensLead(rooms, num, limit);
  }

  /** With limit zero the first page is empty and leads to itself. */
  lemma ZeroLimitStuck<T>(rooms: seq<T>)
    ensures var p := Answer(rooms, None, 0); p.Page? && p.chunk == [] && p.next.Some? && Answer(rooms, p.next, 0) == p
  {
    StuckExactly(rooms, 0, 0);
  }
}
