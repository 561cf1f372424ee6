/** What the other modules share: an optional value, the elements of a sequence, and sequences
    without repetition. */
module Collections {
  datatype Option<+T> = None | Some(value: T)

  ghost function Elems<T>(s: seq<T>): set<T>
  {
    set x | x in s
  }

  lemma ElemsOfCons<T>(s: seq<T>)
    requires s != []
    ensures Elems(s) == {s[0]} + Elems(s[1..])
  {
    assert s == [s[0]] + s[1..];
  }

  predicate NoRepeats<T(==)>(s: seq<T>)
  {
    forall i, j :: 0 <= i < j < |s| ==> s[i] != s[j]
  }

  lemma Assoc<T>(a: seq<T>, b: seq<T>, c: seq<T>)
    ensures (a + b) + c == a + (b + c)
  {
  }

  lemma ConsOf<T>(a: seq<T>)
    requires a != []
    ensures a == [a[0]] + a[1..]
  {
  }
}
