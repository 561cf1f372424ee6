/** Which of two uploads of a room key the backup keeps. */
module Backup {
  import opened Collections

  /** The largest integer a JSON number may be in this protocol. */
  const UINT_MAX := 0x1F_FFFF_FFFF_FFFF

  type UInt = n: nat | n <= UINT_MAX

  datatype Field<+T> = Missing | Malformed | Given(value: T)

  /** An uploaded key: the three fields the choice looks at, and the rest. */
  datatype Session = Session(verified: Field<bool>, first: Field<UInt>, forwarded: Field<UInt>, data: string)

  datatype Result = Stored(session: Session) | BadJson

  predicate Complete(s: Session)
  {
    s.verified.Given? && s.first.Given? && s.forwarded.Given?
  }

  function GetOr<T>(f: Field<T>, default: T): T
  {
    if f.Given? then f.value else default
  }

  /** A key is the better the smaller its rank: verified ones first, then the lower first message
      index, then the lower forwarded count. Missing fields count as the worst. */
  datatype Rank = Rank(unverified: bool, first: nat, forwarded: nat)

  function RankOf(s: Session): Rank
  {
    Rank(!GetOr(s.verified, false), GetOr(s.first, UINT_MAX), GetOr(s.forwarded, UINT_MAX))
  }

  predicate Better(a: Rank, b: Rank)
  {
    || (!a.unverified && b.unverified)
    || (a.unverified == b.unverified && (a.first < b.first || (a.first == b.first && a.forwarded < b.forwarded)))
  }

  /** The two can be compared by this field. */
  predicate Usable<T>(held: Field<T>, upload: Field<T>)
  {
    !held.Malformed? && upload.Given?
  }

  /** Every field that the comparison comes to look at is usable. A field is looked at only when the
      two tie on the ones before it. */
  predicate Comparable(held: Session, upload: Session)
  {
    var (a, b) := (RankOf(held), RankOf(upload));
    && Usable(held.verified, upload.verified)
    && (a.unverified == b.unverified ==> Usable(held.first, upload.first))
    && (a.unverified == b.unverified && a.first == b.first ==> Usable(held.forwarded, upload.forwarded))
  }

  /** Store an upload over what is there: the better of the two is kept, the old one if neither is
      better, and the upload fails exactly when the two cannot be compared. */
  method AddKey(current: Option<Session>, upload: Session) returns (r: Result)
    ensures current.None? ==> r == Stored(upload)
    ensures current.Some? ==> (r.Stored? <==> Comparable(current.value, upload))
    ensures current.Some? && r.Stored? ==>
      r.session == if Better(RankOf(upload), RankOf(current.value)) then upload else current.value
  {
    var okToReplace := true;
    if current.Some? {
      var held := current.value;
      if held.verified.Malformed? || !upload.verified.Given? {
        return BadJson;
      }
      var oldVerified := GetOr(held.verified, false);
      var newVerified := upload.verified.value;
      if oldVerified != newVerified {
        if oldVerified { okToReplace := false; }
      } else {
        if held.first.Malformed? || !upload.first.Given? {
          return BadJson;
        }
        var oldFirst := GetOr(held.first, UINT_MAX);
        var newFirst := upload.first.value;
        if newFirst < oldFirst {
          okToReplace := true;
        } else if newFirst > oldFirst {
          okToReplace := false;
        } else {
          if held.forwarded.Malformed? || !upload.forwarded.Given? {
            return BadJson;
          }
          okToReplace := upload.forwarded.value < GetOr(held.forwarded, UINT_MAX);
        }
      }
    }
    r := Stored(if okToReplace || current.None? then upload else current.value);
  }

  // ---------------------------------------------------------------- sequences of uploads

  /** What is stored after the first `n` uploads: each that can be compared with what is there
      replaces it if it is better. */
  function Held(uploads: seq<Session>, n: nat): Session
    requires 0 < n <= |uploads|
  {
    if n == 1 then uploads[0] else
      var (held, s) := (Held(uploads, n - 1), uploads[n - 1]);
      if Comparable(held, s) && Better(RankOf(s), RankOf(held)) then s else held
  }

  /** Upload number `i` does not fail. The first never does: there is nothing to compare it with. */
  predicate Accepted(uploads: seq<Session>, i: nat)
    requires i < |uploads|
  {
    i == 0 || Comparable(Held(uploads, i), uploads[i])
  }

  /** Uploads one after the other; one that fails leaves the stored key as it is. */
  method AddKeys(uploads: seq<Session>) returns (stored: Option<Session>, failed: set<nat>)
    ensures uploads == [] ==> stored.None?
    ensures uploads != [] ==> stored == Some(Held(uploads, |uploads|))
    ensures forall i :: 0 <= i < |uploads| ==> (i in failed <==> !Accepted(uploads, i))
  {
    stored, failed := None, {};
    var i := 0;
    while i < |uploads|
      invariant i <= |uploads|
      invariant if i == 0 then stored.None? else stored == Some(Held(uploads, i))
      invariant forall j :: j in failed ==> j < i
      invariant forall j :: 0 <= j < i ==> (j in failed <==> !Accepted(uploads, j))
    {
      var r := AddKey(stored, uploads[i]);
      match r {
        case Stored(s) => stored := Some(s);
        case BadJson => failed := failed + {i};
      }
      i := i + 1;
    }
  }

  lemma RankOrder(a: Rank, b: Rank, c: Rank)
    ensures !Better(a, a)
    ensures Better(a, b) && Better(b, c) ==> Better(a, c)
    ensures Better(a, b) && !Better(c, b) ==> Better(a, c)
    ensures Better(a, b) || Better(b, a) || a == b
  {
  }

  /** Upload number `k` is accepted, none of the first `n` accepted ones is better, and those before
      it are all worse. */
  ghost predicate FirstBest(uploads: seq<Session>, n: nat, k: nat)
    requires n <= |uploads|
  {
    && k < n && Accepted(uploads, k)
    && (forall j :: 0 <= j < n && Accepted(uploads, j) ==> !Better(RankOf(uploads[j]), RankOf(uploads[k])))
    && (forall j :: 0 <= j < k && Accepted(uploads, j) ==> Better(RankOf(uploads[k]), RankOf(uploads[j])))
  }

  lemma NewBest(uploads: seq<Session>, n: nat, k: nat)
    requires 1 < n <= |uploads| && FirstBest(uploads, n - 1, k)
    requires Accepted(uploads, n - 1) && Better(RankOf(uploads[n - 1]), RankOf(uploads[k]))
    ensures FirstBest(uploads, n, n - 1)
  {
    var best := RankOf(uploads[n - 1]);
    forall j | 0 <= j < n - 1 && Accepted(uploads, j) ensures Better(best, RankOf(uploads[j])) {
      RankOrder(best, RankOf(uploads[k]), RankOf(uploads[j]));
    }
    forall j | 0 <= j < n && Accepted(uploads, j) ensures !Better(RankOf(uploads[j]), best) {
      RankOrder(best, RankOf(uploads[j]), best);
    }
  }

  lemma SameBest(uploads: seq<Session>, n: nat, k: nat)
    requires 1 < n <= |uploads| && FirstBest(uploads, n - 1, k)
    requires !(Accepted(uploads, n - 1) && Better(RankOf(uploads[n - 1]), RankOf(uploads[k])))
    ensures FirstBest(uploads, n, k)
  {
    var best := RankOf(uploads[k]);
    forall j | 0 <= j < n && Accepted(uploads, j) ensures !Better(RankOf(uploads[j]), best) {
      assert j < n - 1 ==> !Better(RankOf(uploads[j]), best);
    }
  }

  lemma HeldNext(uploads: seq<Session>, n: nat, k: nat)
    requires 1 < n <= |uploads| && k < n - 1 && Held(uploads, n - 1) == uploads[k]
    ensures Held(uploads, n)
         == if Accepted(uploads, n - 1) && Better(RankOf(uploads[n - 1]), RankOf(uploads[k]))
            then uploads[n - 1] else uploads[k]
  {
  }

  lemma BestNext(uploads: seq<Session>, n: nat, k: nat) returns (best: nat)
    requires 1 < n <= |uploads| && FirstBest(uploads, n - 1, k) && Held(uploads, n - 1) == uploads[k]
    ensures FirstBest(uploads, n, best) && Held(uploads, n) == uploads[best]
  {
    HeldNext(uploads, n, k);
    if Accepted(uploads, n - 1) && Better(RankOf(uploads[n - 1]), RankOf(uploads[k])) {
      NewBest(uploads, n, k);
      best := n - 1;
    } else {
      SameBest(uploads, n, k);
      best := k;
    }
  }

  /** The stored key is the first accepted upload of least rank. */
  lemma {:induction false} HeldIsFirstBest(uploads: seq<Session>, n: nat) returns (k: nat)
    requires 0 < n <= |uploads|
    ensures FirstBest(uploads, n, k) && Held(uploads, n) == uploads[k]
  {
    if n == 1 {
      k := 0;
      RankOrder(RankOf(uploads[0]), RankOf(uploads[0]), RankOf(uploads[0]));
    } else {
      k := HeldIsFirstBest(uploads, n - 1);
      k := BestNext(uploads, n, k);
    }
  }

  /** Uploads that have all their fields are all accepted. */
  lemma CompleteAccepted(uploads: seq<Session>, i: nat)
    requires i < |uploads| && forall j :: 0 <= j <= i ==> Complete(uploads[j])
    ensures Accepted(uploads, i)
  {
    if i > 0 { var k := HeldIsFirstBest(uploads, i); }
  }

  /** When none fails, the rank of what is stored does not depend on the order of the uploads. */
  lemma OrderIrrelevant(a: seq<Session>, b: seq<Session>)
    requires a != [] && b != [] && multiset(a) == multiset(b)
    requires forall i :: 0 <= i < |a| ==> Accepted(a, i)
    requires forall i :: 0 <= i < |b| ==> Accepted(b, i)
    ensures RankOf(Held(a, |a|)) == RankOf(Held(b, |b|))
  {
    var i := HeldIsFirstBest(a, |a|);
    var j := HeldIsFirstBest(b, |b|);
    assert a[i] in multiset(b) && b[j] in multiset(a);
    var i' :| 0 <= i' < |b| && b[i'] == a[i];
    var j' :| 0 <= j' < |a| && a[j'] == b[j];
    RankOrder(RankOf(a[i]), RankOf(b[j]), RankOf(a[i]));
  }

  /** Further uploads never make the stored key worse. */
  lemma {:induction false} NeverWorse(uploads: seq<Session>, m: nat, n: nat)
    requires 0 < m <= n <= |uploads|
    ensures !Better(RankOf(Held(uploads, m)), RankOf(Held(uploads, n)))
    decreases n
  {
    if m < n {
      NeverWorse(uploads, m, n - 1);
      RankOrder(RankOf(Held(uploads, n)), RankOf(Held(uploads, n - 1)), RankOf(Held(uploads, m)));
    }
    RankOrder(RankOf(Held(uploads, m)), RankOf(Held(uploads, n)), RankOf(Held(uploads, m)));
  }

  /** Whether one key is better than another, on the fields: a missing one counts as not verified, or as
      the largest number. */
  lemma BetterMeans(a: Session, b: Session)
    ensures var (v, w) := (a.verified == Given(true), b.verified == Given(true));
      var (i, j) := (if a.first.Given? then a.first.value else UINT_MAX, if b.first.Given? then b.first.value else UINT_MAX);
      var (m, n) := (if a.forwarded.Given? then a.forwarded.value else UINT_MAX,
                     if b.forwarded.Given? then b.forwarded.value else UINT_MAX);
      Better(RankOf(a), RankOf(b)) <==> (v && !w) || (v == w && i < j) || (v == w && i == j && m < n)
  {
  }

  /** When two keys can be compared, on the fields. A field that decides the comparison keeps the later
      ones from being looked at. */
  lemma ComparableMeans(held: Session, upload: Session)
    ensures var same := (held.verified == Given(true)) == (upload.verified == Given(true));
      var tie := same && (if held.first.Given? then held.first.value else UINT_MAX)
                      == (if upload.first.Given? then upload.first.value else UINT_MAX);
      Comparable(held, upload) <==>
        && !held.verified.Malformed? && upload.verified.Given?
        && (same ==> !held.first.Malformed? && upload.first.Given?)
        && (tie ==> !held.forwarded.Malformed? && upload.forwarded.Given?)
  {
  }
}
