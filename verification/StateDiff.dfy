/** Room states stored as layers of differences. */
module StateDiff {
  import opened Bytes
  import opened Codec
  import opened Collections

  /** A stored layer: the state it builds on, if any, and what it adds and removes. */
  datatype Diff<E> = Diff(parent: Option<nat>, added: set<E>, removed: set<E>)

  /** A loaded layer, with the full state at it. */
  datatype Info<E> = Info(hash: nat, full: set<E>, added: set<E>, removed: set<E>)

  type Db<E> = map<nat, Diff<E>>

  // ---------------------------------------------------------------- merging a layer into the one below

  /** The two loops as one: take back what the layer added, remember what else is removed; then take
      back what is now removed, remember what else is added. */
  function MergeSets<E>(added: set<E>, removed: set<E>, plus: set<E>, minus: set<E>): (set<E>, set<E>)
  {
    var gone := removed + (minus - added);
    ((added - minus) + (plus - gone), gone - plus)
  }

  method Merge<E>(added: set<E>, removed: set<E>, plus: set<E>, minus: set<E>) returns (a: set<E>, r: set<E>)
    ensures (a, r) == MergeSets(added, removed, plus, minus)
  {
    a, r := added, removed;
    var todo := minus;
    while todo != {}
      invariant todo <= minus
      invariant a == added - (minus - todo) && r == removed + ((minus - todo) - added)
      decreases todo
    {
      var x :| x in todo;
      if x in a { a := a - {x}; } else { r := r + {x}; }
      todo := todo - {x};
    }
    ghost var (a1, r1) := (a, r);
    assert r1 == removed + (minus - added);
    todo := plus;
    while todo != {}
      invariant todo <= plus
      invariant a == a1 + ((plus - todo) - r1) && r == r1 - (plus - todo)
      decreases todo
    {
      var x :| x in todo;
      if x in r { r := r - {x}; } else { a := a + {x}; }
      todo := todo - {x};
    }
    assert a == (added - minus) + (plus - r1) && r == r1 - plus;
  }

  /** A layer records exactly the difference between its base and its full state. */
  ghost predicate Exact<E>(base: set<E>, full: set<E>, added: set<E>, removed: set<E>)
  {
    added == full - base && removed == base - full
  }

  /** Differences compose: merging the difference from `base` to `mid` with the one from `mid` to
      `top` gives the difference from `base` to `top`. */
  lemma MergeComposes<E>(base: set<E>, mid: set<E>, top: set<E>)
    ensures MergeSets(mid - base, base - mid, top - mid, mid - top) == (top - base, base - top)
  {
    var (a, r) := MergeSets(mid - base, base - mid, top - mid, mid - top);
    assert a == top - base;
    assert r == base - top;
  }

  // ---------------------------------------------------------------- loading

  /** `stack` is what loading `hash` yields: its layers from the bottom up, each an exact difference. */
  ghost predicate Loads<E>(db: Db<E>, hash: nat, stack: seq<Info<E>>)
    decreases |stack|
  {
    && stack != [] && hash in db
    && var n := |stack| - 1;
    && var top := stack[n];
    && top.hash == hash && top.added == db[hash].added && top.removed == db[hash].removed
    && Exact(FullOf(stack[..n]), top.full, top.added, top.removed)
    && (match db[hash].parent
        case None => n == 0
        case Some(p) => n > 0 && Loads(db, p, stack[..n]))
  }

  function FullOf<E>(stack: seq<Info<E>>): set<E>
  {
    if stack == [] then {} else stack[|stack| - 1].full
  }

  /** Every stored state loads, from at most four layers. */
  ghost predicate Valid<E(!new)>(db: Db<E>)
  {
    forall h :: h in db ==> exists stack :: Loads(db, h, stack) && |stack| <= 4
  }

  lemma {:induction false} LoadsUnique<E>(db: Db<E>, hash: nat, s: seq<Info<E>>, t: seq<Info<E>>)
    requires Loads(db, hash, s) && Loads(db, hash, t)
    ensures s == t
    decreases |s|
  {
    var (m, n) := (|s| - 1, |t| - 1);
    if db[hash].parent.Some? {
      LoadsUnique(db, db[hash].parent.value, s[..m], t[..n]);
    }
    var base := FullOf(s[..m]);
    assert FullOf(t[..n]) == base;
    assert s[m].full == (base - s[m].removed) + s[m].added == t[n].full;
    assert s == s[..m] + [s[m]] && t == t[..n] + [t[n]];
  }

  /** Every state is deeper than the one it builds on. */
  ghost predicate Acyclic<E>(db: Db<E>, depth: map<nat, nat>)
  {
    && db.Keys <= depth.Keys
    && forall h :: h in db && db[h].parent.Some? && db[h].parent.value in db ==> depth[db[h].parent.value] < depth[h]
  }

  /** What loading yields: the layers from the bottom up, or nothing when the state or one that it
      builds on is not stored. */
  ghost function LayersOf<E>(db: Db<E>, depth: map<nat, nat>, hash: nat): (r: Option<seq<Info<E>>>)
    requires Acyclic(db, depth)
    ensures r.Some? ==> r.value != []
    decreases if hash in db then depth[hash] + 1 else 0
  {
    if hash !in db then None
    else if db[hash].parent.None? then Some([Info(hash, db[hash].added, db[hash].added, db[hash].removed)])
    else
      match LayersOf(db, depth, db[hash].parent.value)
      case None => None
      case Some(s) =>
        Some(s + [Info(hash, FullOf(s) + db[hash].added - db[hash].removed, db[hash].added, db[hash].removed)])
  }

  /** Load the layers of a state, parent first. */
  method Load<E>(db: Db<E>, hash: nat, ghost depth: map<nat, nat>) returns (r: Option<seq<Info<E>>>)
    requires Acyclic(db, depth)
    ensures r == LayersOf(db, depth, hash)
    decreases if hash in db then depth[hash] + 1 else 0
  {
    if hash !in db {
      return None;
    }
    var diff := db[hash];
    if diff.parent.None? {
      return Some([Info(hash, diff.added, diff.added, diff.removed)]);
    }
    var below := Load(db, diff.parent.value, depth);
    if below.None? {
      return None;
    }
    var stack := below.value;
    var full := stack[|stack| - 1].full + diff.added - diff.removed;
    r := Some(stack + [Info(hash, full, diff.added, diff.removed)]);
  }

  /** The stored states that `hash` builds on, from the bottom up, each the parent of the next, and itself. */
  ghost predicate Chain<E>(db: Db<E>, hash: nat, hs: seq<nat>)
    decreases |hs|
  {
    && hs != [] && hs[|hs| - 1] == hash && hash in db
    && (match db[hash].parent
        case None => |hs| == 1
        case Some(p) => Chain(db, p, hs[..|hs| - 1]))
  }

  ghost predicate AllStored<E>(db: Db<E>, hash: nat)
  {
    exists hs :: Chain(db, hash, hs)
  }

  function HashesOf<E>(s: seq<Info<E>>): (hs: seq<nat>)
    ensures |hs| == |s| && forall i :: 0 <= i < |s| ==> hs[i] == s[i].hash
  {
    seq(|s|, i requires 0 <= i < |s| => s[i].hash)
  }

  lemma {:induction false} LayersChain<E>(db: Db<E>, depth: map<nat, nat>, hash: nat)
    requires Acyclic(db, depth) && LayersOf(db, depth, hash).Some?
    ensures Chain(db, hash, HashesOf(LayersOf(db, depth, hash).value))
    decreases if hash in db then depth[hash] + 1 else 0
  {
    if db[hash].parent.Some? {
      var p := db[hash].parent.value;
      LayersChain(db, depth, p);
      var (s, t) := (LayersOf(db, depth, p).value, LayersOf(db, depth, hash).value);
      assert HashesOf(t)[..|t| - 1] == HashesOf(s);
    }
  }

  lemma {:induction false} ChainLoads<E>(db: Db<E>, depth: map<nat, nat>, hash: nat, hs: seq<nat>)
    requires Acyclic(db, depth) && Chain(db, hash, hs)
    ensures LayersOf(db, depth, hash).Some?
    decreases |hs|
  {
    if db[hash].parent.Some? { ChainLoads(db, depth, db[hash].parent.value, hs[..|hs| - 1]); }
  }

  /** Loading succeeds if and only if the state and all that it builds on are stored, and yields a layer
      for each of them. */
  lemma LoadsExactly<E>(db: Db<E>, depth: map<nat, nat>, hash: nat)
    requires Acyclic(db, depth)
    ensures LayersOf(db, depth, hash).Some? <==> AllStored(db, hash)
    ensures LayersOf(db, depth, hash).Some? ==> Chain(db, hash, HashesOf(LayersOf(db, depth, hash).value))
  {
    if LayersOf(db, depth, hash).Some? {
      LayersChain(db, depth, hash);
      var found := HashesOf(LayersOf(db, depth, hash).value);
      assert Chain(db, hash, found);
    } else {
      forall hs | Chain(db, hash, hs) ensures false { ChainLoads(db, depth, hash, hs); }
    }
  }

  /** Loading a state whose layers are exact differences yields them. */
  lemma {:induction false} LayersLoad<E>(db: Db<E>, depth: map<nat, nat>, hash: nat, s: seq<Info<E>>)
    requires Acyclic(db, depth) && Loads(db, hash, s)
    ensures LayersOf(db, depth, hash) == Some(s)
    decreases |s|
  {
    var n := |s| - 1;
    assert s == s[..n] + [s[n]];
    if db[hash].parent.Some? {
      LayersLoad(db, depth, db[hash].parent.value, s[..n]);
      assert s[n].full == FullOf(s[..n]) + s[n].added - s[n].removed;
    } else {
      assert s[..n] == [] && s[n].full == s[n].added;
    }
  }

  /** How many layers a state has. */
  ghost function LayerCount<E(!new)>(db: Db<E>, hash: nat): nat
    requires Valid(db) && hash in db
  {
    var s :| Loads(db, hash, s) && |s| <= 4;
    |s|
  }

  lemma LayerCountIs<E(!new)>(db: Db<E>, hash: nat, s: seq<Info<E>>)
    requires Valid(db) && Loads(db, hash, s)
    ensures LayerCount(db, hash) == |s| <= 4
  {
    forall t | Loads(db, hash, t) ensures t == s { LoadsUnique(db, hash, s, t); }
  }

  /** A database every state of which loads is not cyclic. */
  lemma ValidAcyclic<E(!new)>(db: Db<E>) returns (depth: map<nat, nat>)
    requires Valid(db)
    ensures Acyclic(db, depth)
  {
    depth := map h | h in db :: LayerCount(db, h);
    forall h | h in db && db[h].parent.Some? && db[h].parent.value in db
      ensures depth[db[h].parent.value] < depth[h]
    {
      var s :| Loads(db, h, s) && |s| <= 4;
      LayerCountIs(db, h, s);
      LayerCountIs(db, db[h].parent.value, s[..|s| - 1]);
    }
  }

  /** In such a database, loading fails exactly when the state is not stored. */
  lemma ValidLoads<E(!new)>(db: Db<E>, depth: map<nat, nat>, hash: nat)
    requires Valid(db) && Acyclic(db, depth)
    ensures LayersOf(db, depth, hash).Some? <==> hash in db
    ensures hash in db ==> Loads(db, hash, LayersOf(db, depth, hash).value) && |LayersOf(db, depth, hash).value| <= 4
  {
    if hash in db {
      var s :| Loads(db, hash, s) && |s| <= 4;
      LayersLoad(db, depth, hash, s);
    }
  }

  // ---------------------------------------------------------------- saving

  /** A rule that says of a difference, given how much its siblings differ and the layer below, how
      big it is and whether that is too big for a layer of its own. */
  type Rule<!E> = (set<E>, set<E>, nat, Info<E>) -> (nat, bool)

  /** The rule in use. What saving means does not depend on it. */
  function TooBig<E>(plus: set<E>, minus: set<E>, sibling: nat, below: Info<E>): (nat, bool)
  {
    var sum := |plus| + |minus|;
    (sum, sum * sum >= 2 * sibling * (|below.added| + |below.removed|))
  }

  /** What is stored for a new state that differs from the top of the stack by `plus` and `minus`:
      the layer itself, or a merge with layers below it when there are too many or it is too big. */
  function Layer<E>(rule: Rule<E>, plus: set<E>, minus: set<E>, sibling: nat, stack: seq<Info<E>>): Diff<E>
    decreases |stack|
  {
    if stack == [] then Diff(None, plus, minus) else
      var n := |stack| - 1;
      var (sum, big) := rule(plus, minus, sibling, stack[n]);
      if n >= 3 || big then
        var (a, r) := MergeSets(stack[n].added, stack[n].removed, plus, minus);
        Layer(rule, a, r, sum, stack[..n])
      else Diff(Some(stack[n].hash), plus, minus)
  }

  method SaveStateFromDiff<E>(db: Db<E>, hash: nat, plus: set<E>, minus: set<E>, sibling: nat, stack: seq<Info<E>>)
    returns (saved: Db<E>)
    ensures saved == db[hash := Layer(TooBig, plus, minus, sibling, stack)]
    decreases |stack|
  {
    if stack == [] {
      return db[hash := Diff(None, plus, minus)];
    }
    var parent, parents := stack[|stack| - 1], stack[..|stack| - 1];
    var (sum, big) := TooBig(plus, minus, sibling, parent);
    if |stack| > 3 || big {
      var a, r := Merge(parent.added, parent.removed, plus, minus);
      saved := SaveStateFromDiff(db, hash, a, r, sum, parents);
    } else {
      saved := db[hash := Diff(Some(parent.hash), plus, minus)];
    }
  }

  /** The stack is the layers of some stored state, or empty. */
  ghost predicate StackOf<E>(db: Db<E>, stack: seq<Info<E>>)
  {
    stack == [] || Loads(db, stack[|stack| - 1].hash, stack)
  }

  lemma StackBelow<E>(db: Db<E>, stack: seq<Info<E>>)
    requires StackOf(db, stack) && stack != []
    ensures StackOf(db, stack[..|stack| - 1])
    ensures var top := stack[|stack| - 1]; Exact(FullOf(stack[..|stack| - 1]), top.full, top.added, top.removed)
  {
    var n := |stack| - 1;
    if n > 0 {
      var hash := stack[n].hash;
      assert Loads(db, db[hash].parent.value, stack[..n]);
      assert stack[..n][n - 1].hash == db[hash].parent.value;
    }
  }

  /** New layers do not disturb stored ones. */
  lemma {:induction false} LoadsStays<E>(db: Db<E>, hash: nat, diff: Diff<E>, h: nat, stack: seq<Info<E>>)
    requires hash !in db && Loads(db, h, stack)
    ensures Loads(db[hash := diff], h, stack)
    decreases |stack|
  {
    if db[h].parent.Some? { LoadsStays(db, hash, diff, db[h].parent.value, stack[..|stack| - 1]); }
  }

  lemma LoadsBottom<E>(db: Db<E>, hash: nat, state: set<E>)
    ensures Loads(db[hash := Diff(None, state - {}, {} - state)], hash, [Info(hash, state, state - {}, {} - state)])
  {
    var loaded := [Info(hash, state, state - {}, {} - state)];
    assert loaded[..0] == [];
  }

  lemma LoadsOnTop<E>(db: Db<E>, hash: nat, state: set<E>, stack: seq<Info<E>>)
    requires hash !in db && StackOf(db, stack) && stack != []
    ensures var (base, parent) := (FullOf(stack), stack[|stack| - 1].hash);
      Loads(db[hash := Diff(Some(parent), state - base, base - state)], hash,
            stack + [Info(hash, state, state - base, base - state)])
  {
    var (base, parent) := (FullOf(stack), stack[|stack| - 1].hash);
    var loaded := stack + [Info(hash, state, state - base, base - state)];
    assert loaded[..|stack|] == stack;
    LoadsStays(db, hash, Diff(Some(parent), state - base, base - state), parent, stack);
  }

  /** Saving preserves meaning: however layers are merged, loading the new state gives the state that
      was saved, from at most four layers. */
  lemma {:induction false} SaveMeans<E>(rule: Rule<E>, db: Db<E>, hash: nat, state: set<E>, plus: set<E>,
                                        minus: set<E>, sibling: nat, stack: seq<Info<E>>)
    returns (diff: Diff<E>, loaded: seq<Info<E>>)
    requires hash !in db && StackOf(db, stack) && |stack| <= 4 && Exact(FullOf(stack), state, plus, minus)
    ensures diff == Layer(rule, plus, minus, sibling, stack)
    ensures Loads(db[hash := diff], hash, loaded) && FullOf(loaded) == state && |loaded| <= 4
    decreases |stack|
  {
    if stack == [] {
      diff := Diff(None, plus, minus);
      loaded := [Info(hash, state, plus, minus)];
      LoadsBottom(db, hash, state);
    } else {
      var n := |stack| - 1;
      var parent := stack[n];
      var (sum, big) := rule(plus, minus, sibling, parent);
      if n >= 3 || big {
        StackBelow(db, stack);
        MergeComposes(FullOf(stack[..n]), parent.full, state);
        var (a, r) := MergeSets(parent.added, parent.removed, plus, minus);
        diff, loaded := SaveMeans(rule, db, hash, state, a, r, sum, stack[..n]);
      } else {
        diff := Diff(Some(parent.hash), plus, minus);
        loaded := stack + [Info(hash, state, plus, minus)];
        LoadsOnTop(db, hash, state, stack);
      }
    }
  }

  /** A difference gets a layer of its own if and only if that makes no more than four layers and the
      square of its size is less than twice the size of its sibling times that of the layer below. */
  lemma OwnLayerExactly<E>(plus: set<E>, minus: set<E>, sibling: nat, stack: seq<Info<E>>)
    requires stack != [] && forall k :: 0 <= k < |stack| - 1 ==> stack[k].hash != stack[|stack| - 1].hash
    ensures var top := stack[|stack| - 1];
      var size := |plus| + |minus|;
      Layer(TooBig, plus, minus, sibling, stack).parent == Some(top.hash)
      <==> |stack| <= 3 && size * size < 2 * sibling * (|top.added| + |top.removed|)
  {
    var n := |stack| - 1;
    var (sum, big) := TooBig(plus, minus, sibling, stack[n]);
    var (a, r) := MergeSets(stack[n].added, stack[n].removed, plus, minus);
    LayerParent(a, r, sum, stack[..n], stack[n].hash);
  }

  /** What a layer builds on is one of those below it. */
  lemma {:induction false} LayerParent<E>(plus: set<E>, minus: set<E>, sibling: nat, stack: seq<Info<E>>, hash: nat)
    requires forall k :: 0 <= k < |stack| ==> stack[k].hash != hash
    ensures Layer(TooBig, plus, minus, sibling, stack).parent != Some(hash)
    decreases |stack|
  {
    if stack != [] {
      var n := |stack| - 1;
      var (sum, big) := TooBig(plus, minus, sibling, stack[n]);
      var (a, r) := MergeSets(stack[n].added, stack[n].removed, plus, minus);
      LayerParent(a, r, sum, stack[..n], hash);
    }
  }

  /** A difference that gets none is merged with the layer below, and its size counts as the sibling's. */
  lemma MergedLayer<E>(plus: set<E>, minus: set<E>, sibling: nat, stack: seq<Info<E>>)
    requires stack != [] && var (size, top) := (|plus| + |minus|, stack[|stack| - 1]);
      |stack| > 3 || size * size >= 2 * sibling * (|top.added| + |top.removed|)
    ensures var (n, top) := (|stack| - 1, stack[|stack| - 1]);
      var (a, r) := MergeSets(top.added, top.removed, plus, minus);
      Layer(TooBig, plus, minus, sibling, stack) == Layer(TooBig, a, r, |plus| + |minus|, stack[..n])
  {
  }

  /** Saving keeps the whole database loadable, every stored state as it was. */
  lemma SaveKeepsValid<E(!new)>(db: Db<E>, hash: nat, diff: Diff<E>, loaded: seq<Info<E>>)
    requires Valid(db) && hash !in db && Loads(db[hash := diff], hash, loaded) && |loaded| <= 4
    ensures Valid(db[hash := diff])
    ensures forall h, s :: Loads(db, h, s) ==> Loads(db[hash := diff], h, s)
  {
    var saved := db[hash := diff];
    forall h, s | Loads(db, h, s) ensures Loads(saved, h, s) {
      LoadsStays(db, hash, diff, h, s);
    }
    forall h | h in saved ensures exists s :: Loads(saved, h, s) && |s| <= 4 {
      if h != hash {
        var s :| Loads(db, h, s) && |s| <= 4;
        assert Loads(saved, h, s);
      }
    }
  }

  /** What is on disk: the hashes that have a number, and the differences under those numbers. The
      number is written first, the difference after it. */
  datatype Disk<E> = Disk(known: set<nat>, db: Db<E>)

  /** Where an attempt to save ended: before both writes, between them, or after both. It ends between
      them by a crash, or because the state to build on could not be loaded. */
  datatype Cut = Before | Between | After

  datatype Attempt<E> = Attempt(hash: nat, diff: Diff<E>, cut: Cut)

  /** A difference is stored only for a hash that was not known before. */
  function Try<E>(disk: Disk<E>, a: Attempt<E>): Disk<E>
  {
    if a.hash in disk.known || a.cut == Before then disk
    else Disk(disk.known + {a.hash}, if a.cut == Between then disk.db else disk.db[a.hash := a.diff])
  }

  /** Save a room's new state relative to its previous one, and give the differences. A hash that is
      stored already stands for the same state. Afterwards the state is stored, unless its hash was
      known and yet not stored. */
  method SaveState<E(!new)>(disk: Disk<E>, previous: Option<nat>, hash: nat, state: set<E>, ghost layers: seq<Info<E>>)
    returns (saved: Disk<E>, added: set<E>, removed: set<E>, ghost diff: Diff<E>, ghost loaded: seq<Info<E>>,
             ghost below: seq<Info<E>>)
    requires Valid(disk.db) && disk.db.Keys <= disk.known && (previous == Some(hash) ==> hash in disk.known)
    requires hash in disk.db ==> Loads(disk.db, hash, layers) && FullOf(layers) == state
    ensures Valid(saved.db) && saved.db.Keys <= saved.known && saved == Try(disk, Attempt(hash, diff, After))
    ensures if previous.Some? && previous.value in disk.db then Loads(disk.db, previous.value, below) else below == []
    ensures previous != Some(hash) ==> Exact(FullOf(below), state, added, removed)
    ensures previous != Some(hash) && hash !in disk.known ==> diff == Layer(TooBig, added, removed, 2, below)
    ensures hash in saved.db <==> hash in disk.db || hash !in disk.known
    ensures hash in saved.db ==> Loads(saved.db, hash, loaded) && FullOf(loaded) == state
    ensures forall h, s :: Loads(disk.db, h, s) ==> Loads(saved.db, h, s)
    ensures previous.Some? && previous.value in disk.db ==>
      exists s :: Loads(disk.db, previous.value, s) && Exact(FullOf(s), state, added, removed)
    ensures previous != Some(hash) && !(previous.Some? && previous.value in disk.db) ==> added == state && removed == {}
  {
    var db := disk.db;
    diff := Diff(None, {}, {});
    if previous == Some(hash) {
      assert hash in db ==> Exact(FullOf(layers), state, {}, {});
      below := if hash in db then layers else [];
      return disk, {}, {}, diff, layers, below;
    }
    var stack: seq<Info<E>> := [];
    if previous.Some? {
      ghost var depth := ValidAcyclic(db);
      ValidLoads(db, depth, previous.value);
      var info := Load(db, previous.value, depth);
      stack := if info.Some? then info.value else [];
    }
    below := stack;
    var base := FullOf(stack);
    added, removed := state - base, base - state;
    assert Exact(FullOf(stack), state, added, removed);
    if hash in disk.known {
      saved, loaded := disk, layers;
    } else {
      diff, loaded := SaveMeans(TooBig, db, hash, state, added, removed, 2, stack);
      SaveKeepsValid(db, hash, diff, loaded);
      var more := SaveStateFromDiff(db, hash, added, removed, 2, stack);
      saved := Disk(disk.known + {hash}, more);
    }
  }

  // ---------------------------------------------------------------- attempts that end early

  /** The disk after the first `n` attempts. */
  function AfterTries<E>(disk: Disk<E>, tries: seq<Attempt<E>>, n: nat): Disk<E>
    requires n <= |tries|
  {
    if n == 0 then disk else Try(AfterTries(disk, tries, n - 1), tries[n - 1])
  }

  /** The first attempt from number `i` on that gets as far as giving the hash a number. */
  function FirstNaming<E>(tries: seq<Attempt<E>>, hash: nat, i: nat): (n: nat)
    requires i <= |tries|
    ensures i <= n <= |tries|
    ensures n < |tries| ==> tries[n].hash == hash && tries[n].cut != Before
    ensures forall k :: i <= k < n ==> tries[k].hash != hash || tries[k].cut == Before
    decreases |tries| - i
  {
    if i == |tries| || (tries[i].hash == hash && tries[i].cut != Before) then i else FirstNaming(tries, hash, i + 1)
  }

  lemma {:induction false} TriesStore<E>(disk: Disk<E>, tries: seq<Attempt<E>>, hash: nat, n: nat)
    requires n <= |tries| && disk.db.Keys <= disk.known
    ensures var (first, end) := (FirstNaming(tries, hash, 0), AfterTries(disk, tries, n));
      && (hash in end.known <==> hash in disk.known || first < n)
      && (hash in end.db <==> hash in disk.db || (hash !in disk.known && first < n && tries[first].cut == After))
  {
    if n > 0 { TriesStore(disk, tries, hash, n - 1); }
  }

  /** After any attempts, a state is stored if and only if it was stored before, or its hash was not
      known and the first attempt that gave it a number went on to store it. */
  lemma StoredExactly<E>(disk: Disk<E>, tries: seq<Attempt<E>>, hash: nat)
    requires disk.db.Keys <= disk.known
    ensures var first := FirstNaming(tries, hash, 0);
      hash in AfterTries(disk, tries, |tries|).db
      <==> hash in disk.db || (hash !in disk.known && first < |tries| && tries[first].cut == After)
  {
    TriesStore(disk, tries, hash, |tries|);
  }

  /** One attempt ends between the writes; the next one runs to its end and stores nothing. */
  lemma CutSaveIsLost<E>(diff: Diff<E>)
    ensures AfterTries(Disk({}, map[]), [Attempt(7, diff, Between), Attempt(7, diff, After)], 2) == Disk({7}, map[])
  {
    var tries := [Attempt(7, diff, Between), Attempt(7, diff, After)];
    assert AfterTries(Disk({}, map[]), tries, 1) == Disk({7}, map[]);
  }

  // ---------------------------------------------------------------- the stored bytes

  /** A compressed state event: a short key and a short event identifier, eight bytes each. */
  type Event = e: seq<Byte> | |e| == 16 witness [0, 0, 0, 0, 0, 0, 0, 0, 0, 0, 0, 0, 0, 0, 0, 0]

  const ZERO: seq<Byte> := [0, 0, 0, 0, 0, 0, 0, 0]

  function Concat(events: seq<Event>): seq<Byte>
  {
    if events == [] then [] else events[0] + Concat(events[1..])
  }

  /** The parent, the added events, and the removed ones after eight zero bytes if there are any. */
  function Store(parent: Option<nat>, added: seq<Event>, removed: seq<Event>): seq<Byte>
  {
    var tail := if removed == [] then [] else ZERO + Concat(removed);
    ToBe(if parent.None? then 0 else parent.value, 8) + (Concat(added) + tail)
  }

  lemma {:induction false} ConcatLayout(events: seq<Event>, i: nat)
    ensures |Concat(events)| == 16 * |events|
    ensures i < |events| ==> Concat(events)[16 * i..16 * i + 16] == events[i]
    decreases |events|
  {
    if events != [] {
      ConcatLayout(events[1..], if i > 0 then i - 1 else 0);
      var (s, rest) := (Concat(events), Concat(events[1..]));
      if 0 < i < |events| { assert s[16 * i..16 * i + 16] == rest[16 * (i - 1)..16 * (i - 1) + 16]; }
    }
  }

  lemma PartOf(x: seq<Byte>, y: seq<Byte>, z: seq<Byte>, i: nat)
    requires i + 16 <= |y|
    ensures (x + (y + z))[|x| + i..|x| + i + 16] == y[i..i + 16]
  {
  }

  /** The layout of a stored difference: eight bytes for the parent, sixteen for every added event, and,
      if there are removed ones, eight zero bytes and sixteen for each of them. */
  lemma StoreLayout(parent: Option<nat>, added: seq<Event>, removed: seq<Event>)
    ensures var s := Store(parent, added, removed);
      && |s| == 8 + 16 * |added| + (if removed == [] then 0 else 8 + 16 * |removed|)
      && s[..8] == ToBe(if parent.None? then 0 else parent.value, 8)
  {
    ConcatLayout(added, 0);
    ConcatLayout(removed, 0);
  }

  lemma StoredAdded(parent: Option<nat>, added: seq<Event>, removed: seq<Event>, i: nat)
    requires i < |added|
    ensures |Store(parent, added, removed)| >= 24 + 16 * i
    ensures Store(parent, added, removed)[8 + 16 * i..24 + 16 * i] == added[i]
  {
    ConcatLayout(added, i);
    PartOf(ToBe(if parent.None? then 0 else parent.value, 8), Concat(added),
           if removed == [] then [] else ZERO + Concat(removed), 16 * i);
  }

  lemma StoredRemoved(parent: Option<nat>, added: seq<Event>, removed: seq<Event>, i: nat)
    requires i < |removed|
    ensures var (s, n) := (Store(parent, added, removed), 8 + 16 * |added|);
      |s| >= n + 24 + 16 * i && s[n..n + 8] == ZERO && s[n + 8 + 16 * i..n + 24 + 16 * i] == removed[i]
  {
    var (p, a, r) := (ToBe(if parent.None? then 0 else parent.value, 8), Concat(added), Concat(removed));
    ConcatLayout(added, 0);
    ConcatLayout(removed, i);
    Assoc(p, a, ZERO + r);
    ZerosThen(p + a, r, 16 * i);
  }

  lemma ZerosThen(x: seq<Byte>, r: seq<Byte>, i: nat)
    requires i + 16 <= |r|
    ensures var s := x + (ZERO + r); s[|x|..|x| + 8] == ZERO && s[|x| + 8 + i..|x| + 24 + i] == r[i..i + 16]
  {
  }

  /** Read events until fewer than sixteen bytes are left; zeros where a key is due end the added ones. */
  function Events(s: seq<Byte>, adding: bool): (set<Event>, set<Event>)
    decreases |s|
  {
    if |s| < 16 then ({}, {})
    else if adding && s[..8] == ZERO then Events(s[8..], false)
    else
      var (a, r) := Events(s[16..], adding);
      if adding then (a + {s[..16]}, r) else (a, r + {s[..16]})
  }

  function Fetch(value: seq<Byte>): (Option<nat>, set<Event>, set<Event>)
    requires |value| >= 8
  {
    var p := FromBe(value[..8]);
    var (a, r) := Events(value[8..], true);
    (if p == 0 then None else Some(p), a, r)
  }

  method GetStateDiff(value: seq<Byte>) returns (parent: Option<nat>, added: set<Event>, removed: set<Event>)
    requires |value| >= 8
    ensures (parent, added, removed) == Fetch(value)
  {
    var p := FromBe(value[..8]);
    parent := if p == 0 then None else Some(p);
    var adding, i := true, 8;
    added, removed := {}, {};
    ghost var (all, gone) := Events(value[8..], true);
    while i + 16 <= |value|
      invariant 8 <= i <= |value|
      invariant var (a, r) := Events(value[i..], adding); all == added + a && gone == removed + r
    {
      var v := value[i..i + 16];
      ghost var s := value[i..];
      assert s[..16] == v && s[..8] == v[..8] && s[8..] == value[i + 8..] && s[16..] == value[i + 16..];
      if adding && v[..8] == ZERO {
        adding := false;
        i := i + 8;
      } else {
        if adding { added := added + {v}; } else { removed := removed + {v}; }
        i := i + 16;
      }
    }
  }

  lemma {:induction false} EventsRemoved(events: seq<Event>)
    ensures Events(Concat(events), false) == ({}, Elems(events))
    decreases |events|
  {
    if events != [] {
      var s := Concat(events);
      EventsRemoved(events[1..]);
      assert s[..16] == events[0] && s[16..] == Concat(events[1..]);
      ElemsOfCons(events);
      assert {events[0]} + Elems(events[1..]) == Elems(events[1..]) + {events[0]};
    } else {
      assert Elems(events) == {};
    }
  }

  lemma {:induction false} EventsAdded(events: seq<Event>, rest: seq<Byte>)
    requires forall e :: e in events ==> e[..8] != ZERO
    ensures var (a, r) := Events(rest, true); Events(Concat(events) + rest, true) == (Elems(events) + a, r)
    decreases |events|
  {
    var (a, r) := Events(rest, true);
    if events == [] {
      assert Concat(events) + rest == rest && Elems(events) + a == a;
    } else {
      var s := Concat(events) + rest;
      ElemsOfCons(events);
      assert (Elems(events[1..]) + a) + {events[0]} == Elems(events) + a;
      assert events[0] in events && forall e :: e in events[1..] ==> e in events;
      EventsAdded(events[1..], rest);
      Assoc(events[0], Concat(events[1..]), rest);
      assert s[..16] == events[0] && s[16..] == Concat(events[1..]) + rest;
      assert s[..8] == events[0][..8];
    }
  }

  /** Nothing read as added has a zero key. */
  lemma {:induction false} AddedHaveKeys(s: seq<Byte>, adding: bool)
    ensures forall e :: e in Events(s, adding).0 ==> e[..8] != ZERO
    decreases |s|
  {
    if |s| >= 16 {
      if adding && s[..8] == ZERO {
        AddedHaveKeys(s[8..], false);
      } else {
        AddedHaveKeys(s[16..], adding);
        assert s[..16][..8] == s[..8];
      }
    }
  }

  /** A difference survives being stored exactly when its parent is not number zero and no added
      event has a zero key. */
  lemma StoreRoundTrip(parent: Option<U64>, added: seq<Event>, removed: seq<Event>)
    ensures |Store(parent, added, removed)| >= 8
    ensures Fetch(Store(parent, added, removed)) == (parent, Elems(added), Elems(removed))
        <==> parent != Some(0) && forall e :: e in added ==> e[..8] != ZERO
  {
    var p: U64 := if parent.None? then 0 else parent.value;
    var tail := if removed == [] then [] else ZERO + Concat(removed);
    var value := Store(parent, added, removed);
    assert value[..8] == ToBe(p, 8) && value[8..] == Concat(added) + tail;
    Pow256Of8();
    FromToBe(p, 8);
    AddedHaveKeys(value[8..], true);
    if forall e :: e in added ==> e[..8] != ZERO {
      EventsAdded(added, tail);
      TailEvents(removed);
      assert Elems(added) + {} == Elems(added);
    } else {
      var e :| e in added && e[..8] == ZERO;
      assert e in Elems(added);
    }
  }

  lemma TailEvents(removed: seq<Event>)
    ensures Events(if removed == [] then [] else ZERO + Concat(removed), true) == ({}, Elems(removed))
  {
    if removed != [] {
      var s := ZERO + Concat(removed);
      assert |Concat(removed)| >= 16;
      assert s[..8] == ZERO && s[8..] == Concat(removed);
      EventsRemoved(removed);
    } else {
      assert Elems(removed) == {};
    }
  }

  // ---------------------------------------------------------------- numbers

  /** The counter that all short numbers come from. */
  class Counter {
    var count: U64

    constructor ()
      ensures count == 0
    {
      count := 0;
    }

    /** The next number, which is never zero; nothing when the counter is exhausted. */
    method NextCount() returns (r: Option<U64>)
      modifies this
      ensures old(count) < 0xFFFF_FFFF_FFFF_FFFF ==> r == Some(count) && count == old(count) + 1 && r.value >= 1
      ensures old(count) == 0xFFFF_FFFF_FFFF_FFFF ==> r.None? && count == old(count)
    {
      if count == 0xFFFF_FFFF_FFFF_FFFF {
        return None;
      }
      count := count + 1;
      r := Some(count);
    }
  }

  function Compress(key: U64, event: U64): Event
  {
    ToBe(key, 8) + ToBe(event, 8)
  }

  /** The number of the key of a compressed event. */
  function KeyOf(e: Event): nat
  {
    FromBe(e[..8])
  }

  lemma KeyOfCompress(key: U64, event: U64)
    ensures KeyOf(Compress(key, event)) == key
  {
    Pow256Of8();
    FromToBe(key, 8);
    assert Compress(key, event)[..8] == ToBe(key, 8);
  }

  lemma {:induction false} ZerosAreZero(s: seq<Byte>)
    requires forall i :: 0 <= i < |s| ==> s[i] == 0
    ensures FromBe(s) == 0
    decreases |s|
  {
    if s != [] { ZerosAreZero(s[..|s| - 1]); }
  }

  /** With numbers from the counter, every stored difference reads back. */
  lemma NumberedReadsBack(parent: Option<U64>, added: seq<Event>, removed: seq<Event>)
    requires parent != Some(0) && forall e :: e in added ==> KeyOf(e) >= 1
    ensures |Store(parent, added, removed)| >= 8
    ensures Fetch(Store(parent, added, removed)) == (parent, Elems(added), Elems(removed))
  {
    ZerosAreZero(ZERO);
    StoreRoundTrip(parent, added, removed);
  }

  // ---------------------------------------------------------------- the database as bytes

  /** A column of stored differences, under numbers from the counter. */
  ghost predicate Readable(column: map<nat, seq<Byte>>)
  {
    forall h :: h in column ==> 1 <= h < 0x1_0000_0000_0000_0000 && |column[h]| >= 8
  }

  function ReadOne(value: seq<Byte>): Diff<Event>
    requires |value| >= 8
  {
    var (parent, added, removed) := Fetch(value);
    Diff(parent, added, removed)
  }

  /** The differences that the column holds. */
  ghost function Read(column: map<nat, seq<Byte>>): Db<Event>
    requires Readable(column)
  {
    map h | h in column :: ReadOne(column[h])
  }

  lemma ReadStore(column: map<nat, seq<Byte>>, hash: U64, parent: Option<U64>, added: seq<Event>, removed: seq<Event>)
    requires Readable(column) && hash >= 1 && parent != Some(0) && forall e :: e in added ==> KeyOf(e) >= 1
    ensures var more := column[hash := Store(parent, added, removed)];
      Readable(more) && Read(more) == Read(column)[hash := Diff(parent, Elems(added), Elems(removed))]
  {
    NumberedReadsBack(parent, added, removed);
    var more := column[hash := Store(parent, added, removed)];
    assert Readable(more);
    assert Read(more).Keys == Read(column).Keys + {hash};
  }

  /** What a saved layer adds is part of the state, and what it builds on is stored. */
  lemma LayerParts<E>(db: Db<E>, hash: nat, diff: Diff<E>, loaded: seq<Info<E>>)
    requires Loads(db[hash := diff], hash, loaded)
    ensures diff.added <= FullOf(loaded) && (diff.parent.Some? ==> diff.parent.value in db || diff.parent.value == hash)
  {
  }

  /** A state saved as bytes, on top of states read from bytes, loads as it was saved. */
  lemma SavedBytesLoad(rule: Rule<Event>, column: map<nat, seq<Byte>>, hash: U64, state: set<Event>, plus: set<Event>,
                       minus: set<Event>, sibling: nat, stack: seq<Info<Event>>, added: seq<Event>, removed: seq<Event>)
    returns (loaded: seq<Info<Event>>)
    requires Readable(column) && hash >= 1 && hash !in column && forall e :: e in state ==> KeyOf(e) >= 1
    requires StackOf(Read(column), stack) && |stack| <= 4 && Exact(FullOf(stack), state, plus, minus)
    requires var diff := Layer(rule, plus, minus, sibling, stack);
      Elems(added) == diff.added && Elems(removed) == diff.removed
    ensures var more := column[hash := Store(Layer(rule, plus, minus, sibling, stack).parent, added, removed)];
      Readable(more) && Loads(Read(more), hash, loaded) && FullOf(loaded) == state && |loaded| <= 4
  {
    var diff;
    diff, loaded := SaveMeans(rule, Read(column), hash, state, plus, minus, sibling, stack);
    LayerParts(Read(column), hash, diff, loaded);
    forall e | e in added ensures KeyOf(e) >= 1 { assert e in Elems(added); }
    ReadStore(column, hash, diff.parent, added, removed);
  }
}
