/**
  The incrementally rehashed dictionary as a function of its state: two tables, the index of the
  next bucket to migrate, and the number of iterators. Values play no part here; class `Dict`
  adds them.
*/
module DictSpec {
  import opened Keys
  import opened Words
  import opened HashTable

  /** `dictht`: the size is the number of chains and `sizemask` is the size minus one. */
  datatype Table = Table(chains: Chains, used: nat)

  /** `dict` */
  datatype State = State(ht0: Table, ht1: Table, rehashidx: int, iterators: nat)

  const RESET: Table := Table([], 0)

  predicate IsRehashing(s: State)
  {
    s.rehashidx != -1
  }

  /** `dictSize` */
  function Size(s: State): nat
  {
    s.ht0.used + s.ht1.used
  }

  /** The keys of the dictionary. */
  ghost predicate Contains(hash: Hash, s: State, k: Key)
  {
    Holds(hash, s.ht0.chains, k) || Holds(hash, s.ht1.chains, k)
  }

  ghost predicate SameKeys(hash: Hash, s: State, t: State)
  {
    forall k :: Contains(hash, s, k) <==> Contains(hash, t, k)
  }

  // ---------------------------------------------------------------- the invariant

  ghost predicate TableOk(hash: Hash, t: Table)
  {
    WellPlaced(hash, t.chains) && t.used == Count(t.chains)
  }

  ghost predicate Apart(hash: Hash, c0: Chains, c1: Chains)
  {
    forall k :: Holds(hash, c0, k) ==> !Holds(hash, c1, k)
  }

  /** Both tables are in use, and the buckets below `rehashidx` have been migrated. */
  ghost predicate Migrating(hash: Hash, s: State)
  {
    && |s.ht0.chains| > 0 && |s.ht1.chains| > 0 && |s.ht0.chains| != |s.ht1.chains|
    && 0 <= s.rehashidx <= |s.ht0.chains|
    && (forall b :: 0 <= b < s.rehashidx ==> s.ht0.chains[b] == [])
    && Apart(hash, s.ht0.chains, s.ht1.chains)
  }

  ghost predicate Inv(hash: Hash, s: State)
  {
    && TableOk(hash, s.ht0) && TableOk(hash, s.ht1)
    && (if IsRehashing(s) then Migrating(hash, s) && s.rehashidx < |s.ht0.chains| else s.ht1 == RESET)
  }

  // ---------------------------------------------------------------- rehashing

  ghost predicate SomeFrom(c: Chains, i: nat)
  {
    exists b :: i <= b < |c| && c[b] != []
  }

  /** Walk over empty buckets from `i`, at most `budget` of them: the bucket reached, and what is left of the
      budget (zero when the walk gave up). */
  ghost function Skip(c: Chains, i: nat, budget: nat): (nat, nat)
    requires SomeFrom(c, i) && budget > 0
    decreases |c| - i
  {
    if c[i] != [] then (i, budget)
    else if budget == 1 then (i + 1, 0)
    else Skip(c, i + 1, budget - 1)
  }

  lemma {:induction false} SkipLands(c: Chains, i: nat, budget: nat)
    requires SomeFrom(c, i) && budget > 0
    requires forall b :: 0 <= b < i ==> c[b] == []
    ensures var (j, left) := Skip(c, i, budget);
      && i <= j < |c| && SomeFrom(c, j) && left == budget - (j - i)
      && (forall b :: 0 <= b < j ==> c[b] == [])
      && (left > 0 ==> c[j] != [])
      && (left == 0 ==> i < j)
    decreases |c| - i
  {
    if c[i] == [] && budget > 1 {
      SkipLands(c, i + 1, budget - 1);
    }
  }

  /** Migrate bucket `i`. */
  ghost function MoveBucket(hash: Hash, s: State, i: nat): State
    requires i < |s.ht0.chains| && |s.ht0.chains[i]| <= s.ht0.used && IsSize(|s.ht1.chains|)
  {
    var chain := s.ht0.chains[i];
    s.(ht0 := Table(s.ht0.chains[i := []], s.ht0.used - |chain|),
       ht1 := Table(MoveChain(hash, chain, s.ht1.chains), s.ht1.used + |chain|),
       rehashidx := i + 1)
  }

  lemma MoveBucketMoves(hash: Hash, s: State, i: nat)
    requires TableOk(hash, s.ht0) && TableOk(hash, s.ht1) && Migrating(hash, s)
    requires i < |s.ht0.chains|
    requires forall b :: 0 <= b < i ==> s.ht0.chains[b] == []
    ensures |s.ht0.chains[i]| <= s.ht0.used
    ensures var t := MoveBucket(hash, s, i);
      && TableOk(hash, t.ht0) && TableOk(hash, t.ht1) && Migrating(hash, t)
      && SameKeys(hash, s, t) && Size(t) == Size(s)
      && |t.ht0.chains| == |s.ht0.chains| && |t.ht1.chains| == |s.ht1.chains|
  {
    var c0, c1 := s.ht0.chains, s.ht1.chains;
    CountAtLeast(c0, i);
    assert forall k :: k in c0[i] ==> Holds(hash, c0, k);
    MoveChainMoves(hash, c0[i], c1);
    ReplaceChain(hash, c0, i, []);
  }

  ghost predicate Loop(hash: Hash, s: State)
  {
    TableOk(hash, s.ht0) && TableOk(hash, s.ht1) && IsRehashing(s) && Migrating(hash, s)
  }

  lemma LoopHasMore(hash: Hash, s: State)
    requires Loop(hash, s) && s.ht0.used > 0
    ensures SomeFrom(s.ht0.chains, s.rehashidx)
  {
    CountZero(s.ht0.chains);
  }

  lemma SkipKeepsLoop(hash: Hash, s: State, budget: nat)
    requires Loop(hash, s) && s.ht0.used > 0 && budget > 0
    ensures SomeFrom(s.ht0.chains, s.rehashidx)
    ensures var i := Skip(s.ht0.chains, s.rehashidx, budget).0;
      && i < |s.ht0.chains| && Loop(hash, s.(rehashidx := i))
      && |s.ht0.chains[i]| <= s.ht0.used
  {
    LoopHasMore(hash, s);
    SkipLands(s.ht0.chains, s.rehashidx, budget);
    CountAtLeast(s.ht0.chains, Skip(s.ht0.chains, s.rehashidx, budget).0);
  }

  /** One round of the loop of `m_dictRehash`: find the next bucket and migrate it. What is left of the budget is
      zero when the walk gave up before it found one. */
  ghost function Round(hash: Hash, s: State, budget: nat): (State, nat)
    requires Loop(hash, s) && s.ht0.used > 0 && budget > 0
  {
    SkipKeepsLoop(hash, s, budget);
    var (i, left) := Skip(s.ht0.chains, s.rehashidx, budget);
    (if left == 0 then s.(rehashidx := i) else MoveBucket(hash, s, i), left)
  }

  lemma RoundKeeps(hash: Hash, s: State, budget: nat)
    requires Loop(hash, s) && s.ht0.used > 0 && budget > 0
    ensures var (t, left) := Round(hash, s, budget);
      && Loop(hash, t) && SameKeys(hash, s, t) && Size(t) == Size(s) && t.iterators == s.iterators
      && |t.ht0.chains| == |s.ht0.chains| && |t.ht1.chains| == |s.ht1.chains|
      && s.rehashidx < t.rehashidx && (left == 0 ==> t.rehashidx < |t.ht0.chains|)
  {
    SkipKeepsLoop(hash, s, budget);
    SkipLands(s.ht0.chains, s.rehashidx, budget);
    MoveBucketMoves(hash, s, Skip(s.ht0.chains, s.rehashidx, budget).0);
  }

  /** The loop of `m_dictRehash` and what follows it: the new state, and whether there is more to do. */
  ghost function RehashLoop(hash: Hash, s: State, n: nat, budget: nat): (State, bool)
    requires Loop(hash, s) && (n > 0 ==> budget > 0)
    decreases n
  {
    if s.ht0.used == 0 then (State(s.ht1, RESET, -1, s.iterators), false)
    else if n == 0 then (s, true)
    else
      RoundKeeps(hash, s, budget);
      var (t, left) := Round(hash, s, budget);
      if left == 0 then (t, true) else RehashLoop(hash, t, n - 1, left)
  }

  /** `(s, n, budget)` is where the loop is after some whole rounds from `(s0, n0, b0)`. */
  ghost predicate AfterRounds(hash: Hash, s0: State, n0: nat, b0: nat, s: State, n: nat, b: nat)
    requires Loop(hash, s0) && (n0 > 0 ==> b0 > 0)
    decreases n0
  {
    || (s == s0 && n == n0 && b == b0)
    || (s0.ht0.used > 0 && n0 > 0 &&
        (RoundKeeps(hash, s0, b0);
         var (t, left) := Round(hash, s0, b0);
         left > 0 && AfterRounds(hash, t, n0 - 1, left, s, n, b)))
  }

  lemma {:induction false} OneMoreRound(hash: Hash, s0: State, n0: nat, b0: nat, s: State, n: nat, b: nat)
    requires Loop(hash, s0) && (n0 > 0 ==> b0 > 0) && AfterRounds(hash, s0, n0, b0, s, n, b)
    requires Loop(hash, s) && s.ht0.used > 0 && n > 0 && b > 0
    ensures Loop(hash, Round(hash, s, b).0)
    ensures var (t, left) := Round(hash, s, b);
      if left > 0 then AfterRounds(hash, s0, n0, b0, t, n - 1, left)
      else RehashLoop(hash, s0, n0, b0) == (t, true)
    decreases n0
  {
    RoundKeeps(hash, s, b);
    if s0.ht0.used > 0 && n0 > 0 {
      RoundKeeps(hash, s0, b0);
      var (t0, left0) := Round(hash, s0, b0);
      if left0 > 0 && AfterRounds(hash, t0, n0 - 1, left0, s, n, b) {
        OneMoreRound(hash, t0, n0 - 1, left0, s, n, b);
      }
    }
  }

  /** What the loop does when no round is left. */
  lemma {:induction false} LastRound(hash: Hash, s0: State, n0: nat, b0: nat, s: State, n: nat, b: nat)
    requires Loop(hash, s0) && (n0 > 0 ==> b0 > 0) && AfterRounds(hash, s0, n0, b0, s, n, b)
    requires Loop(hash, s) && (s.ht0.used == 0 || n == 0)
    ensures RehashLoop(hash, s0, n0, b0)
      == if s.ht0.used == 0 then (State(s.ht1, RESET, -1, s.iterators), false) else (s, true)
    decreases n0
  {
    if s0.ht0.used > 0 && n0 > 0 {
      RoundKeeps(hash, s0, b0);
      var (t0, left0) := Round(hash, s0, b0);
      if left0 > 0 && AfterRounds(hash, t0, n0 - 1, left0, s, n, b) {
        LastRound(hash, t0, n0 - 1, left0, s, n, b);
      }
    }
  }

  /** `m_dictRehash` */
  ghost function Rehash(hash: Hash, s: State, n: nat): (State, bool)
    requires Inv(hash, s)
  {
    if IsRehashing(s) then RehashLoop(hash, s, n, n * 10) else (s, false)
  }

  /** Every entry is kept, and either the migration is over or the rest of the old table got shorter. */
  lemma {:induction false} RehashLoopKeeps(hash: Hash, s: State, n: nat, budget: nat)
    requires Loop(hash, s) && (n > 0 ==> budget > 0)
    ensures var (t, more) := RehashLoop(hash, s, n, budget);
      && SameKeys(hash, s, t) && Size(t) == Size(s) && t.iterators == s.iterators
      && (more ==>
            && Loop(hash, t) && t.rehashidx < |t.ht0.chains|
            && |t.ht0.chains| == |s.ht0.chains| && |t.ht1.chains| == |s.ht1.chains|
            && t.rehashidx >= s.rehashidx + if n > 0 then 1 else 0)
      && (!more ==> Inv(hash, t) && !IsRehashing(t) && |t.ht0.chains| == |s.ht1.chains|)
    decreases n
  {
    if s.ht0.used == 0 {
      CountZero(s.ht0.chains);
    } else if n == 0 {
      LoopHasMore(hash, s);
    } else {
      RoundKeeps(hash, s, budget);
      var (t, left) := Round(hash, s, budget);
      if left > 0 { RehashLoopKeeps(hash, t, n - 1, left); }
    }
  }

  /** Rehashing conserves the entries and keeps the invariant; each call that reports more work has made
      progress through the old table. */
  lemma RehashKeeps(hash: Hash, s: State, n: nat)
    requires Inv(hash, s)
    ensures var (t, more) := Rehash(hash, s, n);
      && Inv(hash, t) && SameKeys(hash, s, t) && Size(t) == Size(s) && t.iterators == s.iterators
      && more == IsRehashing(t)
      && (more ==> |t.ht0.chains| == |s.ht0.chains| && |t.ht1.chains| == |s.ht1.chains|)
      && (more && n > 0 ==> |t.ht0.chains| - t.rehashidx < |s.ht0.chains| - s.rehashidx)
      && (IsRehashing(s) && !more ==> |t.ht0.chains| == |s.ht1.chains|)
      && (!IsRehashing(s) ==> t == s)
  {
    if IsRehashing(s) { RehashLoopKeeps(hash, s, n, n * 10); }
  }

  /** `_dictRehashStep`, as called by lookups and updates. */
  ghost function Step(hash: Hash, s: State): State
    requires Inv(hash, s)
  {
    if IsRehashing(s) && s.iterators == 0 then Rehash(hash, s, 1).0 else s
  }

  lemma StepKeeps(hash: Hash, s: State)
    requires Inv(hash, s)
    ensures Inv(hash, Step(hash, s)) && SameKeys(hash, s, Step(hash, s)) && Size(Step(hash, s)) == Size(s)
    ensures Step(hash, s).iterators == s.iterators
    ensures !IsRehashing(s) ==> Step(hash, s) == s
  {
    RehashKeeps(hash, s, 1);
  }

  // ---------------------------------------------------------------- growing and shrinking

  /** `m_dictExpand`: the new state, and whether it returned `DICT_OK`. */
  function Expand(s: State, size: nat): (State, bool)
  {
    var realsize := NextPower(size);
    if IsRehashing(s) || s.ht0.used > size || realsize == |s.ht0.chains| then (s, false)
    else
      var n := Table(NoChains(realsize), 0);
      if |s.ht0.chains| == 0 then (s.(ht0 := n), true) else (s.(ht1 := n, rehashidx := 0), true)
  }

  lemma NoChainsEmpty(hash: Hash, n: nat)
    requires IsSize(n)
    ensures TableOk(hash, Table(NoChains(n), 0))
    ensures forall k :: !Holds(hash, NoChains(n), k)
  {
    CountZero(NoChains(n));
  }

  /** Changing the size keeps every key, and it fails exactly when there is a migration under way, when the
      requested size is below the number of entries, or when it would not change the size. */
  lemma ExpandKeeps(hash: Hash, s: State, size: nat)
    requires Inv(hash, s)
    ensures var (t, ok) := Expand(s, size);
      && Inv(hash, t) && SameKeys(hash, s, t) && Size(t) == Size(s) && t.iterators == s.iterators
      && (ok <==> !IsRehashing(s) && Size(s) <= size && NextPower(size) != |s.ht0.chains|)
      && (ok <==> t != s)
  {
    NextPowerIsSize(size);
    NoChainsEmpty(hash, NextPower(size));
  }

  const UINT64: nat := 0x1_0000_0000_0000_0000

  /** The conversion of `unsigned long` to `int`. */
  function ToInt32(n: nat): int
  {
    var m := n % 0x1_0000_0000;
    if m < 0x8000_0000 then m else m - 0x1_0000_0000
  }

  /** `m_dictResize`: shrink to the number of entries. */
  function Resize(s: State, canResize: bool): (State, bool)
  {
    if !canResize || IsRehashing(s) then (s, false)
    else
      var minimal := ToInt32(s.ht0.used);
      Expand(s, if minimal < INITIAL_SIZE then INITIAL_SIZE else minimal)
  }

  lemma ResizeKeeps(hash: Hash, s: State, canResize: bool)
    requires Inv(hash, s)
    ensures var (t, ok) := Resize(s, canResize);
      && Inv(hash, t) && SameKeys(hash, s, t) && Size(t) == Size(s) && t.iterators == s.iterators
      && (ok ==> canResize && Size(s) < 0x8000_0000)
      && (ok && |s.ht0.chains| > 0 ==>
            && |t.ht1.chains| >= INITIAL_SIZE && |t.ht1.chains| >= Size(s)
            && (|t.ht1.chains| == INITIAL_SIZE || |t.ht1.chains| < 2 * Size(s)))
  {
    var minimal := ToInt32(s.ht0.used);
    var size := if minimal < INITIAL_SIZE then INITIAL_SIZE else minimal;
    ExpandKeeps(hash, s, size);
    NextPowerIsSize(size);
  }

  const FORCE_RESIZE_RATIO: nat := 5

  /** The test of `_dictExpandIfNeeded` for doubling a full table. */
  predicate IsFull(s: State, canResize: bool)
  {
    && !IsRehashing(s) && |s.ht0.chains| > 0 && s.ht0.used >= |s.ht0.chains|
    && (canResize || s.ht0.used / |s.ht0.chains| > FORCE_RESIZE_RATIO)
  }

  /** `_dictExpandIfNeeded` */
  function ExpandIfNeeded(s: State, canResize: bool): (State, bool)
  {
    if IsRehashing(s) then (s, true)
    else if |s.ht0.chains| == 0 then Expand(s, INITIAL_SIZE)
    else if IsFull(s, canResize) then Expand(s, s.ht0.used * 2 % UINT64)
    else (s, true)
  }

  /** Doubling a full table overflows `unsigned long`. */
  predicate DoublingOverflows(s: State, canResize: bool)
  {
    IsFull(s, canResize) && s.ht0.used > LONG_MAX
  }

  /** The expansion inside an insertion fails only when `used * 2` overflows. */
  lemma ExpandIfNeededKeeps(hash: Hash, s: State, canResize: bool)
    requires Inv(hash, s) && s.ht0.used < UINT64
    ensures var (t, ok) := ExpandIfNeeded(s, canResize);
      && Inv(hash, t) && SameKeys(hash, s, t) && Size(t) == Size(s) && t.iterators == s.iterators
      && (ok <==> !DoublingOverflows(s, canResize))
      && (ok ==> |t.ht0.chains| > 0)
  {
    if IsFull(s, canResize) {
      DoubleFull(s.ht0.used, |s.ht0.chains|);
      ExpandKeeps(hash, s, s.ht0.used * 2 % UINT64);
    } else if !IsRehashing(s) && |s.ht0.chains| == 0 {
      CountZero(s.ht0.chains);
      NextPowerIsSize(INITIAL_SIZE);
      ExpandKeeps(hash, s, INITIAL_SIZE);
    }
  }

  lemma DoubleFull(used: nat, size: nat)
    requires IsSize(size) && size <= used < UINT64
    ensures if used <= LONG_MAX
      then used * 2 % UINT64 >= used && NextPower(used * 2 % UINT64) > size
      else used * 2 % UINT64 < used
  {
    SizeAtLeast4(size);
    if used <= LONG_MAX {
      assert used * 2 % UINT64 == used * 2;
      NextPowerIsSize(used * 2);
    } else {
      assert used * 2 % UINT64 == used * 2 - UINT64;
    }
  }

  lemma SizeAtLeast4(n: nat)
    requires IsSize(n)
    ensures n >= 4
  {
    Pow2Monotone(2, Log2(n));
    assert Pow2(2) == 4;
  }

  // ---------------------------------------------------------------- insertion, deletion, lookup

  /** The linking of a new entry by `m_dictAddRaw`. */
  ghost function Link(hash: Hash, s: State, k: Key): State
    requires Inv(hash, s) && |s.ht0.chains| > 0
  {
    if IsRehashing(s) then
      IndexIsBucket(hash(k), |s.ht1.chains|);
      s.(ht1 := Table(Push(hash, s.ht1.chains, k), s.ht1.used + 1))
    else
      IndexIsBucket(hash(k), |s.ht0.chains|);
      s.(ht0 := Table(Push(hash, s.ht0.chains, k), s.ht0.used + 1))
  }

  /** What `m_dictAddRaw` does before it looks for the key: a step of rehashing, then `_dictExpandIfNeeded`. */
  ghost function Prepare(hash: Hash, s: State, canResize: bool): (State, bool)
    requires Inv(hash, s)
  {
    ExpandIfNeeded(Step(hash, s), canResize)
  }

  lemma PrepareKeeps(hash: Hash, s: State, canResize: bool)
    requires Inv(hash, s) && Size(s) < UINT64
    ensures var (t, ok) := Prepare(hash, s, canResize);
      && Inv(hash, t) && SameKeys(hash, s, t) && Size(t) == Size(s) && t.iterators == s.iterators
      && (ok <==> !DoublingOverflows(Step(hash, s), canResize))
      && (ok ==> |t.ht0.chains| > 0)
  {
    StepKeeps(hash, s);
    ExpandIfNeededKeeps(hash, Step(hash, s), canResize);
  }

  /** `m_dictAddRaw`: the new state, and whether an entry was added. */
  ghost function AddRaw(hash: Hash, s: State, k: Key, canResize: bool): (State, bool)
    requires Inv(hash, s) && Size(s) < UINT64
  {
    PrepareKeeps(hash, s, canResize);
    var (t, ok) := Prepare(hash, s, canResize);
    if !ok || Contains(hash, t, k) then (t, false) else (Link(hash, t, k), true)
  }

  lemma LinkAdds(hash: Hash, s: State, k: Key)
    requires Inv(hash, s) && |s.ht0.chains| > 0 && !Contains(hash, s, k)
    ensures var t := Link(hash, s, k);
      && Inv(hash, t) && Size(t) == Size(s) + 1 && t.iterators == s.iterators
      && (forall x :: Contains(hash, t, x) <==> x == k || Contains(hash, s, x))
  {
    PushPlaces(hash, if IsRehashing(s) then s.ht1.chains else s.ht0.chains, k);
  }

  /** An insertion fails exactly when the key is present, or when `used * 2` overflows; a failed one keeps all
      keys and a successful one adds just its key. */
  lemma AddRawAdds(hash: Hash, s: State, k: Key, canResize: bool)
    requires Inv(hash, s) && Size(s) < UINT64
    ensures var (t, added) := AddRaw(hash, s, k, canResize);
      && Inv(hash, t) && t.iterators == s.iterators
      && (added <==> !Contains(hash, s, k) && !DoublingOverflows(Step(hash, s), canResize))
      && (forall x :: Contains(hash, t, x) <==> Contains(hash, s, x) || (added && x == k))
      && Size(t) == Size(s) + if added then 1 else 0
  {
    PrepareKeeps(hash, s, canResize);
    var (t, ok) := Prepare(hash, s, canResize);
    if ok && !Contains(hash, t, k) {
      LinkAdds(hash, t, k);
    }
  }

  lemma AddRawFails(hash: Hash, s: State, k: Key, canResize: bool)
    requires Inv(hash, s) && Size(s) < UINT64
    ensures AddRaw(hash, s, k, canResize).1
      <==> !Contains(hash, s, k) && !DoublingOverflows(Step(hash, s), canResize)
  {
    AddRawAdds(hash, s, k, canResize);
  }

  /** Where a chain holds `k`. */
  ghost function Place(chain: seq<Key>, k: Key): (i: nat)
    requires k in chain
    ensures i < |chain| && chain[i] == k
  {
    if chain[0] == k then 0 else 1 + Place(chain[1..], k)
  }

  ghost function RemoveFrom(hash: Hash, t: Table, k: Key): Table
    requires Holds(hash, t.chains, k) && t.used > 0
  {
    var b := Index(hash(k), |t.chains|);
    Table(Unlink(t.chains, b, Place(t.chains[b], k)), t.used - 1)
  }

  lemma RemoveFromRemoves(hash: Hash, t: Table, k: Key)
    requires TableOk(hash, t) && Holds(hash, t.chains, k)
    ensures t.used > 0
    ensures var r := RemoveFrom(hash, t, k);
      && TableOk(hash, r) && |r.chains| == |t.chains|
      && (forall x :: Holds(hash, r.chains, x) <==> x != k && Holds(hash, t.chains, x))
      && (forall b :: 0 <= b < |t.chains| && t.chains[b] == [] ==> r.chains[b] == [])
  {
    var b := Index(hash(k), |t.chains|);
    CountAtLeast(t.chains, b);
    UnlinkRemoves(hash, t.chains, b, Place(t.chains[b], k));
  }

  lemma HeldIsCounted(hash: Hash, s: State, k: Key)
    requires Inv(hash, s)
    ensures Holds(hash, s.ht0.chains, k) ==> s.ht0.used > 0
    ensures Holds(hash, s.ht1.chains, k) ==> s.ht1.used > 0
  {
    CountZero(s.ht0.chains);
    CountZero(s.ht1.chains);
  }

  /** The state after the entry of `k` was unlinked from the table that holds it. */
  ghost function Removed(hash: Hash, s: State, k: Key): State
    requires Inv(hash, s) && Contains(hash, s, k)
  {
    if Holds(hash, s.ht0.chains, k) then
      RemoveFromRemoves(hash, s.ht0, k);
      s.(ht0 := RemoveFrom(hash, s.ht0, k))
    else
      RemoveFromRemoves(hash, s.ht1, k);
      s.(ht1 := RemoveFrom(hash, s.ht1, k))
  }

  lemma RemovedKeeps(hash: Hash, s: State, k: Key)
    requires Inv(hash, s) && Contains(hash, s, k)
    ensures var t := Removed(hash, s, k);
      && Inv(hash, t) && Size(t) == Size(s) - 1 && t.iterators == s.iterators && t.rehashidx == s.rehashidx
      && |t.ht0.chains| == |s.ht0.chains| && |t.ht1.chains| == |s.ht1.chains|
      && (forall x :: Contains(hash, t, x) <==> x != k && Contains(hash, s, x))
  {
    RemoveFromRemoves(hash, if Holds(hash, s.ht0.chains, k) then s.ht0 else s.ht1, k);
  }

  /** `dictGenericDelete`: the new state, and whether an entry was found. */
  ghost function Delete(hash: Hash, s: State, k: Key): (State, bool)
    requires Inv(hash, s)
  {
    if s.ht0.used == 0 && s.ht1.used == 0 then (s, false)
    else
      StepKeeps(hash, s);
      var t := Step(hash, s);
      if Contains(hash, t, k) then (Removed(hash, t, k), true) else (t, false)
  }

  lemma EmptyHoldsNothing(hash: Hash, s: State)
    requires Inv(hash, s) && Size(s) == 0
    ensures forall k :: !Contains(hash, s, k)
  {
    CountZero(s.ht0.chains);
    CountZero(s.ht1.chains);
  }

  /** A deletion succeeds exactly when the key is present, and removes just that key. */
  lemma DeleteRemoves(hash: Hash, s: State, k: Key)
    requires Inv(hash, s)
    ensures var (t, found) := Delete(hash, s, k);
      && Inv(hash, t) && t.iterators == s.iterators
      && (found <==> Contains(hash, s, k))
      && (forall x :: Contains(hash, t, x) <==> x != k && Contains(hash, s, x))
      && Size(t) == Size(s) - if found then 1 else 0
  {
    if Size(s) == 0 {
      EmptyHoldsNothing(hash, s);
    } else {
      StepKeeps(hash, s);
      var t := Step(hash, s);
      if Contains(hash, t, k) { RemovedKeeps(hash, t, k); }
    }
  }

  /** `m_dictFind`: the state after the rehashing step that a lookup makes. */
  ghost function Find(hash: Hash, s: State): State
    requires Inv(hash, s)
  {
    if Size(s) == 0 then s else Step(hash, s)
  }

  /** `m_dictEmpty` */
  function Empty(): State
  {
    State(RESET, RESET, -1, 0)
  }

  // ---------------------------------------------------------------- the number of entries

  ghost function KeySet(c: Chains): set<Key>
  {
    if c == [] then {} else (set k | k in c[0]) + KeySet(c[1..])
  }

  lemma {:induction false} KeySetHas(c: Chains, k: Key)
    ensures k in KeySet(c) <==> exists b :: 0 <= b < |c| && k in c[b]
  {
    if c != [] {
      KeySetHas(c[1..], k);
      if b :| 0 <= b < |c| && k in c[b] {
        if b > 0 { assert k in c[1..][b - 1]; }
      }
    }
  }

  lemma {:induction false} ChainSetSize(chain: seq<Key>)
    requires NoDuplicates(chain)
    ensures |set k | k in chain| == |chain|
  {
    if chain != [] {
      ChainSetSize(chain[1..]);
      assert (set k | k in chain) == {chain[0]} + (set k | k in chain[1..]);
      assert chain[0] !in chain[1..];
    }
  }

  lemma {:induction false} KeySetSize(c: Chains)
    requires forall b :: 0 <= b < |c| ==> NoDuplicates(c[b])
    requires forall a, b, k :: 0 <= a < b < |c| && k in c[a] ==> k !in c[b]
    ensures |KeySet(c)| == Count(c)
  {
    if c != [] {
      KeySetSize(c[1..]);
      ChainSetSize(c[0]);
      forall k | k in c[0]
        ensures k !in KeySet(c[1..])
      {
        KeySetHas(c[1..], k);
      }
    }
  }

  lemma TableKeys(hash: Hash, c: Chains)
    requires WellPlaced(hash, c)
    ensures |KeySet(c)| == Count(c)
    ensures forall k :: k in KeySet(c) <==> Holds(hash, c, k)
  {
    forall a, b, k | 0 <= a < b < |c| && k in c[a]
      ensures k !in c[b]
    {
      assert Index(hash(k), |c|) == a;
    }
    KeySetSize(c);
    forall k
      ensures k in KeySet(c) <==> Holds(hash, c, k)
    {
      KeySetHas(c, k);
      if b :| 0 <= b < |c| && k in c[b] { InSomeChain(hash, c, b, k); }
    }
  }

  /** `dictSize` is the number of keys, at every stage of a migration. */
  lemma SizeCountsKeys(hash: Hash, s: State, keys: set<Key>)
    requires Inv(hash, s) && forall k :: k in keys <==> Contains(hash, s, k)
    ensures Size(s) == |keys|
  {
    hide WellPlaced, KeySet, Count, Holds;
    TableKeys(hash, s.ht0.chains);
    TableKeys(hash, s.ht1.chains);
    var k0, k1 := KeySet(s.ht0.chains), KeySet(s.ht1.chains);
    assert keys == k0 + k1;
    assert k0 !! k1;
  }
}
