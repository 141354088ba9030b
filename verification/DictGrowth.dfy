/**
  Growth keeps up with insertion: a dictionary that grows only as insertions ask for it never
  holds more entries than buckets, because each insertion migrates a bucket first.
*/
module DictGrowth {
  import opened Keys
  import opened Words
  import opened HashTable
  import opened DictSpec
  import opened DictScan

  /** At most one entry per bucket; during a migration the target has twice the buckets, and at most one entry
      arrived for each bucket migrated. */
  ghost predicate Balanced(s: State)
  {
    && s.iterators == 0
    && (if IsRehashing(s) then
          |s.ht1.chains| == 2 * |s.ht0.chains| && Size(s) <= |s.ht0.chains| + 1 + s.rehashidx
        else
          s.ht0.used <= |s.ht0.chains|)
  }

  /** Operations other than explicit size changes and iteration; resizing is enabled. */
  predicate IsOrdinary(op: Op)
  {
    match op
    case Insert(_, canResize) => canResize
    case Remove(_) => true
    case Lookup => true
    case RehashSteps(_) => true
    case Clear => true
    case _ => false
  }

  lemma NextPowerDoubles(n: nat)
    requires IsSize(n) && n <= LONG_MAX
    ensures NextPower(2 * n) == 2 * n
  {
    hide NextPower;
    var k := Log2(n);
    var p := NextPower(2 * n);
    Pow63();
    assert k < 63;
    Pow2Monotone(k + 1, 63);
    NextPowerIsSize(2 * n);
    if Log2(p) < k + 1 {
      Pow2Monotone(Log2(p), k);
    } else if Log2(p) > k + 1 {
      Pow2Monotone(k + 2, Log2(p));
      SizeAtLeast4(n);
    }
  }

  lemma RehashBalanced(hash: Hash, s: State, n: nat)
    requires Inv(hash, s) && Balanced(s)
    ensures Inv(hash, Rehash(hash, s, n).0) && Balanced(Rehash(hash, s, n).0)
    ensures var t := Rehash(hash, s, n).0;
      IsRehashing(t) && n > 0 ==> Size(t) <= |t.ht0.chains| + t.rehashidx
  {
    RehashKeeps(hash, s, n);
    RehashAdvances(hash, s, n);
  }

  lemma RehashAdvances(hash: Hash, s: State, n: nat)
    requires Inv(hash, s)
    ensures Rehash(hash, s, n).1 ==> Rehash(hash, s, n).0.rehashidx >= s.rehashidx + if n > 0 then 1 else 0
  {
    if IsRehashing(s) { RehashLoopKeeps(hash, s, n, n * 10); }
  }

  /** A table is expanded when it holds one entry for each bucket. */
  lemma FullTable(hash: Hash, s: State)
    requires Inv(hash, s) && Balanced(s) && IsFull(s, true)
    ensures !IsRehashing(s) && s.ht0.used == |s.ht0.chains| && IsSize(s.ht0.used)
  {}

  lemma FirstSize()
    ensures NextPower(INITIAL_SIZE) == INITIAL_SIZE
  {}

  lemma ExpandBalanced(hash: Hash, s: State)
    requires Inv(hash, s) && Balanced(s) && Size(s) < UINT64
    requires IsRehashing(s) ==> Size(s) <= |s.ht0.chains| + s.rehashidx
    ensures var (t, ok) := ExpandIfNeeded(s, true);
      && Balanced(t)
      && (ok ==> if IsRehashing(t) then Size(t) <= |t.ht0.chains| + t.rehashidx else t.ht0.used < |t.ht0.chains|)
  {
    hide IsSize, WellPlaced, NextPower, Migrating;
    FirstSize();
    if IsFull(s, true) {
      FullTable(hash, s);
      if s.ht0.used <= LONG_MAX { NextPowerDoubles(s.ht0.used); }
    }
  }

  lemma InsertBalanced(hash: Hash, s: State, k: Key)
    requires Inv(hash, s) && Balanced(s) && Size(s) < UINT64
    ensures Balanced(AddRaw(hash, s, k, true).0)
  {
    StepKeeps(hash, s);
    RehashBalanced(hash, s, 1);
    ExpandBalanced(hash, Step(hash, s));
    PrepareKeeps(hash, s, true);
    var (t, ok) := Prepare(hash, s, true);
    if ok && !Contains(hash, t, k) {
      LinkAdds(hash, t, k);
      LinkSizes(hash, t, k);
    }
  }

  lemma LinkSizes(hash: Hash, s: State, k: Key)
    requires Inv(hash, s) && |s.ht0.chains| > 0
    ensures var t := Link(hash, s, k);
      && |t.ht0.chains| == |s.ht0.chains| && |t.ht1.chains| == |s.ht1.chains| && t.rehashidx == s.rehashidx
  {
    IndexIsBucket(hash(k), |if IsRehashing(s) then s.ht1.chains else s.ht0.chains|);
  }

  lemma DeleteBalanced(hash: Hash, s: State, k: Key)
    requires Inv(hash, s) && Balanced(s)
    ensures Balanced(Delete(hash, s, k).0)
  {
    DeleteRemoves(hash, s, k);
    if Size(s) > 0 {
      StepKeeps(hash, s);
      RehashBalanced(hash, s, 1);
      var t := Step(hash, s);
      if Contains(hash, t, k) { RemovedKeeps(hash, t, k); }
    }
  }

  lemma ApplyBalanced(hash: Hash, s: State, op: Op)
    requires Inv(hash, s) && Balanced(s) && IsOrdinary(op)
    ensures Balanced(Apply(hash, s, op))
  {
    match op
    case Insert(k, canResize) => if Size(s) < UINT64 { InsertBalanced(hash, s, k); }
    case Remove(k) => DeleteBalanced(hash, s, k);
    case Lookup => RehashBalanced(hash, s, 1);
    case RehashSteps(n) => RehashBalanced(hash, s, n);
    case _ =>
  }

  lemma {:induction false} RunBalanced(hash: Hash, s: State, ops: seq<Op>)
    requires Inv(hash, s) && Balanced(s)
    requires forall op :: op in ops ==> IsOrdinary(op)
    ensures Balanced(ApplyAll(hash, s, ops))
    decreases |ops|
  {
    if ops != [] {
      ApplyBalanced(hash, s, ops[0]);
      RunBalanced(hash, Apply(hash, s, ops[0]), ops[1..]);
    }
  }

  /** From an empty dictionary on, in every run of ordinary operations: at most one entry per bucket outside a
      migration; during one, the new table is twice the old one and has room for all entries. */
  lemma GrowthKeepsUp(hash: Hash, ops: seq<Op>)
    requires forall op :: op in ops ==> IsOrdinary(op)
    ensures Inv(hash, Empty())
    ensures var s := ApplyAll(hash, Empty(), ops);
      if IsRehashing(s) then
        && |s.ht1.chains| == 2 * |s.ht0.chains|
        && Size(s) <= |s.ht0.chains| + 1 + s.rehashidx <= |s.ht1.chains|
      else s.ht0.used <= |s.ht0.chains|
  {
    RunBalanced(hash, Empty(), ops);
  }

  // ---------------------------------------------------------------- when the size changes

  /** `p` is the smallest table size for `n` entries. */
  ghost predicate SmallestSize(p: nat, n: nat)
  {
    IsSize(p) && p >= n && (p == 4 || p < 2 * n)
  }

  lemma SmallestIsOne(p: nat, q: nat, n: nat)
    requires SmallestSize(p, n) && SmallestSize(q, n)
    ensures p == q
  {
    if Log2(p) < Log2(q) {
      Pow2Monotone(Log2(p) + 1, Log2(q));
      SizeAtLeast4(p);
    } else if Log2(q) < Log2(p) {
      Pow2Monotone(Log2(q) + 1, Log2(p));
      SizeAtLeast4(q);
    }
  }

  /** `m_dictResize` succeeds exactly when resizing is enabled, no migration is under way, the number of entries is an `int`,
      and the table does not have the smallest size for them already. It then starts the migration to that size. */
  lemma ResizeExact(hash: Hash, s: State, canResize: bool)
    requires Inv(hash, s)
    ensures var (t, ok) := Resize(s, canResize);
      && (ok <==> canResize && s.rehashidx == -1 && s.ht0.used < 0x8000_0000 && !SmallestSize(|s.ht0.chains|, s.ht0.used))
      && (!ok ==> t == s)
      && (ok && |s.ht0.chains| > 0 ==> t.ht0 == s.ht0 && t.rehashidx == 0 && SmallestSize(|t.ht1.chains|, s.ht0.used))
      && (ok && |s.ht0.chains| == 0 ==> |t.ht0.chains| == 4 && t.rehashidx == -1)
  {
    var minimal := ToInt32(s.ht0.used);
    var size := if minimal < INITIAL_SIZE then INITIAL_SIZE else minimal;
    NextPowerIsSize(size);
    FirstSize();
    if s.ht0.used < 0x8000_0000 {
      assert SmallestSize(NextPower(size), s.ht0.used);
      if SmallestSize(|s.ht0.chains|, s.ht0.used) { SmallestIsOne(|s.ht0.chains|, NextPower(size), s.ht0.used); }
      if |s.ht0.chains| == 0 { CountZero(s.ht0.chains); }
    }
  }

  /** `_dictExpandIfNeeded` sets up four buckets where there are none; it starts a migration exactly when there is an entry for
      each bucket, and resizing is enabled or there are more than five; and else it does nothing. */
  lemma GrowthExact(hash: Hash, s: State, canResize: bool)
    requires Inv(hash, s) && s.ht0.used < UINT64
    ensures var (t, ok) := ExpandIfNeeded(s, canResize); var size, used := |s.ht0.chains|, s.ht0.used;
      if s.rehashidx == -1 && size == 0 then
        ok && t == s.(ht0 := t.ht0) && t.ht0.used == 0 && |t.ht0.chains| == 4
      else if s.rehashidx == -1 && used >= size && (canResize || used / size > 5) && used <= 0x4000_0000_0000_0000 then
        ok && t == s.(ht1 := t.ht1, rehashidx := 0) && t.ht1.used == 0 && SmallestSize(|t.ht1.chains|, 2 * used)
      else if s.rehashidx == -1 && used >= size && (canResize || used / size > 5) then
        && (ok <==> used < 0x8000_0000_0000_0000)
        && (if ok then t == s.(ht1 := t.ht1, rehashidx := 0) && t.ht1.used == 0 && |t.ht1.chains| == 0x8000_0000_0000_0000
            else t == s)
      else ok && t == s
  {
    hide SmallestSize, Inv;
    if s.rehashidx == -1 && |s.ht0.chains| == 0 {
      FirstBuckets(hash, s, canResize);
    } else if IsFull(s, canResize) {
      FullExpands(hash, s, canResize);
    }
  }

  lemma FirstBuckets(hash: Hash, s: State, canResize: bool)
    requires Inv(hash, s) && s.rehashidx == -1 && |s.ht0.chains| == 0
    ensures var (t, ok) := ExpandIfNeeded(s, canResize);
      ok && t == s.(ht0 := t.ht0) && t.ht0.used == 0 && |t.ht0.chains| == 4
  {
    FirstSize();
    CountZero(s.ht0.chains);
  }

  /** A full table is doubled, up to the greatest size, unless that overflows. */
  lemma FullExpands(hash: Hash, s: State, canResize: bool)
    requires Inv(hash, s) && s.ht0.used < UINT64 && IsFull(s, canResize)
    ensures var (t, ok) := ExpandIfNeeded(s, canResize); var used := s.ht0.used;
      && (ok <==> used < 0x8000_0000_0000_0000)
      && (!ok ==> t == s)
      && (ok ==> t == s.(ht1 := t.ht1, rehashidx := 0) && t.ht1.used == 0)
      && (ok && used <= 0x4000_0000_0000_0000 ==> SmallestSize(|t.ht1.chains|, 2 * used))
      && (ok && used > 0x4000_0000_0000_0000 ==> |t.ht1.chains| == 0x8000_0000_0000_0000)
  {
    var size, used := |s.ht0.chains|, s.ht0.used;
    DoubleFull(used, size);
    if used <= LONG_MAX { DoubledSize(used, size); }
    hide NextPower, IsSize, SmallestSize;
  }

  lemma DoubledSize(used: nat, size: nat)
    requires IsSize(size) && size <= used <= LONG_MAX
    ensures used * 2 % UINT64 == 2 * used
    ensures used <= 0x4000_0000_0000_0000 ==> SmallestSize(NextPower(2 * used), 2 * used)
    ensures used > 0x4000_0000_0000_0000 ==> NextPower(2 * used) == 0x8000_0000_0000_0000
  {
    SizeAtLeast4(size);
    NextPowerIsSize(2 * used);
  }
}
