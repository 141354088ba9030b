/**
  The stateless scan of the dictionary: what one call emits, and what a whole scan emits when
  the dictionary changes in any way between the calls.
*/
module DictScan {
  import opened Keys
  import opened Words
  import opened HashTable
  import opened DictSpec
  import opened Cursor

  /** The emission loop over the larger table: all buckets that expand the cursor's bucket in the smaller one,
      from the cursor on. */
  ghost function WalkLarger(c: Chains, v: Word, k0: nat, k1: nat): (seq<Key>, Word)
    requires k0 <= k1 <= WIDTH && |c| == Pow2(k1)
    decreases End() - Floor(v, k1)
  {
    CeilingBound(v, k1);
    NextInLarger(v, k0, k1);
    NextPos(v, k1);
    NextAtFloor(v, k1);
    CeilingBound(v, k0);
    var n := Next(v, k1);
    if MoreInLarger(n, k0, k1) then
      var (rest, end) := WalkLarger(c, n, k0, k1);
      (c[Bucket(v, k1)] + rest, end)
    else (c[Bucket(v, k1)], n)
  }

  /** One round of the loop; the cursor moves forward while it goes on. */
  lemma WalkLargerStep(c: Chains, v: Word, k0: nat, k1: nat)
    requires k0 <= k1 <= WIDTH && |c| == Pow2(k1)
    ensures var n := Next(v, k1);
      && Bucket(v, k1) < |c|
      && (MoreInLarger(n, k0, k1) ==>
            && Floor(v, k1) < Floor(n, k1) <= End()
            && WalkLarger(c, v, k0, k1).0 == c[Bucket(v, k1)] + WalkLarger(c, n, k0, k1).0
            && WalkLarger(c, v, k0, k1).1 == WalkLarger(c, n, k0, k1).1)
      && (!MoreInLarger(n, k0, k1) ==> WalkLarger(c, v, k0, k1) == (c[Bucket(v, k1)], n))
  {
    CeilingBound(v, k1);
    NextInLarger(v, k0, k1);
    NextPos(v, k1);
    NextAtFloor(v, k1);
    CeilingBound(v, k0);
  }

  /** The smaller table comes first, the larger one second. */
  ghost function Ordered(s: State): (Chains, Chains)
  {
    if |s.ht0.chains| > |s.ht1.chains| then (s.ht1.chains, s.ht0.chains) else (s.ht0.chains, s.ht1.chains)
  }

  /** `m_dictScan`: the keys emitted, in order, and the cursor returned. */
  ghost function Scan(hash: Hash, s: State, v: Word): (seq<Key>, Word)
    requires Inv(hash, s)
  {
    if Size(s) == 0 then ([], Zero())
    else if !IsRehashing(s) then
      NonEmptyTable(hash, s);
      var k := Log2(|s.ht0.chains|);
      (s.ht0.chains[Bucket(v, k)], Next(v, k))
    else
      var (c0, c1) := Ordered(s);
      var k0, k1 := Log2(|c0|), Log2(|c1|);
      OrderedLogs(|c0|, |c1|);
      var (rest, end) := WalkLarger(c1, v, k0, k1);
      (c0[Bucket(v, k0)] + rest, end)
  }

  lemma NonEmptyTable(hash: Hash, s: State)
    requires Inv(hash, s) && Size(s) > 0
    ensures |s.ht0.chains| > 0
  {
    CountZero(s.ht0.chains);
    CountZero(s.ht1.chains);
  }

  lemma OrderedLogs(a: nat, b: nat)
    requires IsSize(a) && IsSize(b) && a < b
    ensures Log2(a) < Log2(b)
  {
    if Log2(b) <= Log2(a) { Pow2Monotone(Log2(b), Log2(a)); }
  }

  /** The base-2 logarithm of the number of buckets of the smaller (or only) table. */
  ghost function SmallLog(s: State): nat
  {
    Log2(if IsRehashing(s) then |Ordered(s).0| else |s.ht0.chains|)
  }

  /** The part of the scan order that a call with cursor `v` leaves behind: up to the end of the cursor's bucket
      in the smaller table. */
  ghost function ScanEnd(s: State, v: Word): nat
    requires SmallLog(s) <= WIDTH
  {
    Ceiling(v, SmallLog(s))
  }

  // ---------------------------------------------------------------- one call

  /** The walk over the larger table emits exactly its keys from the cursor's bucket to the end of the smaller
      table's bucket, and returns the next cursor of the smaller table. */
  lemma {:induction false} WalkLargerCovers(hash: Hash, c: Chains, v: Word, k0: nat, k1: nat)
    requires k0 <= k1 && |c| == Pow2(k1) && WellPlaced(hash, c) && k1 == Log2(|c|)
    ensures var (emitted, end) := WalkLarger(c, v, k0, k1);
      && end == Next(v, k0)
      && (forall k :: k in emitted <==> Holds(hash, c, k) && Floor(v, k1) <= Pos(hash(k)) < Ceiling(v, k0))
      && NoDuplicates(emitted)
    decreases End() - Floor(v, k1)
  {
    CeilingBound(v, k1);
    NextInLarger(v, k0, k1);
    NextPos(v, k1);
    NextAtFloor(v, k1);
    CeilingBound(v, k0);
    var n := Next(v, k1);
    ChainInterval(hash, c, v, k1);
    if MoreInLarger(n, k0, k1) {
      WalkLargerCovers(hash, c, n, k0, k1);
      SameNext(v, n, k0);
      DistinctParts(hash, c[Bucket(v, k1)], WalkLarger(c, n, k0, k1).0, Ceiling(v, k1));
    }
  }

  /** A chain holds exactly the keys of the table in its bucket's interval of the scan order. */
  lemma ChainInterval(hash: Hash, c: Chains, v: Word, k: nat)
    requires WellPlaced(hash, c) && |c| == Pow2(k) && k == Log2(|c|)
    ensures forall x :: x in c[Bucket(v, k)] <==>
      Holds(hash, c, x) && Floor(v, k) <= Pos(hash(x)) < Ceiling(v, k)
    ensures NoDuplicates(c[Bucket(v, k)])
  {
    forall x
      ensures x in c[Bucket(v, k)] <==> Holds(hash, c, x) && Floor(v, k) <= Pos(hash(x)) < Ceiling(v, k)
    {
      IndexIsBucket(hash(x), |c|);
      BucketInterval(hash(x), v, k);
    }
  }

  lemma SameNext(v: Word, w: Word, k: nat)
    requires k <= WIDTH && Floor(v, k) == Floor(w, k)
    ensures Next(v, k) == Next(w, k)
  {
    NextPos(v, k);
    NextPos(w, k);
    if Ceiling(v, k) != End() { PosInjective(Next(v, k), Next(w, k)); }
  }

  lemma DistinctParts(hash: Hash, a: seq<Key>, b: seq<Key>, border: nat)
    requires NoDuplicates(a) && NoDuplicates(b)
    requires forall k :: k in a ==> Pos(hash(k)) < border
    requires forall k :: k in b ==> border <= Pos(hash(k))
    ensures NoDuplicates(a + b)
  {
    forall i, j | 0 <= i < j < |a + b|
      ensures (a + b)[i] != (a + b)[j]
    {
      if i < |a| <= j {
        assert a[i] in a && b[j - |a|] in b;
      }
    }
  }

  lemma ScanBounds(hash: Hash, s: State)
    requires Inv(hash, s) && Size(s) > 0
    ensures SmallLog(s) < WIDTH
  {
    NonEmptyTable(hash, s);
  }

  /** One call emits no key twice; it emits keys of the dictionary only, and among them every key from the cursor
      to the end of the cursor's bucket in the smaller table. The cursor it returns is exactly that end, or zero
      when that is the end of the scan order. */
  lemma ScanCovers(hash: Hash, s: State, v: Word)
    requires Inv(hash, s) && Size(s) > 0
    ensures SmallLog(s) < WIDTH
    ensures var (emitted, end) := Scan(hash, s, v);
      && NoDuplicates(emitted)
      && (forall k :: k in emitted ==>
            Contains(hash, s, k) && Floor(v, SmallLog(s)) <= Pos(hash(k)) < ScanEnd(s, v))
      && (forall k :: Contains(hash, s, k) && Pos(v) <= Pos(hash(k)) < ScanEnd(s, v) ==> k in emitted)
      && Pos(v) < ScanEnd(s, v) <= End()
      && (if ScanEnd(s, v) == End() then end == Zero() else Pos(end) == ScanEnd(s, v))
  {
    ScanBounds(hash, s);
    var k0 := SmallLog(s);
    PosSplit(v, k0);
    NextPos(v, k0);
    CeilingBound(v, k0);
    if IsRehashing(s) {
      var (c0, c1) := Ordered(s);
      var k1 := Log2(|c1|);
      OrderedLogs(|c0|, |c1|);
      ChainInterval(hash, c0, v, k0);
      WalkLargerCovers(hash, c1, v, k0, k1);
      Nested(v, k0, k1);
      PosSplit(v, k1);
      DistinctTables(hash, s, c0[Bucket(v, k0)], WalkLarger(c1, v, k0, k1).0);
    } else {
      NonEmptyTable(hash, s);
      ChainInterval(hash, s.ht0.chains, v, k0);
    }
  }

  lemma DistinctTables(hash: Hash, s: State, a: seq<Key>, b: seq<Key>)
    requires Inv(hash, s) && IsRehashing(s) && NoDuplicates(a) && NoDuplicates(b)
    requires forall k :: k in a ==> Holds(hash, Ordered(s).0, k)
    requires forall k :: k in b ==> Holds(hash, Ordered(s).1, k)
    ensures NoDuplicates(a + b)
  {
    forall i, j | 0 <= i < j < |a + b|
      ensures (a + b)[i] != (a + b)[j]
    {
      if i < |a| <= j {
        assert a[i] in a && b[j - |a|] in b;
      }
    }
  }

  // ---------------------------------------------------------------- whole scans

  /** Whatever may happen to the dictionary between two calls of a scan. */
  datatype Op =
    | Insert(key: Key, canResize: bool)
    | Remove(key: Key)
    | Lookup
    | RehashSteps(n: nat)
    | ExpandTo(size: nat)
    | Shrink(canResize: bool)
    | Clear
    | SetIterators(n: nat)

  ghost function Apply(hash: Hash, s: State, op: Op): (t: State)
    requires Inv(hash, s)
    ensures Inv(hash, t)
  {
    match op
    case Insert(k, canResize) =>
      if Size(s) < UINT64 then AddRawAdds(hash, s, k, canResize); AddRaw(hash, s, k, canResize).0 else s
    case Remove(k) => DeleteRemoves(hash, s, k); Delete(hash, s, k).0
    case Lookup => StepKeeps(hash, s); DictSpec.Find(hash, s)
    case RehashSteps(n) => RehashKeeps(hash, s, n); Rehash(hash, s, n).0
    case ExpandTo(size) => ExpandKeeps(hash, s, size); Expand(s, size).0
    case Shrink(canResize) => ResizeKeeps(hash, s, canResize); Resize(s, canResize).0
    case Clear => DictSpec.Empty()
    case SetIterators(n) => s.(iterators := n)
  }

  ghost function ApplyAll(hash: Hash, s: State, ops: seq<Op>): (t: State)
    requires Inv(hash, s)
    ensures Inv(hash, t)
    decreases |ops|
  {
    if ops == [] then s else ApplyAll(hash, Apply(hash, s, ops[0]), ops[1..])
  }

  /** A scan from cursor `v`: call `m_dictScan`, stop when it returns zero, and otherwise let the next group of
      operations happen and go on. It gives the keys emitted and whether zero was returned. */
  ghost function Run(hash: Hash, s: State, v: Word, gaps: seq<seq<Op>>): (seq<Key>, bool)
    requires Inv(hash, s)
    decreases |gaps|
  {
    var (emitted, next) := Scan(hash, s, v);
    if next == Zero() then (emitted, true)
    else if gaps == [] then (emitted, false)
    else
      var (rest, done) := Run(hash, ApplyAll(hash, s, gaps[0]), next, gaps[1..]);
      (emitted + rest, done)
  }

  /** `k` is in the dictionary at every call of the scan. */
  ghost predicate AtEveryCall(hash: Hash, s: State, v: Word, gaps: seq<seq<Op>>, k: Key)
    requires Inv(hash, s)
    decreases |gaps|
  {
    && Contains(hash, s, k)
    && var next := Scan(hash, s, v).1;
      (next != Zero() && gaps != [] ==> AtEveryCall(hash, ApplyAll(hash, s, gaps[0]), next, gaps[1..], k))
  }

  /** `k` is in the dictionary at some call of the scan. */
  ghost predicate AtSomeCall(hash: Hash, s: State, v: Word, gaps: seq<seq<Op>>, k: Key)
    requires Inv(hash, s)
    decreases |gaps|
  {
    || Contains(hash, s, k)
    || (var next := Scan(hash, s, v).1;
        next != Zero() && gaps != [] && AtSomeCall(hash, ApplyAll(hash, s, gaps[0]), next, gaps[1..], k))
  }

  /** A key from the cursor on that a call does not emit lies from the returned cursor on. */
  lemma ScanMissesOnlyLater(hash: Hash, s: State, v: Word, k: Key)
    requires Inv(hash, s) && Contains(hash, s, k) && Pos(v) <= Pos(hash(k))
    ensures k in Scan(hash, s, v).0 || (Scan(hash, s, v).1 != Zero() && Pos(Scan(hash, s, v).1) <= Pos(hash(k)))
  {
    if Size(s) == 0 {
      EmptyHoldsNothing(hash, s);
    } else {
      ScanCovers(hash, s, v);
      PosBound(hash(k));
      PosZero();
    }
  }

  lemma {:induction false} RunEmits(hash: Hash, s: State, v: Word, gaps: seq<seq<Op>>, k: Key)
    requires Inv(hash, s)
    requires Run(hash, s, v, gaps).1 && AtEveryCall(hash, s, v, gaps, k) && Pos(v) <= Pos(hash(k))
    ensures k in Run(hash, s, v, gaps).0
    decreases |gaps|
  {
    var next := Scan(hash, s, v).1;
    ScanMissesOnlyLater(hash, s, v, k);
    if k !in Scan(hash, s, v).0 {
      assert gaps != [];
      var t := ApplyAll(hash, s, gaps[0]);
      assert AtEveryCall(hash, t, next, gaps[1..], k);
      RunEmits(hash, t, next, gaps[1..], k);
    }
  }

  /** Scan completeness: a scan that starts at cursor zero and ends with cursor zero has emitted every key that was
      in the dictionary at each of its calls, whatever insertions, deletions, lookups, rehashing steps, growths and
      shrinks happened in between. */
  lemma ScanComplete(hash: Hash, s: State, gaps: seq<seq<Op>>, k: Key)
    requires Inv(hash, s)
    requires Run(hash, s, Zero(), gaps).1 && AtEveryCall(hash, s, Zero(), gaps, k)
    ensures k in Run(hash, s, Zero(), gaps).0
  {
    PosZero();
    RunEmits(hash, s, Zero(), gaps, k);
  }

  /** A scan emits nothing that was not in the dictionary at one of its calls. */
  lemma {:induction false} ScanSound(hash: Hash, s: State, v: Word, gaps: seq<seq<Op>>, k: Key)
    requires Inv(hash, s) && k in Run(hash, s, v, gaps).0
    ensures AtSomeCall(hash, s, v, gaps, k)
    decreases |gaps|
  {
    var (emitted, next) := Scan(hash, s, v);
    if Size(s) > 0 { ScanCovers(hash, s, v); }
    if k !in emitted {
      ScanSound(hash, ApplyAll(hash, s, gaps[0]), next, gaps[1..], k);
    }
  }

  /** Every scan ends: each call returns zero or moves forward in the scan order, whatever happened before it. */
  lemma {:induction false} ScanEnds(hash: Hash, s: State, v: Word, gaps: seq<seq<Op>>)
    requires Inv(hash, s) && Pos(v) + |gaps| + 1 >= End()
    ensures Run(hash, s, v, gaps).1
    decreases |gaps|
  {
    if Size(s) > 0 {
      ScanCovers(hash, s, v);
      if ScanEnd(s, v) != End() {
        PosBound(Scan(hash, s, v).1);
        ScanEnds(hash, ApplyAll(hash, s, gaps[0]), Scan(hash, s, v).1, gaps[1..]);
      }
    }
  }

  // ---------------------------------------------------------------- scans without operations in between

  /** What `n` calls one after the other emit together, and the cursor that the last of them returns. */
  ghost function Calls(hash: Hash, s: State, n: nat): (seq<Key>, Word)
    requires Inv(hash, s)
  {
    if n == 0 then ([], Zero())
    else
      var (emitted, v) := Calls(hash, s, n - 1);
      var (more, v') := Scan(hash, s, v);
      (emitted + more, v')
  }

  /** The number of buckets of the smaller (or only) table. */
  ghost function Buckets(s: State): nat
  {
    if s.rehashidx == -1 then |s.ht0.chains|
    else if |s.ht0.chains| < |s.ht1.chains| then |s.ht0.chains|
    else |s.ht1.chains|
  }

  lemma BucketsAreSmall(hash: Hash, s: State)
    requires Inv(hash, s) && Size(s) > 0
    ensures SmallLog(s) < WIDTH && Buckets(s) == Pow2(SmallLog(s)) && Buckets(s) >= 1
    ensures End() == Stride(SmallLog(s)) * Buckets(s)
  {
    ScanBounds(hash, s);
    Pow2Split(WIDTH - SmallLog(s), SmallLog(s));
  }

  /** A cursor at the start of bucket number `n` of the scan order: the next one is at the start of the bucket after. */
  lemma RankAt(v: Word, k: nat, n: nat)
    requires k <= WIDTH && Pos(v) == Stride(k) * n
    ensures Floor(v, k) == Stride(k) * n && Ceiling(v, k) == Stride(k) * (n + 1)
  {
    PosSplit(v, k);
    DivModUnique(Pos(v), Stride(k), n, 0);
    DivModUnique(Pos(v), Stride(k), Rank(v, k), Offset(v, k));
    CeilingProduct(v, k);
  }

  lemma Products(s: nat, a: nat, b: nat)
    requires s > 0
    ensures a < b <==> s * a < s * b
  {
    if a < b { MultiplyMonotone(s, a + 1, b); }
    if a >= b { MultiplyMonotone(s, b, a); }
  }

  /** These are exactly the keys of the dictionary from place `a` of the scan order to before place `b`, each once. */
  ghost predicate KeysBetween(hash: Hash, s: State, a: nat, b: nat, emitted: seq<Key>)
  {
    && NoDuplicates(emitted)
    && forall k :: k in emitted <==> Contains(hash, s, k) && a <= Pos(hash(k)) < b
  }

  lemma KeysJoin(hash: Hash, s: State, a: nat, b: nat, emitted: seq<Key>, more: seq<Key>)
    requires KeysBetween(hash, s, 0, a, emitted) && KeysBetween(hash, s, a, b, more) && a <= b
    ensures KeysBetween(hash, s, 0, b, emitted + more)
  {
    hide Contains, Pos;
    DistinctParts(hash, emitted, more, a);
  }

  /** The place where bucket number `n` of the scan order starts. */
  ghost function Border(s: State, n: nat): nat
  {
    if SmallLog(s) <= WIDTH then Stride(SmallLog(s)) * n else 0
  }

  /** A call with the cursor at the start of bucket number `n`. */
  lemma OneCall(hash: Hash, s: State, v: Word, n: nat)
    requires Inv(hash, s) && Size(s) > 0 && n < Buckets(s) && Pos(v) == Border(s, n)
    ensures var (emitted, v') := Scan(hash, s, v); var a, b := Border(s, n), Border(s, n + 1);
      && KeysBetween(hash, s, a, b, emitted) && a <= b
      && CursorAt(s, v', n + 1)
  {
    BucketsAreSmall(hash, s);
    ScanCovers(hash, s, v);
    RankAt(v, SmallLog(s), n);
    Products(Stride(SmallLog(s)), n + 1, Buckets(s));
    Products(Stride(SmallLog(s)), 0, n + 1);
    hide Scan, Inv, Contains, SmallLog, Pos, Stride, Zero, Buckets;
  }

  /** Where the cursor is after `n` calls. */
  ghost predicate CursorAt(s: State, v: Word, n: nat)
  {
    if n > 0 && n == Buckets(s) then v == Zero() else Pos(v) == Border(s, n) && (n > 0 ==> Pos(v) > 0)
  }

  lemma NoCalls(hash: Hash, s: State)
    ensures KeysBetween(hash, s, 0, Border(s, 0), []) && CursorAt(s, Zero(), 0)
  {
    hide Pos, Contains, Zero;
    PosZero();
  }

  /** The first `n` calls emit exactly the keys of the first `n` buckets in scan order, each once. */
  lemma {:induction false} CallsCover(hash: Hash, s: State, n: nat)
    requires Inv(hash, s) && Size(s) > 0 && n <= Buckets(s)
    ensures KeysBetween(hash, s, 0, Border(s, n), Calls(hash, s, n).0) && CursorAt(s, Calls(hash, s, n).1, n)
  {
    hide Scan, Inv, Contains, Pos, Zero, Buckets, KeysBetween, Border, Size;
    if n == 0 {
      NoCalls(hash, s);
    } else {
      CallsCover(hash, s, n - 1);
      var (emitted, v) := Calls(hash, s, n - 1);
      OneCall(hash, s, v, n - 1);
      KeysJoin(hash, s, Border(s, n - 1), Border(s, n), emitted, Scan(hash, s, v).0);
    }
  }

  /** With no operation in between, a scan from cursor zero ends after exactly as many calls as the smaller (or only) table
      has buckets, and has then emitted every key exactly once; in an empty dictionary it ends after the first call. */
  lemma ScanCalls(hash: Hash, s: State)
    requires Inv(hash, s)
    ensures s.ht0.used + s.ht1.used == 0 ==> forall v :: Scan(hash, s, v) == ([], Zero())
    ensures s.ht0.used + s.ht1.used > 0 ==>
      && Buckets(s) > 0
      && (forall n :: 0 < n < Buckets(s) ==> Calls(hash, s, n).1 != Zero())
      && Calls(hash, s, Buckets(s)).1 == Zero()
      && NoDuplicates(Calls(hash, s, Buckets(s)).0)
      && forall k :: k in Calls(hash, s, Buckets(s)).0 <==> Contains(hash, s, k)
  {
    if Size(s) > 0 {
      BucketsAreSmall(hash, s);
      PosZero();
      forall n | 0 < n < Buckets(s)
        ensures Calls(hash, s, n).1 != Zero()
      {
        CallsCover(hash, s, n);
      }
      CallsCover(hash, s, Buckets(s));
      forall k
        ensures Pos(hash(k)) < End()
      {
        PosBound(hash(k));
      }
    }
  }
}
