/**
  How much one call of `m_dictRehash` does, told by the buckets of the old table alone: a call
  for `n` steps moves `n` buckets in use, or gives up at ten times as many empty ones.
*/
module DictRehash {
  import opened Keys
  import opened Words
  import opened HashTable
  import opened DictSpec

  /** How many of the buckets from `a` to `b - 1` are in use. */
  ghost function InUse(c: Chains, a: nat, b: nat): (n: nat)
    requires a <= b <= |c|
    ensures n <= b - a
  {
    if a == b then 0 else InUse(c, a, b - 1) + if c[b - 1] == [] then 0 else 1
  }

  /** How many of them are empty. */
  ghost function Idle(c: Chains, a: nat, b: nat): nat
    requires a <= b <= |c|
  {
    b - a - InUse(c, a, b)
  }

  lemma {:induction false} InUseSum(c: Chains, a: nat, m: nat, b: nat)
    requires a <= m <= b <= |c|
    ensures InUse(c, a, b) == InUse(c, a, m) + InUse(c, m, b)
  {
    if m < b { InUseSum(c, a, m, b - 1); }
  }

  lemma {:induction false} InUseSame(c: Chains, c': Chains, a: nat, b: nat)
    requires |c| == |c'| && a <= b <= |c| && forall i :: a <= i < b ==> c[i] == c'[i]
    ensures InUse(c, a, b) == InUse(c', a, b)
  {
    if a < b { InUseSame(c, c', a, b - 1); }
  }

  lemma {:induction false} NoneInUse(c: Chains, a: nat, b: nat)
    requires a <= b <= |c|
    ensures InUse(c, a, b) == 0 <==> forall i :: a <= i < b ==> c[i] == []
  {
    if a < b { NoneInUse(c, a, b - 1); }
  }

  /** From bucket `i` on there are at most `n` buckets in use, and fewer than `budget` empty ones before the last of
      them. */
  ghost predicate WithinReach(c: Chains, i: nat, n: nat, budget: nat)
    requires i <= |c|
  {
    && InUse(c, i, |c|) <= n
    && (forall j :: i <= j < |c| && c[j] != [] ==> Idle(c, i, j) < budget)
  }

  /** A call with `n` steps and `budget` empty buckets has come from bucket `i` to bucket `j`: it has either moved
      as many buckets in use as it may, or passed as many empty ones, and there is one in use ahead. */
  ghost predicate CameTo(c: Chains, i: nat, j: nat, n: nat, budget: nat)
    requires i <= j <= |c|
  {
    && SomeFrom(c, j)
    && (if n == 0 then j == i
        else if InUse(c, i, j) == n then j > i && c[j - 1] != [] && Idle(c, i, j) < budget
        else InUse(c, i, j) < n && j > i && c[j - 1] == [] && Idle(c, i, j) == budget)
  }

  /** What a call of `m_dictRehash` for `n` steps during a migration makes of state `s`. With more to do, the buckets it
      has come past are empty and the others as they were; with nothing more to do, the new table is the only one. */
  ghost predicate Rehashed(s: State, n: nat, t: State)
  {
    && 0 <= s.rehashidx <= |s.ht0.chains| && t.iterators == s.iterators && t.ht0.used + t.ht1.used == s.ht0.used + s.ht1.used
    && (t.rehashidx == -1 <==> WithinReach(s.ht0.chains, s.rehashidx, n, n * 10))
    && (t.rehashidx == -1 ==> t.ht1 == RESET && |t.ht0.chains| == |s.ht1.chains|)
    && (t.rehashidx != -1 ==>
          && |t.ht0.chains| == |s.ht0.chains| && |t.ht1.chains| == |s.ht1.chains|
          && s.rehashidx <= t.rehashidx < |t.ht0.chains|
          && (forall b :: 0 <= b < t.rehashidx ==> t.ht0.chains[b] == [])
          && (forall b :: t.rehashidx <= b < |t.ht0.chains| ==> t.ht0.chains[b] == s.ht0.chains[b])
          && CameTo(s.ht0.chains, s.rehashidx, t.rehashidx, n, n * 10))
  }

  /** A call that has more to do has come past at least as many buckets as it may move. */
  lemma CameFar(s: State, n: nat, t: State)
    requires Rehashed(s, n, t) && t.rehashidx != -1
    ensures t.rehashidx >= s.rehashidx + n
  {}

  /** A call that has come so far could not have reached the end. */
  lemma CameToNotReached(c: Chains, i: nat, j: nat, n: nat, budget: nat)
    requires i <= j <= |c| && CameTo(c, i, j, n, budget)
    ensures !WithinReach(c, i, n, budget)
  {
    var b :| j <= b < |c| && c[b] != [];
    InUseSum(c, i, j, |c|);
    NoneInUse(c, j, |c|);
    InUseSum(c, i, j, b);
    assert Idle(c, i, b) >= Idle(c, i, j);
  }

  /** One more bucket in use. */
  lemma OneMoved(c: Chains, i: nat, k: nat)
    requires i <= k < |c| && c[k] != [] && forall b :: i <= b < k ==> c[b] == []
    ensures InUse(c, i, k + 1) == 1 && Idle(c, i, k + 1) == k - i && InUse(c, i, k) == 0
  {
    NoneInUse(c, i, k);
  }

  /** What is left to do after a bucket was moved. */
  lemma AfterOne(c: Chains, c': Chains, i: nat, k: nat, n: nat, budget: nat)
    requires i <= k < |c| && c[k] != [] && (forall b :: i <= b < k ==> c[b] == [])
    requires n > 0 && budget > k - i && c' == c[k := []]
    ensures WithinReach(c', k + 1, n - 1, budget - (k - i)) ==> WithinReach(c, i, n, budget)
    ensures forall j :: k + 1 <= j <= |c| && CameTo(c', k + 1, j, n - 1, budget - (k - i)) ==> CameTo(c, i, j, n, budget)
  {
    OneMoved(c, i, k);
    InUseSum(c, i, k + 1, |c|);
    InUseSame(c, c', k + 1, |c|);
    forall j | k + 1 <= j <= |c|
      ensures InUse(c, i, j) == 1 + InUse(c', k + 1, j) && Idle(c, i, j) == (k - i) + Idle(c', k + 1, j)
    {
      InUseSum(c, i, k + 1, j);
      InUseSame(c, c', k + 1, j);
    }
    forall j | i <= j < |c| && c[j] != [] && WithinReach(c', k + 1, n - 1, budget - (k - i))
      ensures Idle(c, i, j) < budget
    {
      if j > k { assert c'[j] != []; }
    }
    forall j | k + 1 <= j <= |c| && CameTo(c', k + 1, j, n - 1, budget - (k - i))
      ensures CameTo(c, i, j, n, budget)
    {
      var b :| j <= b < |c'| && c'[b] != [];
      assert c[b] != [];
    }
  }

  /** One round: the next bucket in use is moved, or the budget of empty ones is used up. */
  ghost predicate RoundMade(s: State, budget: nat, t: State, left: nat)
    requires 0 <= s.rehashidx <= |s.ht0.chains|
  {
    var c, i := s.ht0.chains, s.rehashidx;
    && left <= budget && i + (budget - left) < |c| == |t.ht0.chains|
    && (forall b :: i <= b < i + (budget - left) ==> c[b] == [])
    && (if left > 0 then
          var k := i + (budget - left);
          c[k] != [] && t.ht0.chains == c[k := []] && t.rehashidx == k + 1
        else t.ht0.chains == c && t.rehashidx == i + budget && SomeFrom(c, i + budget))
  }

  lemma RoundExact(hash: Hash, s: State, budget: nat)
    requires Loop(hash, s) && s.ht0.used > 0 && budget > 0
    ensures var (t, left) := Round(hash, s, budget); Loop(hash, t) && RoundMade(s, budget, t, left)
  {
    RoundKeeps(hash, s, budget);
    LoopHasMore(hash, s);
    SkipLands(s.ht0.chains, s.rehashidx, budget);
    SkipKeepsLoop(hash, s, budget);
  }

  /** What the loop of `m_dictRehash` makes of state `s` with `n` steps and a budget of empty buckets. */
  ghost predicate Looped(s: State, n: nat, budget: nat, t: State, more: bool)
    requires 0 <= s.rehashidx <= |s.ht0.chains|
  {
    if more then
      && s.rehashidx <= t.rehashidx <= |t.ht0.chains| == |s.ht0.chains|
      && (forall b :: t.rehashidx <= b < |t.ht0.chains| ==> t.ht0.chains[b] == s.ht0.chains[b])
      && CameTo(s.ht0.chains, s.rehashidx, t.rehashidx, n, budget)
    else t.ht1 == RESET && WithinReach(s.ht0.chains, s.rehashidx, n, budget)
  }

  lemma LoopedOn(s: State, t: State, left: nat, n: nat, budget: nat, u: State, more: bool)
    requires 0 <= s.rehashidx <= |s.ht0.chains| && n > 0 && left > 0 && RoundMade(s, budget, t, left)
    requires Looped(t, n - 1, left, u, more)
    ensures Looped(s, n, budget, u, more)
  {
    var k := s.rehashidx + (budget - left);
    AfterOne(s.ht0.chains, t.ht0.chains, s.rehashidx, k, n, budget);
    hide CameTo, WithinReach, InUse;
    assert budget - (k - s.rehashidx) == left;
  }

  lemma GaveUp(s: State, t: State, n: nat, budget: nat)
    requires 0 <= s.rehashidx <= |s.ht0.chains| && n > 0 && budget > 0 && RoundMade(s, budget, t, 0)
    ensures Looped(s, n, budget, t, true)
  {
    NoneInUse(s.ht0.chains, s.rehashidx, s.rehashidx + budget);
  }

  lemma LoopEnds(hash: Hash, s: State, n: nat, budget: nat)
    requires Loop(hash, s) && (n > 0 ==> budget > 0) && (s.ht0.used == 0 || n == 0)
    ensures var (t, more) := RehashLoop(hash, s, n, budget); Looped(s, n, budget, t, more)
  {
    if s.ht0.used == 0 {
      CountZero(s.ht0.chains);
      NoneInUse(s.ht0.chains, s.rehashidx, |s.ht0.chains|);
    } else {
      LoopHasMore(hash, s);
    }
  }

  lemma LoopGoesOn(hash: Hash, s: State, n: nat, budget: nat)
    requires Loop(hash, s) && n > 0 && budget > 0 && s.ht0.used > 0
    ensures Loop(hash, Round(hash, s, budget).0)
    ensures var (t, left) := Round(hash, s, budget);
      RehashLoop(hash, s, n, budget) == if left > 0 then RehashLoop(hash, t, n - 1, left) else (t, true)
  {
    RoundKeeps(hash, s, budget);
  }

  lemma {:induction false} LoopExact(hash: Hash, s: State, n: nat, budget: nat)
    requires Loop(hash, s) && (n > 0 ==> budget > 0)
    ensures var (t, more) := RehashLoop(hash, s, n, budget); Looped(s, n, budget, t, more)
    decreases n
  {
    if s.ht0.used == 0 || n == 0 {
      LoopEnds(hash, s, n, budget);
    } else {
      LoopGoesOn(hash, s, n, budget);
      RoundExact(hash, s, budget);
      hide RehashLoop, Round, RoundMade, Looped, TableOk, Apart;
      var (t, left) := Round(hash, s, budget);
      if left == 0 {
        GaveUp(s, t, n, budget);
      } else {
        LoopExact(hash, t, n - 1, left);
        var (u, more) := RehashLoop(hash, t, n - 1, left);
        LoopedOn(s, t, left, n, budget, u, more);
      }
    }
  }

  /** `m_dictRehash` does exactly this. */
  lemma RehashExact(hash: Hash, s: State, n: nat)
    requires Inv(hash, s) && IsRehashing(s)
    ensures Rehashed(s, n, Rehash(hash, s, n).0)
  {
    RehashKeeps(hash, s, n);
    LoopExact(hash, s, n, n * 10);
    var (t, more) := Rehash(hash, s, n);
    if more { CameToNotReached(s.ht0.chains, s.rehashidx, t.rehashidx, n, n * 10); }
  }

  /** What the step inside lookups and updates does: the same for one step, unless there is no migration or an iterator is
      active. */
  ghost predicate Stepped(s: State, t: State)
  {
    if s.rehashidx != -1 && s.iterators == 0 then Rehashed(s, 1, t) else t == s
  }

  lemma StepExact(hash: Hash, s: State)
    requires Inv(hash, s)
    ensures Stepped(s, Step(hash, s))
  {
    if IsRehashing(s) { RehashExact(hash, s, 1); }
  }

  /** The tables have the same sizes, and the migration is at the same place. */
  ghost predicate SamePlace(s: State, t: State)
  {
    s.rehashidx == t.rehashidx && |s.ht0.chains| == |t.ht0.chains| && |s.ht1.chains| == |t.ht1.chains|
  }

  /** A lookup in a dictionary with entries makes one step, and nothing else. */
  lemma FindSteps(hash: Hash, s: State)
    requires Inv(hash, s)
    ensures if s.ht0.used + s.ht1.used > 0 then Stepped(s, Find(hash, s)) else Find(hash, s) == s
  {
    StepExact(hash, s);
  }

  /** A deletion from a dictionary with entries makes one step. */
  lemma DeleteSteps(hash: Hash, s: State, k: Key)
    requires Inv(hash, s)
    ensures var t := Delete(hash, s, k).0;
      if s.ht0.used + s.ht1.used > 0 then exists mid :: Stepped(s, mid) && SamePlace(mid, t) else t == s
  {
    if Size(s) > 0 {
      StepExact(hash, s);
      StepKeeps(hash, s);
      var mid := Step(hash, s);
      if Contains(hash, mid, k) { RemovedKeeps(hash, mid, k); }
      assert SamePlace(mid, Delete(hash, s, k).0);
    }
  }

  /** An insertion makes one step; only after the last one can it start another migration. */
  lemma AddSteps(hash: Hash, s: State, k: Key, canResize: bool)
    requires Inv(hash, s) && Size(s) < UINT64
    ensures var t := AddRaw(hash, s, k, canResize).0;
      exists mid :: Stepped(s, mid) && (mid.rehashidx != -1 ==> SamePlace(mid, t))
  {
    StepExact(hash, s);
    PrepareKeeps(hash, s, canResize);
    var mid := Step(hash, s);
    var (t, ok) := Prepare(hash, s, canResize);
    if ok && !Contains(hash, t, k) { PushPlaces(hash, if IsRehashing(t) then t.ht1.chains else t.ht0.chains, k); }
  }
}
