/**
  The scan cursor: words ordered by their reversal, buckets as intervals of that order, and
  the reversed increment that takes the cursor from one bucket to the next.
*/
module Cursor {
  import opened Words

  /** The number of words, and the end of the scan order. */
  ghost function End(): nat
  {
    Pow2(WIDTH)
  }

  /** The place of `v` in the scan order: the value of `rev(v)`. */
  ghost function Pos(v: Word): nat
  {
    Num(Reversed(v))
  }

  lemma PosBound(v: Word)
    ensures Pos(v) < End()
  {
    NumBound(Reversed(v));
  }

  lemma PosInjective(v: Word, w: Word)
    requires Pos(v) == Pos(w)
    ensures v == w
  {
    NumInjective(Reversed(v), Reversed(w));
    assert forall i :: 0 <= i < WIDTH ==> v[i] == Reversed(v)[WIDTH - 1 - i];
    assert forall i :: 0 <= i < WIDTH ==> w[i] == Reversed(w)[WIDTH - 1 - i];
  }

  lemma PosZero()
    ensures Pos(Zero()) == 0
  {
    NumConstant(Reversed(Zero()), false);
  }

  /** How many words of the scan order fall into one bucket of a table of size `2^k`. */
  ghost function Stride(k: nat): (s: nat)
    requires k <= WIDTH
    ensures s > 0
  {
    Pow2(WIDTH - k)
  }

  /** The place of the bucket of `v` among the buckets of a table of size `2^k`, in scan order. */
  ghost function Rank(v: Word, k: nat): nat
    requires k <= WIDTH
  {
    Num(Reversed(v)[WIDTH - k..])
  }

  /** The first word, in scan order, of the bucket of `v` in a table of size `2^k`. */
  ghost function Floor(v: Word, k: nat): nat
    requires k <= WIDTH
  {
    Stride(k) * Rank(v, k)
  }

  /** One past the last word, in scan order, of the bucket of `v`. */
  ghost function Ceiling(v: Word, k: nat): nat
    requires k <= WIDTH
  {
    Floor(v, k) + Stride(k)
  }

  /** What is left of the place of `v` inside its bucket. */
  ghost function Offset(v: Word, k: nat): nat
    requires k <= WIDTH
  {
    Num(Reversed(v)[..WIDTH - k])
  }

  lemma PosSplit(v: Word, k: nat)
    requires k <= WIDTH
    ensures Pos(v) == Floor(v, k) + Offset(v, k)
    ensures Offset(v, k) < Stride(k)
  {
    NumSplit(Reversed(v), WIDTH - k);
    NumBound(Reversed(v)[..WIDTH - k]);
  }

  lemma {:induction false} Pow2Split(a: nat, b: nat)
    ensures Pow2(a + b) == Pow2(a) * Pow2(b)
  {
    if a > 0 {
      Pow2Split(a - 1, b);
      assert 2 * (Pow2(a - 1) * Pow2(b)) == Pow2(a) * Pow2(b);
    }
  }

  lemma MultiplyMonotone(s: nat, a: nat, b: nat)
    requires a <= b
    ensures s * a <= s * b
  {}

  lemma CeilingBound(v: Word, k: nat)
    requires k <= WIDTH
    ensures Ceiling(v, k) <= End()
  {
    NumBound(Reversed(v)[WIDTH - k..]);
    Pow2Split(WIDTH - k, k);
    MultiplyMonotone(Stride(k), Rank(v, k) + 1, Pow2(k));
    CeilingProduct(v, k);
  }

  lemma CeilingProduct(v: Word, k: nat)
    requires k <= WIDTH
    ensures Ceiling(v, k) == Stride(k) * (Rank(v, k) + 1)
  {
    OneMore(Stride(k), Rank(v, k));
  }

  lemma OneMore(s: nat, r: nat)
    ensures s * r + s == s * (r + 1)
  {}

  lemma SameRank(v: Word, w: Word, k: nat)
    requires k <= WIDTH
    ensures Rank(v, k) == Rank(w, k) <==> v[..k] == w[..k]
  {
    var x, y := Reversed(v)[WIDTH - k..], Reversed(w)[WIDTH - k..];
    if Rank(v, k) == Rank(w, k) {
      NumInjective(x, y);
      assert forall i :: 0 <= i < k ==> v[i] == x[k - 1 - i] && w[i] == y[k - 1 - i];
    }
    if v[..k] == w[..k] {
      assert forall i :: 0 <= i < k ==> x[i] == v[..k][k - 1 - i] && y[i] == w[..k][k - 1 - i];
      assert x == y;
    }
  }

  lemma RankGap(v: Word, w: Word, k: nat)
    requires k <= WIDTH
    ensures Rank(v, k) < Rank(w, k) ==> Ceiling(v, k) <= Floor(w, k)
  {
    if Rank(v, k) < Rank(w, k) {
      CeilingProduct(v, k);
      MultiplyMonotone(Stride(k), Rank(v, k) + 1, Rank(w, k));
    }
  }

  /** A bucket is an interval of the scan order. */
  lemma BucketInterval(h: Word, v: Word, k: nat)
    requires k <= WIDTH
    ensures Bucket(h, k) == Bucket(v, k) <==> Floor(v, k) <= Pos(h) < Ceiling(v, k)
  {
    SameBucket(h, v, k);
    SameRank(h, v, k);
    PosSplit(h, k);
    RankGap(h, v, k);
    RankGap(v, h, k);
  }

  /** The reversed increment: the bits above the mask are set, and one is added at the far end. */
  ghost function Next(v: Word, k: nat): Word
    requires k <= WIDTH
  {
    Reversed(Increment(Reversed(Or(v, Not(Mask(k))))))
  }

  lemma ReversedTwice(v: Word)
    ensures Reversed(Reversed(v)) == v
  {}

  lemma FilledPos(v: Word, k: nat)
    requires k <= WIDTH
    ensures Pos(Or(v, Not(Mask(k)))) == Ceiling(v, k) - 1
  {
    var f := Or(v, Not(Mask(k)));
    PosSplit(f, k);
    NumConstant(Reversed(f)[..WIDTH - k], true);
    assert f[..k] == v[..k];
    SameRank(f, v, k);
  }

  /** The next cursor is the first word of the next bucket, or zero after the last bucket. */
  lemma NextPos(v: Word, k: nat)
    requires k <= WIDTH
    ensures if Ceiling(v, k) == End() then Next(v, k) == Zero() else Pos(Next(v, k)) == Ceiling(v, k)
  {
    var f := Reversed(Or(v, Not(Mask(k))));
    FilledPos(v, k);
    RippleValue(f);
    ReversedTwice(Increment(f));
    if All(f, true) {
      NumConstant(f, true);
      assert Increment(f) == Zero();
      assert Reversed(Zero()) == Zero();
    } else {
      NumBound(Increment(f));
    }
  }

  lemma NestedProduct(s: nat, low: nat, p: nat, high: nat)
    requires low < p
    ensures s * p * high <= s * (low + p * high)
    ensures s * (low + p * high) + s <= s * p * high + s * p
  {
    assert s * (low + p * high) == s * low + s * p * high;
    MultiplyMonotone(s, low + 1, p);
  }

  /** A bucket of a larger table lies inside a bucket of the smaller one. */
  lemma Nested(v: Word, k0: nat, k1: nat)
    requires k0 <= k1 <= WIDTH
    ensures Floor(v, k0) <= Floor(v, k1)
    ensures Ceiling(v, k1) <= Ceiling(v, k0)
  {
    var x := Reversed(v)[WIDTH - k1..];
    var n := k1 - k0;
    NumSplit(x, n);
    NumBound(x[..n]);
    assert x[n..] == Reversed(v)[WIDTH - k0..];
    Pow2Split(WIDTH - k1, n);
    NestedProduct(Stride(k1), Num(x[..n]), Pow2(n), Rank(v, k0));
  }

  /** The test that ends the walk over the larger table: whether the cursor has a bit where the two masks differ. */
  ghost predicate MoreInLarger(v: Word, k0: nat, k1: nat)
    requires k0 <= WIDTH && k1 <= WIDTH
  {
    And(v, Xor(Mask(k0), Mask(k1))) != Zero()
  }

  lemma MoreInLargerBits(v: Word, k0: nat, k1: nat)
    requires k0 <= k1 <= WIDTH
    ensures MoreInLarger(v, k0, k1) <==> !All(v[k0..k1], false)
  {
    var d := And(v, Xor(Mask(k0), Mask(k1)));
    if d == Zero() {
      assert forall i :: k0 <= i < k1 ==> v[i] == d[i];
    }
    if All(v[k0..k1], false) {
      assert forall i :: k0 <= i < k1 ==> v[i] == v[k0..k1][i - k0];
    }
  }

  /** A word is the first one of its bucket exactly when its bits outside the mask are clear. */
  lemma AtFloor(v: Word, k: nat)
    requires k <= WIDTH
    ensures Pos(v) == Floor(v, k) <==> All(v[k..], false)
  {
    PosSplit(v, k);
    var low := Reversed(v)[..WIDTH - k];
    if All(v[k..], false) {
      assert forall i :: 0 <= i < WIDTH - k ==> low[i] == v[k..][WIDTH - k - 1 - i];
      NumConstant(low, false);
    }
    if Offset(v, k) == 0 {
      ZeroBits(low);
      assert forall i :: 0 <= i < WIDTH - k ==> v[k..][i] == low[WIDTH - k - 1 - i];
    }
  }

  lemma {:induction false} ZeroBits(b: seq<bool>)
    requires Num(b) == 0
    ensures All(b, false)
  {
    if b != [] {
      ZeroBits(b[1..]);
      assert b == [b[0]] + b[1..];
    }
  }

  lemma NextAtFloor(v: Word, k: nat)
    requires k <= WIDTH
    ensures Pos(Next(v, k)) == Floor(Next(v, k), k)
  {
    var n := Next(v, k);
    NextPos(v, k);
    CeilingBound(v, k);
    if Ceiling(v, k) == End() {
      AtFloor(n, k);
    } else {
      PosSplit(n, k);
      var s := Stride(k);
      assert s * (Rank(v, k) + 1) == s * Rank(n, k) + Offset(n, k);
      DivModUnique(Pos(n), s, Rank(v, k) + 1, 0);
      DivModUnique(Pos(n), s, Rank(n, k), Offset(n, k));
    }
  }

  /** One step of the walk over the larger table either stays in the bucket of the smaller table or
      leaves it exactly at its end, and `v & (m0 ^ m1)` tells which. */
  lemma NextInLarger(v: Word, k0: nat, k1: nat)
    requires k0 <= k1 <= WIDTH
    ensures var n := Next(v, k1);
      if MoreInLarger(n, k0, k1)
      then Ceiling(v, k1) < Ceiling(v, k0) && Floor(n, k0) == Floor(v, k0)
      else Ceiling(v, k1) == Ceiling(v, k0) && n == Next(v, k0)
  {
    hide Num, Pow2, Next;
    var n := Next(v, k1);
    NextPos(v, k1);
    NextPos(v, k0);
    Nested(v, k0, k1);
    CeilingBound(v, k0);
    NextAtFloor(v, k1);
    AtFloor(n, k1);
    AtFloor(n, k0);
    MoreInLargerBits(n, k0, k1);
    assert n[k0..] == n[k0..k1] + n[k1..];
    if Ceiling(v, k1) == Ceiling(v, k0) {
      if Ceiling(v, k0) != End() {
        PosInjective(n, Next(v, k0));
        NextAtFloor(v, k0);
      }
      assert All(n[k0..], false);
      assert n[k0..k1] == n[k0..][..k1 - k0];
    } else {
      BucketInterval(n, v, k0);
      SameBucket(n, v, k0);
      SameRank(n, v, k0);
    }
  }
}
