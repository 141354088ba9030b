/**
  The C type `unsigned long` (64 bits): bitwise operators, increment, the unsigned value, the low
  masks that power-of-two table sizes give, and the parallel bit reversal `rev`.

  A word is its 64 bits, least significant first, so every operator is exact.
*/
module Words {
  const WIDTH := 64

  type Word = b: seq<bool> | |b| == WIDTH witness seq(WIDTH, i => false)

  function Zero(): Word
  {
    seq(WIDTH, i => false)
  }

  function Ones(): Word
  {
    seq(WIDTH, i => true)
  }

  function And(a: Word, b: Word): Word
  {
    seq(WIDTH, i requires 0 <= i < WIDTH => a[i] && b[i])
  }

  function Or(a: Word, b: Word): Word
  {
    seq(WIDTH, i requires 0 <= i < WIDTH => a[i] || b[i])
  }

  function Xor(a: Word, b: Word): Word
  {
    seq(WIDTH, i requires 0 <= i < WIDTH => a[i] != b[i])
  }

  function Not(a: Word): Word
  {
    seq(WIDTH, i requires 0 <= i < WIDTH => !a[i])
  }

  function ShiftLeft(a: Word, n: nat): Word
  {
    seq(WIDTH, i requires 0 <= i < WIDTH => i >= n && a[i - n])
  }

  function ShiftRight(a: Word, n: nat): Word
  {
    seq(WIDTH, i requires 0 <= i < WIDTH => i + n < WIDTH && a[i + n])
  }

  /** A ripple-carry increment of a bit sequence, wrapping around at its end. */
  function Ripple(b: seq<bool>): (r: seq<bool>)
    ensures |r| == |b|
  {
    if b == [] then [] else if b[0] then [false] + Ripple(b[1..]) else [true] + b[1..]
  }

  /** Adding one, with wrap-around. */
  function Increment(a: Word): Word
  {
    Ripple(a)
  }

  // ---------------------------------------------------------------- unsigned values

  function Pow2(k: nat): (p: nat)
    ensures p > 0
  {
    if k == 0 then 1 else 2 * Pow2(k - 1)
  }

  /** The number whose binary digits are `b`, least significant first. */
  function Num(b: seq<bool>): nat
  {
    if b == [] then 0 else (if b[0] then 1 else 0) + 2 * Num(b[1..])
  }

  lemma {:induction false} NumBound(b: seq<bool>)
    ensures Num(b) < Pow2(|b|)
  {
    if b != [] { NumBound(b[1..]); }
  }

  lemma {:induction false} NumInjective(a: seq<bool>, b: seq<bool>)
    requires |a| == |b| && Num(a) == Num(b)
    ensures a == b
  {
    if a != [] {
      assert a[0] == b[0];
      NumInjective(a[1..], b[1..]);
      assert a == [a[0]] + a[1..] && b == [b[0]] + b[1..];
    }
  }

  lemma {:induction false} NumSplit(b: seq<bool>, j: nat)
    requires j <= |b|
    ensures Num(b) == Num(b[..j]) + Pow2(j) * Num(b[j..])
  {
    if j == 0 {
      assert b[..0] == [] && b[0..] == b;
    } else {
      NumSplit(b[1..], j - 1);
      assert b[1..][..j - 1] == b[..j][1..];
      assert b[1..][j - 1..] == b[j..];
      TwiceTimes(Pow2(j - 1), Num(b[j..]));
    }
  }

  lemma TwiceTimes(a: nat, b: nat)
    ensures 2 * a * b == 2 * (a * b)
  {}

  ghost predicate All(b: seq<bool>, v: bool)
  {
    forall i :: 0 <= i < |b| ==> b[i] == v
  }

  lemma {:induction false} NumConstant(b: seq<bool>, v: bool)
    requires All(b, v)
    ensures Num(b) == if v then Pow2(|b|) - 1 else 0
  {
    if b != [] { NumConstant(b[1..], v); }
  }

  /** Incrementing adds one, unless every bit is set: then it gives zero. */
  lemma {:induction false} RippleValue(b: seq<bool>)
    ensures if All(b, true) then All(Ripple(b), false) else Num(Ripple(b)) == Num(b) + 1
  {
    if b != [] {
      RippleValue(b[1..]);
      assert b == [b[0]] + b[1..];
      assert [false] + Ripple(b[1..]) == [false] + Ripple(b[1..]);
      assert ([false] + Ripple(b[1..]))[1..] == Ripple(b[1..]);
      assert ([true] + b[1..])[1..] == b[1..];
    }
  }

  /** The `n` lowest binary digits of `x`. */
  function Digits(x: nat, n: nat): (b: seq<bool>)
    ensures |b| == n
  {
    if n == 0 then [] else [x % 2 == 1] + Digits(x / 2, n - 1)
  }

  /** The word that holds the number `x`, modulo `2^64`. */
  function FromNat(x: nat): Word
  {
    Digits(x, WIDTH)
  }

  lemma {:induction false} DigitsValue(x: nat, n: nat)
    requires x < Pow2(n)
    ensures Num(Digits(x, n)) == x
  {
    if n > 0 { DigitsValue(x / 2, n - 1); }
  }

  /** `2^k` for a table size, and how often it can be halved. */
  function Log2(n: nat): nat
  {
    if n <= 1 then 0 else 1 + Log2(n / 2)
  }

  lemma {:induction false} Log2Pow2(k: nat)
    ensures Log2(Pow2(k)) == k
  {
    if k > 0 { Log2Pow2(k - 1); }
  }

  lemma {:induction false} Pow2Monotone(a: nat, b: nat)
    requires a <= b
    ensures Pow2(a) <= Pow2(b)
    decreases b
  {
    if a < b { Pow2Monotone(a, b - 1); }
  }

  // ---------------------------------------------------------------- low masks

  /** The `sizemask` of a table of size `2^k`: the word `2^k - 1`. */
  function Mask(k: nat): Word
  {
    seq(WIDTH, i requires 0 <= i < WIDTH => i < k)
  }

  lemma MaskValue(k: nat)
    requires k <= WIDTH
    ensures Num(Mask(k)) == Pow2(k) - 1
  {
    NumSplit(Mask(k), k);
    NumConstant(Mask(k)[..k], true);
    NumConstant(Mask(k)[k..], false);
  }

  /** `size - 1` has exactly the bits below the single bit of `size`. */
  lemma SizeMask(k: nat)
    requires k <= WIDTH
    ensures FromNat(Pow2(k) - 1) == Mask(k)
  {
    hide Num, Mask, Digits;
    Pow2Monotone(k, WIDTH);
    var last: nat := Pow2(k) - 1;
    hide Pow2;
    DigitsValue(last, WIDTH);
    MaskValue(k);
    NumInjective(FromNat(Pow2(k) - 1), Mask(k));
  }

  /** The bucket that `v` selects in a table of size `2^k`: `v & sizemask`. */
  function Bucket(v: Word, k: nat): (n: nat)
    requires k <= WIDTH
    ensures n == Num(v[..k]) < Pow2(k)
  {
    NumSplit(And(v, Mask(k)), k);
    NumConstant(And(v, Mask(k))[k..], false);
    NumBound(v[..k]);
    assert And(v, Mask(k))[..k] == v[..k];
    Num(And(v, Mask(k)))
  }

  lemma SameBucket(v: Word, w: Word, k: nat)
    requires k <= WIDTH
    ensures Bucket(v, k) == Bucket(w, k) <==> v[..k] == w[..k]
  {
    if Bucket(v, k) == Bucket(w, k) { NumInjective(v[..k], w[..k]); }
  }

  // ---------------------------------------------------------------- bit reversal

  /** The word read backwards. */
  ghost function Reversed(v: Word): Word
  {
    seq(WIDTH, i requires 0 <= i < WIDTH => v[WIDTH - 1 - i])
  }

  /** One stage of the reversal: the blocks of `s` bits that the mask selects change places with the others. */
  function Exchange(v: Word, s: nat, mask: Word): Word
  {
    Or(And(ShiftRight(v, s), mask), And(ShiftLeft(v, s), Not(mask)))
  }

  predicate IsBlock(s: nat)
  {
    s == 1 || s == 2 || s == 4 || s == 8 || s == 16 || s == 32
  }

  /** `mask` selects every other block of `s` bits, starting with the lowest. */
  ghost predicate SelectsEvenBlocks(mask: Word, s: nat)
    requires s > 0
  {
    forall i :: 0 <= i < WIDTH ==> (mask[i] <==> i / s % 2 == 0)
  }

  /** The place of bit `i` when the blocks of `s` bits are put in opposite order. */
  function Mirror(i: nat, s: nat): int
    requires s > 0
  {
    WIDTH - s - s * (i / s) + i % s
  }

  /** `r` is `v` with its blocks of `s` bits in opposite order, each block kept as it is. */
  ghost predicate BlocksReversed(v: Word, r: Word, s: nat)
    requires s > 0
  {
    forall i :: 0 <= i < WIDTH ==> 0 <= Mirror(i, s) < WIDTH && r[i] == v[Mirror(i, s)]
  }

  lemma Scale(m: nat, d: int)
    ensures d >= 1 ==> m * d >= m
    ensures d <= -1 ==> m * d + m <= 0
  {}

  lemma DivModUnique(x: int, m: nat, q: int, r: int)
    requires 0 <= r < m && x == m * q + r
    ensures x / m == q && x % m == r
  {
    assert m * (q - x / m) == x % m - r;
    Scale(m, q - x / m);
  }

  lemma PreviousBlock(i: nat, s: nat)
    requires 0 < s <= i
    ensures (i - s) / s == i / s - 1 && (i - s) % s == i % s
  {
    DivModUnique(i - s, s, i / s - 1, i % s);
  }

  lemma DoubleBlock(i: nat, s: nat)
    requires s > 0
    ensures i / (2 * s) == i / s / 2 && i % (2 * s) == s * (i / s % 2) + i % s
  {
    var q, t := i / s, i % s;
    assert s * q == 2 * s * (q / 2) + s * (q % 2) by {
      assert q == 2 * (q / 2) + q % 2;
    }
    DivModUnique(i, 2 * s, q / 2, s * (q % 2) + t);
  }

  lemma Parity(q: nat)
    requires q > 0
    ensures q % 2 == 0 ==> (q / 2 % 2 == 0 <==> (q - 1) / 2 % 2 != 0)
    ensures q % 2 != 0 ==> (q / 2 % 2 == 0 <==> (q - 1) / 2 % 2 == 0)
  {}

  lemma DoubleQuotient(i: nat, s: nat)
    requires s > 0
    ensures i / (2 * s) == i / s / 2
  {
    DoubleBlock(i, s);
  }

  /** Combining a mask by exclusive or with itself, shifted by a block, halves the blocks that it selects. */
  lemma HalvePattern(i: nat, s: nat)
    requires s > 0
    ensures i / s % 2 == 0 <==> (i / (2 * s) % 2 == 0) != (i >= s && (i - s) / (2 * s) % 2 == 0)
  {
    var q := i / s;
    DoubleQuotient(i, s);
    if i >= s {
      DoubleQuotient(i - s, s);
      PreviousBlock(i, s);
      assert q > 0;
      Parity(q);
      if q % 2 == 0 {} else {}
    } else {
      DivModUnique(i, s, 0, i);
    }
  }

  /** What `mask` is before the stage of block size `s`. */
  ghost predicate IsMaskBefore(mask: Word, s: nat)
    requires s > 0
  {
    if s == 32 then All(mask, true) else SelectsEvenBlocks(mask, 2 * s)
  }

  lemma NextMask(mask: Word, s: nat)
    requires IsBlock(s) && IsMaskBefore(mask, s)
    ensures SelectsEvenBlocks(Xor(mask, ShiftLeft(mask, s)), s)
  {
    BeforeSelects(mask, s);
    hide IsMaskBefore, Xor, ShiftLeft;
    forall i | 0 <= i < WIDTH
      ensures Xor(mask, ShiftLeft(mask, s))[i] <==> i / s % 2 == 0
    {
      NextMaskAt(mask, s, i);
    }
  }

  lemma BeforeSelects(mask: Word, s: nat)
    requires IsBlock(s) && IsMaskBefore(mask, s)
    ensures SelectsEvenBlocks(mask, 2 * s)
  {}

  lemma NextMaskAt(mask: Word, s: nat, i: nat)
    requires s > 0 && SelectsEvenBlocks(mask, 2 * s) && i < WIDTH
    ensures Xor(mask, ShiftLeft(mask, s))[i] <==> i / s % 2 == 0
  {
    HalvePattern(i, s);
    assert mask[i] <==> i / (2 * s) % 2 == 0;
    assert i >= s ==> (mask[i - s] <==> (i - s) / (2 * s) % 2 == 0);
    hide SelectsEvenBlocks;
    assert ShiftLeft(mask, s)[i] <==> i >= s && mask[i - s];
  }

  lemma MirrorDouble(i: nat, s: nat)
    requires s > 0
    ensures Mirror(i, 2 * s) == WIDTH - 2 * s - s * (i / s) + 2 * (s * (i / s % 2)) + i % s
  {
    DoubleBlock(i, s);
    assert s * (i / s) == 2 * s * (i / s / 2) + s * (i / s % 2) by {
      assert i / s == 2 * (i / s / 2) + i / s % 2;
    }
  }

  /** The last block of a word is an odd one. */
  lemma InWord(i: nat, s: nat)
    requires IsBlock(s) && i < WIDTH && i / s % 2 == 0
    ensures i + s < WIDTH
  {}

  lemma MirrorPairs(i: nat, s: nat)
    requires s > 0 && i / s % 2 == 0
    ensures Mirror(i + s, 2 * s) == Mirror(i, s)
    ensures Mirror(i, 2 * s) == Mirror(i + s, s)
  {
    PreviousBlock(i + s, s);
    MirrorDouble(i, s);
    MirrorDouble(i + s, s);
    var q := i / s;
    assert (q + 1) % 2 == 1;
    assert s * (q + 1) == s * q + s;
  }

  /** Where a stage finds the bit that it puts at `i`. */
  lemma ExchangeIndex(i: nat, s: nat)
    requires IsBlock(s) && i < WIDTH
    ensures i / s % 2 == 0 ==> i + s < WIDTH && Mirror(i + s, 2 * s) == Mirror(i, s)
    ensures i / s % 2 != 0 ==> i >= s && Mirror(i - s, 2 * s) == Mirror(i, s)
  {
    if i / s % 2 == 0 {
      InWord(i, s);
      MirrorPairs(i, s);
    } else {
      PreviousBlock(i, s);
      MirrorPairs(i - s, s);
    }
  }

  lemma ExchangeBit(v: Word, s: nat, mask: Word, i: nat)
    requires IsBlock(s) && SelectsEvenBlocks(mask, s) && i < WIDTH
    requires if i / s % 2 == 0 then i + s < WIDTH else i >= s
    ensures Exchange(v, s, mask)[i] == if i / s % 2 == 0 then v[i + s] else v[i - s]
  {}

  lemma ExchangeReverses(v0: Word, v: Word, s: nat, mask: Word)
    requires IsBlock(s) && SelectsEvenBlocks(mask, s) && BlocksReversed(v0, v, 2 * s)
    ensures BlocksReversed(v0, Exchange(v, s, mask), s)
  {
    assert s > 0;
    hide IsBlock, SelectsEvenBlocks, Exchange;
    forall i | 0 <= i < WIDTH
      ensures 0 <= Mirror(i, s) < WIDTH && Exchange(v, s, mask)[i] == v0[Mirror(i, s)]
    {
      ExchangeIndex(i, s);
      ExchangeBit(v, s, mask, i);
    }
  }

  lemma OneBlock(v: Word)
    ensures BlocksReversed(v, v, WIDTH)
  {}

  lemma FirstMask()
    ensures IsMaskBefore(Ones(), WIDTH / 2)
  {}

  lemma AllBlocks(v: Word, r: Word)
    requires BlocksReversed(v, r, 1)
    ensures r == Reversed(v)
  {
    assert forall i :: 0 <= i < WIDTH ==> Mirror(i, 1) == WIDTH - 1 - i;
  }

  /** `rev` */
  method Reverse(v0: Word) returns (v: Word)
    ensures v == Reversed(v0)
  {
    var s: nat := WIDTH;
    var mask := Ones();
    v := v0;
    s := s / 2;
    OneBlock(v);
    FirstMask();
    hide IsMaskBefore, BlocksReversed, SelectsEvenBlocks, Exchange, Xor, ShiftLeft, Ones;
    while s > 0
      invariant s == 0 || IsBlock(s)
      invariant s > 0 ==> IsMaskBefore(mask, s)
      invariant if s == 0 then BlocksReversed(v0, v, 1) else BlocksReversed(v0, v, 2 * s)
      decreases s
    {
      NextMask(mask, s);
      mask := Xor(mask, ShiftLeft(mask, s));
      ExchangeReverses(v0, v, s, mask);
      v := Exchange(v, s, mask);
      s := s / 2;
    }
    AllBlocks(v0, v);
  }
}
