/**
  One chained table of the dictionary (`dictht`), as the keys of its chains, and the moves
  between two such tables.
*/
module HashTable {
  import opened Keys
  import opened Words

  type Hash = Key -> Word

  /** The chains of a table, one per bucket, each from its head. */
  type Chains = seq<seq<Key>>

  const LONG_MAX: nat := 0x7FFF_FFFF_FFFF_FFFF
  const INITIAL_SIZE: nat := 4

  /** A table size that `_dictNextPower` can return. */
  ghost predicate IsSize(n: nat)
  {
    n == Pow2(Log2(n)) && 2 <= Log2(n) <= 63
  }

  /** The bucket of a hash: the word that is left by the mask of the table. */
  function Index(h: Word, size: nat): nat
    requires size > 0
  {
    Num(And(h, FromNat(size - 1)))
  }

  lemma IndexIsBucket(h: Word, size: nat)
    requires IsSize(size)
    ensures Index(h, size) == Bucket(h, Log2(size)) < size
  {
    hide Num, And, FromNat, Mask, Pow2, Log2;
    SizeMask(Log2(size));
  }

  /** How many keys the chains hold together. */
  function Count(c: Chains): nat
  {
    if c == [] then 0 else |c[0]| + Count(c[1..])
  }

  lemma {:induction false} CountUpdate(c: Chains, b: nat, chain: seq<Key>)
    requires b < |c|
    ensures Count(c[b := chain]) == Count(c) - |c[b]| + |chain|
  {
    if b == 0 {
      assert c[0 := chain][1..] == c[1..];
    } else {
      assert c[b := chain][1..] == c[1..][b - 1 := chain];
      CountUpdate(c[1..], b - 1, chain);
    }
  }

  lemma {:induction false} CountZero(c: Chains)
    ensures Count(c) == 0 <==> forall b :: 0 <= b < |c| ==> c[b] == []
  {
    if c != [] {
      CountZero(c[1..]);
      assert forall b :: 0 < b < |c| ==> c[b] == c[1..][b - 1];
      if forall b :: 0 <= b < |c| ==> c[b] == [] {
        assert forall b :: 0 <= b < |c[1..]| ==> c[1..][b] == [];
      }
    }
  }

  lemma {:induction false} CountAtLeast(c: Chains, b: nat)
    requires b < |c|
    ensures Count(c) >= |c[b]|
  {
    if b > 0 { CountAtLeast(c[1..], b - 1); }
  }

  function NoChains(size: nat): Chains
  {
    seq(size, i => [])
  }

  ghost predicate NoDuplicates(chain: seq<Key>)
  {
    forall i, j :: 0 <= i < j < |chain| ==> chain[i] != chain[j]
  }

  /** Every key sits in the chain that its hash selects, once. */
  ghost predicate WellPlaced(hash: Hash, c: Chains)
  {
    && (|c| == 0 || IsSize(|c|))
    && (forall b :: 0 <= b < |c| ==> NoDuplicates(c[b]))
    && (forall b, k :: 0 <= b < |c| && k in c[b] ==> Index(hash(k), |c|) == b)
  }

  /** A lookup in one table: walk the chain that the hash selects. */
  predicate Holds(hash: Hash, c: Chains, k: Key)
  {
    |c| > 0 && var b := Index(hash(k), |c|); b < |c| && k in c[b]
  }

  lemma InSomeChain(hash: Hash, c: Chains, b: nat, k: Key)
    requires WellPlaced(hash, c) && b < |c| && k in c[b]
    ensures Holds(hash, c, k)
  {}

  lemma ReplaceChain(hash: Hash, c: Chains, b: nat, chain: seq<Key>)
    requires WellPlaced(hash, c) && b < |c| && NoDuplicates(chain)
    requires forall k :: k in chain ==> Index(hash(k), |c|) == b
    ensures WellPlaced(hash, c[b := chain])
    ensures Count(c[b := chain]) == Count(c) - |c[b]| + |chain|
    ensures forall x :: Holds(hash, c[b := chain], x) <==>
      if Index(hash(x), |c|) == b then x in chain else Holds(hash, c, x)
  {
    CountUpdate(c, b, chain);
  }

  /** Put `k` at the head of its chain. */
  function Push(hash: Hash, c: Chains, k: Key): Chains
    requires |c| > 0 && Index(hash(k), |c|) < |c|
  {
    var b := Index(hash(k), |c|);
    c[b := [k] + c[b]]
  }

  lemma PushPlaces(hash: Hash, c: Chains, k: Key)
    requires WellPlaced(hash, c) && |c| > 0 && !Holds(hash, c, k)
    ensures Index(hash(k), |c|) < |c|
    ensures WellPlaced(hash, Push(hash, c, k))
    ensures forall x :: Holds(hash, Push(hash, c, k), x) <==> x == k || Holds(hash, c, x)
    ensures Count(Push(hash, c, k)) == Count(c) + 1
  {
    IndexIsBucket(hash(k), |c|);
    var b := Index(hash(k), |c|);
    ReplaceChain(hash, c, b, [k] + c[b]);
  }

  /** Take the key at place `i` of chain `b` out of the table. */
  function Unlink(c: Chains, b: nat, i: nat): Chains
    requires b < |c| && i < |c[b]|
  {
    c[b := c[b][..i] + c[b][i + 1..]]
  }

  lemma UnlinkRemoves(hash: Hash, c: Chains, b: nat, i: nat)
    requires WellPlaced(hash, c) && b < |c| && i < |c[b]|
    ensures WellPlaced(hash, Unlink(c, b, i))
    ensures forall x :: Holds(hash, Unlink(c, b, i), x) <==> x != c[b][i] && Holds(hash, c, x)
    ensures Count(Unlink(c, b, i)) == Count(c) - 1
  {
    forall x
      ensures x in c[b][..i] + c[b][i + 1..] <==> x != c[b][i] && x in c[b]
    {
      InRest(c[b], i, x);
    }
    ReplaceChain(hash, c, b, c[b][..i] + c[b][i + 1..]);
  }

  lemma InRest(chain: seq<Key>, i: nat, x: Key)
    requires i < |chain| && NoDuplicates(chain)
    ensures x in chain[..i] + chain[i + 1..] <==> x != chain[i] && x in chain
  {
    if x in chain && x != chain[i] {
      var j :| 0 <= j < |chain| && chain[j] == x;
      if j < i { assert chain[..i][j] == x; } else { assert chain[i + 1..][j - i - 1] == x; }
    }
  }

  /** Move a whole chain, head first, each key to the head of its chain in `c`. */
  function MoveChain(hash: Hash, chain: seq<Key>, c: Chains): Chains
    requires IsSize(|c|)
    decreases |chain|
  {
    if chain == [] then c
    else
      IndexIsBucket(hash(chain[0]), |c|);
      MoveChain(hash, chain[1..], Push(hash, c, chain[0]))
  }

  lemma {:induction false} MoveChainMoves(hash: Hash, chain: seq<Key>, c: Chains)
    requires WellPlaced(hash, c) && |c| > 0 && NoDuplicates(chain)
    requires forall k :: k in chain ==> !Holds(hash, c, k)
    ensures var m := MoveChain(hash, chain, c);
      && |m| == |c|
      && WellPlaced(hash, m)
      && (forall x :: Holds(hash, m, x) <==> x in chain || Holds(hash, c, x))
      && Count(m) == Count(c) + |chain|
    decreases |chain|
  {
    if chain != [] {
      PushPlaces(hash, c, chain[0]);
      assert chain == [chain[0]] + chain[1..];
      assert forall k :: k in chain[1..] ==> k != chain[0];
      MoveChainMoves(hash, chain[1..], Push(hash, c, chain[0]));
    }
  }

  // ---------------------------------------------------------------- sizes

  /** The loop of `_dictNextPower`. */
  function DoubleUntil(i: nat, size: nat): nat
    requires i > 0
    decreases if i < size then size - i else 0
  {
    if i >= size then i else DoubleUntil(i * 2, size)
  }

  function NextPower(size: nat): nat
  {
    if size >= LONG_MAX then LONG_MAX + 1 else DoubleUntil(INITIAL_SIZE, size)
  }

  lemma {:induction false} DoubleUntilPower(k: nat, size: nat)
    requires 2 <= k <= 63 && size <= Pow2(63)
    requires k == 2 || Pow2(k - 1) < size
    ensures var p := DoubleUntil(Pow2(k), size);
      IsSize(p) && p >= size && (p == 4 || p < 2 * size)
    decreases 63 - k
  {
    hide Log2;
    Log2Pow2(k);
    if Pow2(k) < size {
      if k == 63 {
        assert false;
      }
      DoubleUntilPower(k + 1, size);
    }
  }

  lemma Pow63()
    ensures Pow2(63) == LONG_MAX + 1
  {
    assert Pow2(15) == 0x8000 by { assert Pow2(7) == 0x80; assert Pow2(11) == 0x800; }
    assert Pow2(31) == 0x8000_0000 by {
      assert Pow2(19) == 0x8_0000; assert Pow2(23) == 0x80_0000; assert Pow2(27) == 0x800_0000;
    }
    assert Pow2(47) == 0x8000_0000_0000 by {
      assert Pow2(35) == 0x8_0000_0000; assert Pow2(39) == 0x80_0000_0000; assert Pow2(43) == 0x800_0000_0000;
    }
    assert Pow2(51) == 0x8_0000_0000_0000;
    assert Pow2(55) == 0x80_0000_0000_0000;
    assert Pow2(59) == 0x800_0000_0000_0000;
  }

  /** The table size for `size` entries: the smallest power of two, at least 4, that is not below `size`. */
  lemma NextPowerIsSize(size: nat)
    ensures var p := NextPower(size);
      && IsSize(p)
      && (size <= LONG_MAX + 1 ==> p >= size)
      && (p == 4 || p < 2 * size)
  {
    Pow63();
    assert Pow2(2) == INITIAL_SIZE;
    if size >= LONG_MAX {
      Log2Pow2(63);
    } else {
      DoubleUntilPower(2, size);
    }
  }
}
