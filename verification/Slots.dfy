/**
  From keys to slots: the hash tag of a key, its CRC, and the slot.
*/
module Slots {
  import opened Wrappers
  import opened Keys
  import opened Words
  import opened Decimal
  import Crc32

  const OPEN: byte := 123
  const CLOSE: byte := 125
  const MAX_HASH_SLOTS_SIZE: nat := 65536

  /** The first place of `c` at or after `from`, or the length. */
  function IndexOf(s: seq<byte>, c: byte, from: nat): (i: nat)
    requires from <= |s|
    ensures from <= i <= |s| && (i < |s| ==> s[i] == c)
    ensures forall k :: from <= k < i ==> s[k] != c
    decreases |s| - from
  {
    if from == |s| || s[from] == c then from else IndexOf(s, c, from + 1)
  }

  /** The C string at the start of a key: it ends at the first zero byte. */
  function CString(key: Key): Key
  {
    key[..IndexOf(key, NUL, 0)]
  }

  /** What stands between the first opening brace of the string and the next closing one. */
  function TagIn(s: Key): Option<Key>
  {
    var i := IndexOf(s, OPEN, 0);
    if i == |s| then None
    else
      var j := IndexOf(s, CLOSE, i + 1);
      if j == |s| then None else Some(s[i + 1..j])
  }

  function Tag(key: Key): Option<Key>
  {
    TagIn(CString(key))
  }

  predicate HasTag(key: Key)
  {
    Tag(key).Some?
  }

  /** The CRC of the tag, or of the whole string where there is no tag. */
  function CrcOf(key: Key): nat
  {
    Crc32.Crc(if HasTag(key) then Tag(key).value else CString(key)) as nat
  }

  /** `&` on unsigned integers */
  function BitAnd(a: nat, b: nat): nat
  {
    if a == 0 || b == 0 then 0 else (a % 2) * (b % 2) + 2 * BitAnd(a / 2, b / 2)
  }

  function SlotOf(key: Key, size: nat): nat
    requires size > 0
  {
    BitAnd(CrcOf(key), size - 1)
  }

  /** The text that decides the slot, told by the bytes of the key up to the first zero byte: what stands between the first
      byte 123 and the next byte 125, or all of it when no byte 125 comes after a byte 123. */
  ghost predicate IsText(key: Key, text: Key, tagged: bool)
  {
    exists n: nat :: n <= |key| && IsTextBefore(key, n, text, tagged)
  }

  ghost predicate IsTextBefore(key: Key, n: nat, text: Key, tagged: bool)
    requires n <= |key|
  {
    && (forall k :: 0 <= k < n ==> key[k] != 0) && (n < |key| ==> key[n] == 0)
    && (if tagged then exists i, j :: IsTagAt(key, n, i, j) && text == key[i + 1..j]
        else text == key[..n] && forall i, j :: 0 <= i < j < n && key[i] == 123 ==> key[j] != 125)
  }

  ghost predicate IsTagAt(key: Key, n: nat, i: int, j: int)
    requires n <= |key|
  {
    && 0 <= i < j < n && key[i] == 123 && key[j] == 125
    && (forall k :: 0 <= k < i ==> key[k] != 123) && (forall k :: i < k < j ==> key[k] != 125)
  }

  /** There is one such text. */
  lemma TextUnique(key: Key, text: Key, tagged: bool, text': Key, tagged': bool)
    requires IsText(key, text, tagged) && IsText(key, text', tagged')
    ensures text == text' && tagged == tagged'
  {
    var n: nat :| n <= |key| && IsTextBefore(key, n, text, tagged);
    var m: nat :| m <= |key| && IsTextBefore(key, m, text', tagged');
    assert n == m;
    if tagged {
      var i, j :| IsTagAt(key, n, i, j) && text == key[i + 1..j];
      if tagged' {
        var i', j' :| IsTagAt(key, n, i', j') && text' == key[i' + 1..j'];
        assert i == i' && j == j';
      }
    }
  }

  /** The text whose CRC a key has. */
  function TextOf(key: Key): Key
  {
    if HasTag(key) then Tag(key).value else CString(key)
  }

  lemma TextIs(key: Key)
    ensures IsText(key, TextOf(key), HasTag(key)) && CrcOf(key) == Crc32.Crc(TextOf(key)) as nat
  {
    var n := IndexOf(key, NUL, 0);
    var s := CString(key);
    var i := IndexOf(s, OPEN, 0);
    assert forall k :: 0 <= k < n ==> s[k] == key[k];
    if i < |s| {
      var j := IndexOf(s, CLOSE, i + 1);
      if j < |s| {
        assert IsTagAt(key, n, i, j);
        assert s[i + 1..j] == key[i + 1..j];
      }
    }
    assert IsTextBefore(key, n, TextOf(key), HasTag(key));
  }

  /** A key without zero bytes and without a closed brace has the CRC of the whole key. */
  lemma UntaggedCrc(key: Key)
    requires 0 !in key && forall i, j :: 0 <= i < j < |key| && key[i] == 123 ==> key[j] != 125
    ensures !HasTag(key) && CrcOf(key) == Crc32.Crc(key) as nat
  {
    TextIs(key);
    assert key[..|key|] == key;
    assert IsTextBefore(key, |key|, key, false);
    TextUnique(key, TextOf(key), HasTag(key), key, false);
  }

  /** A key with zero-free text `t` between its first brace and the next closing one has the CRC of `t`. */
  lemma TaggedCrc(a: Key, t: Key, b: Key)
    requires 123 !in a && 125 !in t && 0 !in a && 0 !in t
    ensures var key := a + [123] + t + [125] + b; HasTag(key) && CrcOf(key) == Crc32.Crc(t) as nat
  {
    var key := a + [123] + t + [125] + b;
    TagBetween(a, t, b);
    TextIs(key);
    hide Tag, CrcOf;
  }

  /** The tag of `a{t}b` is `t`, when the braces are the first ones. */
  lemma TagBetween(a: Key, t: Key, b: Key)
    requires 123 !in a && 125 !in t && 0 !in a && 0 !in t
    ensures Tag(a + [123] + t + [125] + b) == Some(t)
  {
    var key := a + [123] + t + [125] + b;
    TextIs(key);
    TagPlace(a, t, b);
    hide CrcOf, IsTagAt, Tag;
    assert IsTextBefore(key, IndexOf(key, NUL, 0), t, true);
    TextUnique(key, TextOf(key), HasTag(key), t, true);
  }

  lemma TagPlace(a: Key, t: Key, b: Key)
    requires 123 !in a && 125 !in t && 0 !in a && 0 !in t
    ensures var key := a + [123] + t + [125] + b; var j := |a| + 1 + |t|;
      IsTagAt(key, IndexOf(key, NUL, 0), |a|, j) && key[|a| + 1..j] == t
  {
    var key := a + [123] + t + [125] + b;
    var j := |a| + 1 + |t|;
    assert forall k :: 0 <= k < |a| ==> key[k] == a[k];
    assert forall k :: |a| < k < j ==> key[k] == t[k - |a| - 1];
    assert key[|a|] == 123 && key[j] == 125;
  }

  /** A bit of the slot is set exactly when it is set in the CRC and in the number of slots minus one. */
  lemma {:induction false} BitAndBits(a: nat, b: nat, k: nat)
    ensures BitAnd(a, b) / Pow2(k) % 2 == 1 <==> a / Pow2(k) % 2 == 1 && b / Pow2(k) % 2 == 1
  {
    BitAndHalf(a, b);
    if k > 0 {
      BitAndBits(a / 2, b / 2, k - 1);
      HalfThenShift(a, k);
      HalfThenShift(b, k);
      HalfThenShift(BitAnd(a, b), k);
    }
  }

  lemma BitAndHalf(a: nat, b: nat)
    ensures BitAnd(a, b) / 2 == BitAnd(a / 2, b / 2) && BitAnd(a, b) % 2 == (a % 2) * (b % 2)
    ensures (a % 2) * (b % 2) == 1 <==> a % 2 == 1 && b % 2 == 1
  {
    if a % 2 == 0 || b % 2 == 0 { assert (a % 2) * (b % 2) == 0; } else { assert a % 2 == 1 && b % 2 == 1; }
  }

  lemma HalfThenShift(x: nat, k: nat)
    requires k > 0
    ensures x / Pow2(k) == x / 2 / Pow2(k - 1)
  {
    var p := Pow2(k - 1);
    var q, r := x / 2 / p, x / 2 % p;
    assert x == 2 * (q * p + r) + x % 2;
    assert x == 2 * p * q + (2 * r + x % 2);
    DivModUnique(x, 2 * p, q, 2 * r + x % 2);
  }

  // ---------------------------------------------------------------- the code

  /** `strlen` */
  method Strlen(key: Key) returns (n: nat)
    ensures n == |CString(key)|
  {
    n := 0;
    while n < |key| && key[n] != NUL
      invariant n <= IndexOf(key, NUL, 0)
    {
      n := n + 1;
    }
  }

  /** `slots_tag` */
  method SlotsTag(key: Key) returns (tag: Option<Key>)
    ensures tag == Tag(key)
  {
    var n := Strlen(key);
    ghost var s := CString(key);
    assert forall k :: 0 <= k < n ==> key[k] == s[k];
    var i := 0;
    while i < n && key[i] != OPEN
      invariant i <= IndexOf(s, OPEN, 0)
    {
      i := i + 1;
    }
    if i == n {
      return None;
    }
    i := i + 1;
    var j := i;
    while j < n && key[j] != CLOSE
      invariant i <= j <= IndexOf(s, CLOSE, i)
    {
      j := j + 1;
    }
    if j == n {
      return None;
    }
    assert key[i..j] == s[i..j];
    return Some(key[i..j]);
  }

  /** `slots_num` */
  method SlotsNum(tab: array<bv32>, key: Key, size: nat) returns (slot: nat, crc: nat, hastag: bool)
    requires tab.Length == 256 && Crc32.IsTable(tab[..]) && size > 0
    ensures slot == SlotOf(key, size) && crc == CrcOf(key) && hastag == HasTag(key)
    ensures slot == BitAnd(crc, size - 1) && exists text :: IsText(key, text, hastag) && crc == Crc32.Crc(text) as nat
  {
    TextIs(key);
    var tag := SlotsTag(key);
    var text: Key;
    match tag {
      case None =>
        var taglen := Strlen(key);
        text, hastag := key[..taglen], false;
      case Some(t) =>
        text, hastag := t, true;
    }
    var sum := Crc32.Checksum(tab, text);
    crc := sum as nat;
    slot := BitAnd(crc, size - 1);
  }

  // ---------------------------------------------------------------- tags

  /** A key with a tag has it between the first opening brace and the next closing one. */
  lemma TagSplits(key: Key)
    requires HasTag(key)
    ensures exists a, b :: CString(key) == a + [OPEN] + Tag(key).value + [CLOSE] + b && OPEN !in a
    ensures CLOSE !in Tag(key).value
  {
    var s := CString(key);
    var i := IndexOf(s, OPEN, 0);
    var j := IndexOf(s, CLOSE, i + 1);
    assert s == s[..i] + [OPEN] + s[i + 1..j] + [CLOSE] + s[j + 1..];
  }

  /** Keys with the same tag share CRC and slot, whatever surrounds the tag. */
  lemma SameTagSameSlot(k: Key, k': Key, size: nat)
    requires HasTag(k) && Tag(k) == Tag(k') && size > 0
    ensures CrcOf(k) == CrcOf(k') && SlotOf(k, size) == SlotOf(k', size)
  {}

  // ---------------------------------------------------------------- slots

  lemma {:induction false} BitAndBound(a: nat, b: nat)
    ensures BitAnd(a, b) <= b
  {
    if a != 0 && b != 0 {
      BitAndBound(a / 2, b / 2);
      assert (a % 2) * (b % 2) <= b % 2;
    }
  }

  /** Every slot is below the number of slots. */
  lemma SlotBelowSize(key: Key, size: nat)
    requires size > 0
    ensures SlotOf(key, size) < size
  {
    BitAndBound(CrcOf(key), size - 1);
  }

  lemma {:induction false} BitAndMask(a: nat, k: nat)
    ensures BitAnd(a, Pow2(k) - 1) == a % Pow2(k)
    decreases k
  {
    hide BitAnd;
    if k == 0 {
      BitAndNone(a);
    } else {
      var p := Pow2(k - 1);
      BitAndMask(a / 2, k - 1);
      BitAndOdd(a, p);
      HalveRemainder(a, p);
      assert Pow2(k) == 2 * p;
    }
  }

  lemma BitAndNone(a: nat)
    ensures BitAnd(a, 0) == 0 && a % 1 == 0
  {}

  lemma BitAndOdd(a: nat, p: nat)
    requires p > 0
    ensures BitAnd(a, 2 * p - 1) == a % 2 + 2 * BitAnd(a / 2, p - 1)
  {
    assert (2 * p - 1) / 2 == p - 1 && (2 * p - 1) % 2 == 1;
  }

  lemma HalveRemainder(a: nat, p: nat)
    requires p > 0
    ensures a % (2 * p) == a % 2 + 2 * (a / 2 % p)
  {
    var q, r := a / 2 / p, a / 2 % p;
    assert a == 2 * (q * p + r) + a % 2;
    assert a == q * (2 * p) + (2 * r + a % 2);
    DivModUnique(a, 2 * p, q, 2 * r + a % 2);
  }

  predicate IsPow2(n: nat)
  {
    n > 0 && (n == 1 || (n % 2 == 0 && IsPow2(n / 2)))
  }

  lemma {:induction false} Pow2Exists(n: nat) returns (k: nat)
    requires IsPow2(n)
    ensures n == Pow2(k)
  {
    if n == 1 {
      k := 0;
    } else {
      k := Pow2Exists(n / 2);
      k := k + 1;
    }
  }

  lemma {:induction false} BitAndZero(a: nat)
    ensures BitAnd(a, a) == a
  {
    if a > 0 { BitAndZero(a / 2); }
  }

  lemma {:induction false} BitAndPredecessor(n: nat)
    requires n > 0 && BitAnd(n, n - 1) == 0
    ensures IsPow2(n)
  {
    if n % 2 == 1 {
      if n > 1 {
        assert (n - 1) / 2 == n / 2 && (n - 1) % 2 == 0;
        BitAndZero(n / 2);
      }
    } else {
      assert (n - 1) / 2 == n / 2 - 1 && (n - 1) % 2 == 1;
      BitAndPredecessor(n / 2);
    }
  }

  /** The slot is the remainder of the CRC for every CRC exactly when the number of slots is a power of two. */
  lemma SlotIsRemainder(size: nat)
    requires 0 < size <= MAX_HASH_SLOTS_SIZE
    ensures (forall crc: nat :: crc < 0x1_0000_0000 ==> BitAnd(crc, size - 1) == crc % size) <==> IsPow2(size)
  {
    if IsPow2(size) {
      var k := Pow2Exists(size);
      forall crc: nat | crc < 0x1_0000_0000
        ensures BitAnd(crc, size - 1) == crc % size
      {
        BitAndMask(crc, k);
      }
    } else {
      assert size % size == 0;
      if BitAnd(size, size - 1) == 0 { BitAndPredecessor(size); }
    }
  }
}
