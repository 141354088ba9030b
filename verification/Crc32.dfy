/**
  The table-driven CRC-32 that decides slots, and the bit-serial reflected CRC of section 8 of
  RFC 1952 that it computes.
*/
module Crc32 {
  import opened Keys

  /** The reflected polynomial of section 8 of RFC 1952. */
  const IEEE_POLY: bv32 := 0xedb8_8320

  function Xor(a: bv32, b: bv32): bv32
  {
    a ^ b
  }

  function And(a: bv32, b: bv32): bv32
  {
    a & b
  }

  function Not(a: bv32): bv32
  {
    !a
  }

  function Half(a: bv32): bv32
  {
    a >> 1
  }

  predicate Odd(a: bv32)
  {
    a & 1 == 1
  }

  /** `d` without its low `n` bits. */
  function Drop(d: bv32, n: nat): bv32
  {
    if n == 0 then d else Half(Drop(d, n - 1))
  }

  // ---------------------------------------------------------------- the definition, one bit at a time

  /** Take in one message bit, the low bit of `bit`. */
  function TakeBit(c: bv32, bit: bv32): bv32
  {
    if Odd(Xor(c, bit)) then Xor(Half(c), IEEE_POLY) else Half(c)
  }

  /** Take in the low `n` bits of `m`, the least significant one first. */
  function TakeBits(c: bv32, m: bv32, n: nat): bv32
  {
    if n == 0 then c else TakeBit(TakeBits(c, m, n - 1), Drop(m, n - 1))
  }

  function Message(b: byte): bv32
  {
    b as bv32
  }

  function TakeBytes(c: bv32, s: seq<byte>): bv32
  {
    if s == [] then c else TakeBits(TakeBytes(c, s[..|s| - 1]), Message(s[|s| - 1]), 8)
  }

  /** The CRC of a message: the register starts with all bits set, and its complement is the result. */
  function Crc(s: seq<byte>): bv32
  {
    Not(TakeBytes(Not(0), s))
  }

  // ---------------------------------------------------------------- the table

  /** One round of the inner loop of `crc32_tabinit`. */
  function Shift(c: bv32): bv32
  {
    if Odd(c) then Xor(Half(c), IEEE_POLY) else Half(c)
  }

  function Shifts(c: bv32, n: nat): bv32
  {
    if n == 0 then c else Shift(Shifts(c, n - 1))
  }

  /** Entry `i` of the table. */
  function Entry(i: nat): bv32
    requires i < 256
  {
    Shifts(i as bv32, 8)
  }

  ghost predicate IsTable(tab: seq<bv32>)
  {
    |tab| == 256 && forall i :: 0 <= i < 256 ==> tab[i] == Entry(i)
  }

  // Facts about single words.

  lemma HalfXor(a: bv32, b: bv32)
    ensures Half(Xor(a, b)) == Xor(Half(a), Half(b))
  {}

  lemma HalfAnd(a: bv32, b: bv32)
    ensures Half(And(a, b)) == And(Half(a), Half(b))
  {}

  lemma XorCommutes(a: bv32, b: bv32)
    ensures Xor(a, b) == Xor(b, a)
  {}

  lemma XorAssociates(a: bv32, b: bv32, c: bv32)
    ensures Xor(Xor(a, b), c) == Xor(a, Xor(b, c))
  {}

  lemma XorSwap(a: bv32, b: bv32, p: bv32)
    ensures Xor(Xor(a, b), p) == Xor(Xor(a, p), b)
  {
    hide Xor;
    XorAssociates(a, b, p);
    XorCommutes(b, p);
    XorAssociates(a, p, b);
  }

  lemma XorZero(a: bv32)
    ensures Xor(a, 0) == a && And(a, 0) == 0
  {}

  lemma OddXor(a: bv32, b: bv32)
    ensures !Odd(b) ==> Odd(Xor(a, b)) == Odd(a)
  {}

  lemma OddAnd(a: bv32, b: bv32)
    ensures !Odd(b) ==> !Odd(And(a, b))
  {}

  /** A word is its low byte and the bits above it. */
  lemma SplitWord(x: bv32)
    ensures x == Xor(And(x, 0xff), And(x, 0xffff_ff00))
  {}

  lemma MessageByte(b: byte)
    ensures And(Message(b), 0xff) == Message(b)
  {}

  lemma NotNot(x: bv32)
    ensures Not(Not(x)) == x
  {}

  /** A shift of a register with `d` folded in takes in the low bit of `d` and shifts the others. */
  lemma ShiftFolded(c: bv32, d: bv32)
    ensures Shift(Xor(c, d)) == Xor(TakeBit(c, d), Half(d))
  {
    hide Xor, Half, Odd;
    HalfXor(c, d);
    XorSwap(Half(c), Half(d), IEEE_POLY);
  }

  /** So do `n` shifts for the low `n` bits of `d`. */
  lemma {:induction false} ShiftsFolded(c: bv32, d: bv32, n: nat)
    ensures Shifts(Xor(c, d), n) == Xor(TakeBits(c, d, n), Drop(d, n))
  {
    hide Xor, Half, Shift, TakeBit;
    if n > 0 {
      ShiftsFolded(c, d, n - 1);
      ShiftFolded(TakeBits(c, d, n - 1), Drop(d, n - 1));
    }
  }

  /** Taking in zero bits is shifting. */
  lemma {:induction false} TakeZeros(c: bv32, d: bv32, n: nat)
    requires forall i :: 0 <= i < n ==> !Odd(Drop(d, i))
    ensures TakeBits(c, d, n) == Shifts(c, n)
  {
    hide Xor, Half, Odd, Drop;
    if n > 0 {
      TakeZeros(c, d, n - 1);
      OddXor(TakeBits(c, d, n - 1), Drop(d, n - 1));
    }
  }

  lemma {:induction false} DropXor(a: bv32, b: bv32, n: nat)
    ensures Drop(Xor(a, b), n) == Xor(Drop(a, n), Drop(b, n))
  {
    hide Xor, Half;
    if n > 0 {
      DropXor(a, b, n - 1);
      HalfXor(Drop(a, n - 1), Drop(b, n - 1));
    }
  }

  lemma {:induction false} DropAnd(a: bv32, b: bv32, n: nat)
    ensures Drop(And(a, b), n) == And(Drop(a, n), Drop(b, n))
  {
    hide And, Half;
    if n > 0 {
      DropAnd(a, b, n - 1);
      HalfAnd(Drop(a, n - 1), Drop(b, n - 1));
    }
  }

  /** The two masks, bit by bit. */
  lemma Masks(n: nat)
    requires n < 8
    ensures !Odd(Drop(0xffff_ff00, n)) && Drop(0xff, 8) == 0
  {
    assert Drop(0xffff_ff00, 2) == 0x3fff_ffc0 && Drop(0xff, 2) == 0x3f;
    assert Drop(0xffff_ff00, 4) == 0x0fff_fff0 && Drop(0xff, 4) == 0x0f;
    assert Drop(0xffff_ff00, 6) == 0x03ff_fffc && Drop(0xff, 6) == 0x03;
  }

  /** Eight shifts are the table entry of the low byte, with the other bits moved down. */
  lemma ShiftsByTable(x: bv32)
    ensures Shifts(x, 8) == Xor(Shifts(And(x, 0xff), 8), Drop(x, 8))
  {
    hide Xor, And, Half, Odd, Shifts, TakeBits, Drop;
    var low, high := And(x, 0xff), And(x, 0xffff_ff00);
    SplitWord(x);
    ShiftsFolded(low, high, 8);
    forall i | 0 <= i < 8
      ensures !Odd(Drop(high, i))
    {
      Masks(i);
      DropAnd(x, 0xffff_ff00, i);
      OddAnd(Drop(x, i), Drop(0xffff_ff00, i));
    }
    TakeZeros(low, high, 8);
    DropXor(low, high, 8);
    LowDropped(x);
    XorZero(Drop(high, 8));
    XorCommutes(0, Drop(high, 8));
  }

  lemma LowDropped(x: bv32)
    ensures Drop(And(x, 0xff), 8) == 0
  {
    hide And, Half, Drop;
    Masks(0);
    DropAnd(x, 0xff, 8);
    XorZero(Drop(x, 8));
  }

  /** The table entry that a byte selects. */
  function TableIndex(c: bv32, b: byte): (i: nat)
    ensures i < 256
  {
    LowByte(Xor(c, Message(b)));
    And(Xor(c, Message(b)), 0xff) as nat
  }

  lemma LowByte(x: bv32)
    ensures And(x, 0xff) as nat < 256 && (And(x, 0xff) as nat) as bv32 == And(x, 0xff)
  {}

  /** One step of `crc32_update` takes in one byte, bit by bit. */
  lemma TableStep(c: bv32, b: byte)
    ensures Xor(Entry(TableIndex(c, b)), Drop(c, 8)) == TakeBits(c, Message(b), 8)
  {
    hide Shifts, TakeBits, Xor, And, Half, Drop, Message;
    var m := Message(b);
    var x := Xor(c, m);
    MessageByte(b);
    LowDropped(m);
    DropXor(c, m, 8);
    XorZero(Drop(c, 8));
    ShiftsFolded(c, m, 8);
    XorZero(TakeBits(c, m, 8));
    LowByte(x);
    ShiftsByTable(x);
  }

  // ---------------------------------------------------------------- the code

  /** `crc32_tabinit` */
  method TabInit(tab: array<bv32>)
    requires tab.Length == 256
    modifies tab
    ensures IsTable(tab[..])
  {
    hide Xor, Half, Odd;
    var i := 0;
    while i < 256
      invariant 0 <= i <= 256 && forall k :: 0 <= k < i ==> tab[k] == Entry(k)
    {
      tab[i] := InitEntry(i);
      i := i + 1;
    }
  }

  /** The inner loop of `crc32_tabinit`. */
  method InitEntry(i: nat) returns (crc: bv32)
    requires i < 256
    ensures crc == Entry(i)
  {
    hide Xor, Half, Odd;
    crc := i as bv32;
    var j := 0;
    while j < 8
      invariant 0 <= j <= 8 && crc == Shifts(i as bv32, j)
    {
      if Odd(crc) {
        crc := Xor(Half(crc), IEEE_POLY);
      } else {
        crc := Half(crc);
      }
      j := j + 1;
    }
  }

  /** `crc32_update` */
  method Update(tab: array<bv32>, crc0: bv32, buf: seq<byte>) returns (crc: bv32)
    requires tab.Length == 256 && IsTable(tab[..])
    ensures crc == Not(TakeBytes(Not(crc0), buf))
  {
    hide Xor, Drop, Not, TableIndex, Entry, TakeBits, Message;
    crc := Not(crc0);
    var i := 0;
    while i < |buf|
      invariant 0 <= i <= |buf| && crc == TakeBytes(Not(crc0), buf[..i])
    {
      TableStep(crc, buf[i]);
      assert buf[..i + 1][..i] == buf[..i];
      var k := TableIndex(crc, buf[i]);
      assert tab[..][k] == Entry(k);
      crc := Xor(tab[k], Drop(crc, 8));
      i := i + 1;
    }
    assert buf[..|buf|] == buf;
    crc := Not(crc);
  }

  /** `crc32_checksum` */
  method Checksum(tab: array<bv32>, buf: seq<byte>) returns (crc: bv32)
    requires tab.Length == 256 && IsTable(tab[..])
    ensures crc == Crc(buf)
  {
    crc := Update(tab, 0, buf);
  }

  lemma {:induction false} TakeBytesCat(c: bv32, a: seq<byte>, b: seq<byte>)
    ensures TakeBytes(c, a + b) == TakeBytes(TakeBytes(c, a), b)
  {
    hide TakeBits, Message;
    if b == [] {
      assert a + b == a;
    } else {
      assert (a + b)[..|a + b| - 1] == a + b[..|b| - 1];
      TakeBytesCat(c, a, b[..|b| - 1]);
    }
  }

  /** Updating over `a` and then over `b` is updating over `a + b`. */
  lemma UpdateCat(crc: bv32, a: seq<byte>, b: seq<byte>)
    ensures Not(TakeBytes(Not(Not(TakeBytes(Not(crc), a))), b)) == Not(TakeBytes(Not(crc), a + b))
  {
    hide Not, TakeBytes;
    NotNot(TakeBytes(Not(crc), a));
    TakeBytesCat(Not(crc), a, b);
  }

  // ---------------------------------------------------------------- the check value

  // The registers after each of the bytes of `123456789`.

  lemma Byte1()
    ensures TakeBits(0xffff_ffff, 49, 8) == 0x7c23_1048
  {}

  lemma Byte2()
    ensures TakeBits(0x7c23_1048, 50, 8) == 0xb0ac_bb32
  {}

  lemma Byte3()
    ensures TakeBits(0xb0ac_bb32, 51, 8) == 0x77b7_9c2d
  {}

  lemma Byte4()
    ensures TakeBits(0x77b7_9c2d, 52, 8) == 0x641c_1f5c
  {}

  lemma Byte5()
    ensures TakeBits(0x641c_1f5c, 53, 8) == 0x340a_c5e3
  {}

  lemma Byte6()
    ensures TakeBits(0x340a_c5e3, 54, 8) == 0xf68d_2c9e
  {}

  lemma Byte7()
    ensures TakeBits(0xf68d_2c9e, 55, 8) == 0xaffc_9660
  {}

  lemma Byte8()
    ensures TakeBits(0xaffc_9660, 56, 8) == 0x651f_2550
  {}

  lemma Byte9()
    ensures TakeBits(0x651f_2550, 57, 8) == 0x340b_c6d9
  {}

  lemma ThreeBytes(c: bv32, x: byte, y: byte, z: byte)
    ensures TakeBytes(c, [x, y, z]) ==
      TakeBits(TakeBits(TakeBits(c, Message(x), 8), Message(y), 8), Message(z), 8)
  {
    hide TakeBits, Message;
    assert [x, y, z][..2] == [x, y] && [x, y][..1] == [x] && [x][..0] == [];
    assert TakeBytes(c, [x]) == TakeBits(c, Message(x), 8);
  }

  lemma FirstThree()
    ensures TakeBytes(Not(0), [49, 50, 51]) == 0x77b7_9c2d
  {
    ThreeBytes(Not(0), 49, 50, 51);
    hide TakeBits;
    Byte1();
    Byte2();
    Byte3();
  }

  lemma NextThree()
    ensures TakeBytes(0x77b7_9c2d, [52, 53, 54]) == 0xf68d_2c9e
  {
    ThreeBytes(0x77b7_9c2d, 52, 53, 54);
    hide TakeBits;
    Byte4();
    Byte5();
    Byte6();
  }

  lemma LastThree()
    ensures TakeBytes(0xf68d_2c9e, [55, 56, 57]) == 0x340b_c6d9
  {
    ThreeBytes(0xf68d_2c9e, 55, 56, 57);
    hide TakeBits;
    Byte7();
    Byte8();
    Byte9();
  }

  /** The CRC of the nine digits `123456789` is 0xcbf43926. */
  lemma CheckValue()
    ensures Crc([49, 50, 51, 52, 53, 54, 55, 56, 57]) == 0xcbf4_3926
  {
    hide TakeBytes;
    var a: seq<byte>, b: seq<byte>, c: seq<byte> := [49, 50, 51], [52, 53, 54], [55, 56, 57];
    var all: seq<byte> := [49, 50, 51, 52, 53, 54, 55, 56, 57];
    assert all == a + b + c;
    TakeBytesCat(Not(0), a + b, c);
    TakeBytesCat(Not(0), a, b);
    FirstThree();
    NextThree();
    LastThree();
    assert Not(0x340b_c6d9) == 0xcbf4_3926;
  }
}
