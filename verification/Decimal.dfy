/**
  Printing and parsing 64-bit signed integers in decimal, as times to live travel on the wire.
*/
module Decimal {
  import opened Keys
  import opened Wrappers

  const LLONG_MAX: int := 0x7FFF_FFFF_FFFF_FFFF
  const LLONG_MIN: int := -0x8000_0000_0000_0000
  const ULLONG_MAX: nat := 0xFFFF_FFFF_FFFF_FFFF

  const MINUS: byte := 45
  const NUL: byte := 0

  predicate InRange(v: int)
  {
    LLONG_MIN <= v <= LLONG_MAX
  }

  /** `long long` */
  type int64 = v: int | InRange(v)

  // ---------------------------------------------------------------- the decimal form

  /** The character of a digit. */
  function Digit(d: nat): byte
    requires d < 10
  {
    (48 + d) as byte
  }

  predicate IsDigit(c: byte)
  {
    48 <= c <= 57
  }

  function DigitValue(c: byte): nat
    requires IsDigit(c)
  {
    c as int - 48
  }

  /** The decimal form of a natural number. */
  function Digits(v: nat): (s: seq<byte>)
    ensures |s| > 0
  {
    if v < 10 then [Digit(v)] else Digits(v / 10) + [Digit(v % 10)]
  }

  /** The decimal form of an integer. */
  function Print(v: int): (s: seq<byte>)
    ensures |s| > 0
  {
    if v < 0 then [MINUS] + Digits(-v) else Digits(v)
  }

  predicate AllDigits(s: seq<byte>)
  {
    forall i :: 0 <= i < |s| ==> IsDigit(s[i])
  }

  /** The number that a string of digits stands for. */
  function Value(s: seq<byte>): nat
    requires AllDigits(s)
  {
    if s == [] then 0 else 10 * Value(s[..|s| - 1]) + DigitValue(s[|s| - 1])
  }

  /** Digits without a leading zero. */
  predicate IsPlain(s: seq<byte>)
  {
    s != [] && AllDigits(s) && s[0] != 48
  }

  /** What a string stands for, if it is one that is accepted: the digit zero, or an optional sign and digits without
      a leading zero whose value fits. */
  function Parse(s: seq<byte>): Option<int64>
  {
    if s == [48] then Some(0)
    else if IsPlain(s) && InRange(Value(s)) then Some(Value(s))
    else if s != [] && s[0] == MINUS && IsPlain(s[1..]) && InRange(0 - Value(s[1..])) then Some(0 - Value(s[1..]))
    else None
  }

  lemma {:induction false} DigitsOfValue(s: seq<byte>)
    requires IsPlain(s)
    ensures Value(s) > 0 && Digits(Value(s)) == s
  {
    var front, d := s[..|s| - 1], DigitValue(s[|s| - 1]);
    assert s == front + [Digit(d)];
    if front == [] {
      assert Value(front) == 0;
    } else {
      DigitsOfValue(front);
      assert Value(s) / 10 == Value(front) && Value(s) % 10 == d;
    }
  }

  lemma {:induction false} ValueOfDigits(v: nat)
    ensures AllDigits(Digits(v)) && Value(Digits(v)) == v && (v > 0 ==> IsPlain(Digits(v)))
  {
    if v < 10 {
      assert Digits(v)[..0] == [];
    } else {
      ValueOfDigits(v / 10);
      assert Digits(v)[..|Digits(v)| - 1] == Digits(v / 10);
    }
  }

  /** Printing and parsing give the number back. */
  lemma ParsePrint(v: int)
    requires InRange(v)
    ensures Parse(Print(v)) == Some(v)
  {
    if v < 0 {
      ValueOfDigits(-v);
      assert Print(v)[1..] == Digits(-v);
    } else if v > 0 {
      ValueOfDigits(v);
    }
  }

  /** Only the printed form of a number is accepted. */
  lemma PrintParse(s: seq<byte>)
    ensures Parse(s).Some? ==> Print(Parse(s).value) == s
  {
    if s != [48] && Parse(s).Some? {
      if IsPlain(s) {
        DigitsOfValue(s);
      } else {
        DigitsOfValue(s[1..]);
        assert s == [MINUS] + s[1..];
      }
    }
  }

  // ---------------------------------------------------------------- the number of digits

  function Pow10(n: nat): (p: nat)
    ensures p > 0
  {
    if n == 0 then 1 else 10 * Pow10(n - 1)
  }

  /** `m_digits10` */
  function Digits10(v: nat): nat
  {
    if v < 10 then 1
    else if v < 100 then 2
    else if v < 1000 then 3
    else if v < 1_000_000_000_000 then
      if v < 100_000_000 then
        if v < 1_000_000 then
          if v < 10_000 then 4 else 5 + (if v >= 100_000 then 1 else 0)
        else 7 + (if v >= 10_000_000 then 1 else 0)
      else if v < 10_000_000_000 then 9 + (if v >= 1_000_000_000 then 1 else 0)
      else 11 + (if v >= 100_000_000_000 then 1 else 0)
    else 12 + Digits10(v / 1_000_000_000_000)
  }

  /** A positive number has `k` digits exactly when it lies between the powers of ten. */
  lemma {:induction false} DigitCount(v: nat, k: nat)
    requires k > 0 && Pow10(k - 1) <= v < Pow10(k)
    ensures |Digits(v)| == k
  {
    if k > 1 {
      assert Pow10(k - 1) == 10 * Pow10(k - 2) && Pow10(k) == 10 * Pow10(k - 1);
      assert v >= 10;
      DigitCount(v / 10, k - 1);
    }
  }

  lemma {:induction false} DigitBounds(v: nat)
    requires v > 0
    ensures Pow10(|Digits(v)| - 1) <= v < Pow10(|Digits(v)|)
  {
    if v >= 10 {
      DigitBounds(v / 10);
      assert |Digits(v)| == |Digits(v / 10)| + 1;
      assert v / 10 < Pow10(|Digits(v / 10)|);
    } else {
      assert Pow10(1) == 10 * Pow10(0);
    }
  }

  lemma {:induction false} Pow10Sum(a: nat, b: nat)
    ensures Pow10(a + b) == Pow10(a) * Pow10(b)
  {
    if a > 0 {
      Pow10Sum(a - 1, b);
      assert Pow10(a + b) == 10 * (Pow10(a - 1) * Pow10(b));
      assert 10 * (Pow10(a - 1) * Pow10(b)) == 10 * Pow10(a - 1) * Pow10(b);
    }
  }

  lemma SmallPowers()
    ensures Pow10(0) == 1 && Pow10(1) == 10 && Pow10(2) == 100 && Pow10(3) == 1000 && Pow10(4) == 10_000
    ensures Pow10(5) == 100_000 && Pow10(6) == 1_000_000 && Pow10(7) == 10_000_000 && Pow10(8) == 100_000_000
    ensures Pow10(9) == 1_000_000_000 && Pow10(10) == 10_000_000_000 && Pow10(11) == 100_000_000_000
    ensures Pow10(12) == 1_000_000_000_000
  {
    assert Pow10(4) == 10_000;
    assert Pow10(8) == 100_000_000;
  }

  lemma TwelveDigitsLess(v: nat)
    requires v >= 1_000_000_000_000
    ensures |Digits(v)| == 12 + |Digits(v / 1_000_000_000_000)|
  {
    var q := v / 1_000_000_000_000;
    var k := |Digits(q)|;
    DigitBounds(q);
    SmallPowers();
    Pow10Sum(12, k - 1);
    Pow10Sum(12, k);
    DigitCount(v, 12 + k);
  }

  /** `m_digits10` counts the digits exactly. */
  lemma {:induction false} Digits10Exact(v: nat)
    ensures Digits10(v) == |Digits(v)|
  {
    if v >= 1_000_000_000_000 {
      TwelveDigitsLess(v);
      Digits10Exact(v / 1_000_000_000_000);
    } else if v > 0 {
      SmallPowers();
      DigitCount(v, Digits10(v));
    }
  }

  /** `m_sdigits10` */
  function Sdigits10(v: int): nat
    requires InRange(v)
  {
    if v < 0 then Digits10(if v != LLONG_MIN then -v else LLONG_MAX + 1) + 1 else Digits10(v)
  }

  lemma Sdigits10Exact(v: int)
    requires InRange(v)
    ensures Sdigits10(v) == |Print(v)|
  {
    Digits10Exact(if v < 0 then -v else v);
  }

  // ---------------------------------------------------------------- printing

  /** The table of the two-digit numbers, with ten numbers in a row. */
  function Row(t: nat): string
    requires t < 10
  {
    match t
    case 0 => "00010203040506070809"
    case 1 => "10111213141516171819"
    case 2 => "20212223242526272829"
    case 3 => "30313233343536373839"
    case 4 => "40414243444546474849"
    case 5 => "50515253545556575859"
    case 6 => "60616263646566676869"
    case 7 => "70717273747576777879"
    case 8 => "80818283848586878889"
    case _ => "90919293949596979899"
  }

  /** The ten numbers that start with digit `c`. */
  function Tens(c: char): string
  {
    [c, '0', c, '1', c, '2', c, '3', c, '4', c, '5', c, '6', c, '7', c, '8', c, '9']
  }

  lemma RowIsTens(t: nat)
    requires t < 10
    ensures Row(t) == Tens((48 + t) as char)
  {}

  lemma RowDigits(t: nat, u: nat)
    requires t < 10 && u < 10
    ensures |Row(t)| == 20 && Row(t)[2 * u] as int == 48 + t && Row(t)[2 * u + 1] as int == 48 + u
  {
    hide Row;
    RowIsTens(t);
  }

  /** `digits[i]` */
  function DigitAt(i: nat): char
    requires i < 200
  {
    RowDigits(i / 20, 0);
    Row(i / 20)[i % 20]
  }

  /** Entries `2 * k` and `2 * k + 1` of the table are the two digits of `k`. */
  lemma TwoDigits(k: nat)
    requires k < 100
    ensures DigitAt(2 * k) as int == Digit(k / 10) as int && DigitAt(2 * k + 1) as int == Digit(k % 10) as int
  {
    hide Row;
    RowDigits(k / 10, k % 10);
  }

  /** `digits[i]` and `digits[i + 1]` for the number `k`. */
  function Pair(k: nat): (p: seq<byte>)
    requires k < 100
    ensures p == [Digit(k / 10), Digit(k % 10)]
  {
    TwoDigits(k);
    [DigitAt(2 * k) as int as byte, DigitAt(2 * k + 1) as int as byte]
  }

  /** The last two digits of a number, and the digits before them. */
  lemma LastTwo(v: nat)
    requires v >= 100
    ensures Digits(v) == Digits(v / 100) + Pair(v % 100) && |Pair(v % 100)| == 2
  {
    assert Digits(v) == Digits(v / 10) + [Digit(v % 10)];
    assert Digits(v / 10) == Digits(v / 10 / 10) + [Digit(v / 10 % 10)];
    assert v / 10 / 10 == v / 100 && v / 10 % 10 == v % 100 / 10 && v % 100 % 10 == v % 10;
  }

  lemma FirstOneOrTwo(v: nat)
    requires v < 100
    ensures Digits(v) == if v < 10 then [Digit(v)] else Pair(v)
    ensures |Digits(v)| == if v < 10 then 1 else 2
  {
    if v >= 10 { assert Digits(v) == Digits(v / 10) + [Digit(v % 10)]; }
  }

  lemma Associative(a: seq<byte>, b: seq<byte>, c: seq<byte>)
    ensures a + b + c == a + (b + c)
  {}

  /** The loop of `m_ll2string` and the last one or two digits: all digits of `v0`, from the last one at `last`
      backwards. */
  method WriteDigits(dst: array<byte>, v0: nat, last: nat, ghost first: nat)
    requires first <= last < dst.Length && first + |Digits(v0)| == last + 1
    modifies dst
    ensures dst[first..last + 1] == Digits(v0)
    ensures forall i :: 0 <= i < first || last < i < dst.Length ==> dst[i] == old(dst[i])
  {
    hide Digits, Digit, Pair;
    var value: nat, next: nat := v0, last;
    ghost var tail := [];
    while value >= 100
      invariant first + |Digits(value)| == next + 1 <= last + 1
      invariant Digits(v0) == Digits(value) + tail && tail == dst[next + 1..last + 1]
      invariant forall i :: 0 <= i < first || last < i < dst.Length ==> dst[i] == old(dst[i])
    {
      LastTwo(value);
      Associative(Digits(value / 100), Pair(value % 100), tail);
      tail := Pair(value % 100) + tail;
      WritePair(dst, value % 100, next, last);
      value := value / 100;
      next := next - 2;
    }
    FirstOneOrTwo(value);
    if value < 10 {
      dst[next] := Digit(value);
      assert dst[first..last + 1] == [Digit(value)] + tail;
    } else {
      WritePair(dst, value, next, last);
    }
  }

  /** Two digits of the table, before what is written already. */
  method WritePair(dst: array<byte>, k: nat, next: nat, ghost last: nat)
    requires k < 100 && 1 <= next <= last < dst.Length
    modifies dst
    ensures |Pair(k)| == 2 && dst[next - 1..last + 1] == Pair(k) + old(dst[next + 1..last + 1])
    ensures forall i :: 0 <= i < next - 1 || last < i < dst.Length ==> dst[i] == old(dst[i])
  {
    var p := Pair(k);
    hide Pair, Digit;
    dst[next] := p[1];
    dst[next - 1] := p[0];
  }

  /** The number without its sign, as an unsigned one. */
  method Magnitude(svalue: int) returns (value: nat, negative: nat)
    requires InRange(svalue)
    ensures negative == (if svalue < 0 then 1 else 0) && value == (if svalue < 0 then -svalue else svalue) <= ULLONG_MAX
  {
    if svalue < 0 {
      if svalue != LLONG_MIN {
        value := -svalue;
      } else {
        value := LLONG_MAX + 1;
      }
      negative := 1;
    } else {
      value := svalue;
      negative := 0;
    }
  }

  /** Write the sign, the digits and the terminating zero. */
  method WriteNumber(dst: array<byte>, value: nat, negative: nat)
    requires negative <= 1 && negative + |Digits(value)| < dst.Length
    modifies dst
    ensures var length := negative + |Digits(value)|;
      dst[..] == (if negative == 1 then [MINUS] else []) + Digits(value) + [NUL] + old(dst[..])[length + 1..]
  {
    hide Digits, Digits10;
    Digits10Exact(value);
    var length := Digits10(value) + negative;
    ghost var before := dst[..];
    dst[length] := NUL;
    assert dst[length..] == [NUL] + before[length + 1..];
    WriteDigits(dst, value, length - 1, negative);
    if negative == 1 {
      dst[0] := MINUS;
    }
    assert dst[..] == dst[..negative] + dst[negative..length] + dst[length..];
  }

  /** `m_ll2string`: the decimal form and a terminating zero, if the buffer has room for them. */
  method Ll2string(dst: array<byte>, dstlen: nat, svalue: int) returns (length: nat)
    requires InRange(svalue) && dstlen <= dst.Length
    modifies dst
    ensures length == if |Print(svalue)| < dstlen then |Print(svalue)| else 0
    ensures length == 0 ==> dst[..] == old(dst[..])
    ensures length > 0 ==> dst[..] == Print(svalue) + [NUL] + old(dst[..])[length + 1..]
  {
    var value, negative := Magnitude(svalue);
    hide Digits, Digits10;
    Digits10Exact(value);
    length := Digits10(value) + negative;
    if length >= dstlen {
      return 0;
    }
    WriteNumber(dst, value, negative);
  }

  // ---------------------------------------------------------------- parsing

  /** `m_string2ll` */
  method String2ll(s: seq<byte>) returns (ok: bool, value: int64)
    ensures ok <==> Parse(s).Some?
    ensures ok ==> value == Parse(s).value
  {
    value := 0;
    var slen, plen, negative := |s|, 0, false;
    if plen == slen {
      return false, 0;
    }
    if slen == 1 && s[0] == 48 {
      return true, 0;
    }
    if s[0] == MINUS {
      negative := true;
      plen := plen + 1;
      if plen == slen {
        return false, 0;
      }
    }
    ghost var digits := s[plen..];
    var v: nat;
    if 49 <= s[plen] <= 57 {
      v := DigitValue(s[plen]);
      plen := plen + 1;
    } else {
      return false, 0;
    }
    ghost var n := 1;
    while plen < slen && IsDigit(s[plen])
      invariant 1 <= n <= |digits| && plen == n + (if negative then 1 else 0)
      invariant AllDigits(digits[..n]) && v == Value(digits[..n]) <= ULLONG_MAX
    {
      assert digits[..n + 1][..n] == digits[..n];
      if v > ULLONG_MAX / 10 {
        LongerIsLarger(digits, n + 1);
        return false, 0;
      }
      v := v * 10;
      if v > ULLONG_MAX - DigitValue(s[plen]) {
        LongerIsLarger(digits, n + 1);
        return false, 0;
      }
      v := v + DigitValue(s[plen]);
      plen := plen + 1;
      n := n + 1;
    }
    if plen < slen {
      return false, 0;
    }
    assert digits[..n] == digits;
    if negative {
      if v > LLONG_MAX + 1 {
        return false, 0;
      }
      value := 0 - v;
    } else {
      if v > LLONG_MAX {
        return false, 0;
      }
      value := v;
    }
    ok := true;
  }

  /** More digits make a number no smaller. */
  lemma {:induction false} LongerIsLarger(s: seq<byte>, n: nat)
    requires n <= |s|
    ensures AllDigits(s) ==> Value(s[..n]) <= Value(s)
    decreases |s| - n
  {
    if n == |s| {
      assert s[..n] == s;
    } else if AllDigits(s) {
      assert s[..n + 1][..n] == s[..n];
      LongerIsLarger(s, n + 1);
    }
  }
}
