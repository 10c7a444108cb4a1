/** Hexadecimal numbers: printed by the fault handler, parsed by the archive reader. */
module Hex {
  import opened Bytes

  const TWO32: nat := 0x1_0000_0000

  function Pow16(n: nat): (r: nat)
    ensures r > 0
  {
    if n == 0 then 1 else 16 * Pow16(n - 1)
  }

  function Digit(d: nat): byte
    requires d < 16
  {
    if d < 10 then '0' as int + d else 'A' as int + (d - 10)
  }

  /** The last `n` hexadecimal digits of `x`. */
  function Digits(x: nat, n: nat): (s: seq<byte>)
    ensures |s| == n
  {
    if n == 0 then [] else Digits(x / 16, n - 1) + [Digit(x % 16)]
  }

  /** `x >> (4 * i)`. */
  function ShiftRight(x: nat, i: nat): nat {
    if i == 0 then x else ShiftRight(x, i - 1) / 16
  }

  lemma {:induction false} ShiftBound(x: nat, i: nat)
    requires x < TWO32 && i <= 8
    ensures ShiftRight(x, i) < Pow16(8 - i)
  {
    if i == 0 { assert Pow16(8) == TWO32; } else { ShiftBound(x, i - 1); }
  }

  /** `hex32`. */
  method Hex32(x: nat) returns (out: seq<byte>)
    requires x < TWO32
    ensures out == Digits(x, 8)
  {
    out := [];
    var i := 7;
    ShiftBound(x, 8);
    while i >= 0
      invariant -1 <= i <= 7
      invariant out == Digits(ShiftRight(x, i + 1), 7 - i)
    {
      out := out + [Digit(ShiftRight(x, i) % 16)];
      i := i - 1;
    }
  }

  /** Bitwise or of two `n`-bit numbers. */
  function BitOr(a: nat, b: nat, n: nat): nat {
    if n == 0 then 0 else 2 * BitOr(a / 2, b / 2, n - 1) + if a % 2 == 1 || b % 2 == 1 then 1 else 0
  }

  /** The value `hx8` gives to one character: anything but a digit or `A`..`F` counts from `'a'`, modulo 2^32. */
  function DigitValue(c: byte): nat {
    if '0' as int <= c <= '9' as int then c - '0' as int
    else if 'A' as int <= c <= 'F' as int then c - 'A' as int + 10
    else (SignExtend(c) - 'a' as int + 10) % TWO32
  }

  function Shift4(v: nat): nat {
    v * 16 % TWO32
  }

  /** The value that `hx8` accumulates over `s`. */
  function Value(s: seq<byte>): nat {
    if s == [] then 0 else BitOr(Shift4(Value(s[..|s| - 1])), DigitValue(s[|s| - 1]), 32)
  }

  /** `hx8`. */
  method Hx8(s: seq<byte>) returns (v: nat)
    requires |s| >= 8
    ensures v == Value(s[..8])
  {
    v := 0;
    for i := 0 to 8
      invariant v == Value(s[..i])
    {
      assert s[..i + 1][..i] == s[..i];
      v := BitOr(Shift4(v), DigitValue(s[i]), 32);
    }
  }

  predicate IsHexDigit(c: byte) {
    '0' as int <= c <= '9' as int || 'A' as int <= c <= 'F' as int || 'a' as int <= c <= 'f' as int
  }

  function Upper(s: seq<byte>): (r: seq<byte>)
    ensures |r| == |s|
  {
    seq(|s|, i requires 0 <= i < |s| => if 'a' as int <= s[i] <= 'f' as int then s[i] - 32 else s[i])
  }

  function Pow2(n: nat): (r: nat)
    ensures r > 0
  {
    if n == 0 then 1 else 2 * Pow2(n - 1)
  }

  lemma {:induction false} OrZero(w: nat, n: nat)
    requires w < Pow2(n)
    ensures BitOr(w, 0, n) == w
  {
    if n > 0 { OrZero(w / 2, n - 1); }
  }

  lemma OrStep(a: nat, b: nat, n: nat)
    requires n > 0
    ensures BitOr(a, b, n) == 2 * BitOr(a / 2, b / 2, n - 1) + if a % 2 == 1 || b % 2 == 1 then 1 else 0
  {
  }

  lemma OrHalf(w: nat, d: nat, n: nat)
    requires n > 0
    ensures BitOr(2 * w, d, n) == 2 * BitOr(w, d / 2, n - 1) + d % 2
  {
    hide BitOr;
    OrStep(2 * w, d, n);
    assert 2 * w / 2 == w && 2 * w % 2 == 0;
  }

  lemma TwentyEightBits()
    ensures Pow2(28) == 0x1000_0000
  {
    assert Pow2(7) == 0x80;
    assert Pow2(14) == 0x4000;
    assert Pow2(21) == 0x20_0000;
  }

  lemma Nibble(d: nat)
    requires d < 16
    ensures d / 2 / 2 == d / 4 && d / 4 / 2 == d / 8 && d / 8 / 2 == 0
    ensures d == d / 8 * 8 + d / 4 % 2 * 4 + d / 2 % 2 * 2 + d % 2 && d / 8 < 2
  {
  }

  /** Or-ing a digit into four cleared bits adds it. */
  lemma OrDigit(w: nat, d: nat)
    requires 16 * w < TWO32 && d < 16
    ensures BitOr(16 * w, d, 32) == 16 * w + d
  {
    hide BitOr;
    hide Pow2;
    OrHalf(8 * w, d, 32);
    OrHalf(4 * w, d / 2, 31);
    OrHalf(2 * w, d / 4, 30);
    OrHalf(w, d / 8, 29);
    TwentyEightBits();
    OrZero(w, 28);
    Nibble(d);
  }

  /** One more digit: the accumulator stays below 16^n, and its digits are extended. */
  lemma AppendDigit(v: nat, d: nat, n: nat)
    requires 0 < n <= 8 && v < Pow16(n - 1) && d < 16
    ensures BitOr(Shift4(v), d, 32) == 16 * v + d < Pow16(n)
    ensures Digits(16 * v + d, n) == Digits(v, n - 1) + [Digit(d)]
  {
    hide BitOr;
    PowBound(n);
    OrDigit(v, d);
    assert (16 * v + d) / 16 == v && (16 * v + d) % 16 == d;
  }

  lemma {:induction false} PrintedValue(x: nat, n: nat)
    requires n <= 8 && x < Pow16(n)
    ensures Value(Digits(x, n)) == x
  {
    if n > 0 {
      hide BitOr, Shift4;
      PrintedValue(x / 16, n - 1);
      var s := Digits(x, n);
      assert s[..n - 1] == Digits(x / 16, n - 1);
      AppendDigit(x / 16, x % 16, n);
      assert DigitValue(Digit(x % 16)) == x % 16;
    }
  }

  lemma {:induction false} PowBound(n: nat)
    requires n <= 8
    ensures Pow16(n) <= TWO32
    decreases 8 - n
  {
    if n < 8 { PowBound(n + 1); } else { assert Pow16(8) == TWO32; }
  }

  lemma {:induction false} ParsedDigits(s: seq<byte>)
    requires |s| <= 8 && forall c :: c in s ==> IsHexDigit(c)
    ensures Value(s) < Pow16(|s|)
    ensures Digits(Value(s), |s|) == Upper(s)
  {
    if s != [] {
      hide BitOr, Upper, DigitValue, IsHexDigit, Shift4, Digit;
      var front, c := s[..|s| - 1], s[|s| - 1];
      assert s == front + [c];
      assert forall b :: b in front ==> b in s;
      ParsedDigits(front);
      assert c in s;
      UpperAppend(front, c);
      AppendDigit(Value(front), DigitValue(c), |s|);
    }
  }

  lemma UpperAppend(s: seq<byte>, c: byte)
    requires IsHexDigit(c)
    ensures DigitValue(c) < 16
    ensures Upper(s + [c]) == Upper(s) + [Digit(DigitValue(c))]
  {
  }

  /** `hx8` undoes `hex32`, and `hex32` undoes `hx8` up to letter case. */
  lemma HexRoundTrip(x: nat, s: seq<byte>)
    ensures x < TWO32 ==> Value(Digits(x, 8)) == x
    ensures |s| == 8 && (forall c :: c in s ==> IsHexDigit(c)) ==> Value(s) < TWO32 && Digits(Value(s), 8) == Upper(s)
  {
    assert Pow16(8) == TWO32;
    if x < TWO32 { PrintedValue(x, 8); }
    if |s| == 8 && (forall c :: c in s ==> IsHexDigit(c)) { ParsedDigits(s); }
  }

  /** The number of up to eight hexadecimal digits, by the value of each character. */
  lemma OneMoreDigit(s: seq<byte>, c: byte)
    requires |s| < 8 && (forall b :: b in s ==> IsHexDigit(b))
    requires 48 <= c <= 57 || 65 <= c <= 70 || 97 <= c <= 102
    ensures Value([]) == 0
    ensures Value(s + [c]) == 16 * Value(s) + if c <= 57 then c - 48 else if c <= 70 then c - 55 else c - 87
  {
    hide BitOr, Shift4, Upper, Digits, DigitValue, Value, Pow16;
    DigitByValue(c);
    ParsedDigits(s);
    AppendDigit(Value(s), DigitValue(c), |s| + 1);
    ValueAppend(s, c);
  }

  lemma DigitByValue(c: byte)
    requires 48 <= c <= 57 || 65 <= c <= 70 || 97 <= c <= 102
    ensures DigitValue(c) == if c <= 57 then c - 48 else if c <= 70 then c - 55 else c - 87
  {
  }

  lemma ValueAppend(s: seq<byte>, c: byte)
    ensures Value([]) == 0 && Value(s + [c]) == BitOr(Shift4(Value(s)), DigitValue(c), 32)
  {
    assert (s + [c])[..|s|] == s;
  }
}
