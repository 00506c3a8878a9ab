/** Number printing of kernel/include/fmt/printer.h: digits are stored lowest first in a static
    buffer and then emitted from the top down. */
module Printer {

  const BUFFER: nat := 65
  const DIGITS: string := "0123456789ABCDEF"

  /** The value a digit character stands for. */
  function DigitValue(c: char): nat {
    if '0' <= c <= '9' then c as int - '0' as int
    else if 'A' <= c <= 'F' then c as int - 'A' as int + 10 else 0
  }

  /** The number a digit string denotes, highest digit first. */
  function Value(s: string, base: nat): nat {
    if s == [] then 0 else Value(s[..|s| - 1], base) * base + DigitValue(s[|s| - 1])
  }

  /** What is printed for an unsigned value. */
  function Print(value: nat, base: nat): string
    requires 2 <= base <= 16
  {
    if value == 0 then "0" else Digits(value, base)
  }

  function Digits(num: nat, base: nat): string
    requires 2 <= base <= 16
    decreases num
  {
    if num == 0 then []
    else
      Shrinks(num, base);
      Digits(num / base, base) + [DIGITS[num % base]]
  }

  lemma Shrinks(num: nat, base: nat)
    requires num > 0 && base >= 2
    ensures num / base < num && 0 <= num % base < base && num == num / base * base + num % base
  {
    var q := num / base;
    assert q * base == 2 * q + q * (base - 2) && q * (base - 2) >= 0;
  }

  lemma DigitBack(d: nat)
    requires d < 16
    ensures DigitValue(DIGITS[d]) == d
  {
    assert DIGITS == ['0', '1', '2', '3', '4', '5', '6', '7', '8', '9', 'A', 'B', 'C', 'D', 'E', 'F'];
  }

  /** The digits read back as the value, and the first of them is not 0. */
  lemma {:induction false} DigitsBack(num: nat, base: nat)
    requires 2 <= base <= 16
    ensures Value(Digits(num, base), base) == num
    ensures num > 0 ==> Digits(num, base) != [] && DigitValue(Digits(num, base)[0]) != 0
    decreases num
  {
    if num > 0 {
      Shrinks(num, base);
      DigitsBack(num / base, base);
      DigitBack(num % base);
      var front := Digits(num / base, base);
      assert Digits(num, base)[..|front|] == front;
      if num / base == 0 { assert front == []; }
    }
  }

  /** The digits 0 to 9 and A to F, below the base. */
  predicate IsDigit(c: char, base: nat) {
    ('0' <= c <= '9' || 'A' <= c <= 'F') && DigitValue(c) < base
  }

  lemma {:induction false} AllDigits(num: nat, base: nat)
    requires 2 <= base <= 16
    ensures forall i :: 0 <= i < |Digits(num, base)| ==> IsDigit(Digits(num, base)[i], base)
    decreases num
  {
    if num > 0 {
      Shrinks(num, base);
      AllDigits(num / base, base);
      DigitBack(num % base);
      assert DIGITS == ['0', '1', '2', '3', '4', '5', '6', '7', '8', '9', 'A', 'B', 'C', 'D', 'E', 'F'];
    }
  }

  /** Printing an unsigned value: only digits of the base, no leading zero but for 0 itself, and
      the digits denote the value. */
  lemma PrintBack(value: nat, base: nat)
    requires 2 <= base <= 16
    ensures Value(Print(value, base), base) == value
    ensures forall i :: 0 <= i < |Print(value, base)| ==> IsDigit(Print(value, base)[i], base)
    ensures if value == 0 then Print(value, base) == "0" else Print(value, base) != [] && Print(value, base)[0] != '0'
  {
    DigitsBack(value, base);
    AllDigits(value, base);
    if value == 0 {
      assert "0"[..0] == [] && "0"[0] == '0';
    }
  }

  function Pow(base: nat, n: nat): nat {
    if n == 0 then 1 else base * Pow(base, n - 1)
  }

  lemma MulMonotone(x: nat, y: nat, b: nat)
    requires x <= y
    ensures x * b <= y * b
  {
    assert y * b == x * b + (y - x) * b && (y - x) * b >= 0;
  }

  lemma DivLess(num: nat, base: nat, p: nat)
    requires base >= 2 && num > 0 && num < base * p
    ensures num / base < p
  {
    Shrinks(num, base);
    if num / base >= p { MulMonotone(p, num / base, base); }
  }

  /** A value below base^n has at most n digits. */
  lemma {:induction false} DigitCount(num: nat, base: nat, n: nat)
    requires 2 <= base <= 16 && num < Pow(base, n)
    ensures |Digits(num, base)| <= n
    decreases n
  {
    if num > 0 && n > 0 {
      DivLess(num, base, Pow(base, n - 1));
      DigitCount(num / base, base, n - 1);
    }
  }

  lemma {:induction false} PowAtLeast(base: nat, n: nat)
    requires base >= 2
    ensures Pow(base, n) >= Pow(2, n) > 0
  {
    if n > 0 {
      PowAtLeast(base, n - 1);
      assert base * Pow(base, n - 1) >= 2 * Pow(base, n - 1) by { assert (base - 2) * Pow(base, n - 1) >= 0; }
    }
  }

  /** Every 64-bit value fits the buffer in every base. */
  lemma FitsBuffer(num: nat, base: nat)
    requires 2 <= base <= 16 && num < 0x1_0000_0000_0000_0000
    ensures |Digits(num, base)| <= 64 < BUFFER
  {
    PowAtLeast(base, 64);
    Pow64();
    DigitCount(num, base, 64);
  }

  lemma {:induction false} PowSplit(i: nat, j: nat)
    ensures Pow(2, i + j) == Pow(2, i) * Pow(2, j)
  {
    if i > 0 {
      PowSplit(i - 1, j);
      assert 2 * (Pow(2, i - 1) * Pow(2, j)) == (2 * Pow(2, i - 1)) * Pow(2, j);
    }
  }

  lemma Pow64()
    ensures Pow(2, 64) == 0x1_0000_0000_0000_0000
  {
    assert Pow(2, 8) == 256;
    PowSplit(8, 8);
    PowSplit(16, 16);
    PowSplit(32, 32);
  }

  /** Signed printing: one minus sign exactly for negative values. */
  function PrintSigned(value: int): string {
    if value < 0 then "-" + Print(-value, 10) else Print(value, 10)
  }

  function SignedValue(s: string): int {
    if s != [] && s[0] == '-' then (var v: int := Value(s[1..], 10); -v) else Value(s, 10)
  }

  /** Signed printing can be read back, so distinct values print differently; a minus sign stands
      before the digits of a negative value, and nothing before those of another. */
  lemma SignedBack(value: int)
    ensures SignedValue(PrintSigned(value)) == value
    ensures if value < 0 then PrintSigned(value) == "-" + Print(-value, 10) else PrintSigned(value) == Print(value, 10)
  {
    hide Print, Value;
    if value < 0 {
      PrintBack(-value, 10);
      assert ("-" + Print(-value, 10))[1..] == Print(-value, 10);
    } else {
      PrintBack(value, 10);
      NoSign(value);
    }
  }

  lemma {:induction false} NoSign(value: nat)
    ensures '-' !in Print(value, 10)
  {
    if value > 0 { DigitsNoSign(value); }
  }

  lemma {:induction false} DigitsNoSign(num: nat)
    ensures '-' !in Digits(num, 10)
    decreases num
  {
    if num > 0 {
      Shrinks(num, 10);
      DigitsNoSign(num / 10);
      assert DIGITS == ['0', '1', '2', '3', '4', '5', '6', '7', '8', '9', 'A', 'B', 'C', 'D', 'E', 'F'];
    }
  }

  lemma SignedInjective(v: int, w: int)
    requires PrintSigned(v) == PrintSigned(w)
    ensures v == w
  {
    SignedBack(v);
    SignedBack(w);
  }

  function Reverse(s: string): string {
    if s == [] then [] else Reverse(s[1..]) + [s[0]]
  }

  /** The first loop: digits go into the buffer lowest first. */
  method StoreDigits(value: nat, base: nat, buffer: array<char>) returns (index: nat)
    requires 2 <= base <= 16 && value < 0x1_0000_0000_0000_0000 && buffer.Length == BUFFER
    modifies buffer
    ensures index < BUFFER && Reverse(buffer[..index]) == Digits(value, base)
  {
    hide Digits, DIGITS;
    index := 0;
    var num: nat := value;
    FitsBuffer(value, base);
    NoDigits(base);
    assert buffer[..0] == [] && Digits(num, base) + Reverse([]) == Digits(value, base);
    while num > 0
      invariant index + |Digits(num, base)| < BUFFER
      invariant Digits(num, base) + Reverse(buffer[..index]) == Digits(value, base)
    {
      Shrinks(num, base);
      DigitsStep(num, base);
      ghost var before := buffer[..index];
      buffer[index] := DIGITS[num % base];
      index := index + 1;
      assert buffer[..index] == before + [DIGITS[num % base]];
      ReverseLast(before, DIGITS[num % base]);
      num := num / base;
    }
  }

  lemma NoDigits(base: nat)
    requires 2 <= base <= 16
    ensures Digits(0, base) == [] && Reverse([]) == []
  {
  }

  lemma DigitsStep(num: nat, base: nat)
    requires num > 0 && 2 <= base <= 16
    ensures num % base < |DIGITS| && Digits(num, base) == Digits(num / base, base) + [DIGITS[num % base]]
  {
    Shrinks(num, base);
  }

  /** Both loops: the second emits the buffer from the top down. */
  method PrintUnsigned(value: nat, base: nat) returns (out: string)
    requires 2 <= base <= 16 && value < 0x1_0000_0000_0000_0000
    ensures out == Print(value, base)
  {
    hide Digits;
    if value == 0 {
      return "0";
    }
    var buffer := new char[BUFFER](_ => '0');
    var index := StoreDigits(value, base, buffer);
    out := "";
    var i := index - 1;
    while i >= 0
      invariant -1 <= i < index < BUFFER
      invariant out + Reverse(buffer[..i + 1]) == Digits(value, base)
    {
      ReverseLast(buffer[..i], buffer[i]);
      assert buffer[..i + 1] == buffer[..i] + [buffer[i]];
      assert out + ([buffer[i]] + Reverse(buffer[..i])) == (out + [buffer[i]]) + Reverse(buffer[..i]);
      out := out + [buffer[i]];
      i := i - 1;
    }
    NoDigits(base);
    assert buffer[..0] == [] && out + [] == out;
  }

  lemma {:induction false} ReverseLast(s: string, c: char)
    ensures Reverse(s + [c]) == [c] + Reverse(s)
  {
    if s == [] {
      assert ([c])[1..] == [] && s + [c] == [c];
    } else {
      ReverseLast(s[1..], c);
      assert (s + [c])[1..] == s[1..] + [c];
    }
  }
}
