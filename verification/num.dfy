/** Unsigned 64-bit arithmetic, as kernel/include/types/number.h does it.
    A machine word is an integer in [0, 2^64); sums, differences and left shifts
    are wrapped explicitly, and the bitwise operators are defined bit by bit. */
module Num {

  const WORD: nat := 0x1_0000_0000_0000_0000
  const PAGE_SIZE: nat := 0x1000

  type u64 = x: int | 0 <= x < 0x1_0000_0000_0000_0000

  function Wrap(x: int): u64 {
    x % WORD
  }

  lemma NoWrap(x: int)
    requires 0 <= x < WORD
    ensures Wrap(x) == x
  {
  }

  function Pow2(k: nat): (p: nat)
    ensures p > 0
  {
    if k == 0 then 1 else 2 * Pow2(k - 1)
  }

  // ---------------------------------------------------------------- bitwise operators

  /** Bitwise and. */
  function And(x: nat, y: nat): (r: nat)
    ensures r <= x && r <= y
  {
    if x == 0 || y == 0 then 0
    else 2 * And(x / 2, y / 2) + if x % 2 == 1 && y % 2 == 1 then 1 else 0
  }

  /** Bitwise or. */
  function Or(x: nat, y: nat): (r: nat)
    ensures x <= r && y <= r <= x + y
  {
    if x == 0 then y
    else if y == 0 then x
    else 2 * Or(x / 2, y / 2) + if x % 2 == 1 || y % 2 == 1 then 1 else 0
  }

  /** Both act on each bit by itself, and so are fixed by this. */
  lemma {:induction false} BitByBit(x: nat, y: nat, k: nat)
    ensures Bit(And(x, y), k) <==> Bit(x, k) && Bit(y, k)
    ensures Bit(Or(x, y), k) <==> Bit(x, k) || Bit(y, k)
    decreases k
  {
    if x == 0 || y == 0 {
      NoBit(k);
    } else if k > 0 {
      BitByBit(x / 2, y / 2, k - 1);
      assert And(x, y) / 2 == And(x / 2, y / 2) && Or(x, y) / 2 == Or(x / 2, y / 2);
    }
  }

  predicate Bit(x: nat, k: nat) {
    if k == 0 then x % 2 == 1 else Bit(x / 2, k - 1)
  }

  lemma {:induction false} NoBit(k: nat)
    ensures !Bit(0, k)
  {
    if k > 0 { NoBit(k - 1); }
  }

  /** Complement of a 64-bit word. */
  function Not(x: u64): u64 {
    WORD - 1 - x
  }

  lemma {:induction false} PowAdd(j: nat, k: nat)
    ensures Pow2(j + k) == Pow2(j) * Pow2(k)
  {
    if j > 0 {
      PowAdd(j - 1, k);
      assert Pow2(j + k) == 2 * Pow2(j - 1 + k);
    }
  }

  lemma PowWord()
    ensures Pow2(8) == 256 && Pow2(10) == 1024 && Pow2(12) == PAGE_SIZE
    ensures Pow2(32) == 0x1_0000_0000 && Pow2(64) == WORD
  {
    assert Pow2(8) == 256 && Pow2(16) == 0x1_0000;
    PowAdd(16, 16);
    PowAdd(32, 32);
  }

  lemma {:induction false} OrBound(x: nat, y: nat, k: nat)
    requires x < Pow2(k) && y < Pow2(k)
    ensures Or(x, y) < Pow2(k)
  {
    if x > 0 && y > 0 {
      OrBound(x / 2, y / 2, k - 1);
    }
  }

  lemma AndZero(x: nat)
    ensures And(x, 0) == 0 && And(0, x) == 0
  {
  }

  lemma OrZero(x: nat)
    ensures Or(x, 0) == x && Or(0, x) == x
  {
  }

  /** One bit of an and: even and odd masks, and an even left operand of an or. */
  lemma AndEven(x: nat, m: nat)
    ensures And(x, 2 * m) == 2 * And(x / 2, m)
  {
    assert 2 * m / 2 == m && 2 * m % 2 == 0;
    AndZero(x / 2);
    AndZero(m);
  }

  lemma AndOdd(x: nat, m: nat)
    ensures And(x, 2 * m + 1) == 2 * And(x / 2, m) + x % 2
  {
    assert (2 * m + 1) / 2 == m && (2 * m + 1) % 2 == 1;
  }

  lemma OrEven(x: nat, y: nat)
    ensures Or(2 * x, y) == 2 * Or(x, y / 2) + y % 2
  {
    if x == 0 {
      OrZero(y / 2);
    } else if y == 0 {
      OrZero(x);
    } else {
      assert 2 * x / 2 == x && 2 * x % 2 == 0;
    }
  }

  /** Masking with 2^k - 1 keeps the remainder modulo 2^k. */
  lemma {:induction false} AndLowMask(x: nat, k: nat)
    ensures And(x, Pow2(k) - 1) == x % Pow2(k)
  {
    hide And;
    if k == 0 {
      AndZero(x);
      assert Pow2(0) == 1 && x % 1 == 0;
    } else {
      var h := Pow2(k - 1);
      AndLowMask(x / 2, k - 1);
      AndOdd(x, h - 1);
      HalveMod(x, h);
    }
  }

  lemma HalveMod(x: nat, h: nat)
    requires h > 0
    ensures x % (2 * h) == 2 * (x / 2 % h) + x % 2
  {
    var q, r := x / 2 / h, x / 2 % h;
    assert x / 2 == q * h + r;
    assert x == 2 * (x / 2) + x % 2;
    assert x == q * (2 * h) + (2 * r + x % 2) by {
      assert 2 * (q * h) == q * (2 * h);
    }
    ModUnique(x, 2 * h, q, 2 * r + x % 2);
  }

  lemma MulAtLeast(a: nat, m: nat)
    requires a >= 1
    ensures a * m >= m
  {
    assert (a - 1) * m >= 0;
  }

  lemma MulTwice(m: int, h: int)
    ensures m * (2 * h) == 2 * (m * h)
  {
  }

  lemma ModUnique(x: int, m: nat, q: int, r: int)
    requires m > 0 && x == q * m + r && 0 <= r < m
    ensures x % m == r && x / m == q
  {
    var q', r' := x / m, x % m;
    if q > q' {
      assert (q - q') * m == q * m - q' * m;
      MulAtLeast(q - q', m);
    } else if q < q' {
      assert (q' - q) * m == q' * m - q * m;
      MulAtLeast(q' - q, m);
    }
  }

  lemma {:induction false} PowMonotone(j: nat, k: nat)
    requires j <= k
    ensures Pow2(j) <= Pow2(k)
  {
    if j < k { PowMonotone(j, k - 1); }
  }

  /** Masking with the complement of 2^k - 1 inside n bits rounds down to a multiple of 2^k. */
  lemma {:induction false} AndHighMask(x: nat, k: nat, n: nat)
    requires k <= n && x < Pow2(n)
    ensures Pow2(k) <= Pow2(n)
    ensures And(x, Pow2(n) - Pow2(k)) == x - x % Pow2(k)
  {
    hide And;
    PowMonotone(k, n);
    if k == 0 {
      AndLowMask(x, n);
      SmallMod(x, Pow2(n));
    } else {
      var h := Pow2(k - 1);
      AndHighMask(x / 2, k - 1, n - 1);
      HalveMod(x, h);
      var m := Pow2(n - 1) - h;
      assert Pow2(n) - Pow2(k) == 2 * m;
      AndEven(x, m);
    }
  }

  lemma SmallMod(x: nat, m: nat)
    requires x < m
    ensures x % m == x && x / m == 0
  {
    ModUnique(x, m, 0, x);
  }

  /** A value below 2^k laid beside a multiple of 2^k: or is addition. */
  lemma {:induction false} OrDisjoint(x: nat, y: nat, k: nat)
    requires y < Pow2(k)
    ensures Or(x * Pow2(k), y) == x * Pow2(k) + y
  {
    hide Or;
    if k == 0 {
      OrZero(x);
    } else {
      var h := Pow2(k - 1);
      OrDisjoint(x, y / 2, k - 1);
      MulTwice(x, h);
      OrEven(x * h, y);
    }
  }

  lemma AndCrumbUp(x: nat, m: nat)
    ensures And(x, 4 * m) == 4 * And(x / 4, m)
  {
    AndEven(x, 2 * m);
    AndEven(x / 2, m);
    assert x / 2 / 2 == x / 4;
  }

  /** Masking commutes with shifting the mask by one byte. */
  lemma AndByteUp(x: nat, m: nat)
    ensures And(x, 256 * m) == 256 * And(x / 256, m)
  {
    hide And;
    AndCrumbUp(x, 64 * m);
    AndCrumbUp(x / 4, 16 * m);
    AndCrumbUp(x / 16, 4 * m);
    AndCrumbUp(x / 64, m);
  }

  /** The test `a & (a - 1) == 0` recognises exactly the powers of two. */
  lemma {:induction false} PowerOfTwoTest(a: nat)
    requires a > 0
    ensures And(a, a - 1) == 0 <==> exists k: nat :: a == Pow2(k)
  {
    if a == 1 {
      assert a == Pow2(0);
    } else if a % 2 == 0 {
      PowerOfTwoTest(a / 2);
      assert (a - 1) / 2 == a / 2 - 1;
      if k: nat :| a / 2 == Pow2(k) {
        assert a == Pow2(k + 1);
      }
      if k: nat :| a == Pow2(k) {
        assert a / 2 == Pow2(k - 1);
      }
    } else {
      assert (a - 1) / 2 == a / 2;
      AndSelf(a / 2);
      forall k: nat ensures a != Pow2(k) {
        if k > 0 { assert Pow2(k) % 2 == 0; }
      }
    }
  }

  lemma {:induction false} AndSelf(x: nat)
    ensures And(x, x) == x && Or(x, x) == x
  {
    if x > 0 { AndSelf(x / 2); }
  }

  // ---------------------------------------------------------------- alignment

  /** align_up: (value + alignment - 1) & ~(alignment - 1), all modulo 2^64. */
  function AlignUp(value: u64, alignment: u64): u64 {
    And(Wrap(value + alignment - 1), Not(Wrap(alignment - 1)))
  }

  /** align_down: value & ~(alignment - 1). */
  function AlignDown(value: u64, alignment: u64): u64 {
    And(value, Not(Wrap(alignment - 1)))
  }

  function IsAligned(value: u64, alignment: u64): bool
    requires alignment != 0
  {
    value % alignment == 0
  }

  ghost predicate IsPow2(a: nat) {
    exists k: nat :: a == Pow2(k)
  }

  lemma Pow2Exponent(a: u64) returns (k: nat)
    requires IsPow2(a)
    ensures a == Pow2(k) && k < 64
  {
    k :| a == Pow2(k);
    if k >= 64 {
      PowAdd(64, k - 64);
      PowWord();
      MulAtLeast(Pow2(k - 64), WORD);
    }
  }

  lemma HighMaskWord(x: u64, a: u64)
    requires IsPow2(a)
    ensures And(x, WORD - a) == x - x % a
  {
    var k := Pow2Exponent(a);
    PowWord();
    AndHighMask(x, k, 64);
  }

  lemma AlignDownValue(v: u64, a: u64)
    requires IsPow2(a)
    ensures AlignDown(v, a) == v - v % a
  {
    hide And;
    HighMaskWord(v, a);
  }

  lemma AlignUpForm(v: u64, a: u64)
    requires IsPow2(a)
    ensures AlignUp(v, a) == Wrap(v + a - 1) - Wrap(v + a - 1) % a
  {
    hide And;
    HighMaskWord(Wrap(v + a - 1), a);
  }

  /** Without overflow, align_up gives the least multiple of the alignment that is no
      smaller than the value; with overflow it gives 0. */
  lemma AlignUpValue(v: u64, a: u64)
    requires IsPow2(a)
    ensures AlignUp(v, a) % a == 0
    ensures v + a - 1 < WORD ==> v <= AlignUp(v, a) < v + a
    ensures v + a - 1 >= WORD ==> AlignUp(v, a) == 0
    ensures v % a == 0 && v + a - 1 < WORD ==> AlignUp(v, a) == v
  {
    AlignUpForm(v, a);
    MaskedSum(v, a, AlignUp(v, a));
  }

  lemma MaskedSum(v: u64, a: u64, r: u64)
    requires a > 0 && r == Wrap(v + a - 1) - Wrap(v + a - 1) % a
    ensures r % a == 0
    ensures v + a - 1 < WORD ==> v <= r < v + a
    ensures v + a - 1 >= WORD ==> r == 0
    ensures v % a == 0 && v + a - 1 < WORD ==> r == v
  {
    hide Wrap;
    var x := Wrap(v + a - 1);
    ModSubtract(x, a);
    WrapSum(v + a - 1);
    if v + a - 1 >= WORD {
      SmallMod(x, a);
    } else if v % a == 0 {
      AlignedStays(v, a, x);
    }
  }

  lemma WrapSum(x: nat)
    requires x < 2 * WORD
    ensures Wrap(x) == if x < WORD then x else x - WORD
  {
  }

  lemma AlignedStays(v: nat, a: nat, x: nat)
    requires a > 0 && x == v + a - 1 && v % a == 0
    ensures x - x % a == v
  {
    ModUnique(x, a, v / a, a - 1);
  }

  lemma HalveDiv(x: nat, h: nat)
    requires h > 0
    ensures x / 2 / h == x / (2 * h)
  {
    var q, r := x / 2 / h, x / 2 % h;
    MulTwice(q, h);
    ModUnique(x, 2 * h, q, 2 * r + x % 2);
  }

  lemma ModSubtract(x: nat, m: nat)
    requires m > 0
    ensures (x - x % m) % m == 0 && 0 <= x % m < m
  {
    ModUnique(x - x % m, m, x / m, 0);
  }

  lemma PageIsPow2()
    ensures IsPow2(PAGE_SIZE)
  {
    PowWord();
    assert PAGE_SIZE == Pow2(12);
  }

  /** align_up to a page, with the overflow case made explicit. */
  lemma PageUp(v: u64)
    ensures v + PAGE_SIZE - 1 < WORD ==> AlignUp(v, PAGE_SIZE) == (v + PAGE_SIZE - 1) / PAGE_SIZE * PAGE_SIZE
    ensures v + PAGE_SIZE - 1 >= WORD ==> AlignUp(v, PAGE_SIZE) == 0
    ensures AlignDown(v, PAGE_SIZE) == v / PAGE_SIZE * PAGE_SIZE
  {
    hide And;
    PageIsPow2();
    AlignUpValue(v, PAGE_SIZE);
    AlignDownValue(v, PAGE_SIZE);
  }

  /** The next multiple of 4096, 0 when that is 2^64. */
  function NextPage(v: u64): nat {
    if v + 4095 < 0x1_0000_0000_0000_0000 then (v + 4095) / 4096 * 4096 else 0
  }

  lemma AlignUpPage(v: u64)
    ensures AlignUp(v, PAGE_SIZE) == NextPage(v)
  {
    hide AlignUp;
    PageIsPow2();
    AlignUpValue(v, PAGE_SIZE);
    if v + 4095 < WORD {
      SameMultiple(v, PAGE_SIZE, AlignUp(v, PAGE_SIZE), (v + 4095) / 4096 * 4096);
    }
  }

  // ---------------------------------------------------------------- rounding without a width

  /** The least multiple of a that is no smaller than x. */
  function RoundUp(x: nat, a: nat): nat
    requires a > 0
  {
    if x % a == 0 then x else x - x % a + a
  }

  lemma RoundUpLeast(x: nat, a: nat)
    requires a > 0
    ensures x <= RoundUp(x, a) < x + a && RoundUp(x, a) % a == 0
    ensures forall y: nat :: x <= y && y % a == 0 ==> RoundUp(x, a) <= y
  {
    var q, r := x / a, x % a;
    if r != 0 {
      assert (q + 1) * a == q * a + a;
      ModUnique(RoundUp(x, a), a, q + 1, 0);
      forall y: nat | x <= y && y % a == 0
        ensures RoundUp(x, a) <= y
      {
        var m := y / a;
        assert y == m * a;
        if m <= q { MulOrder(m, q, a); } else { MulOrder(q + 1, m, a); }
      }
    }
  }

  lemma MulOrder(i: nat, j: nat, a: nat)
    requires i <= j
    ensures i * a <= j * a
  {
    assert (j - i) * a >= 0;
    assert j * a == i * a + (j - i) * a;
  }

  /** At most one multiple of a lies in a window of a numbers. */
  lemma SameMultiple(x: nat, a: nat, r: nat, q: nat)
    requires a > 0 && x <= r < x + a && r % a == 0 && x <= q < x + a && q % a == 0
    ensures r == q
  {
    var i, j := r / a, q / a;
    assert r == i * a && q == j * a;
    assert (i - j) * a == r - q && (j - i) * a == q - r;
    if i > j {
      MulAtLeast(i - j, a);
    } else if j > i {
      MulAtLeast(j - i, a);
    }
  }
}
