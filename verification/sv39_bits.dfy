/** The bit arithmetic behind page-table entries and virtual page numbers. */
module Sv39Bits {
  import opened Num
  import opened Sv39

  // ---------------------------------------------------------------- or, bit by bit

  lemma OrHalf(x: nat, y: nat)
    ensures Or(x, y) / 2 == Or(x / 2, y / 2)
    ensures Or(x, y) % 2 == if x % 2 == 1 || y % 2 == 1 then 1 else 0
  {
    if x == 0 {
      OrZero(y / 2);
    } else if y == 0 {
      OrZero(x / 2);
    }
  }

  function Shr(x: nat, k: nat): nat {
    if k == 0 then x else Shr(x / 2, k - 1)
  }

  lemma {:induction false} ShrValue(x: nat, k: nat)
    ensures Shr(x, k) == x / Pow2(k)
  {
    if k == 0 {
      assert x / 1 == x;
    } else {
      ShrValue(x / 2, k - 1);
      HalveDiv(x, Pow2(k - 1));
    }
  }

  /** Shifting an or to the right shifts both operands. */
  lemma {:induction false} OrShift(x: nat, y: nat, k: nat)
    ensures Shr(Or(x, y), k) == Or(Shr(x, k), Shr(y, k))
  {
    hide Or;
    if k > 0 {
      OrHalf(x, y);
      OrShift(x / 2, y / 2, k - 1);
    }
  }

  /** Truncating an or to its low k bits truncates both operands. */
  lemma {:induction false} OrMod(x: nat, y: nat, k: nat)
    ensures Or(x, y) % Pow2(k) == Or(x % Pow2(k), y % Pow2(k))
  {
    hide Or;
    if k == 0 {
      OrZero(0);
      assert Pow2(0) == 1 && x % 1 == 0 && y % 1 == 0 && Or(x, y) % 1 == 0;
    } else {
      var h := Pow2(k - 1);
      OrMod(x / 2, y / 2, k - 1);
      HalveMod(x, h);
      HalveMod(y, h);
      HalveMod(Or(x, y), h);
      OrHalf(x, y);
      OrJoin(x / 2 % h, x % 2, y / 2 % h, y % 2);
    }
  }

  lemma OrJoin(a: nat, i: nat, b: nat, j: nat)
    requires i < 2 && j < 2
    ensures Or(2 * a + i, 2 * b + j) == 2 * Or(a, b) + if i == 1 || j == 1 then 1 else 0
  {
    hide Or;
    OrHalf(2 * a + i, 2 * b + j);
    assert (2 * a + i) / 2 == a && (2 * b + j) / 2 == b;
  }

  lemma AndOne(x: nat)
    ensures And(x, 1) == x % 2
  {
    AndOdd(x, 0);
    AndZero(x / 2);
  }

  /** The flag tests read bits 0 to 3 of the entry. */
  lemma FlagBits(e: u64)
    ensures IsValid(e) <==> e % 2 == 1
    ensures IsLeaf(e) <==> e / 2 % 2 == 1 || e / 4 % 2 == 1 || e / 8 % 2 == 1
  {
    hide And;
    AndOne(e);
    AndEven(e, 1);
    AndOne(e / 2);
    AndEven(e, 2);
    AndEven(e / 2, 1);
    AndOne(e / 4);
    AndEven(e, 4);
    AndEven(e / 2, 2);
    AndEven(e / 4, 1);
    AndOne(e / 8);
  }

  // ---------------------------------------------------------------- entries

  lemma PageParts(pa: u64)
    ensures pa / 4 / 0x400 == pa / PAGE_SIZE
    ensures pa % PAGE_SIZE == 0 ==> pa / 4 == pa / PAGE_SIZE * 0x400 && pa == pa / PAGE_SIZE * PAGE_SIZE
    ensures pa / PAGE_SIZE < 0x10_0000_0000_0000
  {
  }

  lemma HalfStep(a: nat, f: nat)
    ensures (2 * a + f) / 2 == a + f / 2 && (2 * a + f) % 2 == f % 2
  {
  }

  /** The low bits of an entry are the flags. */
  lemma LowFlagParts(p: nat, flags: nat, e: nat)
    requires e == p * 0x400 + flags
    ensures e % 2 == flags % 2 && e / 2 % 2 == flags / 2 % 2
    ensures e / 4 % 2 == flags / 4 % 2 && e / 8 % 2 == flags / 8 % 2
  {
    HalfStep(p * 0x200, flags);
    HalfStep(p * 0x100, flags / 2);
    HalfStep(p * 0x80, flags / 4);
    HalfStep(p * 0x40, flags / 8);
  }

  /** An entry for a page-aligned address and flags in the ten flag bits. */
  lemma EntryFields(pa: u64, flags: u64)
    requires pa % PAGE_SIZE == 0 && flags < 0x400
    ensures Entry(pa, flags) == pa / 4 + flags
    ensures GetAddress(Entry(pa, flags)) == pa
    ensures IsValid(Entry(pa, flags)) <==> IsValid(flags)
    ensures IsLeaf(Entry(pa, flags)) <==> IsLeaf(flags)
  {
    hide Or, And, IsValid, IsLeaf, OrWord, Wrap;
    PowWord();
    PageParts(pa);
    OrDisjoint(pa / PAGE_SIZE, flags, 10);
    LowFlagParts(pa / PAGE_SIZE, flags, Entry(pa, flags));
    FlagBits(flags);
    FlagBits(Entry(pa, flags));
    NoWrap(pa / PAGE_SIZE * PAGE_SIZE);
    ModUnique(Entry(pa, flags), 0x400, pa / PAGE_SIZE, flags);
  }

  /** The bits of the flags that spill into the page number of the entry. */
  function HighFlags(flags: u64): nat {
    flags / 0x400 % 0x10_0000_0000_0000
  }

  lemma WrapPage(x: nat)
    ensures Wrap(x * 0x1000) == x % 0x10_0000_0000_0000 * 0x1000
  {
  }

  /** The page an entry holds: the page number, with the high flags or-ed into it. */
  lemma EntryAddressValue(pa: u64, flags: u64)
    ensures GetAddress(Entry(pa, flags)) == Or(pa / PAGE_SIZE, HighFlags(flags)) * PAGE_SIZE
  {
    hide Or, OrWord, Wrap, Pow2, Shr;
    PowWord();
    Pow52();
    PageParts(pa);
    OrShift(pa / 4, flags, 10);
    ShrValue(Or(pa / 4, flags), 10);
    ShrValue(pa / 4, 10);
    ShrValue(flags, 10);
    var p, f := pa / PAGE_SIZE, flags / 0x400;
    OrMod(p, f, 52);
    WrapPage(Or(p, f));
    SmallMod(p, 0x10_0000_0000_0000);
  }

  /** An entry gives its page back exactly when the page is page-aligned and the flags, above
      bit 9, set no bit the page number does not already have. */
  lemma EntryAddressIff(pa: u64, flags: u64)
    ensures GetAddress(Entry(pa, flags)) == pa <==>
              pa % PAGE_SIZE == 0 && Or(pa / PAGE_SIZE, HighFlags(flags)) == pa / PAGE_SIZE
  {
    hide Or, GetAddress, Entry;
    EntryAddressValue(pa, flags);
    AlignedMultiple(pa, Or(pa / PAGE_SIZE, HighFlags(flags)));
  }

  /** What the mapping's valid bit, or-ed into the flags, leaves alone. */
  lemma ValidKeepsHighFlags(flags: u64)
    ensures HighFlags(OrWord(flags, TEF_VALID)) == HighFlags(flags)
  {
    hide Or, OrWord;
    OrHalf(flags, 1);
    OrZero(flags / 2);
    assert OrWord(flags, TEF_VALID) / 2 == flags / 2;
    assert OrWord(flags, TEF_VALID) / 2 / 0x200 == OrWord(flags, TEF_VALID) / 0x400 && flags / 2 / 0x200 == flags / 0x400;
  }

  /** Bits 1 to 3 of an or. */
  lemma OrLeafBits(x: nat, y: nat)
    ensures Or(x, y) / 2 % 2 == 1 <==> x / 2 % 2 == 1 || y / 2 % 2 == 1
    ensures Or(x, y) / 4 % 2 == 1 <==> x / 4 % 2 == 1 || y / 4 % 2 == 1
    ensures Or(x, y) / 8 % 2 == 1 <==> x / 8 % 2 == 1 || y / 8 % 2 == 1
  {
    hide Or;
    OrHalf(x, y);
    OrHalf(x / 2, y / 2);
    OrHalf(x / 4, y / 4);
    OrHalf(x / 8, y / 8);
    Quarters(x);
    Quarters(y);
    Quarters(Or(x, y));
  }

  lemma Quarters(x: nat)
    ensures x / 2 / 2 == x / 4 && x / 4 / 2 == x / 8
  {
  }

  lemma LeafBitsOfPage(pa: nat)
    ensures pa / 4 / 2 % 2 == 1 || pa / 4 / 4 % 2 == 1 || pa / 4 / 8 % 2 == 1 <==> pa / 8 % 8 != 0
  {
    var q := pa / 8;
    assert pa / 4 / 2 == q && pa / 4 / 4 == q / 2 && pa / 4 / 8 == q / 4;
    assert q == 8 * (q / 8) + 4 * (q / 4 % 2) + 2 * (q / 2 % 2) + q % 2;
  }

  /** Bits 3 to 5 of the page land on the leaf flags. */
  lemma EntryLeafIff(pa: u64, flags: u64)
    ensures IsLeaf(Entry(pa, flags)) <==> IsLeaf(flags) || pa / 8 % 8 != 0
  {
    hide Or, IsValid, IsLeaf, OrWord;
    OrLeafBits(pa / 4, flags);
    LeafBitsOfPage(pa);
    FlagBits(flags);
    FlagBits(Entry(pa, flags));
  }

  lemma AlignedMultiple(pa: nat, q: nat)
    ensures q * 0x1000 == pa <==> pa % PAGE_SIZE == 0 && q == pa / PAGE_SIZE
  {
  }

  lemma Pow52()
    ensures Pow2(52) == 0x10_0000_0000_0000
  {
    PowWord();
    assert Pow2(20) == 0x10_0000;
    PowAdd(32, 20);
  }

  /** A page-aligned page keeps its address; any other address does not. */
  lemma PlainEntryIff(pa: u64, flags: u64)
    requires flags < 0x400
    ensures GetAddress(Entry(pa, flags)) == pa <==> pa % PAGE_SIZE == 0
  {
    hide Or, Entry;
    EntryAddressIff(pa, flags);
    OrZero(pa / PAGE_SIZE);
  }

  /** flags | TEF_VALID is valid, and a leaf exactly when the flags are. */
  lemma ValidFlags(flags: u64)
    ensures IsValid(OrWord(flags, TEF_VALID))
    ensures IsLeaf(OrWord(flags, TEF_VALID)) <==> IsLeaf(flags)
    ensures flags < 0x400 ==> OrWord(flags, TEF_VALID) < 0x400
  {
    hide Or, IsValid, IsLeaf, OrWord;
    OrHalf(flags, 1);
    OrZero(flags / 2);
    FlagBits(flags);
    FlagBits(OrWord(flags, TEF_VALID));
  }

  /** The entry written for a mapping is valid whatever the page and flags. */
  lemma EntryValid(pa: u64, flags: u64)
    ensures IsValid(Entry(pa, OrWord(flags, TEF_VALID)))
  {
    hide Or, IsValid, OrWord;
    ValidFlags(flags);
    FlagBits(OrWord(flags, TEF_VALID));
    OrHalf(pa / 4, OrWord(flags, TEF_VALID));
    FlagBits(Entry(pa, OrWord(flags, TEF_VALID)));
  }

  /** A table pointer: valid, not a leaf, and it gives the table's address back. */
  lemma PointerEntry(page: u64)
    requires page % PAGE_SIZE == 0
    ensures var e := Entry(page, TEF_VALID); IsValid(e) && !IsLeaf(e) && GetAddress(e) == page
  {
    hide Or, IsValid, IsLeaf, Entry;
    EntryFields(page, TEF_VALID);
    FlagBits(TEF_VALID);
  }

  // ---------------------------------------------------------------- virtual page numbers

  lemma VpnValue(va: u64)
    ensures VpnOf(va) == Vpn(va / 0x4000_0000 % 512, va / 0x20_0000 % 512, va / 0x1000 % 512)
  {
    hide And;
    assert Pow2(9) == 512;
    AndLowMask(va / 0x4000_0000, 9);
    AndLowMask(va / 0x20_0000, 9);
    AndLowMask(va / 0x1000, 9);
  }

  /** Two addresses share their indices exactly when they agree on the 27-bit page number. */
  lemma VpnIff(va: u64, vb: u64)
    ensures VpnOf(va) == VpnOf(vb) <==> va / 0x1000 % 0x800_0000 == vb / 0x1000 % 0x800_0000
  {
    hide VpnOf;
    VpnValue(va);
    VpnValue(vb);
    VpnNumber(va);
    VpnNumber(vb);
  }

  lemma VpnNumber(va: u64)
    ensures va / 0x1000 % 0x800_0000 == (va / 0x4000_0000 % 512) * 0x4_0000 + (va / 0x20_0000 % 512) * 0x200 + va / 0x1000 % 512
  {
    var p := va / 0x1000;
    assert va / 0x20_0000 == p / 512;
    assert va / 0x4000_0000 == p / 512 / 512;
    Digits(p);
  }

  lemma Digits(p: nat)
    ensures p % 0x800_0000 == (p / 512 / 512 % 512) * 0x4_0000 + (p / 512 % 512) * 512 + p % 512
  {
    var q := p / 512;
    var r := q / 512;
    assert p == 512 * q + p % 512 && q == 512 * r + q % 512;
    assert r == 512 * (r / 512) + r % 512;
  }
}
