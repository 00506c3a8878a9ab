/** Where map_small_page puts its entries and what virt_to_phys reads, in plain addresses. */
module Sv39Plain {
  import opened Options
  import opened Num
  import opened Memory
  import opened Sv39
  import opened Sv39Bits
  import opened Sv39Tables
  import opened Sv39Map
  import opened Sv39Theorems

  /** The word at entry i of the table at an address: eight bytes an entry, from the front. */
  function Slot(m: Words, table: nat, i: nat): u64 {
    Load(m, table + 8 * i)
  }

  /** The address an entry holds: its bits from 10 on, as a page number. */
  function PageOf(e: u64): u64 {
    e / 0x400 * 0x1000 % 0x1_0000_0000_0000_0000
  }

  /** The entries for an address on the three levels. */
  function Entry2(m: Words, root: nat, va: u64): u64 {
    Slot(m, root, va / 0x4000_0000 % 512)
  }

  function Entry1(m: Words, root: nat, va: u64): u64 {
    Slot(m, PageOf(Entry2(m, root, va)), va / 0x20_0000 % 512)
  }

  function Entry0(m: Words, root: nat, va: u64): u64 {
    Slot(m, PageOf(Entry1(m, root, va)), va / 0x1000 % 512)
  }

  lemma SlotIs(m: Words, table: nat, i: nat)
    ensures EntryAt(m, table, i) == Slot(m, table, i)
  {
  }

  lemma PageIs(e: u64)
    ensures GetAddress(e) == PageOf(e)
  {
  }

  /** The three permission bits. */
  lemma LeafBits(e: u64)
    ensures IsLeaf(e) <==> e / 2 % 8 != 0
  {
    hide IsLeaf, IsValid;
    FlagBits(e);
    Quarters(e);
    ThreeBits(e / 2);
  }

  lemma ThreeBits(q: nat)
    ensures q % 8 != 0 <==> q % 2 == 1 || q / 2 % 2 == 1 || q / 2 / 2 % 2 == 1
  {
    var k, r := q / 8, q % 8;
    HalfStep(4 * k, r);
    HalfStep(2 * k, r / 2);
    HalfStep(k, r / 2 / 2);
  }

  lemma ValidBit(e: u64)
    ensures IsValid(e) <==> e % 2 == 1
  {
    hide IsLeaf, IsValid;
    FlagBits(e);
  }

  /** The alignment test. */
  lemma UnalignedIff(s: Vm, root: nat, va: u64, pa: u64, flags: u64)
    ensures MapSmallPage(s, root, va, pa, flags).0 == Unaligned <==> va % 8 != 0 || pa % 8 != 0
  {
    hide VpnOf, EntryAt, GetAddress, IsValid, Entry, OrWord, EnsureTable, And;
    EightIsPow2();
    var v := VpnOf(va);
    NeverUnaligned(s, root, v.l2);
    var s2 := EnsureTable(s, root, v.l2).1;
    NeverUnaligned(s2, GetAddress(EntryAt(s2.mem, root, v.l2)), v.l1);
  }

  lemma EightIsPow2()
    ensures forall x: u64 :: IsAligned(x, TABLE_ALIGN) <==> x % 8 == 0
  {
  }

  lemma NeverUnaligned(s: Vm, table: nat, i: nat)
    ensures EnsureTable(s, table, i).0 != Unaligned
  {
    hide EntryAt, IsValid, Entry, AlignUp;
  }

  /** After a successful call, for every address, page and flags: the entries on the way lie at
      the address's indices, eight bytes apart, in page-aligned tables; those of the two upper
      levels point to tables, and the last one is the page and flags of the request. */
  lemma MapPlain(s: Vm, root: nat, a: Abs, va: u64, pa: u64, flags: u64)
    requires Refines(s, root, a) && MapSmallPage(s, root, va, pa, flags).0 == Mapped
    ensures var m := MapSmallPage(s, root, va, pa, flags).1.mem;
            var e2, e1, e0 := Entry2(m, root, va), Entry1(m, root, va), Entry0(m, root, va);
            && root % 4096 == 0 && e2 % 2 == 1 && e2 / 2 % 8 == 0
            && PageOf(e2) % 4096 == 0 && e1 % 2 == 1 && e1 / 2 % 8 == 0
            && PageOf(e1) % 4096 == 0 && e0 == Or(pa / 4, Or(flags, 1))
  {
    hide Refines, MapSmallPage, VpnOf, EntryAt, GetAddress, IsValid, IsLeaf, Entry, OrWord, Slot, PageOf, AbsEnsure, Lookup;
    MapRefines(s, root, a, va, pa, flags);
    var t, b := MapSmallPage(s, root, va, pa, flags).1, AbsMap(a, va, pa, flags).1;
    var v := VpnOf(va);
    VpnValid(va);
    VpnValue(va);
    InView(t, root, b, v);
    EntriesOnTheWay(t, root, v);
    SlotIs(t.mem, root, v.l2);
    var e2 := Slot(t.mem, root, v.l2);
    PageIs(e2);
    SlotIs(t.mem, PageOf(e2), v.l1);
    var e1 := Slot(t.mem, PageOf(e2), v.l1);
    PageIs(e1);
    SlotIs(t.mem, PageOf(e1), v.l0);
    ValidBit(e2);
    LeafBits(e2);
    ValidBit(e1);
    LeafBits(e1);
    NewEntry(pa, flags);
  }

  lemma NewEntry(pa: u64, flags: u64)
    ensures Entry(pa, OrWord(flags, TEF_VALID)) == Or(pa / 4, Or(flags, 1))
  {
    hide Or;
  }

  lemma InView(s: Vm, root: nat, a: Abs, v: Vpn)
    requires Refines(s, root, a) && ValidVpn(v) && v in a.view
    ensures Inv(s, root) && Lookup(s.mem, root, v) == Some(a.view[v])
  {
    hide Inv, Lookup;
  }

  /** The entries that lead to a mapped page. */
  lemma EntriesOnTheWay(s: Vm, root: nat, v: Vpn)
    requires Inv(s, root) && ValidVpn(v) && Lookup(s.mem, root, v).Some?
    ensures var e2 := EntryAt(s.mem, root, v.l2); var e1 := EntryAt(s.mem, GetAddress(e2), v.l1);
            && root % PAGE_SIZE == 0 && IsValid(e2) && !IsLeaf(e2) && GetAddress(e2) % PAGE_SIZE == 0
            && IsValid(e1) && !IsLeaf(e1) && GetAddress(e1) % PAGE_SIZE == 0
            && Lookup(s.mem, root, v).value == EntryAt(s.mem, GetAddress(e1), v.l0)
  {
    hide Pmm.Inv, Pmm.Available, IsValid, IsLeaf, EntryAt, GetAddress, Injective;
    assert ValidPath([]) && ValidPath([v.l2]) && ValidPath([v.l2, v.l1]);
    assert [v.l2, v.l1][..1] == [v.l2] && [v.l2][..0] == [];
    assert TableAt(s.mem, root, []) == Some(root);
    assert TableAt(s.mem, root, [v.l2]).Some?;
    assert !LeafUnder(s.mem, root, [], v.l2) && !LeafUnder(s.mem, root, [v.l2], v.l1);
    assert OwnedPage(s.pmm, TableAt(s.mem, root, []).value);
    assert OwnedPage(s.pmm, TableAt(s.mem, root, [v.l2]).value);
    assert OwnedPage(s.pmm, TableAt(s.mem, root, [v.l2, v.l1]).value);
  }

  // ---------------------------------------------------------------- the walk

  /** virt_to_phys on any memory at all: which words it reads, and its answer on each of them.
      A leaf of the top level gives all but the page offset; one of the middle level gives 0 or 1,
      with bit 12 of the address; one of the last level gives the page, bit 12 or-ed in. */
  lemma WalkPlain(m: Words, root: nat, va: u64)
    ensures var e2, e1, e0 := Entry2(m, root, va), Entry1(m, root, va), Entry0(m, root, va);
            VirtToPhys(m, root, va) ==
              if e2 % 2 == 0 then Fault
              else if e2 / 2 % 8 != 0 then Address(Wrap(e2 / 0x400 * 0x4000_0000 + va % 0x4000_0000 / 0x1000 * 0x1000))
              else if e1 % 2 == 0 then Fault
              else if e1 / 2 % 8 != 0 then
                Address((if e1 / 0x400 * 0x20_0000 % WORD != 0 || va / 0x1000 % 512 != 0 then 1 else 0) + va / 0x1000 % 2 * 0x1000)
              else if e0 % 2 == 0 then Fault
              else if e0 / 2 % 8 != 0 then Address(OrWord(PageOf(e0), va / 0x1000 % 2 * 0x1000))
              else FellThrough
  {
    hide VpnOf, EntryAt, GetAddress, IsValid, IsLeaf, OrWord, Slot, PageOf, LeafAddress, PageOffset, WalkFrom, Wrap;
    var e2, e1, e0 := Entry2(m, root, va), Entry1(m, root, va), Entry0(m, root, va);
    WalkLevels(m, root, va);
    ValidBit(e2);
    LeafBits(e2);
    ValidBit(e1);
    LeafBits(e1);
    ValidBit(e0);
    LeafBits(e0);
    GigapageLeaf(e2, va);
    MegapageLeaf(e1, va);
    PageLeaf(e0, va);
  }

  /** The loop of virt_to_phys unrolled. */
  lemma WalkLevels(m: Words, root: nat, va: u64)
    ensures var e2, e1, e0 := Entry2(m, root, va), Entry1(m, root, va), Entry0(m, root, va);
            VirtToPhys(m, root, va) ==
              if !IsValid(e2) then Fault
              else if IsLeaf(e2) then Address(OrWord(LeafAddress(e2, VpnOf(va), 2), PageOffset(va)))
              else if !IsValid(e1) then Fault
              else if IsLeaf(e1) then Address(OrWord(LeafAddress(e1, VpnOf(va), 1), PageOffset(va)))
              else if !IsValid(e0) then Fault
              else if IsLeaf(e0) then Address(OrWord(LeafAddress(e0, VpnOf(va), 0), PageOffset(va)))
              else FellThrough
  {
    hide VpnOf, EntryAt, GetAddress, IsValid, IsLeaf, OrWord, Slot, PageOf, LeafAddress, PageOffset;
    VpnValue(va);
    var v, e2, e1 := VpnOf(va), Entry2(m, root, va), Entry1(m, root, va);
    SlotIs(m, root, v.l2);
    PageIs(e2);
    SlotIs(m, PageOf(e2), v.l1);
    PageIs(e1);
    SlotIs(m, PageOf(e1), v.l0);
    assert VirtToPhys(m, root, va) == WalkFrom(m, root, va, 2);
    assert WalkFrom(m, root, va, 2) == if !IsValid(e2) then Fault
        else if IsLeaf(e2) then Address(OrWord(LeafAddress(e2, VpnOf(va), 2), PageOffset(va)))
        else WalkFrom(m, GetAddress(e2), va, 1);
    assert WalkFrom(m, GetAddress(e2), va, 1) == if !IsValid(e1) then Fault
        else if IsLeaf(e1) then Address(OrWord(LeafAddress(e1, VpnOf(va), 1), PageOffset(va)))
        else WalkFrom(m, GetAddress(e1), va, 0);
  }

  lemma PageLeaf(e: u64, va: u64)
    ensures OrWord(LeafAddress(e, VpnOf(va), 0), PageOffset(va)) == OrWord(PageOf(e), va / 0x1000 % 2 * 0x1000)
  {
    hide Or, OrWord, PageOffset, VpnOf;
    OffsetBit(va);
    PageIs(e);
  }

  lemma MegapageLeaf(e: u64, va: u64)
    ensures OrWord(LeafAddress(e, VpnOf(va), 1), PageOffset(va)) ==
              (if e / 0x400 * 0x20_0000 % WORD != 0 || va / 0x1000 % 512 != 0 then 1 else 0) + va / 0x1000 % 2 * 0x1000
  {
    hide Or, OrWord, PageOffset, VpnOf;
    VpnValue(va);
    OffsetBit(va);
    var x := LeafAddress(e, VpnOf(va), 1);
    assert x == if e / 0x400 * 0x20_0000 % WORD != 0 || va / 0x1000 % 512 != 0 then 1 else 0 by { SmallShift(va / 0x1000 % 512, 0x1000); }
    BitAbove(x, va / 0x1000 % 2);
  }

  lemma SmallShift(i: nat, w: nat)
    requires i < 512 && 0 < w <= 0x20_0000
    ensures Wrap(i * w) == i * w && (i * w == 0 <==> i == 0) && i * w < 512 * 0x20_0000
  {
    assert i * w <= i * 0x20_0000;
    NoWrap(i * w);
  }

  lemma BitAbove(x: nat, b: nat)
    requires x < 2 && b < 2
    ensures OrWord(x, b * 0x1000) == x + b * 0x1000
  {
    hide Or;
    PowWord();
    OrDisjoint(b, x, 12);
    OrSwap(x, b * 0x1000);
  }

  lemma {:induction false} OrSwap(x: nat, y: nat)
    ensures Or(x, y) == Or(y, x)
  {
    if x > 0 && y > 0 { OrSwap(x / 2, y / 2); }
  }

  /** The three parts of a gigapage address do not meet. */
  lemma GigapageLeaf(e: u64, va: u64)
    ensures OrWord(LeafAddress(e, VpnOf(va), 2), PageOffset(va)) == Wrap(e / 0x400 * 0x4000_0000 + va % 0x4000_0000 / 0x1000 * 0x1000)
  {
    hide Or, OrWord, PageOffset, VpnOf, Wrap, LeafAddress;
    var i, j := va / 0x20_0000 % 512, va / 0x1000 % 512;
    OffsetBit(va);
    LowDigits(va);
    GigapageParts(e, va, i, j);
    PageWrap(e / 0x400, i * 0x20_0000 + j * 0x1000);
    GigapageSum(e / 0x400);
    WithOffset(Wrap(e / 0x400 * 0x4000_0000), i, j);
  }

  lemma GigapageParts(e: u64, va: u64, i: nat, j: nat)
    requires i == va / 0x20_0000 % 512 && j == va / 0x1000 % 512
    ensures LeafAddress(e, VpnOf(va), 2) == Wrap(e / 0x400 * 0x4000_0000) + i * 0x20_0000 + j * 0x1000
  {
    hide Or, VpnOf, Wrap;
    VpnValue(va);
    var g := GetGigapageAddr(e);
    SmallShift(i, 0x20_0000);
    SmallShift(j, 0x1000);
    GigapageSum(e / 0x400);
    assert g == g / 0x4000_0000 * 0x4000_0000;
    OrThree(g / 0x4000_0000, i, j);
  }

  /** The kept offset bit is in the lowest index already. */
  lemma WithOffset(g: nat, i: nat, j: nat)
    requires g % 0x4000_0000 == 0 && i < 512 && j < 512
    ensures Or(g + i * 0x20_0000 + j * 0x1000, j % 2 * 0x1000) == g + i * 0x20_0000 + j * 0x1000
  {
    hide Or;
    assert g == g / 0x4000_0000 * 512 * 0x20_0000;
    OrIdempotent(g / 0x4000_0000 * 512 + i, j);
  }

  /** A multiple of 2^30 stays one under truncation. */
  lemma GigapageSum(n: nat)
    ensures Wrap(n * 0x4000_0000) % 0x4000_0000 == 0
  {
  }

  lemma PageWrap(n: nat, low: nat)
    requires low < 0x4000_0000
    ensures Wrap(n * 0x4000_0000 + low) == Wrap(n * 0x4000_0000) + low
  {
  }

  lemma LowDigits(va: nat)
    ensures va % 0x4000_0000 / 0x1000 * 0x1000 == va / 0x20_0000 % 512 * 0x20_0000 + va / 0x1000 % 512 * 0x1000
  {
    PageDigits(va);
    Digits18(va / 0x1000);
  }

  lemma PageDigits(va: nat)
    ensures va % 0x4000_0000 / 0x1000 == va / 0x1000 % 0x4_0000 && va / 0x20_0000 == va / 0x1000 / 512
  {
    var k, r := va / 0x4000_0000, va % 0x4000_0000;
    var u, v := r / 0x1000, r % 0x1000;
    ModUnique(va, 0x1000, 0x4_0000 * k + u, v);
    ModUnique(0x4_0000 * k + u, 0x4_0000, k, u);
    NextDigits(va);
  }

  lemma NextDigits(va: nat)
    ensures va / 0x20_0000 == va / 0x1000 / 512
  {
    var q, v := va / 0x1000, va % 0x1000;
    var p, u := q / 512, q % 512;
    ModUnique(va, 0x20_0000, p, u * 0x1000 + v);
  }

  lemma Digits18(p: nat)
    ensures p % 0x4_0000 == p / 512 % 512 * 512 + p % 512
  {
    var q := p / 512;
    assert p == 512 * q + p % 512;
    assert q == 512 * (q / 512) + q % 512;
  }

  lemma OrThree(g: nat, i: nat, j: nat)
    requires i < 512 && j < 512
    ensures Or(Or(g * 0x4000_0000, i * 0x20_0000), j * 0x1000) == g * 0x4000_0000 + i * 0x20_0000 + j * 0x1000
  {
    hide Or;
    PowWord();
    assert Pow2(21) == 0x20_0000 && Pow2(30) == 0x4000_0000;
    OrDisjoint(g, i * 0x20_0000, 30);
    OrDisjoint(g * 512 + i, j * 0x1000, 21);
  }

  /** Bit 12 is there already. */
  lemma OrIdempotent(p: nat, j: nat)
    requires j < 512
    ensures Or(p * 0x20_0000 + j * 0x1000, j % 2 * 0x1000) == p * 0x20_0000 + j * 0x1000
  {
    hide Or;
    var x := p * 0x200 + j;
    assert p * 0x20_0000 + j * 0x1000 == x * 0x1000;
    OrParts(x * 0x1000, j % 2 * 0x1000);
    OrHalf(x, j % 2);
    OrZero(x / 2);
    assert x % 2 == j % 2;
  }
}
