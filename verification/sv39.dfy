/** Sv39 page tables: kernel/include/riscv/sv39.h and kernel/src/riscv/sv39.cpp, as written.
    Tables are pages of 512 64-bit entries in physical memory. */
module Sv39 {
  import opened Num
  import opened Memory
  import Pmm
  import PmmObject

  const TEF_VALID: u64 := 1
  const TEF_READ: u64 := 2
  const TEF_WRITE: u64 := 4
  const TEF_EXECUTE: u64 := 8
  const ENTRY_COUNT: nat := 512
  // alignof(page_table): the alignment of a 64-bit word, not of a page.
  const TABLE_ALIGN: u64 := 8

  // ---------------------------------------------------------------- table entries

  function OrWord(x: u64, y: u64): (r: u64)
    ensures r == Or(x, y)
  {
    PowWord();
    OrBound(x, y, 64);
    Or(x, y)
  }

  /** table_entry(page_address, flags): (page_address >> 2) | flags. */
  function Entry(pa: u64, flags: u64): u64 {
    OrWord(pa / 4, flags)
  }

  /** (entry >> 10) << 12, and the variants for larger pages. */
  function GetAddress(e: u64): u64 {
    Wrap(e / 0x400 * 0x1000)
  }

  function GetMegapageAddr(e: u64): u64 {
    Wrap(e / 0x400 * 0x20_0000)
  }

  function GetGigapageAddr(e: u64): u64 {
    Wrap(e / 0x400 * 0x4000_0000)
  }

  predicate IsValid(e: u64) {
    And(e, TEF_VALID) != 0
  }

  predicate IsLeaf(e: u64) {
    And(e, TEF_READ) != 0 || And(e, TEF_WRITE) != 0 || And(e, TEF_EXECUTE) != 0
  }

  // ---------------------------------------------------------------- addresses

  /** The three 9-bit indices of a virtual page. */
  datatype Vpn = Vpn(l2: nat, l1: nat, l0: nat)

  function VpnOf(va: u64): Vpn {
    Vpn(And(va / 0x4000_0000, 0x1FF), And(va / 0x20_0000, 0x1FF), And(va / 0x1000, 0x1FF))
  }

  function EntryAddr(table: nat, i: nat): nat {
    table + WORD_BYTES * i
  }

  function EntryAt(m: Words, table: nat, i: nat): u64 {
    Load(m, EntryAddr(table, i))
  }

  // ---------------------------------------------------------------- map_small_page

  /** `Halted`: the memory manager did not return. */
  datatype MapResult = Mapped | Unaligned | AllocFailed | MapExists | Halted

  datatype Vm = Vm(mem: Words, pmm: Pmm.State)

  /** If entry i of the table is not valid, give it a fresh table. */
  function EnsureTable(s: Vm, table: nat, i: nat): (MapResult, Vm) {
    if IsValid(EntryAt(s.mem, table, i)) then (Mapped, s)
    else
      var (res, pmm') := Pmm.Alloc(s.pmm, PAGE_SIZE);
      match res
      case Granted(page) =>
        var zeroed := PmmObject.FillGrant(s.mem, res, PAGE_SIZE);
        (Mapped, Vm(zeroed[EntryAddr(table, i) := Entry(page, TEF_VALID)], pmm'))
      case BadAlign => (AllocFailed, s.(pmm := pmm'))
      case OutOfMem => (AllocFailed, s.(pmm := pmm'))
      case Unimplemented => (Halted, s)
      case Crash => (Halted, s)
  }

  function MapSmallPage(s: Vm, root: nat, va: u64, pa: u64, flags: u64): (MapResult, Vm) {
    if !IsAligned(va, TABLE_ALIGN) || !IsAligned(pa, TABLE_ALIGN) then (Unaligned, s)
    else
      var v := VpnOf(va);
      var (r2, s2) := EnsureTable(s, root, v.l2);
      if r2 != Mapped then (r2, s2) else
      var l1 := GetAddress(EntryAt(s2.mem, root, v.l2));
      var (r1, s1) := EnsureTable(s2, l1, v.l1);
      if r1 != Mapped then (r1, s1) else
      var l0 := GetAddress(EntryAt(s1.mem, l1, v.l1));
      if IsValid(EntryAt(s1.mem, l0, v.l0)) then (MapExists, s1)
      else (Mapped, s1.(mem := s1.mem[EntryAddr(l0, v.l0) := Entry(pa, OrWord(flags, TEF_VALID))]))
  }

  // ---------------------------------------------------------------- virt_to_phys

  /** `Fault` is the value -1; `FellThrough` is the end of the loop, which is unreachable for
      the compiler. */
  datatype Walk = Fault | Address(pa: u64) | FellThrough

  function Index(v: Vpn, level: nat): nat
    requires level <= 2
  {
    if level == 2 then v.l2 else if level == 1 then v.l1 else v.l0
  }

  /** The address taken from a leaf, by level. Level 1 uses the logical or. */
  function LeafAddress(e: u64, v: Vpn, level: nat): u64 {
    if level == 2 then OrWord(OrWord(GetGigapageAddr(e), Wrap(v.l1 * 0x20_0000)), Wrap(v.l0 * 0x1000))
    else if level == 1 then if GetMegapageAddr(e) != 0 || Wrap(v.l0 * 0x1000) != 0 then 1 else 0
    else GetAddress(e)
  }

  /** The page offset is va & PAGE_SIZE: one bit, not the low twelve. */
  function PageOffset(va: u64): u64 {
    And(va, PAGE_SIZE)
  }

  function WalkFrom(m: Words, table: nat, va: u64, level: nat): Walk
    requires level <= 2
    decreases level
  {
    var e := EntryAt(m, table, Index(VpnOf(va), level));
    if !IsValid(e) then Fault
    else if IsLeaf(e) then Address(OrWord(LeafAddress(e, VpnOf(va), level), PageOffset(va)))
    else if level == 0 then FellThrough
    else WalkFrom(m, GetAddress(e), va, level - 1)
  }

  function VirtToPhys(m: Words, root: nat, va: u64): Walk {
    WalkFrom(m, root, va, 2)
  }
}
