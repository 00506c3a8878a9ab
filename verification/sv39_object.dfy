/** map_small_page and virt_to_phys as the source has them: they assign table entries in place
    in physical memory, taking pages from the memory manager. */
module Sv39Object {
  import opened Num
  import opened Memory
  import opened Sv39
  import Pmm
  import opened PmmObject

  function VmOf(mm: MemoryManager): Vm
    reads mm, mm.slab, mm.regions, mm.mem
    requires mm.Valid()
  {
    Vm(mm.mem.words, mm.St())
  }

  /** One of the two `if (!entry.is_valid())` blocks of map_small_page. */
  method EnsureTableAt(mm: MemoryManager, table: nat, i: nat) returns (res: MapResult)
    requires mm.Valid()
    modifies mm, mm.slab, mm.regions, mm.mem
    ensures mm.Valid() && res == EnsureTable(old(VmOf(mm)), table, i).0
    ensures res != Halted ==> VmOf(mm) == EnsureTable(old(VmOf(mm)), table, i).1
  {
    hide IsValid, Entry, ZeroFill, AlignUp, Pmm.AllocAligned;
    var entry := Load(mm.mem.words, EntryAddr(table, i));
    if !IsValid(entry) {
      var page := mm.AllocateAligned(PAGE_SIZE, PAGE_SIZE);
      match page
      case Granted(pa) =>
        mm.mem.words := mm.mem.words[EntryAddr(table, i) := Entry(pa, TEF_VALID)];
      case BadAlign => return AllocFailed;
      case OutOfMem => return AllocFailed;
      case Unimplemented => return Halted;
      case Crash => return Halted;
    }
    return Mapped;
  }

  method MapPage(mm: MemoryManager, root: nat, va: u64, pa: u64, flags: u64) returns (res: MapResult)
    requires mm.Valid()
    modifies mm, mm.slab, mm.regions, mm.mem
    ensures mm.Valid() && res == MapSmallPage(old(VmOf(mm)), root, va, pa, flags).0
    ensures res != Halted ==> VmOf(mm) == MapSmallPage(old(VmOf(mm)), root, va, pa, flags).1
  {
    hide IsValid, Entry, EnsureTable, VpnOf, GetAddress, OrWord;
    if !IsAligned(va, TABLE_ALIGN) || !IsAligned(pa, TABLE_ALIGN) {
      return Unaligned;
    }
    var v := VpnOf(va);
    res := EnsureTableAt(mm, root, v.l2);
    if res != Mapped {
      return;
    }
    var l1 := GetAddress(Load(mm.mem.words, EntryAddr(root, v.l2)));
    res := EnsureTableAt(mm, l1, v.l1);
    if res != Mapped {
      return;
    }
    var l0 := GetAddress(Load(mm.mem.words, EntryAddr(l1, v.l1)));
    if IsValid(Load(mm.mem.words, EntryAddr(l0, v.l0))) {
      return MapExists;
    }
    mm.mem.words := mm.mem.words[EntryAddr(l0, v.l0) := Entry(pa, OrWord(flags, TEF_VALID))];
    return Mapped;
  }

  method Translate(mem: PhysicalMemory, root: nat, va: u64) returns (walk: Walk)
    ensures walk == VirtToPhys(mem.words, root, va)
  {
    hide IsValid, IsLeaf, LeafAddress, PageOffset, OrWord, VpnOf, GetAddress;
    var v := VpnOf(va);
    var pageOffset := PageOffset(va);
    var table: nat := root;
    var level := 2;
    while level >= 0
      invariant -1 <= level <= 2
      invariant VirtToPhys(mem.words, root, va) ==
                  if level >= 0 then WalkFrom(mem.words, table, va, level) else FellThrough
    {
      var pte := Load(mem.words, EntryAddr(table, Index(v, level)));
      if !IsValid(pte) {
        return Fault;
      }
      if IsLeaf(pte) {
        return Address(OrWord(LeafAddress(pte, v, level), pageOffset));
      }
      table := GetAddress(pte);
      level := level - 1;
    }
    return FellThrough;
  }
}
