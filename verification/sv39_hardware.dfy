/** The walk of the processor over tables that map_small_page built: the address translation of
    sections 4.3.2 and 4.4 of the RISC-V Privileged Architecture, without the checks of privilege
    and of the accessed and dirty bits. */
module Sv39Hardware {
  import opened Options
  import opened Num
  import opened Memory
  import opened Sv39
  import opened Sv39Bits
  import opened Sv39Tables
  import opened Sv39Map
  import opened Sv39Theorems
  import opened Sv39Plain
  import Pmm
  import PmmProofs

  datatype Translation = PageFault | Physical(pa: nat)

  /** Bits 63 to 39 equal bit 38. */
  predicate Canonical(va: u64) {
    va < 0x40_0000_0000 || va >= 0xFFFF_FFC0_0000_0000
  }

  /** Bits 53 to 10. */
  function Ppn(e: u64): nat {
    e / 0x400 % 0x1000_0000_0000
  }

  /** The bytes one entry of a level spans. */
  function Span(level: nat): (n: nat)
    requires level <= 2
    ensures n > 0
  {
    if level == 2 then 0x4000_0000 else if level == 1 then 0x20_0000 else 0x1000
  }

  predicate Readable(e: u64) { e / 2 % 2 == 1 }
  predicate Writable(e: u64) { e / 4 % 2 == 1 }
  predicate Executable(e: u64) { e / 8 % 2 == 1 }

  /** Not valid, writable but not readable, or one of the reserved bits 63 to 54 set. */
  predicate Faulty(e: u64) {
    e % 2 == 0 || (!Readable(e) && Writable(e)) || e >= 0x40_0000_0000_0000
  }

  function WalkOn(m: Words, table: nat, va: u64, level: nat): Translation
    requires level <= 2
    decreases level
  {
    var e := Load(m, table + 8 * (va / Span(level) % 512));
    if Faulty(e) then PageFault
    else if Readable(e) || Executable(e) then
      if Ppn(e) * 0x1000 % Span(level) != 0 then PageFault else Physical(Ppn(e) * 0x1000 + va % Span(level))
    else if level == 0 then PageFault
    else WalkOn(m, Ppn(e) * 0x1000, va, level - 1)
  }

  function Hardware(m: Words, root: nat, va: u64): Translation {
    if Canonical(va) then WalkOn(m, root, va, 2) else PageFault
  }

  // ---------------------------------------------------------------- no reserved bits

  /** All managed memory lies below 2^56, the physical address space. */
  ghost predicate Low(s: Pmm.State) {
    forall x :: Pmm.Managed(s, x) ==> x < 0x100_0000_0000_0000
  }

  /** The valid entries of the two upper levels have no reserved bit set. */
  ghost predicate Clean(m: Words, root: nat) {
    forall p, i: nat :: ValidPath(p) && |p| < 2 && i < ENTRY_COUNT ==> CleanAt(m, root, p, i)
  }

  ghost predicate CleanAt(m: Words, root: nat, p: seq<nat>, i: nat) {
    match TableAt(m, root, p)
    case None => true
    case Some(t) => IsValid(EntryAt(m, t, i)) ==> EntryAt(m, t, i) < 0x40_0000_0000_0000
  }

  lemma LowEntry(page: u64)
    requires page % PAGE_SIZE == 0 && page < 0x100_0000_0000_0000
    ensures Entry(page, TEF_VALID) < 0x40_0000_0000_0000
  {
    hide Entry, GetAddress, IsValid, IsLeaf;
    EntryFields(page, TEF_VALID);
  }

  lemma CarvedLow(s: Pmm.State, t: Pmm.State, base: int)
    requires PmmProofs.Carved(s, t, base, PAGE_SIZE) && Low(s) && Pmm.Inv(s)
    ensures Low(t) && base < 0x100_0000_0000_0000
  {
    hide Pmm.Inv, Pmm.Free, Pmm.Managed;
    assert Pmm.Free(s, base);
    FreeIsManaged(s, base);
  }

  lemma HungClean(s: Vm, root: nat, p: seq<nat>, i: nat, page: u64, t: Vm)
    requires Inv(s, root) && ValidPath(p + [i]) && ValidPath(p) && page % PAGE_SIZE == 0
    requires TableAt(s.mem, root, p).Some? && Hung(s, root, p, i, page, t) && Clean(s.mem, root) && Low(s.pmm)
    ensures Clean(t.mem, root) && Low(t.pmm)
  {
    hide Pmm.Inv, Pmm.Available, PmmProofs.Carved, IsValid, Entry, TableAt, EntryAt, OwnedPage, Injective, LeafUnder, Low;
    CarvedLow(s.pmm, t.pmm, page);
    LowEntry(page);
    assert !IsValid(0) by { FlagBits(0); }
    forall q, k: nat | ValidPath(q) && |q| < 2 && k < ENTRY_COUNT
      ensures CleanAt(t.mem, root, q, k)
    {
      assert CleanAt(s.mem, root, q, k);
    }
  }

  lemma EnsureClean(s: Vm, root: nat, a: Abs, p: seq<nat>, i: nat)
    requires Refines(s, root, a) && ValidPath(p + [i]) && ValidPath(p) && p in a.tables && Clean(s.mem, root) && Low(s.pmm)
    ensures TableAt(s.mem, root, p).Some?
    ensures var t := EnsureTable(s, TableAt(s.mem, root, p).value, i).1; Clean(t.mem, root) && Low(t.pmm)
  {
    hide Pmm.Inv, Pmm.Alloc, Pmm.Available, IsValid, IsLeaf, Entry, GetAddress, AlignUp, ZeroFill, OneEntry, Lookup, Inv, Clean, Low, Hung;
    var c := p + [i];
    assert c[..|p|] == p && c[|p|] == i;
    var table := TableAt(s.mem, root, p).value;
    if c !in a.tables {
      assert Pmm.Inv(s.pmm) && s.pmm.policy == Pmm.FirstFit by { InvPmm(s, root); }
      if a.free == 0 {
        var page, pmm' := AllocPage(s.pmm);
      } else {
        var page := HangTable(s, root, p, i);
        HungClean(s, root, p, i, page, EnsureTable(s, table, i).1);
      }
    }
  }

  lemma LeafClean(s: Vm, root: nat, a: Abs, v: Vpn, e: u64)
    requires Refines(s, root, a) && ValidVpn(v) && [v.l2, v.l1] in a.tables && Clean(s.mem, root)
    ensures TableAt(s.mem, root, [v.l2, v.l1]).Some?
    ensures Clean(s.mem[EntryAddr(TableAt(s.mem, root, [v.l2, v.l1]).value, v.l0) := e], root)
  {
    hide Pmm.Inv, Pmm.Available, TableAt, IsValid, IsLeaf, EntryAt, EntryAddr, OwnedPage, LeafUnder, Lookup;
    var p := [v.l2, v.l1];
    assert ValidPath(p);
    var m' := s.mem[EntryAddr(TableAt(s.mem, root, p).value, v.l0) := e];
    LeafTables(s, root, a, v, e, m');
    forall q, k: nat | ValidPath(q) && |q| < 2 && k < ENTRY_COUNT
      ensures CleanAt(m', root, q, k)
    {
      assert CleanAt(s.mem, root, q, k);
      if TableAt(s.mem, root, q).Some? { assert !SameTable(s.mem, root, q, p); }
    }
  }

  lemma MapClean(s: Vm, root: nat, a: Abs, va: u64, pa: u64, flags: u64)
    requires Refines(s, root, a) && Clean(s.mem, root) && Low(s.pmm)
    ensures var t := MapSmallPage(s, root, va, pa, flags).1; Clean(t.mem, root) && Low(t.pmm)
  {
    hide Refines, KeepsForeign, EnsureTable, AbsEnsure, TableAt, IsValid, VpnOf, Entry, OrWord, EntryAt, GetAddress, EntryAddr, Clean, Low;
    var v := VpnOf(va);
    VpnValid(va);
    RefinesRoot(s, root, a);
    assert [] + [v.l2] == [v.l2] && [v.l2] + [v.l1] == [v.l2, v.l1];
    EnsureRefines(s, root, a, [], v.l2);
    EnsureClean(s, root, a, [], v.l2);
    var (r2, s2) := EnsureTable(s, root, v.l2);
    var a2 := AbsEnsure(a, [v.l2]).1;
    if r2 == Mapped {
      EnsureRefines(s2, root, a2, [v.l2], v.l1);
      EnsureClean(s2, root, a2, [v.l2], v.l1);
      var l1 := GetAddress(EntryAt(s2.mem, root, v.l2));
      var (r1, s1) := EnsureTable(s2, l1, v.l1);
      var a1 := AbsEnsure(a2, [v.l2, v.l1]).1;
      if r1 == Mapped {
        LeafClean(s1, root, a1, v, Entry(pa, OrWord(flags, TEF_VALID)));
      }
    }
  }

  lemma FreshClean(s: Vm, root: nat)
    requires FreshRoot(s, root)
    ensures Clean(s.mem, root)
  {
    hide Pmm.Inv, Pmm.Available, IsValid, EntryAt, GetAddress, TableAt;
    assert !IsValid(0) by { FlagBits(0); }
    forall p, i: nat | ValidPath(p) && |p| < 2 && i < ENTRY_COUNT
      ensures CleanAt(s.mem, root, p, i)
    {
      OnlyRoot(s.mem, root, p);
    }
  }

  /** Over every run from a zeroed root. */
  lemma {:induction false} RunClean(s: Vm, root: nat, reqs: seq<Request>)
    requires FreshRoot(s, root) && Low(s.pmm)
    ensures var t := MapAll(s, root, reqs).0; Clean(t.mem, root) && Low(t.pmm)
  {
    hide FreshRoot, Refines, MapSmallPage, AbsMap, KeepsForeign, Clean, Low;
    if reqs == [] {
      FreshClean(s, root);
    } else {
      var front, r := reqs[..|reqs| - 1], reqs[|reqs| - 1];
      RunClean(s, root, front);
      RunRefines(s, root, front);
      MapClean(MapAll(s, root, front).0, root, AbsMapAll(Start(s), front).0, r.va, r.pa, r.flags);
    }
  }

  // ---------------------------------------------------------------- what the processor translates

  /** The processor's answer for an entry of the last level. */
  function LeafAnswer(e: u64, va: u64): Translation {
    if Faulty(e) || !(Readable(e) || Executable(e)) then PageFault else Physical(Ppn(e) * 0x1000 + va % 0x1000)
  }

  /** An entry that points to a table. */
  lemma TableEntry(e: u64)
    requires IsValid(e) && !IsLeaf(e) && e < 0x40_0000_0000_0000
    ensures !Faulty(e) && !Readable(e) && !Executable(e) && Ppn(e) * 0x1000 == PageOf(e)
  {
    hide IsValid, IsLeaf;
    FlagBits(e);
    SmallMod(e / 0x400, 0x1000_0000_0000);
    SmallMod(e / 0x400 * 0x1000, WORD);
  }

  lemma NoEntry(e: u64)
    requires !IsValid(e)
    ensures Faulty(e)
  {
    hide IsValid;
    ValidBit(e);
  }

  /** On clean tables the processor finds exactly the mapped pages. */
  lemma HardwareResult(s: Vm, root: nat, a: Abs, va: u64)
    requires Refines(s, root, a) && Clean(s.mem, root) && Canonical(va)
    ensures Hardware(s.mem, root, va) == if VpnOf(va) in a.view then LeafAnswer(a.view[VpnOf(va)], va) else PageFault
  {
    hide Pmm.Inv, Pmm.Available, IsValid, IsLeaf, EntryAt, GetAddress, Injective, OwnedPage, Faulty, Readable, Executable, PageOf, Slot, VpnOf, Ppn;
    VpnValid(va);
    VpnValue(va);
    var v := VpnOf(va);
    assert Lookup(s.mem, root, v) == if v in a.view then Some(a.view[v]) else None;
    assert ValidPath([]) && ValidPath([v.l2]) && ValidPath([v.l2, v.l1]);
    assert [v.l2, v.l1][..1] == [v.l2] && [v.l2][..0] == [];
    var m := s.mem;
    var e2 := Slot(m, root, v.l2);
    SlotIs(m, root, v.l2);
    assert !LeafUnder(m, root, [], v.l2) && CleanAt(m, root, [], v.l2);
    if !IsValid(e2) {
      NoEntry(e2);
    } else {
      TableEntry(e2);
      PageIs(e2);
      SecondLevel(s, root, va, v);
    }
    HardwareTop(m, root, va);
  }

  /** The first step of the walk. */
  lemma HardwareTop(m: Words, root: nat, va: u64)
    requires Canonical(va)
    ensures var e := Slot(m, root, va / 0x4000_0000 % 512);
            && (Faulty(e) ==> Hardware(m, root, va) == PageFault)
            && (!Faulty(e) && !Readable(e) && !Executable(e) ==> Hardware(m, root, va) == WalkOn(m, Ppn(e) * 0x1000, va, 1))
  {
    hide Faulty, Readable, Executable, Ppn;
  }

  lemma HardwareMiddle(m: Words, table: nat, va: u64)
    ensures var e := Slot(m, table, va / 0x20_0000 % 512);
            && (Faulty(e) ==> WalkOn(m, table, va, 1) == PageFault)
            && (!Faulty(e) && !Readable(e) && !Executable(e) ==> WalkOn(m, table, va, 1) == WalkOn(m, Ppn(e) * 0x1000, va, 0))
  {
    hide Faulty, Readable, Executable, Ppn;
  }

  lemma HardwareLast(m: Words, table: nat, va: u64)
    ensures WalkOn(m, table, va, 0) == LeafAnswer(Slot(m, table, va / 0x1000 % 512), va)
  {
    hide Faulty, Readable, Executable;
  }

  lemma SecondLevel(s: Vm, root: nat, va: u64, v: Vpn)
    requires Inv(s, root) && Clean(s.mem, root) && ValidVpn(v) && v.l1 == va / 0x20_0000 % 512 && v.l0 == va / 0x1000 % 512
    requires TableAt(s.mem, root, [v.l2]).Some?
    ensures WalkOn(s.mem, TableAt(s.mem, root, [v.l2]).value, va, 1) ==
              match Lookup(s.mem, root, v)
              case None => PageFault
              case Some(e) => LeafAnswer(e, va)
  {
    hide Pmm.Inv, Pmm.Available, IsValid, IsLeaf, EntryAt, GetAddress, Injective, OwnedPage, Faulty, Readable, Executable, PageOf, Slot, Ppn, WalkOn;
    var m, table := s.mem, TableAt(s.mem, root, [v.l2]).value;
    assert ValidPath([v.l2]);
    assert [v.l2, v.l1][..1] == [v.l2];
    var e1 := Slot(m, table, v.l1);
    SlotIs(m, table, v.l1);
    assert !LeafUnder(m, root, [v.l2], v.l1) && CleanAt(m, root, [v.l2], v.l1);
    HardwareMiddle(m, table, va);
    if !IsValid(e1) {
      NoEntry(e1);
    } else {
      TableEntry(e1);
      PageIs(e1);
      var l0 := PageOf(e1);
      HardwareLast(m, l0, va);
      SlotIs(m, l0, v.l0);
      if !IsValid(Slot(m, l0, v.l0)) { NoEntry(Slot(m, l0, v.l0)); }
    }
  }

  /** After every sequence of calls, and for every canonical address: the processor translates
      it exactly when the page is mapped, with the entry's page number and the address's offset,
      and page-faults otherwise. */
  lemma RunTranslates(s: Vm, root: nat, reqs: seq<Request>, va: u64)
    requires FreshRoot(s, root) && Low(s.pmm) && Canonical(va)
    ensures var t, b := MapAll(s, root, reqs).0, AbsMapAll(Start(s), reqs).0;
            Hardware(t.mem, root, va) == if VpnOf(va) in b.view then LeafAnswer(b.view[VpnOf(va)], va) else PageFault
  {
    hide FreshRoot, Refines, MapAll, AbsMapAll, Clean, Low, Hardware, LeafAnswer, VpnOf;
    RunClean(s, root, reqs);
    RunRefines(s, root, reqs);
    HardwareResult(MapAll(s, root, reqs).0, root, AbsMapAll(Start(s), reqs).0, va);
  }

  /** A page-aligned page of the physical address space, mapped readable or executable and not
      writable only, is what the processor translates every address of the mapped page to, with
      the full offset. */
  lemma MapThenHardware(s: Vm, root: nat, reqs: seq<Request>, r: Request, w: u64)
    requires FreshRoot(s, root) && Low(s.pmm) && Canonical(w)
    requires MapSmallPage(MapAll(s, root, reqs).0, root, r.va, r.pa, r.flags).0 == Mapped
    requires r.pa % 4096 == 0 && r.pa < 0x100_0000_0000_0000 && r.flags < 0x400
    requires w / 4096 % 0x800_0000 == r.va / 4096 % 0x800_0000
    ensures var t := MapSmallPage(MapAll(s, root, reqs).0, root, r.va, r.pa, r.flags).1;
            Hardware(t.mem, root, w) ==
              if (Readable(r.flags) || Executable(r.flags)) && (Writable(r.flags) ==> Readable(r.flags))
              then Physical(r.pa + w % 4096) else PageFault
  {
    hide FreshRoot, Refines, MapAll, AbsMapAll, MapSmallPage, AbsMap, Clean, Low, Hardware, LeafAnswer, VpnOf, Readable, Executable, Writable, Entry, OrWord;
    var u, b := MapAll(s, root, reqs).0, AbsMapAll(Start(s), reqs).0;
    RunClean(s, root, reqs);
    RunRefines(s, root, reqs);
    MapClean(u, root, b, r.va, r.pa, r.flags);
    MapRefines(u, root, b, r.va, r.pa, r.flags);
    var t, c := MapSmallPage(u, root, r.va, r.pa, r.flags).1, AbsMap(b, r.va, r.pa, r.flags).1;
    HardwareResult(t, root, c, w);
    VpnIff(w, r.va);
    MappedEntry(b, r.va, r.pa, r.flags);
    NewLeaf(r.pa, r.flags, w);
  }

  lemma MappedEntry(a: Abs, va: u64, pa: u64, flags: u64)
    requires AbsMap(a, va, pa, flags).0 == Mapped
    ensures VpnOf(va) in AbsMap(a, va, pa, flags).1.view
    ensures AbsMap(a, va, pa, flags).1.view[VpnOf(va)] == Entry(pa, OrWord(flags, TEF_VALID))
  {
    hide Entry, OrWord, VpnOf;
  }

  lemma NewLeaf(pa: u64, flags: u64, w: u64)
    requires pa % 4096 == 0 && pa < 0x100_0000_0000_0000 && flags < 0x400
    ensures LeafAnswer(Entry(pa, OrWord(flags, TEF_VALID)), w) ==
              if (Readable(flags) || Executable(flags)) && (Writable(flags) ==> Readable(flags))
              then Physical(pa + w % 4096) else PageFault
  {
    hide OrWord, Entry, GetAddress, IsValid, IsLeaf, Or;
    var f := OrWord(flags, TEF_VALID);
    ValidFlags(flags);
    OrHalf(flags, 1);
    OrZero(flags / 2);
    EntryFields(pa, f);
    var e := Entry(pa, f);
    EntryParts(pa, f);
    HalvesOf(f, flags);
  }

  lemma HalvesOf(f: nat, flags: nat)
    requires f / 2 == flags / 2
    ensures f / 4 == flags / 4 && f / 8 == flags / 8
  {
    Quarters(f);
    Quarters(flags);
  }

  /** The fields of an entry for an aligned page below 2^56. */
  lemma EntryParts(pa: u64, f: u64)
    requires pa % 4096 == 0 && pa < 0x100_0000_0000_0000 && f < 0x400
    ensures var e := pa / 4 + f;
            && e < 0x40_0000_0000_0000 && e / 0x400 % 0x1000_0000_0000 * 0x1000 == pa
            && e % 2 == f % 2 && e / 2 % 2 == f / 2 % 2 && e / 4 % 2 == f / 4 % 2 && e / 8 % 2 == f / 8 % 2
  {
    var p := pa / 4096;
    assert pa == p * 4096 && pa / 4 == p * 0x400;
    LowFlagParts(p, f, pa / 4 + f);
    ModUnique(pa / 4 + f, 0x400, p, f);
    SmallMod(p, 0x1000_0000_0000);
  }
}
