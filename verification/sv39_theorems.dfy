/** The main results about map_small_page and virt_to_phys, for one call and for whole runs. */
module Sv39Theorems {
  import opened Options
  import opened Num
  import opened Memory
  import opened Sv39
  import opened Sv39Bits
  import opened Sv39Tables
  import opened Sv39Map
  import Pmm
  import PmmObject

  // ---------------------------------------------------------------- the leaf entry

  lemma LeafTables(s: Vm, root: nat, a: Abs, v: Vpn, e: u64, m': Words)
    requires Refines(s, root, a) && ValidVpn(v) && [v.l2, v.l1] in a.tables
    requires m' == s.mem[EntryAddr(TableAt(s.mem, root, [v.l2, v.l1]).value, v.l0) := e]
    ensures OneEntry(s.mem, root, m', TableAt(s.mem, root, [v.l2, v.l1]).value, v.l0, e)
    ensures forall x :: ValidPath(x) ==> TableAt(m', root, x) == TableAt(s.mem, root, x)
  {
    hide Pmm.Inv, Pmm.Available, ViewIs, OneEntry, TableAt;
    var p := [v.l2, v.l1];
    WriteEntry(s, root, p, v.l0, e);
    forall x | ValidPath(x)
      ensures TableAt(m', root, x) == TableAt(s.mem, root, x)
    {
      SameTables(s.mem, root, m', p, v.l0, e, x);
    }
  }

  lemma LeafInv(s: Vm, root: nat, a: Abs, v: Vpn, e: u64, t: Vm)
    requires Refines(s, root, a) && ValidVpn(v) && [v.l2, v.l1] in a.tables && t.pmm == s.pmm
    requires OneEntry(s.mem, root, t.mem, TableAt(s.mem, root, [v.l2, v.l1]).value, v.l0, e)
    requires forall x :: ValidPath(x) ==> TableAt(t.mem, root, x) == TableAt(s.mem, root, x)
    ensures Inv(t, root)
  {
    hide Pmm.Inv, Pmm.Available, ViewIs, TableAt, EntryAt, IsValid, IsLeaf;
    var p := [v.l2, v.l1];
    forall q, k: nat | ValidPath(q) && |q| < 2 && k < ENTRY_COUNT
      ensures !LeafUnder(t.mem, root, q, k)
    {
      assert !LeafUnder(s.mem, root, q, k);
      assert TableAt(s.mem, root, q).Some? ==> !SameTable(s.mem, root, q, p);
    }
    forall x, y | ValidPath(x) && ValidPath(y) && SameTable(t.mem, root, x, y)
      ensures x == y
    {
      assert SameTable(s.mem, root, x, y);
    }
  }

  lemma LeafView(s: Vm, root: nat, a: Abs, v: Vpn, e: u64, m': Words)
    requires Refines(s, root, a) && ValidVpn(v) && [v.l2, v.l1] in a.tables && IsValid(e)
    requires OneEntry(s.mem, root, m', TableAt(s.mem, root, [v.l2, v.l1]).value, v.l0, e)
    requires forall x :: ValidPath(x) ==> TableAt(m', root, x) == TableAt(s.mem, root, x)
    ensures ViewIs(m', root, a.view[v := e])
  {
    hide Pmm.Inv, Pmm.Available, TableAt, EntryAt, IsValid, IsLeaf;
    var p := [v.l2, v.l1];
    forall w | ValidVpn(w)
      ensures Lookup(m', root, w) == if w in a.view[v := e] then Some(a.view[v := e][w]) else None
    {
      var q := [w.l2, w.l1];
      assert ValidPath(q) && ValidPath(p);
      assert q == p <==> w.l2 == v.l2 && w.l1 == v.l1;
      if q != p && TableAt(s.mem, root, q).Some? {
        assert !SameTable(s.mem, root, q, p);
      }
      assert Lookup(s.mem, root, w) == if w in a.view then Some(a.view[w]) else None;
    }
  }

  lemma LeafForeign(s: Vm, root: nat, a: Abs, v: Vpn, e: u64, t: Vm)
    requires Refines(s, root, a) && ValidVpn(v) && [v.l2, v.l1] in a.tables
    requires t == s.(mem := s.mem[EntryAddr(TableAt(s.mem, root, [v.l2, v.l1]).value, v.l0) := e])
    requires forall x :: ValidPath(x) ==> TableAt(t.mem, root, x) == TableAt(s.mem, root, x)
    ensures KeepsForeign(s, root, t)
  {
    hide Pmm.Inv, Pmm.Available, Pmm.Free, ViewIs, TableAt;
    var p := [v.l2, v.l1];
    assert OwnedPage(s.pmm, TableAt(s.mem, root, p).value);
    EntriesApart(TableAt(s.mem, root, p).value, v.l0, TableAt(s.mem, root, p).value, v.l0);
  }

  lemma WriteLeaf(s: Vm, root: nat, a: Abs, v: Vpn, e: u64)
    requires Refines(s, root, a) && ValidVpn(v) && [v.l2, v.l1] in a.tables && IsValid(e)
    ensures TableAt(s.mem, root, [v.l2, v.l1]).Some?
    ensures var t := s.(mem := s.mem[EntryAddr(TableAt(s.mem, root, [v.l2, v.l1]).value, v.l0) := e]);
            Refines(t, root, a.(view := a.view[v := e])) && KeepsForeign(s, root, t)
  {
    hide Pmm.Inv, Pmm.Available, TableAt, IsValid, IsLeaf, OneEntry, ViewIs, Inv, KeepsForeign;
    assert ValidPath([v.l2, v.l1]);
    var t := s.(mem := s.mem[EntryAddr(TableAt(s.mem, root, [v.l2, v.l1]).value, v.l0) := e]);
    LeafTables(s, root, a, v, e, t.mem);
    LeafInv(s, root, a, v, e, t);
    LeafView(s, root, a, v, e, t.mem);
    LeafForeign(s, root, a, v, e, t);
  }

  // ---------------------------------------------------------------- one call

  lemma VpnValid(va: u64)
    ensures ValidVpn(VpnOf(va))
  {
    hide VpnOf;
    VpnValue(va);
  }

  lemma ForeignTrans(s: Vm, t: Vm, u: Vm, root: nat)
    requires KeepsForeign(s, root, t) && KeepsForeign(t, root, u)
    ensures KeepsForeign(s, root, u)
  {
    hide Foreign;
  }

  lemma LookupIn(s: Vm, root: nat, a: Abs, v: Vpn)
    requires Refines(s, root, a) && ValidVpn(v) && [v.l2, v.l1] in a.tables
    ensures TableAt(s.mem, root, [v.l2, v.l1]).Some?
    ensures v in a.view <==> IsValid(EntryAt(s.mem, TableAt(s.mem, root, [v.l2, v.l1]).value, v.l0))
  {
    hide Inv, TableAt, IsValid, EntryAt;
    assert ValidPath([v.l2, v.l1]);
    assert Lookup(s.mem, root, v) == if v in a.view then Some(a.view[v]) else None;
  }

  /** map_small_page, for every address, page and flags: the result and the new tables are those
      of the finite-map operation, and no other word of assigned memory changes. */
  lemma MapRefines(s: Vm, root: nat, a: Abs, va: u64, pa: u64, flags: u64)
    requires Refines(s, root, a)
    ensures var (res, t) := MapSmallPage(s, root, va, pa, flags);
            var (res', b) := AbsMap(a, va, pa, flags);
            res == res' && Refines(t, root, b) && KeepsForeign(s, root, t)
  {
    hide Refines, KeepsForeign, EnsureTable, AbsEnsure, TableAt, IsValid, VpnOf, Entry, OrWord, EntryAt, GetAddress;
    var v := VpnOf(va);
    VpnValid(va);
    RefinesRoot(s, root, a);
    if va % TABLE_ALIGN == 0 && pa % TABLE_ALIGN == 0 {
      assert [] + [v.l2] == [v.l2] && [v.l2] + [v.l1] == [v.l2, v.l1];
      EnsureRefines(s, root, a, [], v.l2);
      var (r2, s2) := EnsureTable(s, root, v.l2);
      var a2 := AbsEnsure(a, [v.l2]).1;
      if r2 == Mapped {
        EnsureRefines(s2, root, a2, [v.l2], v.l1);
        var l1 := GetAddress(EntryAt(s2.mem, root, v.l2));
        var (r1, s1) := EnsureTable(s2, l1, v.l1);
        var a1 := AbsEnsure(a2, [v.l2, v.l1]).1;
        ForeignTrans(s, s2, s1, root);
        if r1 == Mapped {
          LookupIn(s1, root, a1, v);
          if v !in a1.view {
            var e := Entry(pa, OrWord(flags, TEF_VALID));
            EntryValid(pa, flags);
            WriteLeaf(s1, root, a1, v, e);
            ForeignTrans(s, s1, s1.(mem := s1.mem[EntryAddr(TableAt(s1.mem, root, [v.l2, v.l1]).value, v.l0) := e]), root);
          }
        }
      }
    }
  }

  lemma RefinesRoot(s: Vm, root: nat, a: Abs)
    requires Refines(s, root, a)
    ensures [] in a.tables && TableAt(s.mem, root, []) == Some(root) && KeepsForeign(s, root, s)
  {
    hide Inv, ViewIs;
  }

  // ---------------------------------------------------------------- what the finite-map operation says

  /** How many tables the address still lacks. */
  function Missing(a: Abs, v: Vpn): nat {
    (if [v.l2] in a.tables then 0 else 1) + if [v.l2, v.l1] in a.tables then 0 else 1
  }

  /** Tables hang below tables, and entries lie in tables. */
  lemma ViewInTables(s: Vm, root: nat, a: Abs, v: Vpn)
    requires Refines(s, root, a) && ValidVpn(v)
    ensures [v.l2, v.l1] in a.tables ==> [v.l2] in a.tables
    ensures v in a.view ==> Missing(a, v) == 0
  {
    hide Inv, IsValid, EntryAt;
    assert ValidPath([v.l2, v.l1]) && ValidPath([v.l2]);
    assert [v.l2, v.l1][..1] == [v.l2];
    assert Lookup(s.mem, root, v) == if v in a.view then Some(a.view[v]) else None;
  }

  /** The outcomes of the finite-map operation, given that tables hang below tables. */
  lemma AbsOutcome(a: Abs, va: u64, pa: u64, flags: u64)
    requires [VpnOf(va).l2, VpnOf(va).l1] in a.tables ==> [VpnOf(va).l2] in a.tables
    requires VpnOf(va) in a.view ==> Missing(a, VpnOf(va)) == 0
    ensures var (res, b) := AbsMap(a, va, pa, flags); var v := VpnOf(va);
            var aligned := va % TABLE_ALIGN == 0 && pa % TABLE_ALIGN == 0;
            && (res == Unaligned <==> !aligned)
            && (res == AllocFailed <==> aligned && Missing(a, v) > a.free)
            && (res == MapExists <==> aligned && v in a.view)
            && (res == Mapped <==> aligned && Missing(a, v) <= a.free && v !in a.view)
            && b.view == (if res == Mapped then a.view[v := Entry(pa, OrWord(flags, TEF_VALID))] else a.view)
            && |b.tables| + b.free == |a.tables| + a.free
  {
    hide Entry, OrWord, VpnOf;
    var v := VpnOf(va);
    assert [v.l2] != [v.l2, v.l1];
  }

  /** When each outcome of map_small_page occurs, and what it does to every translation: only
      success changes any, it adds exactly one entry, and each page drawn is one new table. */
  lemma MapOutcome(s: Vm, root: nat, a: Abs, va: u64, pa: u64, flags: u64)
    requires Refines(s, root, a)
    ensures var (res, t) := MapSmallPage(s, root, va, pa, flags);
            var b := AbsMap(a, va, pa, flags).1; var v := VpnOf(va);
            var aligned := va % TABLE_ALIGN == 0 && pa % TABLE_ALIGN == 0;
            && (res == Unaligned <==> !aligned)
            && (res == AllocFailed <==> aligned && Missing(a, v) > a.free)
            && (res == MapExists <==> aligned && Lookup(s.mem, root, v).Some?)
            && (res == Mapped <==> aligned && Missing(a, v) <= a.free && Lookup(s.mem, root, v).None?)
            && s.pmm.freeBytes - t.pmm.freeBytes == PAGE_SIZE * (|b.tables| - |a.tables|)
    ensures forall w :: ValidVpn(w) ==>
              Lookup(MapSmallPage(s, root, va, pa, flags).1.mem, root, w) ==
                if MapSmallPage(s, root, va, pa, flags).0 == Mapped && w == VpnOf(va)
                then Some(Entry(pa, OrWord(flags, TEF_VALID))) else Lookup(s.mem, root, w)
  {
    hide MapSmallPage, AbsMap, Missing, Inv, TablesAre, Lookup, Entry, OrWord, VpnOf;
    MapRefines(s, root, a, va, pa, flags);
    VpnValid(va);
    ViewInTables(s, root, a, VpnOf(va));
    AbsOutcome(a, va, pa, flags);
  }

  // ---------------------------------------------------------------- runs

  datatype Request = Request(va: u64, pa: u64, flags: u64)

  function MapAll(s: Vm, root: nat, reqs: seq<Request>): (Vm, seq<MapResult>) {
    if reqs == [] then (s, []) else
      var (t, out) := MapAll(s, root, reqs[..|reqs| - 1]);
      var r := reqs[|reqs| - 1];
      var (res, u) := MapSmallPage(t, root, r.va, r.pa, r.flags);
      (u, out + [res])
  }

  function AbsMapAll(a: Abs, reqs: seq<Request>): (Abs, seq<MapResult>) {
    if reqs == [] then (a, []) else
      var (b, out) := AbsMapAll(a, reqs[..|reqs| - 1]);
      var r := reqs[|reqs| - 1];
      var (res, c) := AbsMap(b, r.va, r.pa, r.flags);
      (c, out + [res])
  }

  /** A page-aligned, zeroed root that the memory manager will not hand out. */
  ghost predicate FreshRoot(s: Vm, root: nat) {
    && Pmm.Inv(s.pmm) && s.pmm.policy == Pmm.FirstFit
    && OwnedPage(s.pmm, root)
    && forall k: nat :: k < ENTRY_COUNT ==> EntryAt(s.mem, root, k) == 0
  }

  /** A page fresh from the memory manager is such a root. */
  lemma RootFromAlloc(s: Vm)
    requires Pmm.Inv(s.pmm) && s.pmm.policy == Pmm.FirstFit && s.pmm.freeBytes > 0
    ensures var (res, pmm') := Pmm.Alloc(s.pmm, PAGE_SIZE);
            res.Granted? && FreshRoot(Vm(PmmObject.FillGrant(s.mem, res, PAGE_SIZE), pmm'), res.base)
  {
    hide Pmm.Inv, Pmm.Alloc, Pmm.Free, Pmm.Managed, AlignUp, ZeroFill;
    var page, pmm' := AllocPage(s.pmm);
    PageRounds();
    forall k: nat | k < ENTRY_COUNT
      ensures EntryAt(ZeroFill(s.mem, page, PAGE_SIZE), page, k) == 0
    {
      EntriesApart(page, k, page, k);
      ZeroFillLoad(s.mem, page, PAGE_SIZE, EntryAddr(page, k));
    }
  }

  function Start(s: Vm): Abs {
    Abs(map[], {[]}, s.pmm.freeBytes / PAGE_SIZE)
  }

  lemma FreshRootRefines(s: Vm, root: nat)
    requires FreshRoot(s, root)
    ensures Refines(s, root, Start(s))
  {
    hide Pmm.Inv, Pmm.Available, IsValid, IsLeaf, EntryAt, GetAddress;
    assert !IsValid(0) by { FlagBits(0); }
    WholePages(s.pmm);
    forall p | ValidPath(p)
      ensures TableAt(s.mem, root, p) == if p == [] then Some(root) else None
    {
      OnlyRoot(s.mem, root, p);
    }
    forall v | ValidVpn(v)
      ensures Lookup(s.mem, root, v) == None
    {
      assert ValidPath([v.l2, v.l1]);
    }
  }

  lemma {:induction false} OnlyRoot(m: Words, root: nat, p: seq<nat>)
    requires ValidPath(p) && !IsValid(0)
    requires forall k: nat :: k < ENTRY_COUNT ==> EntryAt(m, root, k) == 0
    ensures TableAt(m, root, p) == if p == [] then Some(root) else None
    decreases |p|
  {
    hide IsValid, EntryAt, GetAddress;
    if p != [] { OnlyRoot(m, root, p[..|p| - 1]); }
  }

  /** Over every sequence of calls from a zeroed root, the tables in memory refine the finite
      map, every call returns what the map operation returns, and the pages drawn are exactly
      the tables below the root, that is the valid level-2 and level-1 entries. */
  lemma {:induction false} RunRefines(s: Vm, root: nat, reqs: seq<Request>)
    requires FreshRoot(s, root)
    ensures var (t, out) := MapAll(s, root, reqs);
            var (b, out') := AbsMapAll(Start(s), reqs);
            && out == out' && Refines(t, root, b) && KeepsForeign(s, root, t)
            && s.pmm.freeBytes - t.pmm.freeBytes == PAGE_SIZE * (|b.tables| - 1)
  {
    hide FreshRoot, Refines, MapSmallPage, AbsMap, KeepsForeign;
    FreshRootRefines(s, root);
    if reqs == [] {
      RefinesRoot(s, root, Start(s));
    } else {
      var front, r := reqs[..|reqs| - 1], reqs[|reqs| - 1];
      RunRefines(s, root, front);
      var t, b := MapAll(s, root, front).0, AbsMapAll(Start(s), front).0;
      MapRefines(t, root, b, r.va, r.pa, r.flags);
      MapOutcomeCost(t, root, b, r.va, r.pa, r.flags);
      ForeignTrans(s, t, MapSmallPage(t, root, r.va, r.pa, r.flags).1, root);
    }
  }

  lemma MapOutcomeCost(s: Vm, root: nat, a: Abs, va: u64, pa: u64, flags: u64)
    requires Refines(s, root, a)
    ensures s.pmm.freeBytes - MapSmallPage(s, root, va, pa, flags).1.pmm.freeBytes
              == PAGE_SIZE * (|AbsMap(a, va, pa, flags).1.tables| - |a.tables|)
  {
    hide Refines, MapSmallPage, Lookup, AbsMap;
    MapOutcome(s, root, a, va, pa, flags);
  }

  // ---------------------------------------------------------------- translation

  /** virt_to_phys as written, on tables built by map_small_page: it never meets a superpage,
      and reaches the end of its loop exactly for a mapping without R, W and X. */
  lemma WalkResult(s: Vm, root: nat, a: Abs, va: u64)
    requires Refines(s, root, a)
    ensures VirtToPhys(s.mem, root, va) ==
              if VpnOf(va) !in a.view then Fault
              else if IsLeaf(a.view[VpnOf(va)]) then Address(OrWord(GetAddress(a.view[VpnOf(va)]), PageOffset(va)))
              else FellThrough
  {
    hide Pmm.Inv, Pmm.Available, IsValid, IsLeaf, EntryAt, GetAddress, OrWord, VpnOf, PageOffset, Injective;
    var v := VpnOf(va);
    VpnValid(va);
    assert ValidPath([]) && ValidPath([v.l2]) && ValidPath([v.l2, v.l1]);
    assert [v.l2, v.l1][..1] == [v.l2];
    assert !LeafUnder(s.mem, root, [], v.l2) && !LeafUnder(s.mem, root, [v.l2], v.l1);
    assert Lookup(s.mem, root, v) == if v in a.view then Some(a.view[v]) else None;
    WalkSteps(s.mem, root, va, v);
  }

  /** Unrolling the loop of virt_to_phys over the three levels. */
  lemma WalkSteps(m: Words, root: nat, va: u64, v: Vpn)
    requires v == VpnOf(va) && !LeafUnder(m, root, [], v.l2) && !LeafUnder(m, root, [v.l2], v.l1)
    ensures VirtToPhys(m, root, va) ==
              match TableAt(m, root, [v.l2, v.l1])
              case None => Fault
              case Some(t) => WalkFrom(m, t, va, 0)
  {
    hide IsValid, IsLeaf, EntryAt, GetAddress, OrWord, VpnOf, PageOffset;
    assert [v.l2, v.l1][..1] == [v.l2];
    var e2 := EntryAt(m, root, v.l2);
    if IsValid(e2) {
      var l1 := GetAddress(e2);
      assert TableAt(m, root, [v.l2]) == Some(l1);
      assert VirtToPhys(m, root, va) == WalkFrom(m, l1, va, 1);
    }
  }

  /** The page a mapping leads to: the page number with the flags above bit 9 or-ed into it. */
  function MappedPage(pa: u64, flags: u64): u64 {
    hide Or;
    EntryAddressValue(pa, flags);
    Or(pa / PAGE_SIZE, HighFlags(flags)) * PAGE_SIZE
  }

  /** A new mapping, for every page and flags the code accepts, translates every address of its
      page: bits 3 to 5 of the page count as R, W and X, bits 6 to 11 are dropped, the flags
      above bit 9 enter the page number, and one bit of the offset is or-ed in. */
  lemma MapThenTranslate(s: Vm, root: nat, a: Abs, va: u64, pa: u64, flags: u64, w: u64)
    requires Refines(s, root, a)
    requires MapSmallPage(s, root, va, pa, flags).0 == Mapped && VpnOf(w) == VpnOf(va)
    ensures VirtToPhys(MapSmallPage(s, root, va, pa, flags).1.mem, root, w) ==
              if IsLeaf(flags) || pa / 8 % 8 != 0 then Address(OrWord(MappedPage(pa, flags), PageOffset(w))) else FellThrough
  {
    hide Refines, MapSmallPage, IsLeaf, IsValid, OrWord, PageOffset, VpnOf, EntryAt, GetAddress, AbsEnsure, Entry, HighFlags, Or;
    MapRefines(s, root, a, va, pa, flags);
    var (t, b) := (MapSmallPage(s, root, va, pa, flags).1, AbsMap(a, va, pa, flags).1);
    WalkResult(t, root, b, w);
    ValidFlags(flags);
    ValidKeepsHighFlags(flags);
    EntryAddressValue(pa, OrWord(flags, TEF_VALID));
    EntryLeafIff(pa, OrWord(flags, TEF_VALID));
  }

  /** With a page-aligned page and the ten flag bits that is the page itself, exactly. */
  lemma MappedPageIff(pa: u64, flags: u64)
    ensures MappedPage(pa, flags) == pa <==>
              pa % PAGE_SIZE == 0 && Or(pa / PAGE_SIZE, HighFlags(flags)) == pa / PAGE_SIZE
    ensures pa % PAGE_SIZE == 0 && flags < 0x400 ==> MappedPage(pa, flags) == pa && pa / 8 % 8 == 0
  {
    hide Or, MappedPage;
    var n := Or(pa / PAGE_SIZE, HighFlags(flags));
    MappedPageValue(pa, flags);
    AlignedMultiple(pa, n);
    if pa % PAGE_SIZE == 0 && flags < 0x400 {
      OrZero(pa / PAGE_SIZE);
      PageBits(pa);
    }
  }

  lemma MappedPageValue(pa: u64, flags: u64)
    ensures MappedPage(pa, flags) == Or(pa / PAGE_SIZE, HighFlags(flags)) * PAGE_SIZE
  {
  }

  lemma PageBits(pa: nat)
    requires pa % PAGE_SIZE == 0
    ensures pa / 8 % 8 == 0
  {
    assert pa / 8 == pa / PAGE_SIZE * 64 * 8;
  }

  /** A concrete page that passes the alignment test by 8 and is not kept: 0x8000_0008, mapped
      without any permission, becomes the readable page 0x8000_0000. */
  lemma UnalignedPageWitness(s: Vm, root: nat, a: Abs, va: u64)
    requires Refines(s, root, a) && va % TABLE_ALIGN == 0 && Missing(a, VpnOf(va)) <= a.free && Lookup(s.mem, root, VpnOf(va)).None?
    ensures var (res, t) := MapSmallPage(s, root, va, 0x8000_0008, 0);
            res == Mapped && !IsLeaf(0) && VirtToPhys(t.mem, root, va) == Address(OrWord(0x8000_0000, PageOffset(va)))
  {
    hide Refines, MapSmallPage, IsLeaf, OrWord, PageOffset, VpnOf, Or, Missing, Lookup;
    MapOutcome(s, root, a, va, 0x8000_0008, 0);
    MapThenTranslate(s, root, a, va, 0x8000_0008, 0, va);
    OrZero(0x8_0000);
    FlagBits(0);
  }

  /** The written offset mask yields the expected address pa + offset exactly for offset 0 on a
      page whose lowest page-number bit is clear or already set in the physical page. */
  lemma OffsetIff(pa: u64, va: u64)
    requires pa % PAGE_SIZE == 0
    ensures OrWord(pa, PageOffset(va)) == pa + va % PAGE_SIZE <==>
              va % PAGE_SIZE == 0 && (va / PAGE_SIZE % 2 == 1 ==> pa / PAGE_SIZE % 2 == 1)
  {
    hide Or, And, OrWord, PageOffset;
    var p, b, r := pa / PAGE_SIZE, va / PAGE_SIZE % 2, Or(pa, PageOffset(va));
    OffsetBit(va);
    OrParts(pa, PageOffset(va));
    OrHalf(p, b);
    OrZero(p / 2);
    OffsetCases(p, va % PAGE_SIZE, r, pa, b);
  }

  /** The mask the comments call for, PAGE_SIZE - 1, gives pa + offset for every address. */
  lemma MeantOffset(pa: u64, va: u64)
    requires pa % PAGE_SIZE == 0
    ensures OrWord(pa, And(va, PAGE_SIZE - 1)) == pa + va % PAGE_SIZE
  {
    hide Or, And, OrWord;
    PowWord();
    AndLowMask(va, 12);
    OrDisjoint(pa / PAGE_SIZE, va % PAGE_SIZE, 12);
  }

  /** An or splits at the page boundary; page-aligned operands give a page-aligned result. */
  lemma OrParts(x: nat, y: nat)
    requires x % PAGE_SIZE == 0 && y % PAGE_SIZE == 0
    ensures Or(x, y) / PAGE_SIZE == Or(x / PAGE_SIZE, y / PAGE_SIZE) && Or(x, y) % PAGE_SIZE == 0
  {
    hide Or, Pow2, Shr;
    PowWord();
    OrShift(x, y, 12);
    OrMod(x, y, 12);
    ShrValue(x, 12);
    ShrValue(y, 12);
    ShrValue(Or(x, y), 12);
    OrZero(0);
  }

  lemma OffsetCases(p: nat, off: nat, r: nat, pa: nat, b: nat)
    requires pa == p * PAGE_SIZE && off < PAGE_SIZE && b < 2
    requires r / PAGE_SIZE / 2 == p / 2 && r / PAGE_SIZE % 2 == (if p % 2 == 1 || b == 1 then 1 else 0) && r % PAGE_SIZE == 0
    ensures r == pa + off <==> off == 0 && (b == 1 ==> p % 2 == 1)
  {
    var q := r / PAGE_SIZE;
    assert r == q * PAGE_SIZE;
    assert q == 2 * (p / 2) + q % 2 && p == 2 * (p / 2) + p % 2;
  }

  lemma OffsetBit(va: u64)
    ensures PageOffset(va) == va / PAGE_SIZE % 2 * PAGE_SIZE
  {
    hide And;
    AndByteUp(va, 16);
    AndCrumbUp(va / 256, 4);
    AndCrumbUp(va / 1024, 1);
    AndOne(va / 4096);
    assert va / 256 / 4 == va / 1024 && va / 1024 / 4 == va / 4096;
  }

  /** A concrete address the written mask gets wrong: byte 4 of a page mapped at 0x8000_0000. */
  lemma OffsetWitness()
    ensures OrWord(0x8000_0000, PageOffset(0x4004)) != 0x8000_0000 + 0x4004 % PAGE_SIZE
  {
    hide OrWord, PageOffset;
    OffsetIff(0x8000_0000, 0x4004);
  }
}
