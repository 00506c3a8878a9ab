/** map_small_page refines insertion into a finite map. */
module Sv39Map {
  import opened Options
  import opened Num
  import opened Memory
  import opened Sv39
  import opened Sv39Bits
  import opened Sv39Tables
  import Pmm
  import PmmProofs

  /** The abstract address space: the mapped pages with their leaf entries, the tables in use,
      and how many pages the memory manager has left. */
  datatype Abs = Abs(view: map<Vpn, u64>, tables: set<seq<nat>>, free: nat)

  function AbsEnsure(a: Abs, c: seq<nat>): (MapResult, Abs) {
    if c in a.tables then (Mapped, a)
    else if a.free == 0 then (AllocFailed, a)
    else (Mapped, a.(tables := a.tables + {c}, free := a.free - 1))
  }

  /** A request installs the missing tables as far as pages last, and then the entry if there
      is none yet. */
  function AbsMap(a: Abs, va: u64, pa: u64, flags: u64): (MapResult, Abs) {
    var v := VpnOf(va);
    if va % TABLE_ALIGN != 0 || pa % TABLE_ALIGN != 0 then (Unaligned, a)
    else
      var (r2, a2) := AbsEnsure(a, [v.l2]);
      if r2 != Mapped then (r2, a2) else
      var (r1, a1) := AbsEnsure(a2, [v.l2, v.l1]);
      if r1 != Mapped then (r1, a1) else
      if v in a1.view then (MapExists, a1)
      else (Mapped, a1.(view := a1.view[v := Entry(pa, OrWord(flags, TEF_VALID))]))
  }

  ghost predicate TablesAre(m: Words, root: nat, tables: set<seq<nat>>) {
    && (forall p :: p in tables ==> ValidPath(p))
    && (forall p :: ValidPath(p) ==> (p in tables <==> TableAt(m, root, p).Some?))
  }

  ghost predicate ViewIs(m: Words, root: nat, view: map<Vpn, u64>) {
    && (forall v :: v in view ==> ValidVpn(v))
    && (forall v :: ValidVpn(v) ==> Lookup(m, root, v) == if v in view then Some(view[v]) else None)
  }

  ghost predicate Refines(s: Vm, root: nat, a: Abs) {
    && Inv(s, root) && TablesAre(s.mem, root, a.tables) && ViewIs(s.mem, root, a.view)
    && s.pmm.freeBytes == a.free * PAGE_SIZE
  }

  /** A word that belongs to neither a page table nor a free page of the memory manager. */
  ghost predicate Foreign(s: Vm, root: nat, x: nat) {
    && !Pmm.Free(s.pmm, x)
    && forall p :: ValidPath(p) && TableAt(s.mem, root, p).Some? ==>
         !(TableAt(s.mem, root, p).value <= x < TableAt(s.mem, root, p).value + PAGE_SIZE)
  }

  ghost predicate KeepsForeign(s: Vm, root: nat, t: Vm) {
    forall x :: Foreign(s, root, x) ==> Foreign(t, root, x) && Load(t.mem, x) == Load(s.mem, x)
  }

  // ---------------------------------------------------------------- a new table

  /** What t is after a fresh table was hung under entry i of the table at p. */
  ghost predicate Hung(s: Vm, root: nat, p: seq<nat>, i: nat, page: u64, t: Vm)
    requires TableAt(s.mem, root, p).Some?
  {
    var table := TableAt(s.mem, root, p).value;
    && PmmProofs.Carved(s.pmm, t.pmm, page, PAGE_SIZE)
    && OneEntry(s.mem, root, t.mem, table, i, Entry(page, TEF_VALID))
    && (forall k: nat :: k < ENTRY_COUNT ==> EntryAt(t.mem, page, k) == 0)
    && (forall q :: ValidPath(q) && TableAt(s.mem, root, q).Some? ==> TableAt(s.mem, root, q).value != page)
    && (forall x :: ValidPath(x) ==> TableAt(t.mem, root, x) == if x == p + [i] then Some(page) else TableAt(s.mem, root, x))
  }

  lemma HangTable(s: Vm, root: nat, p: seq<nat>, i: nat) returns (page: u64)
    requires Inv(s, root) && ValidPath(p + [i]) && ValidPath(p) && s.pmm.freeBytes > 0
    requires TableAt(s.mem, root, p).Some? && TableAt(s.mem, root, p + [i]).None?
    ensures page % PAGE_SIZE == 0 && EnsureTable(s, TableAt(s.mem, root, p).value, i).0 == Mapped
    ensures Hung(s, root, p, i, page, EnsureTable(s, TableAt(s.mem, root, p).value, i).1)
    ensures EnsureTable(s, TableAt(s.mem, root, p).value, i).1.mem ==
              ZeroFill(s.mem, page, PAGE_SIZE)[EntryAddr(TableAt(s.mem, root, p).value, i) := Entry(page, TEF_VALID)]
  {
    hide Pmm.Inv, Pmm.Alloc, Pmm.Free, Pmm.Managed, IsValid, IsLeaf, Entry, GetAddress, AlignUp, ZeroFill, OneEntry;
    var table := TableAt(s.mem, root, p).value;
    var pmm';
    page, pmm' := AllocPage(s.pmm);
    PageRounds();
    PointerEntry(page);
    GrantedAvailable(s.pmm, pmm', page, PAGE_SIZE);
    var t := Vm(ZeroFill(s.mem, page, PAGE_SIZE)[EntryAddr(table, i) := Entry(page, TEF_VALID)], pmm');
    WriteFresh(s, root, p, i, page, Entry(page, TEF_VALID));
    assert !IsValid(0) by { FlagBits(0); }
    assert (p + [i])[..|p|] == p;
    assert EnsureTable(s, table, i) == (Mapped, t);
    forall x | ValidPath(x)
      ensures TableAt(t.mem, root, x) == if x == p + [i] then Some(page) else TableAt(s.mem, root, x)
    {
      NewTable(s.mem, root, t.mem, p, i, page, Entry(page, TEF_VALID), x);
    }
  }

  lemma GrantedAvailable(s: Pmm.State, t: Pmm.State, base: int, size: int)
    requires PmmProofs.Carved(s, t, base, size)
    ensures forall x :: base <= x < base + size ==> Pmm.Available(s, x)
  {
    hide Pmm.Inv, Pmm.Free, Pmm.Managed;
    forall x | base <= x < base + size
      ensures Pmm.Available(s, x)
    {
      assert Pmm.Free(s, x);
    }
  }

  lemma GrantedFree(s: Pmm.State, t: Pmm.State, base: int, size: int)
    requires PmmProofs.Carved(s, t, base, size)
    ensures forall x :: base <= x < base + size ==> Pmm.Free(s, x)
  {
    hide Pmm.Inv, Pmm.Managed, Pmm.Free;
  }

  /** A grant frees nothing. */
  lemma CarvedFreeOnly(s: Pmm.State, t: Pmm.State, base: int, size: int)
    requires PmmProofs.Carved(s, t, base, size)
    ensures forall x :: Pmm.Free(t, x) ==> Pmm.Free(s, x)
  {
    hide Pmm.Inv, Pmm.Managed, Pmm.Free;
    forall x | Pmm.Free(t, x)
      ensures Pmm.Free(s, x)
    {
      FreeIsManaged(t, x);
      assert Pmm.Available(t, x);
    }
  }

  lemma FreeIsManaged(s: Pmm.State, x: int)
    requires Pmm.Inv(s) && Pmm.Free(s, x)
    ensures Pmm.Managed(s, x)
  {
    var i :| 0 <= i < |s.regions| && Pmm.InFreeBlock(s.blocks, s.regions[i], x);
    assert Pmm.RegionOk(s.blocks, s.regions[i]);
    assert Pmm.InRegion(s.regions[i], x);
  }

  lemma OwnedNotFree(s: Pmm.State, page: nat)
    ensures OwnedPage(s, page) ==> forall x :: page <= x < page + PAGE_SIZE ==> !Pmm.Free(s, x)
  {
    hide Pmm.Free, Pmm.Managed;
    assert forall x :: Pmm.Free(s, x) ==> Pmm.Available(s, x);
  }

  lemma HungInv(s: Vm, root: nat, p: seq<nat>, i: nat, page: u64, t: Vm)
    requires Inv(s, root) && ValidPath(p + [i]) && ValidPath(p) && page % PAGE_SIZE == 0
    requires TableAt(s.mem, root, p).Some? && Hung(s, root, p, i, page, t)
    ensures Inv(t, root)
  {
    hide Pmm.Inv, Pmm.Available, IsValid, IsLeaf, Entry, TableAt, EntryAt;
    PointerEntry(page);
    assert !IsValid(0) by { FlagBits(0); }
    forall q | ValidPath(q) && TableAt(t.mem, root, q).Some?
      ensures OwnedPage(t.pmm, TableAt(t.mem, root, q).value)
    {
    }
    forall q, k: nat | ValidPath(q) && |q| < 2 && k < ENTRY_COUNT
      ensures !LeafUnder(t.mem, root, q, k)
    {
      assert !LeafUnder(s.mem, root, q, k);
    }
    assert Injective(t.mem, root) by {
      forall x, y | ValidPath(x) && ValidPath(y) && SameTable(t.mem, root, x, y)
        ensures x == y
      {
        assert SameTable(s.mem, root, x, y) || x == p + [i] || y == p + [i];
      }
    }
  }

  lemma HungView(s: Vm, root: nat, p: seq<nat>, i: nat, page: u64, t: Vm, v: Vpn)
    requires Inv(s, root) && ValidPath(p + [i]) && ValidPath(p) && ValidVpn(v)
    requires TableAt(s.mem, root, p).Some? && TableAt(s.mem, root, p + [i]).None? && Hung(s, root, p, i, page, t)
    ensures Lookup(t.mem, root, v) == Lookup(s.mem, root, v)
  {
    hide Pmm.Inv, Pmm.Available, PmmProofs.Carved, IsValid, IsLeaf, Entry, TableAt, EntryAt, OwnedPage;
    var q := [v.l2, v.l1];
    assert ValidPath(q);
    assert !IsValid(0) by { FlagBits(0); }
    if q != p + [i] && TableAt(s.mem, root, q).Some? {
      assert !SameTable(s.mem, root, q, p);
    }
  }

  lemma HungForeign(s: Vm, root: nat, p: seq<nat>, i: nat, page: u64, t: Vm)
    requires Inv(s, root) && ValidPath(p + [i]) && ValidPath(p) && page % PAGE_SIZE == 0
    requires TableAt(s.mem, root, p).Some? && Hung(s, root, p, i, page, t)
    requires t.mem == ZeroFill(s.mem, page, PAGE_SIZE)[EntryAddr(TableAt(s.mem, root, p).value, i) := Entry(page, TEF_VALID)]
    ensures KeepsForeign(s, root, t)
  {
    hide Pmm.Inv, Pmm.Free, Pmm.Managed, IsValid, IsLeaf, Entry, TableAt, EntryAt, OneEntry, ZeroFill;
    var table := TableAt(s.mem, root, p).value;
    CarvedFreeOnly(s.pmm, t.pmm, page, PAGE_SIZE);
    GrantedFree(s.pmm, t.pmm, page, PAGE_SIZE);
    OwnedNotFree(s.pmm, table);
    forall x | Foreign(s, root, x)
      ensures Foreign(t, root, x) && Load(t.mem, x) == Load(s.mem, x)
    {
      ZeroFillLoad(s.mem, page, PAGE_SIZE, x);
      assert OwnedPage(s.pmm, table) && (p + [i])[|p|] == i;
      EntriesApart(table, i, table, i);
    }
  }

  /** What hanging a table keeps, and what it uses up. */
  lemma HangKeeps(s: Vm, root: nat, p: seq<nat>, i: nat) returns (page: u64, t: Vm)
    requires Inv(s, root) && ValidPath(p + [i]) && ValidPath(p) && s.pmm.freeBytes > 0
    requires TableAt(s.mem, root, p).Some? && TableAt(s.mem, root, p + [i]).None?
    ensures EnsureTable(s, TableAt(s.mem, root, p).value, i) == (Mapped, t)
    ensures Inv(t, root) && KeepsForeign(s, root, t) && t.pmm.freeBytes == s.pmm.freeBytes - PAGE_SIZE
    ensures forall v :: ValidVpn(v) ==> Lookup(t.mem, root, v) == Lookup(s.mem, root, v)
    ensures forall x :: ValidPath(x) ==> TableAt(t.mem, root, x) == if x == p + [i] then Some(page) else TableAt(s.mem, root, x)
    ensures GetAddress(EntryAt(t.mem, TableAt(s.mem, root, p).value, i)) == page
  {
    hide Pmm.Inv, PmmProofs.Carved, GetAddress, ZeroFill, OneEntry, Lookup, Inv, TableAt, EntryAt, EnsureTable, ValidPath, KeepsForeign;
    page := HangTable(s, root, p, i);
    t := EnsureTable(s, TableAt(s.mem, root, p).value, i).1;
    HungInv(s, root, p, i, page, t);
    HungForeign(s, root, p, i, page, t);
    forall v | ValidVpn(v)
      ensures Lookup(t.mem, root, v) == Lookup(s.mem, root, v)
    {
      HungView(s, root, p, i, page, t, v);
    }
    CarvedFree(s.pmm, t.pmm, page, PAGE_SIZE);
    HungEntry(s, root, p, i, page, t);
  }

  /** EnsureTable refines AbsEnsure; afterwards the child table is the one the entry points to. */
  lemma EnsureRefines(s: Vm, root: nat, a: Abs, p: seq<nat>, i: nat)
    requires Refines(s, root, a) && ValidPath(p + [i]) && ValidPath(p) && p in a.tables
    ensures TableAt(s.mem, root, p).Some?
    ensures var (res, t) := EnsureTable(s, TableAt(s.mem, root, p).value, i);
            var (res', b) := AbsEnsure(a, p + [i]);
            && res == res' && Refines(t, root, b) && KeepsForeign(s, root, t) && b.view == a.view
            && (res == Mapped ==>
                  && p + [i] in b.tables && TableAt(t.mem, root, p) == TableAt(s.mem, root, p)
                  && TableAt(t.mem, root, p + [i]) == Some(GetAddress(EntryAt(t.mem, TableAt(s.mem, root, p).value, i))))
  {
    hide Pmm.Inv, Pmm.Alloc, Pmm.Available, PmmProofs.Carved, IsValid, IsLeaf, Entry, GetAddress, AlignUp, ZeroFill,
      OneEntry, Lookup, Inv;
    var c := p + [i];
    assert c[..|p|] == p && p != c;
    var table := TableAt(s.mem, root, p).value;
    if c !in a.tables {
      assert Pmm.Inv(s.pmm) && s.pmm.policy == Pmm.FirstFit by { InvPmm(s, root); }
      if a.free == 0 {
        var page, pmm' := AllocPage(s.pmm);
      } else {
        var page, t := HangKeeps(s, root, p, i);
      }
    }
  }

  lemma InvPmm(s: Vm, root: nat)
    requires Inv(s, root)
    ensures Pmm.Inv(s.pmm) && s.pmm.policy == Pmm.FirstFit
  {
  }

  lemma CarvedFree(s: Pmm.State, t: Pmm.State, base: int, size: int)
    requires PmmProofs.Carved(s, t, base, size)
    ensures t.freeBytes == s.freeBytes - size
  {
  }

  lemma HungEntry(s: Vm, root: nat, p: seq<nat>, i: nat, page: u64, t: Vm)
    requires ValidPath(p + [i]) && ValidPath(p) && page % PAGE_SIZE == 0
    requires TableAt(s.mem, root, p).Some? && Hung(s, root, p, i, page, t)
    ensures GetAddress(EntryAt(t.mem, TableAt(s.mem, root, p).value, i)) == page
  {
    hide Entry, GetAddress, TableAt, EntryAt;
    PointerEntry(page);
    assert (p + [i])[|p|] == i;
  }
}
