/** The tree of page tables in memory: which tables are reachable, and what one new table or
    one new leaf entry changes. */
module Sv39Tables {
  import opened Options
  import opened Num
  import opened Memory
  import opened Sv39
  import Pmm
  import PmmProofs

  // ---------------------------------------------------------------- the tree

  /** A table is named by the indices that lead to it: [] is the root, [a] the level-1 table
      under root entry a, [a, b] the level-0 table under entry b of that. */
  ghost predicate ValidPath(p: seq<nat>) {
    |p| <= 2 && forall i :: 0 <= i < |p| ==> p[i] < ENTRY_COUNT
  }

  ghost predicate ValidVpn(v: Vpn) {
    v.l2 < ENTRY_COUNT && v.l1 < ENTRY_COUNT && v.l0 < ENTRY_COUNT
  }

  function Child(m: Words, table: Option<nat>, i: nat): Option<nat> {
    match table
    case None => None
    case Some(t) => if IsValid(EntryAt(m, t, i)) then Some(GetAddress(EntryAt(m, t, i))) else None
  }

  function TableAt(m: Words, root: nat, p: seq<nat>): Option<nat> {
    if p == [] then Some(root) else Child(m, TableAt(m, root, p[..|p| - 1]), p[|p| - 1])
  }

  /** The valid leaf-level entry for a page, if there is one. */
  function Lookup(m: Words, root: nat, v: Vpn): Option<u64> {
    match TableAt(m, root, [v.l2, v.l1])
    case None => None
    case Some(t) => if IsValid(EntryAt(m, t, v.l0)) then Some(EntryAt(m, t, v.l0)) else None
  }

  ghost predicate SameTable(m: Words, root: nat, p: seq<nat>, q: seq<nat>) {
    TableAt(m, root, p).Some? && TableAt(m, root, p) == TableAt(m, root, q)
  }

  /** No two paths lead to the same table. */
  ghost predicate Injective(m: Words, root: nat) {
    forall p, q :: ValidPath(p) && ValidPath(q) && SameTable(m, root, p, q) ==> p == q
  }

  /** Entry i of the table at p is a valid leaf. */
  ghost predicate LeafUnder(m: Words, root: nat, p: seq<nat>, i: nat) {
    match TableAt(m, root, p)
    case None => false
    case Some(t) => IsValid(EntryAt(m, t, i)) && IsLeaf(EntryAt(m, t, i))
  }

  /** A page-aligned page that the memory manager will not hand out (again). */
  ghost predicate OwnedPage(pmm: Pmm.State, t: nat) {
    t % PAGE_SIZE == 0 && forall x :: t <= x < t + PAGE_SIZE ==> !Pmm.Available(pmm, x)
  }

  /** Every reachable table owns its page, no two tables share one, and the entries leading
      to tables are not leaves. */
  ghost predicate Inv(s: Vm, root: nat) {
    && Pmm.Inv(s.pmm) && s.pmm.policy == Pmm.FirstFit
    && (forall p :: ValidPath(p) && TableAt(s.mem, root, p).Some? ==> OwnedPage(s.pmm, TableAt(s.mem, root, p).value))
    && Injective(s.mem, root)
    && (forall p, i: nat :: ValidPath(p) && |p| < 2 && i < ENTRY_COUNT ==> !LeafUnder(s.mem, root, p, i))
  }

  // ---------------------------------------------------------------- pages from the memory manager

  lemma {:induction false} SomeFree(rs: seq<Pmm.Region>)
    requires forall i :: 0 <= i < |rs| ==> rs[i].freeBytes % PAGE_SIZE == 0
    ensures Pmm.SumFree(rs) % PAGE_SIZE == 0
    ensures Pmm.SumFree(rs) == 0 <==> forall i :: 0 <= i < |rs| ==> rs[i].freeBytes == 0
  {
    if rs != [] {
      var rest := rs[1..];
      assert forall i :: 0 <= i < |rest| ==> rest[i] == rs[i + 1];
      SomeFree(rest);
      assert forall i :: 0 < i < |rs| ==> rs[i] == rest[i - 1];
    }
  }

  lemma PageRounds()
    ensures AlignUp(PAGE_SIZE, PAGE_SIZE) == PAGE_SIZE
  {
    hide And;
    PageIsPow2();
    AlignUpValue(PAGE_SIZE, PAGE_SIZE);
  }

  ghost predicate NoPage(s: Pmm.State) {
    Pmm.Alloc(s, PAGE_SIZE) == (Pmm.OutOfMem, s)
  }

  ghost predicate PageGranted(s: Pmm.State, page: u64, t: Pmm.State) {
    && Pmm.Alloc(s, PAGE_SIZE) == (Pmm.Granted(page), t)
    && page % PAGE_SIZE == 0 && PmmProofs.Carved(s, t, page, PAGE_SIZE)
  }

  lemma WholePages(s: Pmm.State)
    requires Pmm.Inv(s)
    ensures s.freeBytes % PAGE_SIZE == 0
    ensures s.freeBytes == 0 <==> forall i :: 0 <= i < |s.regions| ==> s.regions[i].freeBytes < PAGE_SIZE
  {
    hide Pmm.Disjoint;
    forall i | 0 <= i < |s.regions|
      ensures s.regions[i].freeBytes % PAGE_SIZE == 0
    {
      assert Pmm.RegionOk(s.blocks, s.regions[i]);
    }
    SomeFree(s.regions);
  }

  /** One page is granted, page-aligned, exactly when any memory is free. */
  lemma AllocPage(s: Pmm.State) returns (page: u64, t: Pmm.State)
    requires Pmm.Inv(s) && s.policy == Pmm.FirstFit
    ensures s.freeBytes % PAGE_SIZE == 0
    ensures if s.freeBytes == 0 then NoPage(s) else PageGranted(s, page, t)
  {
    hide AlignUp, Pmm.Alloc, PmmProofs.Carved, Pmm.Inv;
    PageRounds();
    WholePages(s);
    PmmProofs.AllocServes(s, PAGE_SIZE);
    page, t := 0, s;
    if s.freeBytes > 0 {
      var k :| 0 <= k < |s.regions| && PmmProofs.ServedBy(s, PAGE_SIZE, k);
      assert Pmm.RegionOk(s.blocks, s.regions[k]) by { RegionOf(s, k); }
      page := Pmm.Alloc(s, PAGE_SIZE).0.base;
      t := Pmm.Alloc(s, PAGE_SIZE).1;
    }
  }

  lemma RegionOf(s: Pmm.State, k: nat)
    requires Pmm.Inv(s) && k < |s.regions|
    ensures Pmm.RegionOk(s.blocks, s.regions[k])
  {
  }

  // ---------------------------------------------------------------- writing one entry

  /** Distinct pages hold distinct words. */
  lemma EntriesApart(t: nat, i: nat, u: nat, k: nat)
    requires t % PAGE_SIZE == 0 && u % PAGE_SIZE == 0 && i < ENTRY_COUNT && k < ENTRY_COUNT
    ensures EntryAddr(t, i) == EntryAddr(u, k) <==> t == u && i == k
    ensures t <= EntryAddr(t, i) < t + PAGE_SIZE
  {
    var a, b := t / PAGE_SIZE, u / PAGE_SIZE;
    assert t == a * PAGE_SIZE && u == b * PAGE_SIZE;
  }

  lemma PagesApart(t: nat, u: nat)
    requires t % PAGE_SIZE == 0 && u % PAGE_SIZE == 0 && t != u
    ensures t + PAGE_SIZE <= u || u + PAGE_SIZE <= t
  {
    var a, b := t / PAGE_SIZE, u / PAGE_SIZE;
    assert t == a * PAGE_SIZE && u == b * PAGE_SIZE;
  }

  /** From m to m', the entries of the tables of m change only at entry i of `table`. */
  ghost predicate OneEntry(m: Words, root: nat, m': Words, table: nat, i: nat, e: u64) {
    forall p, k: nat :: ValidPath(p) && k < ENTRY_COUNT && TableAt(m, root, p).Some? ==>
      EntryAt(m', TableAt(m, root, p).value, k) ==
        if TableAt(m, root, p).value == table && k == i then e else EntryAt(m, TableAt(m, root, p).value, k)
  }

  lemma WriteEntry(s: Vm, root: nat, p: seq<nat>, i: nat, e: u64)
    requires Inv(s, root) && ValidPath(p) && i < ENTRY_COUNT && TableAt(s.mem, root, p).Some?
    ensures var table := TableAt(s.mem, root, p).value; OneEntry(s.mem, root, s.mem[EntryAddr(table, i) := e], table, i, e)
  {
    hide Pmm.Inv, Pmm.Available, IsValid, IsLeaf;
    var table := TableAt(s.mem, root, p).value;
    forall q, k: nat | ValidPath(q) && k < ENTRY_COUNT && TableAt(s.mem, root, q).Some?
      ensures EntryAddr(TableAt(s.mem, root, q).value, k) == EntryAddr(table, i) <==>
                TableAt(s.mem, root, q).value == table && k == i
    {
      EntriesApart(TableAt(s.mem, root, q).value, k, table, i);
    }
  }

  /** Zeroing a page the manager just granted, then writing one entry. */
  lemma WriteFresh(s: Vm, root: nat, p: seq<nat>, i: nat, page: u64, e: u64)
    requires Inv(s, root) && ValidPath(p) && i < ENTRY_COUNT && TableAt(s.mem, root, p).Some?
    requires page % PAGE_SIZE == 0 && forall x :: page <= x < page + PAGE_SIZE ==> Pmm.Available(s.pmm, x)
    ensures var table := TableAt(s.mem, root, p).value;
            var m' := ZeroFill(s.mem, page, PAGE_SIZE)[EntryAddr(table, i) := e];
            && OneEntry(s.mem, root, m', table, i, e)
            && (forall k: nat :: k < ENTRY_COUNT ==> EntryAt(m', page, k) == 0)
            && (forall q :: ValidPath(q) && TableAt(s.mem, root, q).Some? ==> TableAt(s.mem, root, q).value != page)
  {
    hide Pmm.Inv, Pmm.Available, IsValid, IsLeaf, ZeroFill;
    var table := TableAt(s.mem, root, p).value;
    var m' := ZeroFill(s.mem, page, PAGE_SIZE)[EntryAddr(table, i) := e];
    forall q | ValidPath(q) && TableAt(s.mem, root, q).Some?
      ensures TableAt(s.mem, root, q).value != page
    {
      assert !Pmm.Available(s.pmm, TableAt(s.mem, root, q).value);
    }
    forall k: nat | k < ENTRY_COUNT
      ensures EntryAt(m', page, k) == 0
    {
      EntriesApart(page, k, table, i);
      ZeroFillLoad(s.mem, page, PAGE_SIZE, EntryAddr(page, k));
    }
    forall q, k: nat | ValidPath(q) && k < ENTRY_COUNT && TableAt(s.mem, root, q).Some?
      ensures EntryAt(m', TableAt(s.mem, root, q).value, k) ==
                if TableAt(s.mem, root, q).value == table && k == i then e else EntryAt(s.mem, TableAt(s.mem, root, q).value, k)
    {
      var u := TableAt(s.mem, root, q).value;
      EntriesApart(u, k, table, i);
      PagesApart(u, page);
      ZeroFillLoad(s.mem, page, PAGE_SIZE, EntryAddr(u, k));
    }
  }

  // ---------------------------------------------------------------- what a write does to the tree

  /** A new, empty table under entry i of the table at p: it is the only new table. */
  lemma {:induction false} NewTable(m: Words, root: nat, m': Words, p: seq<nat>, i: nat, page: u64, e: u64, x: seq<nat>)
    requires Injective(m, root) && ValidPath(p + [i]) && ValidPath(p) && ValidPath(x)
    requires TableAt(m, root, p).Some? && TableAt(m, root, p + [i]).None?
    requires IsValid(e) && GetAddress(e) == page && !IsValid(0)
    requires OneEntry(m, root, m', TableAt(m, root, p).value, i, e)
    requires forall k: nat :: k < ENTRY_COUNT ==> EntryAt(m', page, k) == 0
    ensures TableAt(m', root, x) == if x == p + [i] then Some(page) else TableAt(m, root, x)
    decreases |x|
  {
    hide IsValid, GetAddress, EntryAt;
    if x != [] {
      var y, k := x[..|x| - 1], x[|x| - 1];
      assert x == y + [k];
      assert (p + [i])[..|p|] == p;
      NewTable(m, root, m', p, i, page, e, y);
      if y == p {
        assert x == p + [i] <==> k == i;
      } else if y != p + [i] {
        assert TableAt(m, root, y).Some? ==> !SameTable(m, root, y, p);
      }
    }
  }

  /** A write into a level-0 table changes no table. */
  lemma {:induction false} SameTables(m: Words, root: nat, m': Words, p: seq<nat>, i: nat, e: u64, x: seq<nat>)
    requires Injective(m, root) && ValidPath(p) && |p| == 2 && ValidPath(x)
    requires TableAt(m, root, p).Some? && OneEntry(m, root, m', TableAt(m, root, p).value, i, e)
    ensures TableAt(m', root, x) == TableAt(m, root, x)
    decreases |x|
  {
    hide IsValid, GetAddress, EntryAt;
    if x != [] {
      var y := x[..|x| - 1];
      SameTables(m, root, m', p, i, e, y);
      assert |y| < 2;
      if TableAt(m, root, y).Some? {
        assert !SameTable(m, root, y, p);
      }
    }
  }
}
