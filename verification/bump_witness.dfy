/** A concrete run of the bump allocator that hands out memory behind its region. */
module BumpWitness {
  import opened Num
  import opened Bump
  import opened BumpProofs
  import Pmm
  import PmmProofs
  import Slab
  import PmmCompare

  /** An allocation changes at most one region's record. */
  lemma AllocKeepsCount(s: Pmm.State, size: u64)
    ensures |Pmm.Alloc(s, size).1.regions| == |s.regions|
  {
    hide AlignUp, And, Wrap;
    var sz := AlignUp(size, PAGE_SIZE);
    var k := Pmm.FirstServing(s.regions, 0, sz);
    if k < |s.regions| { CarveKeepsCount(s, k, sz); }
  }

  lemma CarveKeepsCount(s: Pmm.State, k: nat, size: u64)
    requires k < |s.regions|
    ensures |Pmm.Carve(s, k, size, PAGE_SIZE).1.regions| == |s.regions|
  {
    hide AlignUp, Wrap;
  }

  /** The memory manager has one region, with at least this many bytes free. */
  ghost predicate Roomy(s: State, bytes: nat) {
    Inv(s) && |s.pmm.regions| == 1 && s.pmm.freeBytes >= bytes
  }

  lemma OneSum(s: Pmm.State)
    requires Pmm.Inv(s) && |s.regions| == 1
    ensures s.regions[0].freeBytes == s.freeBytes
  {
    hide Slab.Inv, Slab.Handed;
    assert s.regions[1..] == [];
    assert Pmm.SumFree([]) == 0;
  }

  /** With enough room a new region is granted. */
  lemma RoomAdds(s: State, size: u64, bytes: nat)
    requires Roomy(s, bytes) && 0 < size <= bytes && size % PAGE_SIZE == 0
    ensures AddRegion(s, size).0 && Added(s, size, AddRegion(s, size).1) && Roomy(AddRegion(s, size).1, bytes - size)
  {
    hide Pmm.Inv, Pmm.Alloc, PmmProofs.Carved, AlignUp, Added, Wrap;
    assert Pmm.Inv(s.pmm) && s.pmm.policy == Pmm.FirstFit;
    RoundedPages(size);
    PmmProofs.AllocServes(s.pmm, size);
    OneSum(s.pmm);
    AllocKeepsCount(s.pmm, size);
    var k :| 0 <= k < |s.pmm.regions| && PmmProofs.ServedBy(s.pmm, size, k);
    CarvedFree(s.pmm, Pmm.Alloc(s.pmm, size).1, Pmm.Alloc(s.pmm, size).0.base, size);
    AddRegionOk(s, size);
    AddedInv(s, size, AddRegion(s, size).1);
  }

  lemma CarvedFree(s: Pmm.State, t: Pmm.State, base: int, size: int)
    requires PmmProofs.Carved(s, t, base, size)
    ensures t.freeBytes == s.freeBytes - size
  {
    hide Pmm.Inv;
  }

  lemma AddedInv(s: State, size: int, t: State)
    requires Added(s, size, t)
    ensures Inv(t) && t.regions != [] && Current(t).end == Current(t).base + size && Current(t).curr == Current(t).base + HEADER
  {
    hide Inv;
  }

  // ---------------------------------------------------------------- the run

  /** A request that ends inside the current region, whose pointer is aligned. */
  lemma StaysInside(s: State, size: u64, alignment: u64)
    requires Inv(s) && s.regions != [] && 0 < size && Current(s).curr + size <= Current(s).end
    requires alignment > 0 && AlignUp(Current(s).curr, alignment) == Current(s).curr
    ensures AllocAligned(s, size, alignment) == (Pointer(Current(s).curr), Take(s, Current(s).curr, size))
    ensures var t := Take(s, Current(s).curr, size);
            Inv(t) && t.pmm == s.pmm && t.hhdm == s.hhdm && t.regions != []
            && Current(t).curr == Current(s).curr + size && Current(t).end == Current(s).end
  {
    hide Inv, AlignUp, AddRegion, NewSize;
    EndRoom(s);
    NoWrap(Current(s).curr + size);
    TakeInv(s, Current(s).curr, size);
  }

  /** A request with alignment 1 that passes the end of the current region. */
  lemma GoesBeyond(s: State, size: u64, bytes: nat)
    requires Roomy(s, bytes) && s.regions != [] && 0 < size <= ROOM - 8 * PAGE_SIZE && Current(s).curr + size > Current(s).end
    requires Reserved(Current(s).curr + size - Current(s).end) <= bytes
    ensures var n := Reserved(Current(s).curr + size - Current(s).end);
            var (ok, t) := Reserve(s, Current(s).curr, size);
            && ok && Added(s, n, t) && Roomy(t, bytes - n) && t.regions != []
            && AllocAligned(s, size, 1) == (Pointer(Current(t).curr), Take(t, Current(t).curr, size))
  {
    hide Inv, AlignUp, AddRegion, NewSize, Added, Reserved, Take;
    EndRoom(s);
    CurrBelowEnd(s);
    NoWrap(Current(s).curr + size);
    var stop: u64 := Current(s).curr + size;
    NewSizeValue(stop, Current(s).end);
    var n := NewSize(stop, Current(s).end);
    RoomAdds(s, n, bytes);
    AddedInv(s, n, AddRegion(s, n).1);
    OneAligns(Current(s).curr);
    OneAligns(Current(AddRegion(s, n).1).curr);
  }

  lemma CurrBelowEnd(s: State)
    requires Inv(s) && s.regions != []
    ensures Current(s).curr <= Current(s).end
  {
    assert RegionOk(s.pmm, s.hhdm, Current(s));
  }

  /** The first request of an empty allocator gets a page. */
  lemma FirstPage(s: State, bytes: nat)
    requires Roomy(s, bytes) && s.regions == [] && bytes >= PAGE_SIZE
    ensures var s1 := AddRegion(s, PAGE_SIZE).1;
            && AddRegion(s, PAGE_SIZE).0 && Roomy(s1, bytes - PAGE_SIZE) && s1.regions != []
            && Current(s1).end == Current(s1).base + PAGE_SIZE && Current(s1).curr == Current(s1).base + HEADER
  {
    hide Inv, AlignUp, AddRegion, Added, Reserve, Take;
    RoomAdds(s, PAGE_SIZE, bytes);
    AddedInv(s, PAGE_SIZE, AddRegion(s, PAGE_SIZE).1);
  }

  /** Any first request works on that page. */
  lemma FirstRequest(s: State, size: u64, a: u64)
    requires s.regions == [] && AddRegion(s, PAGE_SIZE).0 && AddRegion(s, PAGE_SIZE).1.regions != [] && size > 0 && a > 0
    ensures AllocAligned(AddRegion(s, PAGE_SIZE).1, size, a).0 != Crash ==> AllocAligned(s, size, a) == AllocAligned(AddRegion(s, PAGE_SIZE).1, size, a)
  {
    hide AlignUp, AddRegion, Reserve, Take;
  }

  /** From an empty allocator, with five free pages: requests of 4072 bytes, 1 byte and 12263
      bytes, all unaligned; the last range ends 4095 bytes behind its region. */
  lemma OverfullRun(s: State)
    requires Roomy(s, 5 * PAGE_SIZE) && s.regions == []
    ensures var (r1, t1) := AllocAligned(s, 4072, 1);
            var (r2, t2) := AllocAligned(t1, 1, 1);
            var (r3, t3) := AllocAligned(t2, 12263, 1);
            r1.Pointer? && r2.Pointer? && r3.Pointer? && t3.regions != [] && r3.at + 12263 == Current(t3).end + 4095
  {
    hide Inv, AlignUp, AllocAligned, AddRegion, Reserve, Added;
    FirstPage(s, 5 * PAGE_SIZE);
    var s1 := AddRegion(s, PAGE_SIZE).1;
    FirstRequest(s, 4072, 1);
    OneAligns(Current(s1).curr);
    StaysInside(s1, 4072, 1);
    var t1 := Take(s1, Current(s1).curr, 4072);
    GoesBeyond(t1, 1, 4 * PAGE_SIZE);
    var u1 := Reserve(t1, Current(t1).curr, 1).1;
    assert Reserved(1) == 8192;
    AddedInv(t1, 8192, u1);
    TakenRoomy(u1, 1, 2 * PAGE_SIZE);
    var t2 := Take(u1, Current(u1).curr, 1);
    assert Reserved(4096) == 8192;
    GoesBeyond(t2, 12263, 2 * PAGE_SIZE);
    var u2 := Reserve(t2, Current(t2).curr, 12263).1;
    AddedInv(t2, 8192, u2);
    EndRoom(u2);
    NoWrap(Current(u2).curr + 12263);
  }

  lemma TakenRoomy(s: State, size: u64, bytes: nat)
    requires Roomy(s, bytes) && s.regions != [] && Current(s).curr + size <= Current(s).end
    ensures var t := Take(s, Current(s).curr, size);
            Roomy(t, bytes) && t.regions != [] && Current(t).curr == Current(s).curr + size && Current(t).end == Current(s).end
  {
    hide Inv;
    EndRoom(s);
    NoWrap(Current(s).curr + size);
    TakeInv(s, Current(s).curr, size);
  }

  /** An empty allocator on a memory manager that was given the pages from 0x1000 on. */
  function Booted(buf: nat, bytes: u64, hhdm: u64): State
    requires Slab.GrowAccepts(buf, Slab.RegionSize(Pmm.INITIAL_MEM_BLOCK_COUNT, Pmm.BLOCK_SZ), Pmm.BLOCK_SZ)
  {
    State([], Pmm.AddRegion(Pmm.Initial(Pmm.FirstFit, buf), 0x1000, bytes).1, hhdm)
  }

  lemma BootedRoomy(buf: nat, bytes: u64, hhdm: u64)
    requires Slab.GrowAccepts(buf, Slab.RegionSize(Pmm.INITIAL_MEM_BLOCK_COUNT, Pmm.BLOCK_SZ), Pmm.BLOCK_SZ)
    requires bytes % PAGE_SIZE == 0 && 0 < bytes && hhdm % PAGE_SIZE == 0 && 0x1000 + bytes + ROOM + hhdm < WORD
    ensures Roomy(Booted(buf, bytes, hhdm), bytes)
  {
    hide Pmm.Inv, Pmm.AddRegion, Slab.Grow;
    var p := PmmCompare.OneRegion(buf, 0x1000, bytes);
    var s := Pmm.AddRegion(Pmm.Initial(Pmm.FirstFit, buf), 0x1000, bytes).1;
    OneSum(s);
  }

  /** That run, from boot on. */
  lemma OverfullAfterBoot(buf: nat, hhdm: u64)
    requires Slab.GrowAccepts(buf, Slab.RegionSize(Pmm.INITIAL_MEM_BLOCK_COUNT, Pmm.BLOCK_SZ), Pmm.BLOCK_SZ)
    requires hhdm % PAGE_SIZE == 0 && 0x6000 + ROOM + hhdm < WORD
    ensures var s := Booted(buf, 0x5000, hhdm);
            var t := AllocAligned(AllocAligned(s, 4072, 1).1, 1, 1).1;
            var (res, u) := AllocAligned(t, 12263, 1);
            Inv(s) && res.Pointer? && u.regions != [] && res.at + 12263 == Current(u).end + 4095
  {
    hide AllocAligned, Booted, Inv;
    BootedRoomy(buf, 0x5000, hhdm);
    BootedEmpty(buf, 0x5000, hhdm);
    OverfullRun(Booted(buf, 0x5000, hhdm));
  }

  lemma BootedEmpty(buf: nat, bytes: u64, hhdm: u64)
    requires Slab.GrowAccepts(buf, Slab.RegionSize(Pmm.INITIAL_MEM_BLOCK_COUNT, Pmm.BLOCK_SZ), Pmm.BLOCK_SZ)
    ensures Booted(buf, bytes, hhdm).regions == []
  {
    hide Pmm.AddRegion;
  }
}
