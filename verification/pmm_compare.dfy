/** The written allocator against the meant one, and a concrete run in which they part. */
module PmmCompare {
  import opened Num
  import Pmm
  import PmmProofs
  import PmmRegions
  import PmmRuns
  import Meant = PmmMeant
  import Slab

  /** A region of the written manager, its free list read as a sequence of blocks. */
  function ReadRegion(blocks: map<nat, Pmm.Block>, r: Pmm.Region): Meant.Region {
    var b := Pmm.BlockAt(blocks, r.freeBlocks);
    Meant.Region(r.base, r.length, r.freeBytes, if r.freeBlocks == 0 then [] else [Meant.Chunk(b.base, b.length)])
  }

  function Read(s: Pmm.State): seq<Meant.Region> {
    seq(|s.regions|, i requires 0 <= i < |s.regions| => ReadRegion(s.blocks, s.regions[i]))
  }

  lemma ReadInv(s: Pmm.State)
    requires Pmm.Inv(s)
    ensures Meant.Inv(Read(s))
  {
    hide Slab.Inv, Slab.Handed;
    var rs := Read(s);
    forall i | 0 <= i < |rs|
      ensures Meant.RegionOk(rs[i])
    {
      assert Pmm.RegionOk(s.blocks, s.regions[i]);
      if s.regions[i].freeBlocks != 0 {
        var c := rs[i].chunks[0];
        Meant.PiecesSum(c, c.base, c.length);
      }
    }
    forall i, j | 0 <= i < j < |rs|
      ensures rs[i].base + rs[i].length <= rs[j].base || rs[j].base + rs[j].length <= rs[i].base
    {
      assert Pmm.Disjoint(s.regions[i], s.regions[j]);
    }
  }

  /** What a page-aligned carve leaves of region k. */
  lemma CarveReads(s: Pmm.State, k: nat, size: u64) returns (t: Pmm.State)
    requires Pmm.Inv(s) && k < |s.regions| && Pmm.Serves(s.regions[k], size) && 0 < size && size % PAGE_SIZE == 0
    ensures var r := s.regions[k]; var b := Pmm.BlockAt(s.blocks, r.freeBlocks);
            && Pmm.Carve(s, k, size, PAGE_SIZE) == (Pmm.Granted(b.base), t)
            && b.base % PAGE_SIZE == 0 && b.length == r.freeBytes >= size
            && Read(t) == Read(s)[k := Meant.Region(r.base, r.length, r.freeBytes - size,
                                     if size < b.length then [Meant.Chunk(b.base + size, b.length - size)] else [])]
  {
    hide Slab.Inv, Slab.Handed, AlignUp, Wrap;
    var r := s.regions[k];
    assert Pmm.RegionOk(s.blocks, r);
    var b := Pmm.BlockAt(s.blocks, r.freeBlocks);
    PageIsPow2();
    AlignUpValue(b.base, PAGE_SIZE);
    NoWrap(b.base + b.length);
    NoWrap(b.base + size);
    NoWrap(r.freeBytes - size);
    if size < b.length { NoWrap(b.base + b.length - (b.base + size)); }
    t := Pmm.Carve(s, k, size, PAGE_SIZE).1;
    forall i | 0 <= i < |s.regions| && i != k
      ensures Read(t)[i] == Read(s)[i]
    {
      assert s.regions[i].freeBlocks == 0 || s.regions[i].freeBlocks != r.freeBlocks;
    }
  }

  /** Meant first fit stops at the same region, whose only block it cuts from the front. */
  lemma MeantFront(s: Pmm.State, size: u64, k: nat)
    requires Pmm.Inv(s) && k < |s.regions| && k == Pmm.FirstServing(s.regions, 0, size) && 0 < size
    ensures var r := s.regions[k]; var b := Pmm.BlockAt(s.blocks, r.freeBlocks);
            Meant.Alloc(Read(s), size, PAGE_SIZE) ==
              (Meant.Granted(b.base),
               Read(s)[k := Meant.Region(r.base, r.length, r.freeBytes - size,
                              if size < b.length then [Meant.Chunk(b.base + size, b.length - size)] else [])])
  {
    hide Slab.Inv, Slab.Handed;
    var rs := Read(s);
    var r := s.regions[k];
    assert Pmm.RegionOk(s.blocks, r);
    assert Meant.FindFit(rs[k].chunks, 0, size, PAGE_SIZE) == 0;
    forall j | 0 <= j < k
      ensures rs[j].freeBytes < size || rs[j].chunks == []
    {
      assert !Pmm.Serves(s.regions[j], size);
    }
    assert Meant.FindRegion(rs, 0, size, PAGE_SIZE) == k;
    var b := Pmm.BlockAt(s.blocks, r.freeBlocks);
    assert Meant.Cut(rs[k].chunks, 0, b.base, size) ==
             if size < b.length then [Meant.Chunk(b.base + size, b.length - size)] else [];
  }

  /** On page-aligned requests of nonzero rounded size, the written allocator is meant first fit. */
  lemma WrittenIsMeant(s: Pmm.State, size: u64)
    requires Pmm.Inv(s) && s.policy == Pmm.FirstFit && AlignUp(size, PAGE_SIZE) > 0
    ensures var (res, t) := Pmm.Alloc(s, size);
            var (res', t') := Meant.Alloc(Read(s), AlignUp(size, PAGE_SIZE), PAGE_SIZE);
            && (res == Pmm.OutOfMem <==> res' == Meant.OutOfMem)
            && (res.Granted? ==> res'.Granted? && res.base == res'.base)
            && Read(t) == t'
  {
    hide Slab.Inv, Slab.Handed, AlignUp, Pmm.Carve, Meant.Alloc, Pmm.AllocAligned, And;
    var sz := AlignUp(size, PAGE_SIZE);
    PmmProofs.RoundedSize(size);
    PmmProofs.PageAlignment();
    PmmProofs.AllocAlignedScan(s, size, PAGE_SIZE);
    var k := Pmm.FirstServing(s.regions, 0, sz);
    if k < |s.regions| {
      var t := CarveReads(s, k, sz);
      MeantFront(s, sz, k);
    } else {
      ReadInv(s);
      NoneServes(s, sz);
    }
  }

  lemma NoneServes(s: Pmm.State, size: u64)
    requires Pmm.FirstServing(s.regions, 0, size) == |s.regions|
    ensures Meant.Alloc(Read(s), size, PAGE_SIZE) == (Meant.OutOfMem, Read(s))
  {
    var rs := Read(s);
    forall j | 0 <= j < |rs|
      ensures rs[j].freeBytes < size || rs[j].chunks == []
    {
      assert !Pmm.Serves(s.regions[j], size);
    }
    assert Meant.FindRegion(rs, 0, size, PAGE_SIZE) == |rs|;
  }

  // ---------------------------------------------------------------- a concrete run

  lemma UpTo8K()
    ensures AlignUp(0x1000, 0x2000) == 0x2000 && AlignUp(0x1000, PAGE_SIZE) == 0x1000 && AlignUp(0x2000, PAGE_SIZE) == 0x2000
    ensures Pmm.GoodAlignment(0x2000)
  {
    hide AlignUp, And;
    PowWord();
    assert 0x2000 == Pow2(13);
    var a: u64 := 0x2000;
    PowerOfTwoTest(a);
    AlignUpValue(0x1000, a);
    PageIsPow2();
    AlignUpValue(0x1000, PAGE_SIZE);
    AlignUpValue(0x2000, PAGE_SIZE);
  }

  /** The run below, from any state that manages just the four pages at 0x1000. */
  lemma TailLostWitness(s: Pmm.State, p: nat)
    requires Pmm.Inv(s) && s.policy == Pmm.FirstFit && p != 0
    requires s.regions == [Pmm.Region(0x1000, 0x4000, 0x4000, p)] && Pmm.BlockAt(s.blocks, p) == Pmm.Block(0x1000, 0x4000, 0)
    ensures var (res, t) := Pmm.AllocAligned(s, 0x1000, 0x2000);
            && res == Pmm.Granted(0x2000) && !Pmm.Inv(t)
            && t.freeBytes == 0x3000 && Pmm.Alloc(t, 0x2000).0 == Pmm.Crash
  {
    hide Slab.Inv, Slab.Handed, Slab.Alloc, AlignUp, And, Pmm.Carve, Pmm.GoodAlignment;
    UpTo8K();
    PmmProofs.AlignedGrantIff(s, 0x1000, 0x2000, 0, 0x2000);
    PmmProofs.AllocAlignedScan(s, 0x1000, 0x2000);
    var t := AfterSplit(s, p);
    PmmProofs.PageAlignment();
    var sz: u64 := 0x2000;
    assert Pmm.FirstServing(t.regions, 0, sz) == 0;
    PmmProofs.CarveMisfit(t, 0, sz, PAGE_SIZE, 0x1000);
  }

  lemma AfterSplit(s: Pmm.State, p: nat) returns (t: Pmm.State)
    requires Pmm.Inv(s) && p != 0
    requires s.regions == [Pmm.Region(0x1000, 0x4000, 0x4000, p)] && Pmm.BlockAt(s.blocks, p) == Pmm.Block(0x1000, 0x4000, 0)
    ensures Pmm.Carve(s, 0, 0x1000, 0x2000) == (Pmm.Granted(0x2000), t)
    ensures t.regions == [Pmm.Region(0x1000, 0x4000, 0x3000, p)] && Pmm.BlockAt(t.blocks, p) == Pmm.Block(0x1000, 0x1000, 0)
    ensures t.policy == s.policy && t.freeBytes == 0x3000 && t.slab.free >= Pmm.REFILL_BELOW
  {
    hide Slab.Inv, Slab.Handed, Slab.Alloc, AlignUp;
    UpTo8K();
    PmmRegions.SumAppend([], s.regions[0]);
    assert s.regions == [] + [s.regions[0]];
    assert Pmm.RegionOk(s.blocks, s.regions[0]) && Slab.Handed(s.slab, Pmm.BLOCK_SZ, p);
    Slab.AllocNullIff(s.slab, Pmm.BLOCK_SZ);
    Slab.AllocFresh(s.slab, Pmm.BLOCK_SZ);
    assert Slab.Alloc(s.slab).0 != p;
    t := Pmm.Carve(s, 0, 0x1000, 0x2000).1;
  }

  /** After initialize and one add_region of whole pages. */
  lemma OneRegion(buf: nat, base: u64, size: u64) returns (p: nat)
    requires Slab.GrowAccepts(buf, Slab.RegionSize(Pmm.INITIAL_MEM_BLOCK_COUNT, Pmm.BLOCK_SZ), Pmm.BLOCK_SZ)
    requires base % PAGE_SIZE == 0 && size % PAGE_SIZE == 0 && 0 < base && 0 < size && base + size < WORD
    ensures var (res, s) := Pmm.AddRegion(Pmm.Initial(Pmm.FirstFit, buf), base, size);
            && res == Pmm.Added && Pmm.Inv(s) && s.policy == Pmm.FirstFit && p != 0
            && s.regions == [Pmm.Region(base, size, size, p)] && Pmm.BlockAt(s.blocks, p) == Pmm.Block(base, size, 0)
  {
    hide Slab.Inv, Slab.Handed, Slab.Alloc, Slab.Grow, Pmm.AlignedBase, Pmm.AlignedSize, PmmRegions.Padding, Pmm.Inv;
    var s0 := Pmm.Initial(Pmm.FirstFit, buf);
    PmmRuns.InitialIsValid(buf);
    var slab1, slab2;
    p, slab1, slab2 := PmmRegions.AddStep(s0, base, size);
    WholePages(base, size);
    PmmRegions.SoundRegionFits(base, size);
    assert Pmm.AddRegion(s0, base, size).0 == Pmm.Added;
    PmmRegions.AddRegionIff(s0, base, size);
  }

  lemma WholePages(base: u64, size: u64)
    requires base % PAGE_SIZE == 0 && size % PAGE_SIZE == 0 && base + size < WORD
    ensures Pmm.AlignedBase(base) == base && Pmm.AlignedSize(base, size) == size && PmmRegions.Padding(base) == 0
  {
    hide Pmm.AlignedBase, Pmm.AlignedSize, PmmRegions.Padding;
    PmmRegions.BaseGeometry(base);
    PmmRegions.SizeGeometry(base, size);
  }

  /** With one region of four pages at 0x1000, a page aligned to 8 KiB is granted at 0x2000
      with a page free before it and two after it; the two are lost, and the next request for
      two pages, which the count says are there, dereferences null. */
  lemma TailLostAfterBoot(buf: nat)
    requires Slab.GrowAccepts(buf, Slab.RegionSize(Pmm.INITIAL_MEM_BLOCK_COUNT, Pmm.BLOCK_SZ), Pmm.BLOCK_SZ)
    ensures var s := Pmm.AddRegion(Pmm.Initial(Pmm.FirstFit, buf), 0x1000, 0x4000).1;
            var (res, t) := Pmm.AllocAligned(s, 0x1000, 0x2000);
            && Pmm.Inv(s) && res == Pmm.Granted(0x2000) && !Pmm.Inv(t)
            && t.freeBytes == 0x3000 && Pmm.Alloc(t, 0x2000).0 == Pmm.Crash
  {
    hide Pmm.Inv, Pmm.AddRegion, Pmm.AllocAligned, Pmm.Alloc, Slab.Grow;
    var p := OneRegion(buf, 0x1000, 0x4000);
    TailLostWitness(Pmm.AddRegion(Pmm.Initial(Pmm.FirstFit, buf), 0x1000, 0x4000).1, p);
  }

  // ---------------------------------------------------------------- regions accepted by mistake

  /** Concrete failure of the subtraction: one byte at 0x1001 is added to the empty manager as a
      region of 2^64 - 4096 bytes. */
  lemma ShortRegionWitness(buf: nat)
    requires Slab.GrowAccepts(buf, Slab.RegionSize(Pmm.INITIAL_MEM_BLOCK_COUNT, Pmm.BLOCK_SZ), Pmm.BLOCK_SZ)
    ensures var (res, s) := Pmm.AddRegion(Pmm.Initial(Pmm.FirstFit, buf), 0x1001, 1);
            && res == Pmm.Added && !Pmm.Inv(s)
            && |s.regions| == 1 && s.regions[0].base == 0x2000 && s.regions[0].length == WORD - PAGE_SIZE
            && s.freeBytes == WORD - PAGE_SIZE
  {
    hide Pmm.Inv, Pmm.AlignedBase, Pmm.AlignedSize, PmmRegions.Padding, Slab.Alloc, Slab.Grow, Slab.Inv, Slab.Handed;
    var s0 := Pmm.Initial(Pmm.FirstFit, buf);
    PmmRuns.InitialIsValid(buf);
    PmmRegions.BaseGeometry(0x1001);
    PmmRegions.SizeGeometry(0x1001, 1);
    var p, slab1, slab2 := PmmRegions.AddStep(s0, 0x1001, 1);
    assert Pmm.AddRegion(s0, 0x1001, 1).0 == Pmm.Added;
    PmmRegions.AddRegionIff(s0, 0x1001, 1);
  }

  /** With one page at 0x3000 managed, the five pages at 0x1000, which hold it, are accepted. */
  lemma SwallowAccepted(s: Pmm.State, p: nat) returns (q: nat, t: Pmm.State)
    requires Pmm.Inv(s) && s.policy == Pmm.FirstFit && p != 0
    requires s.regions == [Pmm.Region(0x3000, 0x1000, 0x1000, p)] && Pmm.BlockAt(s.blocks, p) == Pmm.Block(0x3000, 0x1000, 0)
    ensures Pmm.AddRegion(s, 0x1000, 0x5000) == (Pmm.Added, t)
    ensures q != 0 && p != q
    ensures t.regions == [Pmm.Region(0x3000, 0x1000, 0x1000, p), Pmm.Region(0x1000, 0x5000, 0x5000, q)]
    ensures Pmm.BlockAt(t.blocks, p) == Pmm.Block(0x3000, 0x1000, 0) && Pmm.BlockAt(t.blocks, q) == Pmm.Block(0x1000, 0x5000, 0)
    ensures t.policy == Pmm.FirstFit && t.freeBytes == 0x6000 && t.slab.free >= Pmm.REFILL_BELOW
  {
    hide Pmm.AlignedBase, Pmm.AlignedSize, PmmRegions.Padding, Pmm.AddRegion, Pmm.RegionOk, Pmm.Overlaps;
    hide Slab.Alloc, Slab.Inv, Slab.Handed, Wrap, Pmm.SumLength;
    var slab1, slab2;
    q, slab1, slab2 := PmmRegions.AddStep(s, 0x1000, 0x5000);
    WholePages(0x1000, 0x5000);
    AddedUnlessOverlap(s);
    assert s.regions == [] + [s.regions[0]];
    PmmRegions.SumAppend([], s.regions[0]);
    assert s.freeBytes == 0x1000;
    assert Slab.Handed(s.slab, Pmm.BLOCK_SZ, s.regions[0].freeBlocks);
    NoWrap(0x6000);
    t := Pmm.AddRegion(s, 0x1000, 0x5000).1;
  }

  lemma AddedUnlessOverlap(s: Pmm.State)
    requires Pmm.AddRegion(s, 0x1000, 0x5000).0 !in {Pmm.AssertFailed, Pmm.NullDeref}
    requires Pmm.AlignedBase(0x1000) == 0x1000 && Pmm.AlignedSize(0x1000, 0x5000) == 0x5000
    requires |s.regions| == 1 && s.regions[0].base == 0x3000
    ensures Pmm.AddRegion(s, 0x1000, 0x5000).0 == Pmm.Added
  {
    hide Pmm.AlignedBase, Pmm.AlignedSize, Slab.Alloc;
    NoWrap(0x6000);
    assert !Pmm.Overlaps(s.regions[0], 0x1000);
  }

  /** The memory handed out then overlaps: a page is granted at 0x3000, and the five pages
      granted next, at 0x1000, contain it. */
  lemma SwallowAfterBoot(buf: nat)
    requires Slab.GrowAccepts(buf, Slab.RegionSize(Pmm.INITIAL_MEM_BLOCK_COUNT, Pmm.BLOCK_SZ), Pmm.BLOCK_SZ)
    ensures var s := Pmm.AddRegion(Pmm.Initial(Pmm.FirstFit, buf), 0x3000, 0x1000).1;
            var (added, t) := Pmm.AddRegion(s, 0x1000, 0x5000);
            var (first, u) := Pmm.Alloc(t, 0x1000);
            Pmm.Inv(s) && added == Pmm.Added && first == Pmm.Granted(0x3000) && Pmm.Alloc(u, 0x5000).0 == Pmm.Granted(0x1000)
  {
    hide Pmm.Inv, Pmm.AddRegion, Pmm.Alloc;
    var p := OneRegion(buf, 0x3000, 0x1000);
    var s := Pmm.AddRegion(Pmm.Initial(Pmm.FirstFit, buf), 0x3000, 0x1000).1;
    var q, t := SwallowAccepted(s, p);
    SwallowGrants(t, p, q);
  }

  lemma SwallowGrants(t: Pmm.State, p: nat, q: nat)
    requires p != 0 && q != 0 && p != q
    requires t.regions == [Pmm.Region(0x3000, 0x1000, 0x1000, p), Pmm.Region(0x1000, 0x5000, 0x5000, q)]
    requires Pmm.BlockAt(t.blocks, p) == Pmm.Block(0x3000, 0x1000, 0) && Pmm.BlockAt(t.blocks, q) == Pmm.Block(0x1000, 0x5000, 0)
    requires t.policy == Pmm.FirstFit && t.freeBytes == 0x6000 && t.slab.free >= Pmm.REFILL_BELOW
    ensures var (first, u) := Pmm.Alloc(t, 0x1000);
            first == Pmm.Granted(0x3000) && Pmm.Alloc(u, 0x5000).0 == Pmm.Granted(0x1000)
  {
    hide AlignUp, And, Pmm.GoodAlignment, Slab.Alloc;
    PmmProofs.PageAlignment();
    PageIsPow2();
    AlignUpValue(0x1000, PAGE_SIZE);
    AlignUpValue(0x3000, PAGE_SIZE);
    AlignUpValue(0x5000, PAGE_SIZE);
    var u := Pmm.Alloc(t, 0x1000).1;
    assert u.regions == [Pmm.Region(0x3000, 0x1000, 0, 0), Pmm.Region(0x1000, 0x5000, 0x5000, q)];
    assert u.freeBytes == 0x5000 && u.slab == t.slab && u.policy == t.policy && u.blocks == t.blocks;
    var five: u64 := 0x5000;
    assert Pmm.FirstServing(u.regions, 0, five) == 1;
  }
}
