/** The memory manager as the source has it: global tables updated in place. Each operation
    is proved equal to its step in module Pmm, and grants are zero-filled in memory. */
module PmmObject {
  import opened Num
  import opened Memory
  import opened Pmm
  import Slab

  /** A grant zero-fills the range it hands out. */
  function FillGrant(m: Words, res: AllocResult, size: u64): Words {
    if res.Granted? then ZeroFill(m, res.base, AlignUp(size, PAGE_SIZE)) else m
  }

  /** Every grant, of any number of pages, is zeroed, and nothing else is written. */
  lemma GrantZeroed(m: Words, res: AllocResult, size: u64)
    ensures var m' := FillGrant(m, res, size);
            if res.Granted? then Zeroed(m, m', res.base, NextPage(size)) else m' == m
  {
    hide ZeroFill, AlignUp;
    if res.Granted? {
      AlignUpPage(size);
      forall x: nat
        ensures Load(ZeroFill(m, res.base, NextPage(size)), x) == if res.base <= x < res.base + NextPage(size) && (x - res.base) % 8 == 0 then 0 else Load(m, x)
      {
        ZeroFillLoad(m, res.base, NextPage(size), x);
      }
    }
  }

  class MemoryManager {
    const mem: PhysicalMemory
    const slab: Slab.SlabAlloc
    const regions: array<Region>
    var policy: Policy
    var regionCount: nat
    var blocks: map<nat, Block>
    var totalBytes: u64
    var freeBytes: u64

    predicate Valid()
      reads this
    {
      regionCount <= REGION_COUNT == regions.Length && slab.bs == BLOCK_SZ
    }

    function St(): State
      reads this, slab, regions
      requires Valid()
    {
      State(policy, regions[..regionCount], blocks, slab.St(), totalBytes, freeBytes)
    }

    /** The globals before and after `initialize(p)`. */
    constructor (memory: PhysicalMemory, p: Policy, buf: nat)
      requires Slab.GrowAccepts(buf, Slab.RegionSize(INITIAL_MEM_BLOCK_COUNT, BLOCK_SZ), BLOCK_SZ)
      ensures Valid() && mem == memory && fresh(slab) && fresh(regions) && St() == Initial(p, buf)
    {
      mem := memory;
      policy := p;
      slab := new Slab.SlabAlloc(BLOCK_SZ);
      regions := new Region[REGION_COUNT](_ => Region(0, 0, 0, 0));
      regionCount, blocks, totalBytes, freeBytes := 0, map[], 0, 0;
      new;
      var ok := slab.AddBuffer(buf, Slab.RegionSize(INITIAL_MEM_BLOCK_COUNT, BLOCK_SZ));
    }

    method Add(base: u64, size: u64) returns (res: AddResult)
      requires Valid()
      modifies this, slab, regions
      ensures Valid() && res == AddRegion(old(St()), base, size).0
      ensures res !in {AssertFailed, NullDeref} ==> St() == AddRegion(old(St()), base, size).1
    {
      hide Wrap, AlignedBase, AlignedSize, Slab.Alloc, Overlaps;
      if base == 0 {
        return NullArgument;
      }
      if regionCount >= REGION_COUNT {
        return RegionListFull;
      }
      var alignedBase := AlignedBase(base);
      var alignedSize := AlignedSize(base, size);
      if Wrap(alignedBase + alignedSize) > Wrap(base + size) || alignedSize < PAGE_SIZE {
        return RegionTooSmall;
      }
      for i := 0 to regionCount
        invariant forall j :: 0 <= j < i ==> !Overlaps(regions[..regionCount][j], alignedBase)
      {
        if Overlaps(regions[i], alignedBase) {
          assert regions[..regionCount][i] == regions[i];
          return RegionManaged;
        }
      }
      res := Install(alignedBase, alignedSize);
    }

    /** Second half of add_region: take two slab nodes, keep the second, record the region. */
    method Install(alignedBase: u64, alignedSize: u64) returns (res: AddResult)
      requires Valid() && regionCount < REGION_COUNT
      modifies this, slab, regions
      ensures Valid()
      ensures res == if Slab.Alloc(old(slab.St())).0 == 0 then AssertFailed
                     else if Slab.Alloc(Slab.Alloc(old(slab.St())).1).0 == 0 then NullDeref else Added
      ensures res == Added ==>
                var (p, slab2) := Slab.Alloc(Slab.Alloc(old(slab.St())).1);
                St() == State(old(policy), old(St()).regions + [Region(alignedBase, alignedSize, alignedSize, p)],
                              old(blocks)[p := Block(alignedBase, alignedSize, 0)], slab2,
                              Wrap(old(totalBytes) + alignedSize), Wrap(old(freeBytes) + alignedSize))
    {
      hide Wrap, Slab.Alloc;
      var freeBlock := slab.Get();
      if freeBlock == 0 {
        return AssertFailed;
      }
      var p := slab.Get();
      if p == 0 {
        return NullDeref;
      }
      regions[regionCount] := Region(alignedBase, alignedSize, alignedSize, p);
      blocks := blocks[p := Block(alignedBase, alignedSize, 0)];
      regionCount := regionCount + 1;
      totalBytes := Wrap(totalBytes + alignedSize);
      freeBytes := Wrap(freeBytes + alignedSize);
      return Added;
    }

    method AllocateAligned(size: u64, alignment: u64) returns (res: AllocResult)
      requires Valid()
      modifies this, slab, regions, mem
      ensures Valid() && res == AllocAligned(old(St()), size, alignment).0
      ensures res !in {Unimplemented, Crash} ==> St() == AllocAligned(old(St()), size, alignment).1
      ensures mem.words == FillGrant(old(mem.words), res, size)
      ensures if res.Granted? then Zeroed(old(mem.words), mem.words, res.base, NextPage(size)) else mem.words == old(mem.words)
    {
      hide Wrap, AlignUp, And, Carve, Zeroed, ZeroFill;
      var sz := AlignUp(size, PAGE_SIZE);
      if !GoodAlignment(alignment) {
        return BadAlign;
      }
      if freeBytes < sz {
        return OutOfMem;
      }
      if slab.free < REFILL_BELOW || policy != FirstFit {
        return Unimplemented;
      }
      var i := 0;
      while i < regionCount
        invariant 0 <= i <= regionCount
        invariant FirstServing(regions[..regionCount], 0, sz) == FirstServing(regions[..regionCount], i, sz)
      {
        if regions[i].freeBytes >= sz && regions[i].freeBlocks != 0 {
          res := CarveFrom(i, sz, alignment);
          if res.Granted? {
            GrantZeroed(mem.words, res, size);
            mem.Fill(res.base, sz);
          }
          return;
        }
        i := i + 1;
      }
      return OutOfMem;
    }

    method CarveFrom(i: nat, size: u64, alignment: u64) returns (res: AllocResult)
      requires Valid() && i < regionCount
      modifies this, slab, regions
      ensures Valid() && res == Carve(old(St()), i, size, alignment).0
      ensures res != Crash ==> res.Granted? && St() == Carve(old(St()), i, size, alignment).1
    {
      hide Wrap, AlignUp, Slab.Alloc;
      var curr, prev := regions[i].freeBlocks, 0;
      var b := BlockAt(blocks, curr);
      var alignedBase := AlignUp(b.base, alignment);
      var blockEnd, end := Wrap(b.base + b.length), Wrap(alignedBase + size);
      if blockEnd < end {
        prev := curr;
        curr := b.next;
      }
      if curr == 0 {
        return Crash;
      }
      var c := BlockAt(blocks, curr);
      if b.base != alignedBase && blockEnd > end {
        blocks := blocks[curr := c.(length := Wrap(alignedBase - b.base))];
        var extra := slab.Get();
        if extra == 0 {
          return Crash;
        }
        blocks := blocks[extra := Block(end, Wrap(blockEnd - end), c.next)];
      } else if b.base != alignedBase {
        blocks := blocks[curr := c.(length := Wrap(alignedBase - b.base))];
      } else if blockEnd > end {
        blocks := blocks[curr := c.(base := end, length := Wrap(blockEnd - end))];
      } else if prev == 0 {
        regions[i] := regions[i].(freeBlocks := c.next);
      } else {
        return Crash;
      }
      regions[i] := regions[i].(freeBytes := Wrap(regions[i].freeBytes - size));
      freeBytes := Wrap(freeBytes - size);
      return Granted(alignedBase);
    }
  }
}
