/** The physical memory manager of kernel/src/pmm.cpp, as written.
    Pointers to free-list nodes are the addresses the slab hands out; 0 is the null pointer,
    and `blocks` is the memory holding the nodes. */
module Pmm {
  import opened Num
  import Slab

  const REGION_COUNT: nat := 16
  const INITIAL_MEM_BLOCK_COUNT: nat := 64
  const REFILL_BELOW: nat := 16
  // sizeof(slab_block) for memory_block: two 64-bit words and a pointer.
  const BLOCK_SZ: nat := 24

  datatype Policy = FirstFit | BestFit | WorstFit | NextFit

  /** A free chunk within a region. */
  datatype Block = Block(base: u64, length: u64, next: nat)

  datatype Region = Region(base: u64, length: u64, freeBytes: u64, freeBlocks: nat)

  datatype State = State(
    policy: Policy,
    regions: seq<Region>,
    blocks: map<nat, Block>,
    slab: Slab.State,
    totalBytes: u64,
    freeBytes: u64)

  /** `AssertFailed` and `NullDeref` end the kernel. */
  datatype AddResult = Added | NullArgument | RegionListFull | RegionTooSmall | RegionManaged | AssertFailed | NullDeref

  /** `Unimplemented` is a todo() that never returns; `Crash` a null dereference or a failed assertion. */
  datatype AllocResult = Granted(base: u64) | BadAlign | OutOfMem | Unimplemented | Crash

  function BlockAt(blocks: map<nat, Block>, p: nat): Block {
    if p in blocks then blocks[p] else Block(0, 0, 0)
  }

  /** The state after `initialize`: the slab owns one static buffer for 64 nodes. */
  function Initial(p: Policy, buf: nat): State
    requires Slab.GrowAccepts(buf, Slab.RegionSize(INITIAL_MEM_BLOCK_COUNT, BLOCK_SZ), BLOCK_SZ)
  {
    State(p, [], map[], Slab.Grow(Slab.EMPTY, buf, Slab.RegionSize(INITIAL_MEM_BLOCK_COUNT, BLOCK_SZ), BLOCK_SZ), 0, 0)
  }

  // ---------------------------------------------------------------- add_region

  function AlignedBase(base: u64): u64 {
    AlignUp(base, PAGE_SIZE)
  }

  /** The subtraction is modulo 2^64, so it wraps when the region is shorter than its padding. */
  function AlignedSize(base: u64, size: u64): u64 {
    AlignDown(Wrap(size - Wrap(AlignedBase(base) - base)), PAGE_SIZE)
  }

  /** The overlap test: the new base lies in [r.base, r.base + r.length], both ends included. */
  predicate Overlaps(r: Region, base: u64) {
    r.base <= base <= Wrap(r.base + r.length)
  }

  function AddRegion(s: State, base: u64, size: u64): (AddResult, State) {
    var ab, sz := AlignedBase(base), AlignedSize(base, size);
    if base == 0 then (NullArgument, s)
    else if |s.regions| >= REGION_COUNT then (RegionListFull, s)
    else if Wrap(ab + sz) > Wrap(base + size) || sz < PAGE_SIZE then (RegionTooSmall, s)
    else if exists i :: 0 <= i < |s.regions| && Overlaps(s.regions[i], ab) then (RegionManaged, s)
    else
      var (dropped, slab1) := Slab.Alloc(s.slab);
      if dropped == 0 then (AssertFailed, s.(slab := slab1))
      else
        var (p, slab2) := Slab.Alloc(slab1);
        if p == 0 then (NullDeref, s.(slab := slab2))
        else (Added, s.(regions := s.regions + [Region(ab, sz, sz, p)],
                        blocks := s.blocks[p := Block(ab, sz, 0)],
                        slab := slab2,
                        totalBytes := Wrap(s.totalBytes + sz),
                        freeBytes := Wrap(s.freeBytes + sz)))
  }

  // ---------------------------------------------------------------- alloc_aligned

  /** The loop body, entered at most once because it always returns. When the block does not
      fit, `curr` is advanced but every size still describes the block before it. */
  function Carve(s: State, i: nat, size: u64, alignment: u64): (AllocResult, State)
    requires i < |s.regions|
  {
    var r := s.regions[i];
    var b := BlockAt(s.blocks, r.freeBlocks);
    var ab := AlignUp(b.base, alignment);
    var blockEnd, end := Wrap(b.base + b.length), Wrap(ab + size);
    var prev := if blockEnd < end then r.freeBlocks else 0;
    var curr := if blockEnd < end then b.next else r.freeBlocks;
    var c := BlockAt(s.blocks, curr);
    if curr == 0 then (Crash, s)
    else
      var paid := s.(regions := s.regions[i := r.(freeBytes := Wrap(r.freeBytes - size))],
                     freeBytes := Wrap(s.freeBytes - size));
      if b.base != ab && blockEnd > end then
        var (extra, slab') := Slab.Alloc(s.slab);
        if extra == 0 then (Crash, s)
        else (Granted(ab), paid.(slab := slab',
                                 blocks := s.blocks[curr := c.(length := Wrap(ab - b.base))]
                                                   [extra := Block(end, Wrap(blockEnd - end), c.next)]))
      else if b.base != ab then
        (Granted(ab), paid.(blocks := s.blocks[curr := c.(length := Wrap(ab - b.base))]))
      else if blockEnd > end then
        (Granted(ab), paid.(blocks := s.blocks[curr := c.(base := end, length := Wrap(blockEnd - end))]))
      else if prev == 0 then
        (Granted(ab), paid.(regions := s.regions[i := r.(freeBytes := Wrap(r.freeBytes - size), freeBlocks := c.next)]))
      else (Crash, s)  // block_allocator.free is not implemented, and its error is asserted away
  }

  predicate Serves(r: Region, size: u64) {
    r.freeBytes >= size && r.freeBlocks != 0
  }

  /** Index of the first region from i on whose loop is entered, or |regions|. */
  function FirstServing(regions: seq<Region>, i: nat, size: u64): (k: nat)
    requires i <= |regions|
    ensures i <= k <= |regions|
    ensures forall j :: i <= j < k ==> !Serves(regions[j], size)
    ensures k < |regions| ==> Serves(regions[k], size)
    decreases |regions| - i
  {
    if i == |regions| || Serves(regions[i], size) then i else FirstServing(regions, i + 1, size)
  }

  predicate GoodAlignment(alignment: u64) {
    alignment >= PAGE_SIZE && And(alignment, alignment - 1) == 0
  }

  function AllocAligned(s: State, size: u64, alignment: u64): (AllocResult, State) {
    var sz := AlignUp(size, PAGE_SIZE);
    if !GoodAlignment(alignment) then (BadAlign, s)
    else if s.freeBytes < sz then (OutOfMem, s)
    else if s.slab.free < REFILL_BELOW || s.policy != FirstFit then (Unimplemented, s)
    else
      var k := FirstServing(s.regions, 0, sz);
      if k == |s.regions| then (OutOfMem, s) else Carve(s, k, sz, alignment)
  }

  function Alloc(s: State, size: u64): (AllocResult, State) {
    AllocAligned(s, size, PAGE_SIZE)
  }

  // ---------------------------------------------------------------- the invariant

  ghost function SumFree(rs: seq<Region>): nat {
    if rs == [] then 0 else rs[0].freeBytes + SumFree(rs[1..])
  }

  ghost function SumLength(rs: seq<Region>): nat {
    if rs == [] then 0 else rs[0].length + SumLength(rs[1..])
  }

  /** A page-aligned, non-empty span that does not reach the top of the address space. */
  ghost predicate Span(base: int, length: int) {
    0 < base && 0 < length && base + length < WORD && base % PAGE_SIZE == 0 && length % PAGE_SIZE == 0
  }

  /** At most one free block, inside the region, as long as the free-byte count says. */
  ghost predicate RegionOk(blocks: map<nat, Block>, r: Region) {
    && Span(r.base, r.length)
    && if r.freeBlocks == 0 then r.freeBytes == 0 else
         var b := BlockAt(blocks, r.freeBlocks);
         && Span(b.base, b.length) && b.next == 0 && b.length == r.freeBytes
         && r.base <= b.base && b.base + b.length <= r.base + r.length
  }

  ghost predicate Disjoint(r: Region, q: Region) {
    r.base + r.length <= q.base || q.base + q.length <= r.base
  }

  ghost predicate Inv(s: State) {
    && |s.regions| <= REGION_COUNT
    && (forall i :: 0 <= i < |s.regions| ==> RegionOk(s.blocks, s.regions[i]))
    && (forall i, j :: 0 <= i < j < |s.regions| ==> Disjoint(s.regions[i], s.regions[j]))
    && (forall i, j :: 0 <= i < j < |s.regions| && s.regions[i].freeBlocks != 0
          ==> s.regions[i].freeBlocks != s.regions[j].freeBlocks)
    && (forall i :: 0 <= i < |s.regions| && s.regions[i].freeBlocks != 0
          ==> Slab.Handed(s.slab, BLOCK_SZ, s.regions[i].freeBlocks))
    && Slab.Inv(s.slab, BLOCK_SZ)
    && s.slab.free + 2 * |s.regions| == INITIAL_MEM_BLOCK_COUNT
    && s.freeBytes == SumFree(s.regions)
    && s.totalBytes == SumLength(s.regions)
  }

  /** Address x lies in some region's free block. */
  ghost predicate Free(s: State, x: int) {
    exists i :: 0 <= i < |s.regions| && InFreeBlock(s.blocks, s.regions[i], x)
  }

  ghost predicate InFreeBlock(blocks: map<nat, Block>, r: Region, x: int) {
    r.freeBlocks != 0 && var b := BlockAt(blocks, r.freeBlocks); b.base <= x < b.base + b.length
  }

  ghost predicate InRegion(r: Region, x: int) {
    r.base <= x < r.base + r.length
  }

  ghost predicate Managed(s: State, x: int) {
    exists i :: 0 <= i < |s.regions| && InRegion(s.regions[i], x)
  }

  /** Address x may still be handed out, now or after further regions are added. */
  ghost predicate Available(s: State, x: int) {
    Free(s, x) || !Managed(s, x)
  }
}
