/** What the physical memory manager, as written, keeps and promises. */
module PmmProofs {
  import opened Num
  import opened Pmm
  import Slab

  // ---------------------------------------------------------------- one region changes

  lemma {:induction false} SumFreeUpdate(rs: seq<Region>, k: nat, r: Region)
    requires k < |rs|
    ensures SumFree(rs[k := r]) == SumFree(rs) - rs[k].freeBytes + r.freeBytes
    ensures r.length == rs[k].length ==> SumLength(rs[k := r]) == SumLength(rs)
    ensures SumFree(rs) >= rs[k].freeBytes
  {
    if k > 0 {
      SumFreeUpdate(rs[1..], k - 1, r);
      assert rs[k := r][1..] == rs[1..][k - 1 := r];
    } else {
      assert rs[0 := r][1..] == rs[1..];
    }
  }

  /** Region k's count and free block become those of r; nothing else changes. */
  ghost predicate Updated(s: State, k: nat, r: Region, t: State)
    requires k < |s.regions|
  {
    var q := s.regions[k];
    && r.base == q.base && r.length == q.length && RegionOk(t.blocks, r)
    && (r.freeBlocks == 0 || r.freeBlocks == q.freeBlocks)
    && (forall p :: p != q.freeBlocks ==> BlockAt(t.blocks, p) == BlockAt(s.blocks, p))
    && 0 <= s.freeBytes - q.freeBytes + r.freeBytes < WORD
    && t == s.(regions := s.regions[k := r], blocks := t.blocks, freeBytes := s.freeBytes - q.freeBytes + r.freeBytes)
  }

  lemma UpdateKeepsInv(s: State, k: nat, r: Region, t: State)
    requires Inv(s) && k < |s.regions| && s.regions[k].freeBlocks != 0 && Updated(s, k, r, t)
    ensures Inv(t)
  {
    hide Slab.Inv, Slab.Handed;
    SumFreeUpdate(s.regions, k, r);
    forall i | 0 <= i < |t.regions|
      ensures RegionOk(t.blocks, t.regions[i])
    {
      assert RegionOk(s.blocks, s.regions[i]);
    }
    forall i, j | 0 <= i < j < |t.regions|
      ensures Disjoint(t.regions[i], t.regions[j])
      ensures t.regions[i].freeBlocks != 0 ==> t.regions[i].freeBlocks != t.regions[j].freeBlocks
    {
      assert Disjoint(s.regions[i], s.regions[j]);
    }
  }

  lemma UpdateFree(s: State, k: nat, r: Region, t: State, x: int)
    requires Inv(s) && k < |s.regions| && s.regions[k].freeBlocks != 0 && Updated(s, k, r, t)
    ensures Managed(t, x) <==> Managed(s, x)
    ensures Free(t, x) <==> InFreeBlock(t.blocks, r, x) || exists i :: 0 <= i < |s.regions| && i != k && InFreeBlock(s.blocks, s.regions[i], x)
  {
    hide Slab.Inv, Slab.Handed, RegionOk, Disjoint;
    forall i | 0 <= i < |s.regions|
      ensures InRegion(t.regions[i], x) <==> InRegion(s.regions[i], x)
      ensures i != k ==> (InFreeBlock(t.blocks, t.regions[i], x) <==> InFreeBlock(s.blocks, s.regions[i], x))
    {
    }
    if i :| 0 <= i < |s.regions| && i != k && InFreeBlock(s.blocks, s.regions[i], x) {
      assert InFreeBlock(t.blocks, t.regions[i], x);
    }
    if InFreeBlock(t.blocks, r, x) { assert t.regions[k] == r; }
  }

  /** Free blocks of different regions are disjoint. */
  lemma FreeBlocksApart(s: State, i: nat, k: nat, x: int)
    requires Inv(s) && i < |s.regions| && k < |s.regions| && i != k
    requires InFreeBlock(s.blocks, s.regions[k], x)
    ensures !InFreeBlock(s.blocks, s.regions[i], x) && Managed(s, x)
  {
    hide Slab.Inv, Slab.Handed;
    assert RegionOk(s.blocks, s.regions[i]) && RegionOk(s.blocks, s.regions[k]);
    assert if i < k then Disjoint(s.regions[i], s.regions[k]) else Disjoint(s.regions[k], s.regions[i]);
    assert InRegion(s.regions[k], x);
  }

  // ---------------------------------------------------------------- carving a range from a block

  /** The aligned range of the given size lies inside region k's free block. */
  ghost predicate Fits(s: State, k: nat, size: int, ab: int)
    requires k < |s.regions|
  {
    var b := BlockAt(s.blocks, s.regions[k].freeBlocks);
    b.base <= ab && ab + size <= b.base + b.length
  }

  /** The range leaves free memory on both sides: the case in which the tail is dropped. */
  ghost predicate SplitsInTwo(s: State, k: nat, size: int, ab: int)
    requires k < |s.regions|
  {
    var b := BlockAt(s.blocks, s.regions[k].freeBlocks);
    b.base < ab && ab + size < b.base + b.length
  }

  /** What a grant of [ab, ab + size) should do to the memory manager. */
  ghost predicate Carved(s: State, t: State, ab: int, size: int) {
    && Inv(t) && t.freeBytes == s.freeBytes - size && t.totalBytes == s.totalBytes && t.policy == s.policy
    && (forall x :: ab <= x < ab + size ==> Free(s, x))
    && (forall x :: Available(t, x) <==> Available(s, x) && !(ab <= x < ab + size))
    && (forall x :: Managed(t, x) <==> Managed(s, x))
  }

  /** Outside the two-sided split, a fitting request only shortens or removes the block. */
  lemma CarveUpdates(s: State, k: nat, size: u64, alignment: u64, ab: u64) returns (r': Region, t: State)
    requires k < |s.regions| && Serves(s.regions[k], size) && size % PAGE_SIZE == 0 && ab % PAGE_SIZE == 0
    requires RegionOk(s.blocks, s.regions[k]) && s.regions[k].freeBytes <= s.freeBytes
    requires ab == AlignUp(BlockAt(s.blocks, s.regions[k].freeBlocks).base, alignment)
    requires Fits(s, k, size, ab) && !SplitsInTwo(s, k, size, ab)
    ensures Carve(s, k, size, alignment) == (Granted(ab), t)
    ensures Updated(s, k, r', t) && t.freeBytes == s.freeBytes - size
    ensures forall x :: InFreeBlock(t.blocks, r', x) <==> InFreeBlock(s.blocks, s.regions[k], x) && !(ab <= x < ab + size)
  {
    hide AlignUp, Wrap;
    var r := s.regions[k];
    var b := BlockAt(s.blocks, r.freeBlocks);
    NoWrap(b.base + b.length);
    NoWrap(ab + size);
    NoWrap(r.freeBytes - size);
    NoWrap(s.freeBytes - size);
    t := Carve(s, k, size, alignment).1;
    r' := t.regions[k];
    if b.base != ab {
      NoWrap(ab - b.base);
      assert BlockAt(t.blocks, r.freeBlocks) == b.(length := ab - b.base);
    } else if b.base + b.length > ab + size {
      NoWrap(b.base + b.length - (ab + size));
      assert BlockAt(t.blocks, r.freeBlocks) == b.(base := ab + size, length := b.base + b.length - (ab + size));
    } else {
      assert r'.freeBlocks == b.next;
    }
  }

  lemma CarvedFrom(s: State, k: nat, r: Region, t: State, ab: int, size: int)
    requires Inv(s) && k < |s.regions| && s.regions[k].freeBlocks != 0 && Updated(s, k, r, t)
    requires Fits(s, k, size, ab) && t.freeBytes == s.freeBytes - size
    requires forall x :: InFreeBlock(t.blocks, r, x) <==> InFreeBlock(s.blocks, s.regions[k], x) && !(ab <= x < ab + size)
    ensures Carved(s, t, ab, size)
  {
    hide Inv, Updated, RegionOk;
    var q := s.regions[k];
    UpdateKeepsInv(s, k, r, t);
    assert t.totalBytes == s.totalBytes && t.policy == s.policy by { UpdatedKeeps(s, k, r, t); }
    forall x
      ensures ab <= x < ab + size ==> Free(s, x)
      ensures Available(t, x) <==> Available(s, x) && !(ab <= x < ab + size)
      ensures Managed(t, x) <==> Managed(s, x)
    {
      UpdateFree(s, k, r, t, x);
      if ab <= x < ab + size { assert InFreeBlock(s.blocks, q, x); }
      if InFreeBlock(s.blocks, q, x) {
        forall i | 0 <= i < |s.regions| && i != k
          ensures !InFreeBlock(s.blocks, s.regions[i], x)
        {
          FreeBlocksApart(s, i, k, x);
        }
        BlockManaged(s, k, x);
      }
    }
  }

  lemma UpdatedKeeps(s: State, k: nat, r: Region, t: State)
    requires k < |s.regions| && Updated(s, k, r, t)
    ensures t.totalBytes == s.totalBytes && t.policy == s.policy
  {
  }

  lemma BlockManaged(s: State, k: nat, x: int)
    requires Inv(s) && k < |s.regions| && InFreeBlock(s.blocks, s.regions[k], x)
    ensures Managed(s, x)
  {
    hide Slab.Inv, Slab.Handed;
    assert RegionOk(s.blocks, s.regions[k]);
    assert InRegion(s.regions[k], x);
  }

  lemma CarveKeepsInv(s: State, k: nat, size: u64, alignment: u64, ab: u64)
    requires Inv(s) && k < |s.regions| && Serves(s.regions[k], size) && size % PAGE_SIZE == 0 && ab % PAGE_SIZE == 0
    requires ab == AlignUp(BlockAt(s.blocks, s.regions[k].freeBlocks).base, alignment)
    requires Fits(s, k, size, ab) && !SplitsInTwo(s, k, size, ab)
    ensures Carve(s, k, size, alignment).0 == Granted(ab)
    ensures Carved(s, Carve(s, k, size, alignment).1, ab, size)
  {
    hide AlignUp, Carve, Carved, Slab.Inv, Slab.Handed;
    SumFreeUpdate(s.regions, k, s.regions[k]);
    var r', t := CarveUpdates(s, k, size, alignment, ab);
    CarvedFrom(s, k, r', t, ab, size);
  }

  // ---------------------------------------------------------------- alloc

  lemma PageAlignment()
    ensures GoodAlignment(PAGE_SIZE)
  {
    hide And;
    PowWord();
    assert PAGE_SIZE == Pow2(12);
    var a := PAGE_SIZE;
    PowerOfTwoTest(a);
    assert And(a, a - 1) == 0;
  }

  lemma RoundedSize(size: u64)
    ensures AlignUp(size, PAGE_SIZE) % PAGE_SIZE == 0
  {
    hide AlignUp;
    PageIsPow2();
    AlignUpValue(size, PAGE_SIZE);
  }

  lemma {:induction false} SomeRegionCovers(rs: seq<Region>, i: nat)
    requires i < |rs|
    ensures rs[i].freeBytes <= SumFree(rs)
  {
    if i > 0 { SomeRegionCovers(rs[1..], i - 1); }
  }

  /** For every alignment: before carving, the outcome is decided by the first region whose
      free-byte count is large enough; the slab refill and policy stops are never reached. */
  lemma AllocAlignedScan(s: State, size: u64, alignment: u64)
    requires Inv(s) && s.policy == FirstFit
    ensures var sz := AlignUp(size, PAGE_SIZE); var k := FirstServing(s.regions, 0, sz);
            AllocAligned(s, size, alignment) ==
              if !GoodAlignment(alignment) then (BadAlign, s)
              else if k == |s.regions| then (OutOfMem, s)
              else Carve(s, k, sz, alignment)
  {
    hide AlignUp, GoodAlignment, Carve, RegionOk, Slab.Inv, Slab.Handed;
    var k := FirstServing(s.regions, 0, AlignUp(size, PAGE_SIZE));
    if k < |s.regions| {
      SomeRegionCovers(s.regions, k);
    }
  }

  /** A page-aligned request fails exactly when no region has enough free bytes; otherwise the
      lowest-index region that has them serves it from the front of its only free block. */
  lemma AllocServes(s: State, size: u64)
    requires Inv(s) && s.policy == FirstFit
    ensures var sz := AlignUp(size, PAGE_SIZE); var (res, t) := Alloc(s, size);
            && (res == OutOfMem <==> forall i :: 0 <= i < |s.regions| ==> s.regions[i].freeBytes < sz || s.regions[i].freeBytes == 0)
            && (res == OutOfMem ==> t == s)
            && (res != OutOfMem ==> exists k :: 0 <= k < |s.regions| && ServedBy(s, size, k))
  {
    hide AlignUp, GoodAlignment, Carve, Slab.Inv, Slab.Handed, Carved;
    var sz := AlignUp(size, PAGE_SIZE);
    var k := FirstServing(s.regions, 0, sz);
    AllocAlignedScan(s, size, PAGE_SIZE);
    PageAlignment();
    forall i | 0 <= i < |s.regions|
      ensures s.regions[i].freeBlocks == 0 <==> s.regions[i].freeBytes == 0
    {
      assert RegionOk(s.blocks, s.regions[i]);
    }
    if k < |s.regions| {
      assert RegionOk(s.blocks, s.regions[k]);
      AllocFront(s, size, k);
    }
  }

  /** Region k is the first with enough free bytes, and its front is handed out. */
  ghost predicate ServedBy(s: State, size: u64, k: nat)
    requires k < |s.regions|
  {
    var sz := AlignUp(size, PAGE_SIZE);
    var b := BlockAt(s.blocks, s.regions[k].freeBlocks);
    && Serves(s.regions[k], sz) && (forall i :: 0 <= i < k ==> !Serves(s.regions[i], sz))
    && Alloc(s, size).0 == Granted(b.base)
    && Carved(s, Alloc(s, size).1, b.base, sz)
  }

  lemma AllocFront(s: State, size: u64, k: nat)
    requires Inv(s) && k < |s.regions| && k == FirstServing(s.regions, 0, AlignUp(size, PAGE_SIZE))
    requires Alloc(s, size) == Carve(s, k, AlignUp(size, PAGE_SIZE), PAGE_SIZE)
    ensures ServedBy(s, size, k)
  {
    hide AlignUp, Carve, Carved, Slab.Inv, Slab.Handed, AllocAligned;
    assert RegionOk(s.blocks, s.regions[k]);
    var b := BlockAt(s.blocks, s.regions[k].freeBlocks);
    PageIsPow2();
    AlignUpValue(b.base, PAGE_SIZE);
    RoundedSize(size);
    CarveKeepsInv(s, k, AlignUp(size, PAGE_SIZE), PAGE_SIZE, b.base);
  }

  /** The size handed out covers the size asked for exactly when rounding does not overflow. */
  lemma RoundingCovers(size: u64)
    ensures AlignUp(size, PAGE_SIZE) >= size <==> size + PAGE_SIZE - 1 < WORD
  {
    hide AlignUp;
    PageIsPow2();
    AlignUpValue(size, PAGE_SIZE);
  }

  // ---------------------------------------------------------------- stricter alignments

  /** The aligned range starts or ends beyond the address space, so that its start or its end
      wraps around. */
  predicate WrapsAround(s: State, k: nat, size: int, ab: int)
    requires k < |s.regions|
  {
    ab < BlockAt(s.blocks, s.regions[k].freeBlocks).base || ab + size >= WORD
  }

  /** Which requests with a stricter alignment the written code serves correctly: exactly those
      whose aligned range lies inside the first large enough region's block and touches one
      of its ends. A range inside both ends loses the tail (the count no longer matches the
      block); a range that does not fit dereferences the null end of the list, unless it wraps
      around the top of the address space: then a range outside the block is granted. */
  lemma AlignedGrantIff(s: State, size: u64, alignment: u64, k: nat, ab: u64)
    requires Inv(s) && s.policy == FirstFit && GoodAlignment(alignment)
    requires k == FirstServing(s.regions, 0, AlignUp(size, PAGE_SIZE)) && k < |s.regions|
    requires ab == AlignUp(BlockAt(s.blocks, s.regions[k].freeBlocks).base, alignment)
    ensures var sz := AlignUp(size, PAGE_SIZE); var (res, t) := AllocAligned(s, size, alignment);
            && (Fits(s, k, sz, ab) || WrapsAround(s, k, sz, ab) ==> res == Granted(ab))
            && (!Fits(s, k, sz, ab) && !WrapsAround(s, k, sz, ab) ==> res == Crash)
            && (WrapsAround(s, k, sz, ab) ==> !Fits(s, k, sz, ab))
            && (Fits(s, k, sz, ab) && !SplitsInTwo(s, k, sz, ab) ==> Carved(s, t, ab, sz))
            && (Inv(t) && res.Granted? <==> Fits(s, k, sz, ab) && !SplitsInTwo(s, k, sz, ab))
  {
    hide AlignUp, Carve, Carved, And, Slab.Inv, Slab.Handed;
    var sz := AlignUp(size, PAGE_SIZE);
    AllocAlignedScan(s, size, alignment);
    RoundedSize(size);
    var b := BlockAt(s.blocks, s.regions[k].freeBlocks);
    assert RegionOk(s.blocks, s.regions[k]);
    PowerOfTwoTest(alignment);
    AlignUpValue(b.base, alignment);
    AlignedToPage(ab, alignment);
    if WrapsAround(s, k, sz, ab) {
      CarveWrapped(s, k, sz, alignment, ab);
    } else if !Fits(s, k, sz, ab) {
      CarveMisfit(s, k, sz, alignment, ab);
    } else if SplitsInTwo(s, k, sz, ab) {
      CarveSplit(s, k, sz, alignment, ab);
    } else {
      CarveKeepsInv(s, k, sz, alignment, ab);
      assert Inv(Carve(s, k, sz, alignment).1) by { CarvedInv(s, Carve(s, k, sz, alignment).1, ab, sz); }
    }
  }

  lemma CarvedInv(s: State, t: State, ab: int, size: int)
    requires Carved(s, t, ab, size)
    ensures Inv(t)
  {
  }

  /** A multiple of a power of two that is at least a page is a multiple of a page. */
  lemma AlignedToPage(x: nat, a: u64)
    requires IsPow2(a) && a >= PAGE_SIZE && x % a == 0
    ensures x % PAGE_SIZE == 0
  {
    var k := Pow2Exponent(a);
    PowWord();
    assert Pow2(11) == 2048;
    if k < 12 {
      PowMonotone(k, 11);
    } else {
      PowAdd(12, k - 12);
      MultipleOfMultiple(x, PAGE_SIZE, Pow2(k - 12));
    }
  }

  lemma MultipleOfMultiple(x: nat, p: nat, m: nat)
    requires p > 0 && p * m > 0 && x % (p * m) == 0
    ensures x % p == 0
  {
    var q := x / (p * m);
    assert x == (p * m) * q;
    assert (p * m) * q == (m * q) * p;
    ModUnique(x, p, m * q, 0);
  }

  lemma CarveMisfit(s: State, k: nat, size: u64, alignment: u64, ab: u64)
    requires k < |s.regions| && Serves(s.regions[k], size)
    requires var b := BlockAt(s.blocks, s.regions[k].freeBlocks); b.next == 0 && b.base + b.length < WORD
    requires ab == AlignUp(BlockAt(s.blocks, s.regions[k].freeBlocks).base, alignment)
    requires BlockAt(s.blocks, s.regions[k].freeBlocks).base <= ab && ab + size < WORD && !Fits(s, k, size, ab)
    ensures Carve(s, k, size, alignment).0 == Crash
  {
    hide AlignUp, Wrap;
    var b := BlockAt(s.blocks, s.regions[k].freeBlocks);
    NoWrap(b.base + b.length);
    NoWrap(ab + size);
  }

  /** After a two-sided split the block keeps what lies before the range. What lies behind it is
      written to a new node to which no link leads, and the counts still include it. */
  ghost predicate TailLost(s: State, k: nat, size: int, ab: int, t: State)
    requires k < |s.regions| && k < |t.regions|
  {
    var p := s.regions[k].freeBlocks;
    var b, extra := BlockAt(s.blocks, p), Slab.Alloc(s.slab).0;
    && extra != 0 && extra != p
    && BlockAt(t.blocks, p).base == b.base && BlockAt(t.blocks, p).length == ab - b.base && BlockAt(t.blocks, p).next == 0
    && BlockAt(t.blocks, extra).base == ab + size && BlockAt(t.blocks, extra).length == b.base + b.length - (ab + size)
    && (forall q :: q != p && q != extra ==> BlockAt(t.blocks, q) == BlockAt(s.blocks, q))
    && t.regions[k].freeBytes == s.regions[k].freeBytes - size && t.freeBytes == s.freeBytes - size
  }

  lemma CarveSplit(s: State, k: nat, size: u64, alignment: u64, ab: u64)
    requires Inv(s) && k < |s.regions| && Serves(s.regions[k], size)
    requires ab == AlignUp(BlockAt(s.blocks, s.regions[k].freeBlocks).base, alignment)
    requires Fits(s, k, size, ab) && SplitsInTwo(s, k, size, ab)
    ensures Carve(s, k, size, alignment).0 == Granted(ab)
    ensures !Inv(Carve(s, k, size, alignment).1) && TailLost(s, k, size, ab, Carve(s, k, size, alignment).1)
  {
    hide AlignUp, Wrap, Slab.Inv, Slab.Alloc, Slab.Handed;
    var r := s.regions[k];
    var b := BlockAt(s.blocks, r.freeBlocks);
    assert RegionOk(s.blocks, r);
    NoWrap(b.base + b.length);
    NoWrap(ab + size);
    NoWrap(ab - b.base);
    NoWrap(r.freeBytes - size);
    SomeRegionCovers(s.regions, k);
    NoWrap(s.freeBytes - size);
    NoWrap(b.base + b.length - (ab + size));
    Slab.AllocNullIff(s.slab, BLOCK_SZ);
    Slab.AllocFresh(s.slab, BLOCK_SZ);
    var extra := Slab.Alloc(s.slab).0;
    assert extra != r.freeBlocks;
    var t := Carve(s, k, size, alignment).1;
    assert BlockAt(t.blocks, r.freeBlocks).length == ab - b.base;
    assert t.regions[k].freeBytes == r.freeBytes - size;
    assert !RegionOk(t.blocks, t.regions[k]);
  }

  /** The end of a range that wraps around is below the end of the block. */
  lemma CarveWrapped(s: State, k: nat, size: u64, alignment: u64, ab: u64)
    requires Inv(s) && k < |s.regions| && Serves(s.regions[k], size)
    requires ab == AlignUp(BlockAt(s.blocks, s.regions[k].freeBlocks).base, alignment)
    requires WrapsAround(s, k, size, ab)
    requires ab < BlockAt(s.blocks, s.regions[k].freeBlocks).base ==> ab == 0
    ensures Carve(s, k, size, alignment).0 == Granted(ab)
    ensures !Inv(Carve(s, k, size, alignment).1) && !Fits(s, k, size, ab)
  {
    hide AlignUp, Wrap, Slab.Inv, Slab.Alloc, Slab.Handed;
    var r := s.regions[k];
    var b := BlockAt(s.blocks, r.freeBlocks);
    assert RegionOk(s.blocks, r);
    NoWrap(b.base + b.length);
    NoWrap(r.freeBytes - size);
    var end := WrappedEnd(b.base, b.length, ab, size);
    var left := WrappedFront(b.base, ab);
    Slab.AllocNullIff(s.slab, BLOCK_SZ);
    Slab.AllocFresh(s.slab, BLOCK_SZ);
    var extra := Slab.Alloc(s.slab).0;
    assert extra != r.freeBlocks;
    var t := Carve(s, k, size, alignment).1;
    assert BlockAt(t.blocks, r.freeBlocks).length == left;
    assert t.regions[k].freeBytes == r.freeBytes - size;
    assert !RegionOk(t.blocks, t.regions[k]);
  }

  lemma WrappedEnd(base: u64, length: u64, ab: u64, size: u64) returns (end: u64)
    requires 0 < base && base + length < WORD && size <= length
    requires ab == 0 || (base <= ab && ab + size >= WORD)
    ensures end == Wrap(ab + size) && end < base + length && ab != base
  {
    end := Wrap(ab + size);
    if ab == 0 {
      NoWrap(size);
    } else {
      assert Wrap(ab + size) == ab + size - WORD;
    }
  }

  lemma WrappedFront(base: u64, ab: u64) returns (left: u64)
    requires ab == 0 < base || base <= ab
    ensures left == Wrap(ab - base) && left == if ab < base then WORD - base else ab - base
  {
    left := Wrap(ab - base);
    if base <= ab {
      NoWrap(ab - base);
    }
  }
}
