/** What add_region and alloc_aligned answer, each result by conditions on plain numbers. */
module PmmResults {
  import opened Num
  import opened Pmm
  import opened PmmRegions
  import PmmProofs
  import Slab

  // ---------------------------------------------------------------- add_region

  /** Bytes up to the next page. */
  function PagePadding(base: u64): nat {
    (4096 - base % 4096) % 4096
  }

  /** Whole pages behind the padding. A region shorter than its padding is taken for 2^64 bytes
      less one page. */
  function PageBytes(base: u64, size: u64): nat {
    if size < PagePadding(base) then 0x1_0000_0000_0000_0000 - 4096 else (size - PagePadding(base)) / 4096 * 4096
  }

  lemma PagesOf(base: u64, size: u64)
    ensures AlignedBase(base) == NextPage(base) && AlignedSize(base, size) == PageBytes(base, size)
    ensures Padding(base) == PagePadding(base)
  {
    hide AlignedBase, AlignedSize, Padding, AlignUp;
    BaseOf(base);
    BaseGeometry(base);
    SizeGeometry(base, size);
    PaddingOf(base);
  }

  lemma BaseOf(base: u64)
    ensures AlignedBase(base) == NextPage(base)
  {
    hide AlignUp;
    AlignUpPage(base);
  }

  lemma PaddingOf(base: u64)
    ensures Padding(base) == PagePadding(base)
  {
    hide AlignedBase, Padding;
    BaseOf(base);
    BaseGeometry(base);
  }

  /** The new base lies in region r or right behind it. */
  ghost predicate Touches(r: Region, b: int) {
    r.base <= b <= r.base + r.length
  }

  /** The region holds no whole page, or its pages end, modulo 2^64, behind its own end. */
  ghost predicate TooSmall(base: u64, size: u64) {
    || PageBytes(base, size) < 4096
    || (NextPage(base) + PageBytes(base, size)) % 0x1_0000_0000_0000_0000 > (base + size) % 0x1_0000_0000_0000_0000
  }

  /** When add_region gives each of its results. The first of these tests that applies decides. */
  lemma AddResults(s: State, base: u64, size: u64)
    requires Inv(s)
    ensures var res := AddRegion(s, base, size).0;
            && (res == NullArgument <==> base == 0)
            && (res == RegionListFull <==> base != 0 && |s.regions| >= 16)
            && (res == RegionTooSmall <==> base != 0 && |s.regions| < 16 && TooSmall(base, size))
            && (res == RegionManaged <==>
                  && base != 0 && |s.regions| < 16 && !TooSmall(base, size)
                  && exists i :: 0 <= i < |s.regions| && Touches(s.regions[i], NextPage(base)))
            && (res == Added <==>
                  && base != 0 && |s.regions| < 16 && !TooSmall(base, size)
                  && forall i :: 0 <= i < |s.regions| ==> !Touches(s.regions[i], NextPage(base)))
  {
    hide AlignedBase, AlignedSize, Slab.Inv, Slab.Handed, Slab.Alloc, AddRegion, Overlaps, RegionOk, NextPage, PageBytes;
    PagesOf(base, size);
    var p, slab1, slab2 := AddStep(s, base, size);
    AddChain(s, base, size);
    forall i | 0 <= i < |s.regions|
      ensures Overlaps(s.regions[i], AlignedBase(base)) <==> Touches(s.regions[i], NextPage(base))
    {
      OverlapsTouches(s, i, AlignedBase(base));
    }
  }

  lemma OverlapsTouches(s: State, i: nat, b: u64)
    requires Inv(s) && i < |s.regions|
    ensures Overlaps(s.regions[i], b) <==> Touches(s.regions[i], b)
  {
    hide Slab.Inv, Slab.Handed, Wrap;
    assert RegionOk(s.blocks, s.regions[i]);
    NoWrap(s.regions[i].base + s.regions[i].length);
  }

  lemma AddChain(s: State, base: u64, size: u64)
    ensures var res := AddRegion(s, base, size).0; var ab, sz := AlignedBase(base), AlignedSize(base, size);
            if base == 0 then res == NullArgument
            else if |s.regions| >= REGION_COUNT then res == RegionListFull
            else if Wrap(ab + sz) > Wrap(base + size) || sz < PAGE_SIZE then res == RegionTooSmall
            else if exists i :: 0 <= i < |s.regions| && Overlaps(s.regions[i], ab) then res == RegionManaged
            else res in {AssertFailed, NullDeref, Added}
  {
    hide AlignedBase, AlignedSize, Slab.Alloc, Overlaps, Wrap;
  }

  /** A region of at least a whole page that does not pass 2^64 is added exactly when there is
      room for it in the list and no managed region has its page-rounded base inside or right
      behind it; what is recorded are its whole pages, all of them free. */
  lemma SoundRegionAdded(s: State, base: u64, size: u64)
    requires Inv(s) && base > 0 && base + size < 0x1_0000_0000_0000_0000 && size >= PagePadding(base) + 4096
    ensures var (res, t) := AddRegion(s, base, size); var b, n := NextPage(base), PageBytes(base, size);
            && (res == Added <==> |s.regions| < 16 && forall i :: 0 <= i < |s.regions| ==> !(s.regions[i].base <= b <= s.regions[i].base + s.regions[i].length))
            && (res == Added ==>
                  exists p: nat ::
                    && p != 0 && t.regions == s.regions + [Region(b, n, n, p)] && BlockAt(t.blocks, p) == Block(b, n, 0)
                    && forall i :: 0 <= i < |s.regions| ==> BlockAt(t.blocks, s.regions[i].freeBlocks) == BlockAt(s.blocks, s.regions[i].freeBlocks) || s.regions[i].freeBlocks == 0)
  {
    hide AlignedBase, AlignedSize, Slab.Inv, Slab.Alloc, AddRegion, Overlaps, RegionOk, NextPage, PageBytes, Padding, Slab.Handed, PagePadding, TooSmall;
    PagesOf(base, size);
    AddResults(s, base, size);
    NotTooSmall(base, size);
    var p, slab1, slab2 := AddStep(s, base, size);
    var (res, t) := AddRegion(s, base, size);
    assert res == Added <==> |s.regions| < 16 && forall i :: 0 <= i < |s.regions| ==> !Touches(s.regions[i], NextPage(base));
  }

  lemma NotTooSmall(base: u64, size: u64)
    requires base > 0 && base + size < 0x1_0000_0000_0000_0000 && size >= PagePadding(base) + 4096
    ensures !TooSmall(base, size)
  {
    assert base + PagePadding(base) == NextPage(base);
  }

  // ---------------------------------------------------------------- alloc_aligned

  /** A power of two, of at least 2^12. */
  ghost predicate PageAlignment(alignment: u64) {
    exists k: nat :: k >= 12 && alignment == Pow2(k)
  }

  lemma AlignmentIff(alignment: u64)
    ensures GoodAlignment(alignment) <==> PageAlignment(alignment)
  {
    hide And, Pow2;
    PowWord();
    if alignment > 0 { PowerOfTwoTest(alignment); }
    if GoodAlignment(alignment) {
      var k := Pow2Exponent(alignment);
      if k < 12 { PowStrict(k, 12); }
    }
    if PageAlignment(alignment) {
      var k: nat :| k >= 12 && alignment == Pow2(k);
      PowMonotone(12, k);
      assert IsPow2(alignment);
    }
  }

  lemma {:induction false} PowStrict(i: nat, j: nat)
    requires i < j
    ensures Pow2(i) < Pow2(j)
  {
    PowMonotone(i, j - 1);
  }

  /** When alloc_aligned gives each of its failures, in any state. */
  lemma AllocResults(s: State, size: u64, alignment: u64)
    ensures var res, sz := AllocAligned(s, size, alignment).0, NextPage(size);
            && (res == BadAlign <==> !PageAlignment(alignment))
            && (res == Unimplemented <==> PageAlignment(alignment) && s.freeBytes >= sz && (s.slab.free < 16 || s.policy != FirstFit))
            && (res == OutOfMem <==>
                  && PageAlignment(alignment)
                  && (s.freeBytes < sz
                      || (&& s.slab.free >= 16 && s.policy == FirstFit
                          && forall i :: 0 <= i < |s.regions| ==> s.regions[i].freeBytes < sz || s.regions[i].freeBlocks == 0)))
  {
    hide GoodAlignment, AlignUp, Carve, PageAlignment;
    AlignmentIff(alignment);
    AlignUpPage(size);
    var k := FirstServing(s.regions, 0, NextPage(size));
    if k < |s.regions| {
      assert Serves(s.regions[k], NextPage(size));
      CarveNoFailure(s, k, NextPage(size), alignment);
    } else {
      assert forall i :: 0 <= i < |s.regions| ==> !Serves(s.regions[i], NextPage(size));
    }
  }

  lemma CarveNoFailure(s: State, k: nat, size: u64, alignment: u64)
    requires k < |s.regions|
    ensures Carve(s, k, size, alignment).0.Granted? || Carve(s, k, size, alignment).0 == Crash
  {
    hide AlignUp, Wrap, Slab.Alloc;
  }

  /** A granted range starts at a multiple of the alignment, and so of a page. */
  lemma GrantAligned(s: State, size: u64, alignment: u64)
    requires AllocAligned(s, size, alignment).0.Granted?
    ensures alignment > 0 && AllocAligned(s, size, alignment).0.base % alignment == 0 && AllocAligned(s, size, alignment).0.base % 4096 == 0
  {
    hide AlignUp, Carve, And;
    PowerOfTwoTest(alignment);
    var k := FirstServing(s.regions, 0, AlignUp(size, PAGE_SIZE));
    CarveBase(s, k, AlignUp(size, PAGE_SIZE), alignment);
    var b := BlockAt(s.blocks, s.regions[k].freeBlocks).base;
    AlignUpValue(b, alignment);
    PmmProofs.AlignedToPage(AlignUp(b, alignment), alignment);
  }

  lemma CarveBase(s: State, k: nat, size: u64, alignment: u64)
    requires k < |s.regions| && Carve(s, k, size, alignment).0.Granted?
    ensures Carve(s, k, size, alignment).0.base == AlignUp(BlockAt(s.blocks, s.regions[k].freeBlocks).base, alignment)
  {
    hide AlignUp, Wrap, Slab.Alloc;
  }
}
