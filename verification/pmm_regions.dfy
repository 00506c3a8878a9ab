/** Adding regions to the physical memory manager, and whole runs of it. */
module PmmRegions {
  import opened Num
  import opened Pmm
  import Slab

  // ---------------------------------------------------------------- which spans are accepted

  /** Bytes from the region's base up to the next page. */
  function Padding(base: u64): u64 {
    Wrap(AlignedBase(base) - base)
  }

  /** What a caller can check beforehand: the region does not pass the top of the address
      space, and it is at least as long as its padding. */
  predicate Sound(base: u64, size: u64) {
    base + size < WORD && Padding(base) <= size
  }

  lemma BaseGeometry(base: u64)
    ensures Padding(base) < PAGE_SIZE
    ensures AlignedBase(base) % PAGE_SIZE == 0
    ensures AlignedBase(base) == base + Padding(base) || (AlignedBase(base) == 0 && base + Padding(base) == WORD)
  {
    hide AlignUp;
    PageIsPow2();
    AlignUpValue(base, PAGE_SIZE);
    if base + PAGE_SIZE - 1 < WORD {
      NoWrap(AlignedBase(base) - base);
    } else if base > 0 {
      NoWrap(WORD - base);
      assert Wrap(0 - base) == WORD - base;
    }
  }

  lemma SizeGeometry(base: u64, size: u64)
    ensures AlignedSize(base, size) % PAGE_SIZE == 0
    ensures Padding(base) <= size ==> AlignedSize(base, size) == (size - Padding(base)) / PAGE_SIZE * PAGE_SIZE
    ensures Padding(base) > size ==> AlignedSize(base, size) == WORD - PAGE_SIZE
  {
    hide AlignUp, AlignDown, Wrap;
    var x := Wrap(size - Padding(base));
    PageUp(x);
    BaseGeometry(base);
    if Padding(base) <= size {
      NoWrap(size - Padding(base));
    } else {
      WrapNegative(size - Padding(base));
    }
  }

  lemma WrapNegative(x: int)
    requires x < 0 <= x + WORD
    ensures Wrap(x) == x + WORD
  {
  }

  /** The span recorded for an accepted region is well formed exactly for sound arguments,
      and then it lies inside the region the caller gave. */
  lemma AcceptedSpan(base: u64, size: u64)
    requires base > 0 && AlignedSize(base, size) >= PAGE_SIZE
    requires Wrap(AlignedBase(base) + AlignedSize(base, size)) <= Wrap(base + size)
    ensures Span(AlignedBase(base), AlignedSize(base, size)) <==> Sound(base, size)
    ensures Sound(base, size) ==>
              base <= AlignedBase(base) && AlignedBase(base) + AlignedSize(base, size) <= base + size
  {
    hide AlignedBase, AlignedSize, Padding;
    BaseGeometry(base);
    SizeGeometry(base, size);
  }

  /** A sound region is accepted as far as its size goes exactly when it holds a whole page. */
  lemma SoundRegionFits(base: u64, size: u64)
    requires base > 0 && Sound(base, size)
    ensures Wrap(AlignedBase(base) + AlignedSize(base, size)) <= Wrap(base + size)
    ensures AlignedSize(base, size) >= PAGE_SIZE <==> size - Padding(base) >= PAGE_SIZE
  {
    hide AlignedBase, AlignedSize, Padding;
    BaseGeometry(base);
    SizeGeometry(base, size);
  }

  // ---------------------------------------------------------------- overlap

  /** Some managed region starts strictly inside the new one: the case the test misses. */
  ghost predicate Swallows(s: State, ab: int, sz: int) {
    exists i :: 0 <= i < |s.regions| && ab < s.regions[i].base < ab + sz
  }

  /** A span that passed the overlap test is disjoint from every region unless it swallows the
      start of one. */
  lemma DisjointIff(s: State, ab: u64, sz: u64)
    requires Inv(s) && sz > 0
    requires forall i :: 0 <= i < |s.regions| ==> !Overlaps(s.regions[i], ab)
    ensures (forall i :: 0 <= i < |s.regions| ==> Disjoint(s.regions[i], Region(ab, sz, sz, 0))) <==> !Swallows(s, ab, sz)
  {
    hide Slab.Inv, Slab.Handed;
    forall i | 0 <= i < |s.regions|
      ensures Disjoint(s.regions[i], Region(ab, sz, sz, 0)) <==> !(ab < s.regions[i].base < ab + sz)
    {
      assert RegionOk(s.blocks, s.regions[i]);
      NoWrap(s.regions[i].base + s.regions[i].length);
      assert !Overlaps(s.regions[i], ab);
    }
  }

  // ---------------------------------------------------------------- the counters cannot overflow

  ghost function Range(lo: int, n: nat): (r: set<int>)
    ensures forall x :: x in r <==> lo <= x < lo + n
    ensures |r| == n
  {
    if n == 0 then {} else Range(lo, n - 1) + {lo + n - 1}
  }

  ghost function Covered(rs: seq<Region>): set<int> {
    if rs == [] then {} else Range(rs[0].base, rs[0].length) + Covered(rs[1..])
  }

  lemma {:induction false} CoveredCard(rs: seq<Region>)
    requires forall i, j :: 0 <= i < j < |rs| ==> Disjoint(rs[i], rs[j])
    ensures |Covered(rs)| == SumLength(rs)
    ensures forall x :: x in Covered(rs) ==> exists i :: 0 <= i < |rs| && InRegion(rs[i], x)
  {
    if rs != [] {
      var first, rest := Range(rs[0].base, rs[0].length), rs[1..];
      assert forall i :: 0 <= i < |rest| ==> rest[i] == rs[i + 1];
      CoveredCard(rest);
      forall x | x in Covered(rest)
        ensures x !in first && exists i :: 0 <= i < |rs| && InRegion(rs[i], x)
      {
        var i :| 0 <= i < |rest| && InRegion(rest[i], x);
        assert InRegion(rs[i + 1], x) && Disjoint(rs[0], rs[i + 1]);
      }
      assert forall x :: x in first ==> InRegion(rs[0], x);
      assert first !! Covered(rest);
    }
  }

  /** Disjoint spans below 2^64 have total length below 2^64. */
  lemma TotalFits(rs: seq<Region>)
    requires forall i :: 0 <= i < |rs| ==> Span(rs[i].base, rs[i].length)
    requires forall i, j :: 0 <= i < j < |rs| ==> Disjoint(rs[i], rs[j])
    ensures SumLength(rs) < WORD
  {
    CoveredCard(rs);
    var all := Range(1, WORD - 1);
    assert Covered(rs) <= all;
    SubsetCard(Covered(rs), all);
  }

  lemma {:induction false} SubsetCard(a: set<int>, b: set<int>)
    requires a <= b
    ensures |a| <= |b|
  {
    assert b == a + (b - a);
  }

  lemma {:induction false} FreeAtMostTotal(rs: seq<Region>)
    requires forall i :: 0 <= i < |rs| ==> rs[i].freeBytes <= rs[i].length
    ensures SumFree(rs) <= SumLength(rs)
  {
    if rs != [] { FreeAtMostTotal(rs[1..]); }
  }

  lemma {:induction false} SumAppend(rs: seq<Region>, r: Region)
    ensures SumFree(rs + [r]) == SumFree(rs) + r.freeBytes
    ensures SumLength(rs + [r]) == SumLength(rs) + r.length
  {
    if rs != [] {
      SumAppend(rs[1..], r);
      assert (rs + [r])[1..] == rs[1..] + [r];
    } else {
      assert (rs + [r])[1..] == [];
    }
  }

  // ---------------------------------------------------------------- add_region keeps the invariant

  /** What an accepted region does to the manager: two slab nodes, one of them dropped. */
  lemma AddStep(s: State, base: u64, size: u64) returns (p: nat, slab1: Slab.State, slab2: Slab.State)
    requires Inv(s)
    ensures AddRegion(s, base, size).0 !in {AssertFailed, NullDeref}
    ensures AddRegion(s, base, size).0 != Added ==> AddRegion(s, base, size).1 == s
    ensures AddRegion(s, base, size).0 == Added ==>
              var ab, sz := AlignedBase(base), AlignedSize(base, size);
              && |s.regions| < REGION_COUNT && base > 0 && sz >= PAGE_SIZE && Wrap(ab + sz) <= Wrap(base + size)
              && (forall i :: 0 <= i < |s.regions| ==> !Overlaps(s.regions[i], ab))
              && slab1 == Slab.Alloc(s.slab).1 && slab2 == Slab.Alloc(slab1).1 && p == Slab.Alloc(slab1).0
              && Slab.Inv(slab2, BLOCK_SZ) && slab2.free == s.slab.free - 2
              && (forall a: nat :: Slab.Handed(s.slab, BLOCK_SZ, a) ==> Slab.Handed(slab2, BLOCK_SZ, a) && a != p)
              && Slab.Handed(slab2, BLOCK_SZ, p) && p != 0
              && AddRegion(s, base, size).1 ==
                   State(s.policy, s.regions + [Region(ab, sz, sz, p)], s.blocks[p := Block(ab, sz, 0)], slab2,
                         Wrap(s.totalBytes + sz), Wrap(s.freeBytes + sz))
  {
    hide AlignedBase, AlignedSize, Slab.Inv, Slab.Handed, Slab.Alloc, RegionOk, Wrap;
    slab1 := Slab.Alloc(s.slab).1;
    p := Slab.Alloc(slab1).0;
    slab2 := Slab.Alloc(slab1).1;
    if |s.regions| < REGION_COUNT {
      Slab.AllocNullIff(s.slab, BLOCK_SZ);
      Slab.AllocKeepsInv(s.slab, BLOCK_SZ);
      Slab.AllocFresh(s.slab, BLOCK_SZ);
      Slab.AllocNullIff(slab1, BLOCK_SZ);
      Slab.AllocKeepsInv(slab1, BLOCK_SZ);
      Slab.AllocFresh(slab1, BLOCK_SZ);
    }
  }

  /** After an accepted region the manager is well formed exactly when the arguments were sound
      and the new span does not swallow the start of a managed region. */
  lemma AddRegionIff(s: State, base: u64, size: u64)
    requires Inv(s) && AddRegion(s, base, size).0 == Added
    ensures Inv(AddRegion(s, base, size).1) <==>
              Sound(base, size) && !Swallows(s, AlignedBase(base), AlignedSize(base, size))
  {
    hide AlignedBase, AlignedSize, AddRegion, Sound, Slab.Inv, Slab.Handed, Slab.Alloc, Wrap, Overlaps;
    var p, slab1, slab2 := AddStep(s, base, size);
    var ab, sz := AlignedBase(base), AlignedSize(base, size);
    var t := AddRegion(s, base, size).1;
    AcceptedSpan(base, size);
    DisjointIff(s, ab, sz);
    var n := |s.regions|;
    if Inv(t) {
      assert RegionOk(t.blocks, t.regions[n]);
      forall i | 0 <= i < n
        ensures Disjoint(s.regions[i], Region(ab, sz, sz, 0))
      {
        assert Disjoint(t.regions[i], t.regions[n]);
      }
    }
    if Sound(base, size) && !Swallows(s, ab, sz) {
      AddKeepsInv(s, t, ab, sz, p, slab2);
    }
  }

  lemma AddKeepsInv(s: State, t: State, ab: u64, sz: u64, p: nat, slab2: Slab.State)
    requires Inv(s) && |s.regions| < REGION_COUNT && Span(ab, sz)
    requires forall i :: 0 <= i < |s.regions| ==> Disjoint(s.regions[i], Region(ab, sz, sz, 0))
    requires Slab.Inv(slab2, BLOCK_SZ) && slab2.free == s.slab.free - 2 && p != 0 && Slab.Handed(slab2, BLOCK_SZ, p)
    requires forall a: nat :: Slab.Handed(s.slab, BLOCK_SZ, a) ==> Slab.Handed(slab2, BLOCK_SZ, a) && a != p
    requires t == State(s.policy, s.regions + [Region(ab, sz, sz, p)], s.blocks[p := Block(ab, sz, 0)], slab2,
                        Wrap(s.totalBytes + sz), Wrap(s.freeBytes + sz))
    ensures Inv(t)
  {
    hide Slab.Inv, Slab.Handed, Wrap, RegionOk;
    var n := |s.regions|;
    SumAppend(s.regions, Region(ab, sz, sz, p));
    forall i | 0 <= i < |t.regions|
      ensures RegionOk(t.blocks, t.regions[i])
    {
      if i < n {
        OtherRegionOk(s.blocks, t.blocks, s.regions[i]);
      } else {
        NewRegionOk(t.blocks, ab, sz, p);
      }
    }
    forall i, j | 0 <= i < j < |t.regions|
      ensures Disjoint(t.regions[i], t.regions[j])
    {
      if j < n { assert Disjoint(s.regions[i], s.regions[j]); }
    }
    SumsFit(t.blocks, t.regions);
    NoWrap(s.totalBytes + sz);
    NoWrap(s.freeBytes + sz);
  }

  lemma NewRegionOk(blocks: map<nat, Block>, ab: u64, sz: u64, p: nat)
    requires Span(ab, sz) && p != 0 && BlockAt(blocks, p) == Block(ab, sz, 0)
    ensures RegionOk(blocks, Region(ab, sz, sz, p))
  {
  }

  lemma OtherRegionOk(blocks: map<nat, Block>, blocks': map<nat, Block>, r: Region)
    requires RegionOk(blocks, r) && BlockAt(blocks', r.freeBlocks) == BlockAt(blocks, r.freeBlocks)
    ensures RegionOk(blocks', r)
  {
  }

  lemma SumsFit(blocks: map<nat, Block>, rs: seq<Region>)
    requires forall i :: 0 <= i < |rs| ==> RegionOk(blocks, rs[i])
    requires forall i, j :: 0 <= i < j < |rs| ==> Disjoint(rs[i], rs[j])
    ensures SumFree(rs) <= SumLength(rs) < WORD
  {
    forall i | 0 <= i < |rs|
      ensures Span(rs[i].base, rs[i].length) && rs[i].freeBytes <= rs[i].length
    {
      assert RegionOk(blocks, rs[i]);
    }
    TotalFits(rs);
    FreeAtMostTotal(rs);
  }

  /** Adding a region makes no address available that was not: its bytes were unmanaged. */
  lemma AddKeepsAvailable(s: State, base: u64, size: u64, x: int)
    requires Inv(s) && AddRegion(s, base, size).0 == Added && Inv(AddRegion(s, base, size).1)
    ensures Available(AddRegion(s, base, size).1, x) <==> Available(s, x)
  {
    hide AlignedBase, AlignedSize, AddRegion, Slab.Inv, Slab.Handed, Slab.Alloc, Wrap, Overlaps;
    var p, slab1, slab2 := AddStep(s, base, size);
    var t := AddRegion(s, base, size).1;
    var n := |s.regions|;
    var r := t.regions[n];
    assert RegionOk(t.blocks, r);
    assert InFreeBlock(t.blocks, r, x) <==> InRegion(r, x);
    forall i | 0 <= i < n
      ensures InFreeBlock(t.blocks, t.regions[i], x) <==> InFreeBlock(s.blocks, s.regions[i], x)
      ensures InRegion(t.regions[i], x) <==> InRegion(s.regions[i], x)
      ensures !(InRegion(r, x) && InRegion(s.regions[i], x))
    {
      assert Disjoint(t.regions[i], t.regions[n]);
    }
    if i :| 0 <= i < n && InFreeBlock(s.blocks, s.regions[i], x) { assert InFreeBlock(t.blocks, t.regions[i], x); }
    if i :| 0 <= i < n && InRegion(s.regions[i], x) { assert InRegion(t.regions[i], x); }
    if InRegion(r, x) { assert InFreeBlock(t.blocks, t.regions[n], x); }
  }

  /** The upper bound of the overlap test is inclusive, so a region that begins exactly where a
      managed one ends is refused although the two are disjoint. */
  lemma AdjacentRefused(s: State, i: nat, size: u64)
    requires Inv(s) && i < |s.regions| < REGION_COUNT
    requires var base := s.regions[i].base + s.regions[i].length; base + size < WORD && size >= PAGE_SIZE
    ensures AddRegion(s, s.regions[i].base + s.regions[i].length, size).0 == RegionManaged
  {
    hide AlignedBase, AlignedSize, Padding, Slab.Inv, Slab.Handed, Slab.Alloc, Wrap;
    var r := s.regions[i];
    assert RegionOk(s.blocks, r);
    var base: u64 := r.base + r.length;
    BaseGeometry(base);
    SizeGeometry(base, size);
    SoundRegionFits(base, size);
    NoWrap(r.base + r.length);
    assert Overlaps(r, AlignedBase(base));
  }
}
