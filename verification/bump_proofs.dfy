/** When bump allocations lie inside their region, and why they never overlap. */
module BumpProofs {
  import opened Num
  import opened Bump
  import Pmm
  import PmmProofs

  // ---------------------------------------------------------------- the invariant

  // Room above the mapped memory, so that pointer sums do not wrap.
  const ROOM: nat := 0x1_0000_0000

  /** The higher-half mapping of managed memory ends at least ROOM below 2^64. */
  ghost predicate HhdmOk(pmm: Pmm.State, hhdm: u64) {
    hhdm % PAGE_SIZE == 0 && forall x :: Pmm.Managed(pmm, x) ==> x + ROOM + hhdm < WORD
  }

  /** Page-aligned, its pointer between header and end, its memory owned. */
  ghost predicate RegionOk(pmm: Pmm.State, hhdm: u64, r: Region) {
    && r.base % PAGE_SIZE == 0 && hhdm <= r.base && r.base + HEADER <= r.curr <= r.end
    && forall p :: r.base - hhdm <= p < r.end - hhdm ==> !Pmm.Available(pmm, p)
  }

  ghost predicate Inv(s: State) {
    && Pmm.Inv(s.pmm) && s.pmm.policy == Pmm.FirstFit && HhdmOk(s.pmm, s.hhdm)
    && (forall i :: 0 <= i < |s.regions| ==> RegionOk(s.pmm, s.hhdm, s.regions[i]))
    && (forall i, j :: 0 <= i < j < |s.regions| ==> s.regions[i].end <= s.regions[j].base || s.regions[j].end <= s.regions[i].base)
  }

  /** Byte x belongs to a header or to an allocation already made. */
  ghost predicate Spent(s: State, x: int) {
    exists i :: 0 <= i < |s.regions| && SpentIn(s.regions[i], x)
  }

  ghost predicate SpentIn(r: Region, x: int) {
    r.base <= x < r.curr
  }

  // ---------------------------------------------------------------- a new region

  /** What AddRegion does when it succeeds, for a size of whole pages. */
  ghost predicate Added(s: State, size: int, t: State) {
    && Inv(t) && t.hhdm == s.hhdm && |t.regions| == |s.regions| + 1
    && (forall i :: 0 <= i < |s.regions| ==> t.regions[i] == s.regions[i])
    && var r := Current(t); r.end == r.base + size && r.curr == r.base + HEADER
  }

  lemma AddRegionOk(s: State, size: u64)
    requires Inv(s) && size % PAGE_SIZE == 0 && size > 0
    ensures AddRegion(s, size).0 ==> Added(s, size, AddRegion(s, size).1)
  {
    hide Pmm.Inv, Pmm.Alloc, Pmm.Available, PmmProofs.Carved, AlignUp;
    PageIsPow2();
    RoundedPages(size);
    PmmProofs.AllocServes(s.pmm, size);
    if AddRegion(s, size).0 {
      var k :| 0 <= k < |s.pmm.regions| && PmmProofs.ServedBy(s.pmm, size, k);
      GrantedBase(s.pmm, k, size);
      var (res, pmm') := Pmm.Alloc(s.pmm, size);
      NewRegionOk(s, size, res.base, pmm', AddRegion(s, size).1);
    }
  }

  lemma RoundedPages(size: u64)
    requires size % PAGE_SIZE == 0 && size > 0
    ensures AlignUp(size, PAGE_SIZE) == size || AlignUp(size, PAGE_SIZE) == 0
    ensures size + PAGE_SIZE - 1 < WORD
    ensures AlignUp(size, PAGE_SIZE) == size
  {
    hide AlignUp;
    PageIsPow2();
    AlignUpValue(size, PAGE_SIZE);
  }

  lemma GrantedBase(s: Pmm.State, k: nat, size: u64)
    requires Pmm.Inv(s) && k < |s.regions| && PmmProofs.ServedBy(s, size, k) && AlignUp(size, PAGE_SIZE) == size > 0
    ensures Pmm.Alloc(s, size).0.Granted?
    ensures var b := Pmm.Alloc(s, size).0.base; b % PAGE_SIZE == 0 && forall x :: b <= x < b + size ==> Pmm.Managed(s, x)
  {
    hide Pmm.Alloc, AlignUp, PmmProofs.Carved;
    var r := s.regions[k];
    assert Pmm.RegionOk(s.blocks, r);
    var b := Pmm.BlockAt(s.blocks, r.freeBlocks);
    forall x | b.base <= x < b.base + size
      ensures Pmm.Managed(s, x)
    {
      assert Pmm.InRegion(r, x);
    }
  }

  lemma NewRegionOk(s: State, size: u64, base: u64, pmm': Pmm.State, t: State)
    requires Inv(s) && PmmProofs.Carved(s.pmm, pmm', base, size) && base % PAGE_SIZE == 0 && size % PAGE_SIZE == 0 && size > 0
    requires forall x :: base <= x < base + size ==> Pmm.Managed(s.pmm, x)
    requires t == State(s.regions + [Region(Wrap(base + s.hhdm), Wrap(Wrap(base + s.hhdm) + size), Wrap(Wrap(base + s.hhdm) + HEADER))], pmm', s.hhdm)
    ensures Added(s, size, t)
  {
    hide Pmm.Inv, Pmm.Free, Wrap;
    assert Pmm.Managed(s.pmm, base + size - 1);
    NoWrap(base + s.hhdm);
    NoWrap(base + s.hhdm + size);
    NoWrap(base + s.hhdm + HEADER);
    CarvedManaged(s.pmm, pmm', base, size);
    forall i | 0 <= i < |s.regions|
      ensures s.regions[i].end <= base + s.hhdm || base + s.hhdm + size <= s.regions[i].base
    {
      var r := s.regions[i];
      assert RegionOk(s.pmm, s.hhdm, r);
      var y := if r.base <= base + s.hhdm then base else r.base - s.hhdm;
      assert base <= y < base + size ==> Pmm.Free(s.pmm, y) && Pmm.Available(s.pmm, y);
      assert r.base - s.hhdm <= y < r.end - s.hhdm ==> !Pmm.Available(s.pmm, y);
    }
    forall i | 0 <= i < |t.regions|
      ensures RegionOk(t.pmm, t.hhdm, t.regions[i])
    {
      if i < |s.regions| { assert RegionOk(s.pmm, s.hhdm, s.regions[i]); }
    }
  }

  /** A grant manages no new memory. */
  lemma CarvedManaged(s: Pmm.State, t: Pmm.State, base: int, size: int)
    requires PmmProofs.Carved(s, t, base, size)
    ensures Pmm.Inv(t) && t.policy == s.policy
    ensures forall x :: Pmm.Managed(t, x) ==> Pmm.Managed(s, x)
  {
    hide Pmm.Inv;
  }

  // ---------------------------------------------------------------- when a request fits

  /** The size of a new region for a request that passes the end by `over` bytes. */
  function Reserved(over: nat): nat {
    RoundUp(over, PAGE_SIZE) + PAGE_SIZE
  }

  /** What a caller can compute beforehand: the request fits the free tail, or the region that
      would be added is large enough for header, alignment and request. `tail` is what is left
      between the aligned pointer and the end. */
  predicate Enough(tail: int, size: nat, alignment: nat)
    requires alignment > 0
  {
    size <= tail || RoundUp(HEADER, alignment) + size <= Reserved(size - tail)
  }

  /** Requests of at most a page, aligned to at most a page, always fit. */
  lemma SmallFits(tail: int, size: nat, alignment: nat)
    requires 0 < size <= PAGE_SIZE && 0 < alignment && PAGE_SIZE % alignment == 0
    ensures Enough(tail, size, alignment)
  {
    RoundUpLeast(HEADER, alignment);
    if size > tail {
      RoundUpLeast(size - tail, PAGE_SIZE);
    }
  }

  /** The unaligned form: enough whenever the tail is at most a page less the header, or the
      request at most two pages less the header. */
  lemma UnalignedFits(tail: nat, size: nat)
    requires size > tail && (tail <= PAGE_SIZE - HEADER || size <= 2 * PAGE_SIZE - HEADER)
    ensures HEADER + size <= Reserved(size - tail)
  {
    RoundUpLeast(size - tail, PAGE_SIZE);
  }

  lemma NewSizeValue(stop: u64, end: u64)
    requires end < stop && stop - end + 2 * PAGE_SIZE < WORD
    ensures NewSize(stop, end) == Reserved(stop - end) && NewSize(stop, end) % PAGE_SIZE == 0 && NewSize(stop, end) >= 2 * PAGE_SIZE
  {
    hide AlignUp, Wrap;
    var over := stop - end;
    NoWrap(over);
    PageIsPow2();
    AlignUpValue(over, PAGE_SIZE);
    RoundUpLeast(over, PAGE_SIZE);
    SameMultiple(over, PAGE_SIZE, AlignUp(over, PAGE_SIZE), RoundUp(over, PAGE_SIZE));
    NoWrap(RoundUp(over, PAGE_SIZE) + PAGE_SIZE);
  }

  // ---------------------------------------------------------------- one allocation

  /** The request is served at `at`, inside the current region of t, behind everything spent. */
  ghost predicate Served(s: State, t: State, at: int, size: int) {
    && Inv(t) && t.hhdm == s.hhdm
    && t.regions != [] && Current(t).base + HEADER <= at && at + size <= Current(t).end
    && (forall x :: Spent(s, x) ==> Spent(t, x))
    && (forall x :: at <= x < at + size ==> !Spent(s, x) && Spent(t, x))
  }

  lemma TakeInv(t0: State, at: u64, size: u64)
    requires Inv(t0) && t0.regions != [] && Current(t0).curr <= at && at + size <= Current(t0).end
    ensures Inv(Take(t0, at, size))
  {
    hide Pmm.Inv, HhdmOk, Wrap, Pmm.Available;
    NoWrap(at + size);
    var t := Take(t0, at, size);
    forall i | 0 <= i < |t.regions|
      ensures RegionOk(t.pmm, t.hhdm, t.regions[i])
    {
      assert RegionOk(t0.pmm, t0.hhdm, t0.regions[i]);
    }
  }

  lemma TakeSpent(t0: State, at: u64, size: u64, x: int)
    requires Inv(t0) && t0.regions != [] && Current(t0).curr <= at && at + size <= Current(t0).end
    ensures Spent(t0, x) ==> Spent(Take(t0, at, size), x)
    ensures at <= x < at + size ==> !Spent(t0, x) && Spent(Take(t0, at, size), x)
  {
    hide Pmm.Inv, HhdmOk, Wrap, Pmm.Available;
    var n := |t0.regions| - 1;
    NoWrap(at + size);
    var t := Take(t0, at, size);
    if i :| 0 <= i < |t0.regions| && SpentIn(t0.regions[i], x) {
      assert SpentIn(t.regions[i], x);
    }
    assert RegionOk(t0.pmm, t0.hhdm, t0.regions[n]);
    forall i | 0 <= i <= n && at <= x < at + size
      ensures !SpentIn(t0.regions[i], x)
    {
      assert RegionOk(t0.pmm, t0.hhdm, t0.regions[i]);
    }
    if at <= x < at + size { assert SpentIn(t.regions[n], x); }
  }

  lemma CurrentHeader(s: State)
    requires Inv(s) && s.regions != []
    ensures Current(s).base + HEADER <= Current(s).curr
  {
    assert RegionOk(s.pmm, s.hhdm, Current(s));
  }

  lemma TakeServes(s: State, t0: State, at: u64, size: u64)
    requires Inv(t0) && t0.hhdm == s.hhdm && t0.regions != []
    requires forall x :: Spent(s, x) ==> Spent(t0, x)
    requires Current(t0).curr <= at && at + size <= Current(t0).end
    ensures Served(s, Take(t0, at, size), at, size)
  {
    hide Inv, Spent;
    TakeInv(t0, at, size);
    CurrentHeader(t0);
    forall x
      ensures Spent(t0, x) ==> Spent(Take(t0, at, size), x)
      ensures at <= x < at + size ==> !Spent(t0, x) && Spent(Take(t0, at, size), x)
    {
      TakeSpent(t0, at, size, x);
    }
  }

  lemma AddedSpent(s: State, size: int, t: State, x: int)
    requires Added(s, size, t) && Spent(s, x)
    ensures Spent(t, x)
  {
    hide Inv;
    var i :| 0 <= i < |s.regions| && SpentIn(s.regions[i], x);
    assert SpentIn(t.regions[i], x);
  }

  /** The aligned pointer of a region, and the end of the request there. */
  ghost predicate Placed(s: State, size: u64, alignment: u64, at: u64) {
    && s.regions != [] && alignment != 0 && at == AlignUp(Current(s).curr, alignment) && at % alignment == 0
    && Current(s).curr <= at && at + size + 2 * PAGE_SIZE < WORD && Current(s).end < WORD
  }

  lemma AlignedPointer(s: State, size: u64, alignment: u64) returns (at: u64)
    requires Inv(s) && s.regions != [] && IsPow2(alignment) && alignment <= PAGE_SIZE
    requires size + 4 * PAGE_SIZE + Current(s).end < WORD
    ensures Placed(s, size, alignment, at)
  {
    hide Pmm.Inv, HhdmOk, AlignUp;
    assert RegionOk(s.pmm, s.hhdm, Current(s));
    at := AlignUp(Current(s).curr, alignment);
    AlignUpValue(Current(s).curr, alignment);
  }

  /** A request that passes the end of the current region, when the formula is enough. */
  lemma NewServes(s0: State, s: State, size: u64, alignment: u64, at: u64)
    requires Inv(s) && s.hhdm == s0.hhdm && Placed(s, size, alignment, at) && (forall x :: Spent(s0, x) ==> Spent(s, x))
    requires 0 < size && IsPow2(alignment) && alignment <= PAGE_SIZE
    requires Current(s).end < at + size && Enough(Current(s).end - at, size, alignment)
    requires Reserve(s, at, size).0
    ensures var t := Reserve(s, at, size).1; var b := AlignUp(Current(t).curr, alignment);
            b % alignment == 0 && Served(s0, Take(t, b, size), b, size)
  {
    hide Inv, AlignUp, AddRegion, Wrap, Served, Spent, Take, Added, NewSize, Reserved;
    NoWrap(at + size);
    var stop: u64 := at + size;
    NewSizeValue(stop, Current(s).end);
    var n := NewSize(stop, Current(s).end);
    AddRegionOk(s, n);
    var t := AddRegion(s, n).1;
    forall x | Spent(s0, x) ensures Spent(t, x) { AddedSpent(s, n, t, x); }
    AddedHeader(s, n, t, alignment);
    TakeServes(s0, t, AlignUp(Current(t).curr, alignment), size);
  }

  /** Where an aligned request goes: the current region if it fits there, else a new one. */
  lemma ReserveServes(s0: State, s: State, size: u64, alignment: u64, at: u64)
    requires Inv(s) && s.hhdm == s0.hhdm && Placed(s, size, alignment, at) && (forall x :: Spent(s0, x) ==> Spent(s, x))
    requires 0 < size && IsPow2(alignment) && alignment <= PAGE_SIZE
    requires Enough(Current(s).end - at, size, alignment) && Reserve(s, at, size).0
    ensures var t := Reserve(s, at, size).1;
            && t.regions != []
            && var b := AlignUp(Current(t).curr, alignment); b % alignment == 0 && Served(s0, Take(t, b, size), b, size)
  {
    hide Inv, AlignUp, Wrap, Served, Spent, Take, NewSize, Enough;
    NoWrap(at + size);
    if Current(s).end < at + size {
      NewServes(s0, s, size, alignment, at);
    } else {
      TakeServes(s0, s, at, size);
    }
  }

  /** In a fresh region the first aligned byte is the header size rounded up. */
  lemma AddedHeader(s: State, size: int, t: State, alignment: u64)
    requires Added(s, size, t) && size >= 2 * PAGE_SIZE && IsPow2(alignment) && alignment <= PAGE_SIZE
    ensures Inv(t) && t.hhdm == s.hhdm && t.regions != [] && Current(t).end == Current(t).base + size
    ensures AlignUp(Current(t).curr, alignment) % alignment == 0
    ensures Current(t).curr <= AlignUp(Current(t).curr, alignment) == Current(t).base + RoundUp(HEADER, alignment)
  {
    hide Pmm.Inv, HhdmOk, AlignUp;
    var r := Current(t);
    assert RegionOk(t.pmm, t.hhdm, r);
    AlignUpValue(r.curr, alignment);
    PageDivides(alignment);
    RoundShift(r.base, HEADER, alignment);
    RoundUpLeast(r.curr, alignment);
    SameMultiple(r.curr, alignment, AlignUp(r.curr, alignment), RoundUp(r.curr, alignment));
  }

  lemma PageDivides(a: u64)
    requires IsPow2(a) && a <= PAGE_SIZE
    ensures PAGE_SIZE % a == 0
  {
    var k := Pow2Exponent(a);
    PowWord();
    assert Pow2(13) == 2 * Pow2(12);
    if k > 12 {
      PowMonotone(13, k);
    } else {
      PowAdd(12 - k, k);
      ModUnique(PAGE_SIZE, a, Pow2(12 - k), 0);
    }
  }

  /** Rounding commutes with adding a multiple of the page, for alignments that divide it. */
  lemma RoundShift(base: nat, h: nat, a: nat)
    requires a > 0 && base % PAGE_SIZE == 0 && PAGE_SIZE % a == 0
    ensures RoundUp(base + h, a) == base + RoundUp(h, a)
  {
    var m := PAGE_SIZE / a;
    var p := base / PAGE_SIZE;
    assert base == p * PAGE_SIZE && PAGE_SIZE == m * a;
    assert p * (m * a) == (p * m) * a;
    var q, r := h / a, h % a;
    assert base + h == (p * m + q) * a + r;
    ModUnique(base + h, a, p * m + q, r);
  }

  lemma EndRoom(s: State)
    requires Inv(s) && s.regions != []
    ensures Current(s).end + ROOM <= WORD
  {
    hide Pmm.Inv, Pmm.Free, Pmm.Managed;
    var r := Current(s);
    assert RegionOk(s.pmm, s.hhdm, r);
    assert !Pmm.Available(s.pmm, r.end - 1 - s.hhdm);
  }

  /** The allocator an aligned request works on: an empty one first gets a page. */
  function Started(s: State): State {
    if s.regions == [] then AddRegion(s, PAGE_SIZE).1 else s
  }

  /** What the caller of alloc_aligned can check: a nonzero size and alignment in range, and the
      formula for new regions enough for them. */
  ghost predicate Acceptable(s: State, size: u64, alignment: u64) {
    && 0 < size <= ROOM - 8 * PAGE_SIZE && IsPow2(alignment) && 0 < alignment <= PAGE_SIZE
    && Started(s).regions != []
    && Enough(Current(Started(s)).end - AlignUp(Current(Started(s)).curr, alignment), size, alignment)
  }

  /** alloc_aligned on an acceptable request: an aligned range inside the current region, behind
      its header and everything handed out before. */
  lemma AllocAlignedServes(s: State, size: u64, alignment: u64)
    requires Inv(s) && Acceptable(s, size, alignment) && AllocAligned(s, size, alignment).0 != Crash
    ensures var (res, t) := AllocAligned(s, size, alignment);
            res.Pointer? && alignment > 0 && res.at % alignment == 0 && Served(s, t, res.at, size)
  {
    hide Inv, AlignUp, AddRegion, Reserve, Served, Spent, Take, Enough, Added;
    var s1 := Started(s);
    assert Inv(s1) && s1.hhdm == s.hhdm && (forall x :: Spent(s, x) ==> Spent(s1, x)) by { StartedOk(s); }
    EndRoom(s1);
    var at := AlignedPointer(s1, size, alignment);
    ReserveServes(s, s1, size, alignment, at);
  }

  lemma StartedOk(s: State)
    requires Inv(s) && Started(s).regions != []
    ensures var s1 := Started(s); Inv(s1) && s1.hhdm == s.hhdm && forall x :: Spent(s, x) ==> Spent(s1, x)
  {
    hide Inv, Spent;
    if s.regions == [] {
      AddRegionOk(s, PAGE_SIZE);
      assert AddRegion(s, PAGE_SIZE).0;
      forall x | Spent(s, x) ensures Spent(AddRegion(s, PAGE_SIZE).1, x) { AddedSpent(s, PAGE_SIZE, AddRegion(s, PAGE_SIZE).1, x); }
    }
  }

  /** The range handed out ends inside its region exactly when the request was acceptable: the
      written code does not look at the new region's size again. */
  lemma InsideIff(s: State, size: u64, alignment: u64)
    requires Inv(s) && s.regions != [] && 0 < size <= ROOM - 8 * PAGE_SIZE && IsPow2(alignment) && 0 < alignment <= PAGE_SIZE
    requires var at := AlignUp(Current(s).curr, alignment); Reserve(s, at, size).0
    ensures var at := AlignUp(Current(s).curr, alignment); var t := Reserve(s, at, size).1;
            && t.regions != []
            && (AlignUp(Current(t).curr, alignment) + size <= Current(t).end <==> Enough(Current(s).end - at, size, alignment))
  {
    hide Inv, AlignUp, AddRegion, Wrap, Spent, Added, NewSize;
    EndRoom(s);
    var at := AlignedPointer(s, size, alignment);
    NoWrap(at + size);
    var stop: u64 := at + size;
    if Current(s).end < stop {
      NewSizeValue(stop, Current(s).end);
      var n := NewSize(stop, Current(s).end);
      AddRegionOk(s, n);
      AddedHeader(s, n, AddRegion(s, n).1, alignment);
    }
  }

  /** A request that was answered inside its region was acceptable. */
  lemma InsideAcceptable(s: State, size: u64, alignment: u64)
    requires Inv(s) && 0 < size <= ROOM - 8 * PAGE_SIZE && IsPow2(alignment) && 0 < alignment <= PAGE_SIZE
    requires var (res, t) := AllocAligned(s, size, alignment); res.Pointer? && t.regions != [] && res.at + size <= Current(t).end
    ensures Acceptable(s, size, alignment)
  {
    hide Inv, AlignUp, AddRegion, Reserve, Enough;
    var s1 := Started(s);
    assert Inv(s1) by { StartedOk(s); }
    InsideIff(s1, size, alignment);
  }

  /** Behind the range just handed out, up to the end of its region, nothing was spent before. */
  lemma TailUnspent(s: State, size: u64, alignment: u64)
    requires Inv(s) && Acceptable(s, size, alignment) && AllocAligned(s, size, alignment).0 != Crash
    ensures var (res, t) := AllocAligned(s, size, alignment);
            res.Pointer? && t.regions != [] && forall x :: res.at <= x < Current(t).end ==> !Spent(s, x)
  {
    hide Inv, AlignUp, AddRegion, Reserve, Spent, Take, Acceptable;
    AllocAlignedServes(s, size, alignment);
    var (res, t) := AllocAligned(s, size, alignment);
    hide AllocAligned;
    OldRegions(s, size, alignment);
    forall x | res.at <= x < Current(t).end
      ensures !Spent(s, x)
    {
      if x >= res.at + size { TailOne(s, t, res.at, size, x); }
    }
  }

  /** An allocation keeps every region but the pointer of the last one. */
  ghost predicate Keeps(s: State, t: State) {
    |s.regions| <= |t.regions| && forall i :: 0 <= i < |s.regions| ==> t.regions[i].base == s.regions[i].base && s.regions[i].curr <= t.regions[i].curr
  }

  lemma TailOne(s: State, t: State, at: int, size: int, x: int)
    requires Inv(t) && t.regions != [] && Keeps(s, t) && Current(t).base <= at < at + size <= x < Current(t).end && Current(t).curr == at + size
    ensures !Spent(s, x)
  {
    hide Pmm.Inv, HhdmOk, Pmm.Available;
    var n := |t.regions| - 1;
    forall i | 0 <= i < |s.regions|
      ensures !SpentIn(s.regions[i], x)
    {
      assert RegionOk(t.pmm, t.hhdm, t.regions[i]) && RegionOk(t.pmm, t.hhdm, t.regions[n]);
    }
  }

  lemma AddKeeps(s: State, size: u64)
    requires AddRegion(s, size).0
    ensures Keeps(s, AddRegion(s, size).1)
  {
    hide Wrap;
  }

  lemma TakeKeeps(s: State, t0: State, at: u64, size: u64)
    requires Keeps(s, t0) && t0.regions != [] && Current(t0).curr <= at && at + size < WORD
    ensures Keeps(s, Take(t0, at, size)) && Current(Take(t0, at, size)).curr == at + size
  {
    NoWrap(at + size);
  }

  lemma ReserveKeeps(s: State, at: u64, size: u64)
    requires s.regions != [] && Reserve(s, at, size).0
    ensures Keeps(s, Reserve(s, at, size).1)
  {
    hide AddRegion, NewSize, Wrap;
    var stop := Wrap(at + size);
    if Current(s).end < stop { AddKeeps(s, NewSize(stop, Current(s).end)); }
  }

  lemma AlignUpAbove(s: State, alignment: u64)
    requires Inv(s) && s.regions != [] && IsPow2(alignment) && alignment <= PAGE_SIZE
    ensures Current(s).curr <= AlignUp(Current(s).curr, alignment)
  {
    hide Inv, AlignUp;
    EndRoom(s);
    var at := AlignedPointer(s, 1, alignment);
  }

  lemma StartedKeeps(s: State)
    requires Started(s).regions != []
    ensures Keeps(s, Started(s))
  {
  }

  lemma OldRegions(s: State, size: u64, alignment: u64)
    requires Inv(s) && Acceptable(s, size, alignment) && AllocAligned(s, size, alignment).0 != Crash
    ensures var (res, t) := AllocAligned(s, size, alignment);
            res.Pointer? && t.regions != [] && Current(t).curr == res.at + size && Keeps(s, t)
  {
    hide Inv, AlignUp, AddRegion, Reserve, Spent, Take, Enough, Wrap, Keeps;
    AllocAlignedServes(s, size, alignment);
    var s1 := Started(s);
    assert Inv(s1) by { StartedOk(s); }
    StartedKeeps(s);
    EndRoom(s1);
    var at := AlignedPointer(s1, size, alignment);
    ReserveKeeps(s1, at, size);
    var t0 := Reserve(s1, at, size).1;
    var b := AlignUp(Current(t0).curr, alignment);
    ReserveInv(s1, size, alignment, at);
    AlignUpAbove(t0, alignment);
    KeepsTrans(s, s1, t0);
    assert AllocAligned(s, size, alignment) == (Pointer(b), Take(t0, b, size));
    TakenEnd(t0, b, size);
    EndRoom(t0);
    TakeKeeps(s, t0, b, size);
  }

  lemma KeepsTrans(s: State, t: State, u: State)
    requires Keeps(s, t) && Keeps(t, u)
    ensures Keeps(s, u)
  {
  }

  lemma TakenEnd(t0: State, b: u64, size: u64)
    requires t0.regions != []
    ensures Current(Take(t0, b, size)).end == Current(t0).end
  {
    hide Wrap;
  }

  lemma ReserveInv(s: State, size: u64, alignment: u64, at: u64)
    requires Inv(s) && Placed(s, size, alignment, at) && Reserve(s, at, size).0 && 0 < size <= ROOM - 8 * PAGE_SIZE
    ensures Inv(Reserve(s, at, size).1) && Reserve(s, at, size).1.regions != []
  {
    hide Inv, AlignUp, AddRegion, Wrap, NewSize;
    NoWrap(at + size);
    var stop: u64 := at + size;
    if Current(s).end < stop {
      NewSizeValue(stop, Current(s).end);
      AddRegionOk(s, NewSize(stop, Current(s).end));
    }
  }

  /** The unaligned form is the aligned one with alignment 1, once a region exists. */
  lemma AllocIsAligned(s: State, size: u64)
    requires s.regions != []
    ensures Alloc(s, size) == AllocAligned(s, size, 1)
  {
    hide AlignUp, AddRegion;
    OneAligns(Current(s).curr);
    var t := Reserve(s, Current(s).curr, size).1;
    if t.regions != [] { OneAligns(Current(t).curr); }
  }

  lemma OneAligns(v: u64)
    ensures AlignUp(v, 1) == v
  {
    hide AlignUp;
    var a: u64 := 1;
    assert a == Pow2(0) && v % a == 0;
    AlignUpValue(v, a);
  }

  // ---------------------------------------------------------------- runs

  datatype Request = Request(size: u64, alignment: u64)

  datatype Range = Range(at: u64, size: u64)

  /** The state after a run of alloc_aligned calls, and the ranges handed out. */
  function Run(s: State, reqs: seq<Request>): (State, seq<Range>)
  {
    if reqs == [] then (s, []) else
      var (t, out) := Run(s, reqs[..|reqs| - 1]);
      var r := reqs[|reqs| - 1];
      var (res, u) := AllocAligned(t, r.size, r.alignment);
      (u, if res.Pointer? then out + [Range(res.at, r.size)] else out)
  }

  /** Requests of at most a page aligned to at most a page, none of which exhausts memory. */
  ghost predicate SmallRun(s: State, reqs: seq<Request>) {
    forall n :: 0 <= n < |reqs| ==> SmallRequest(Run(s, reqs[..n]).0, reqs[n])
  }

  ghost predicate SmallRequest(s: State, r: Request) {
    && 0 < r.size <= PAGE_SIZE && IsPow2(r.alignment) && 0 < r.alignment <= PAGE_SIZE
    && AllocAligned(s, r.size, r.alignment).0 != Crash
  }

  ghost predicate InRange(r: Range, x: int) {
    r.at <= x < r.at + r.size
  }

  /** The range lies in one region, behind its header and before its pointer. */
  ghost predicate InRegion(s: State, r: Range) {
    exists k :: 0 <= k < |s.regions| && s.regions[k].base + HEADER <= r.at && r.at + r.size <= s.regions[k].curr
  }

  /** After a run from s: every range lies inside a region behind its header, all of it is spent,
      and no two share a byte. */
  ghost predicate Apart(s: State, out: seq<Range>) {
    && (forall i :: 0 <= i < |out| ==> InRegion(s, out[i]))
    && (forall i, x :: 0 <= i < |out| && InRange(out[i], x) ==> Spent(s, x))
    && (forall i, j, x :: 0 <= i < j < |out| && InRange(out[i], x) ==> !InRange(out[j], x))
  }

  lemma SmallAcceptable(s: State, r: Request)
    requires Inv(s) && SmallRequest(s, r)
    ensures Acceptable(s, r.size, r.alignment)
  {
    hide Inv, AlignUp, AddRegion, Reserve, Enough;
    PageDivides(r.alignment);
    assert Started(s).regions != [];
    SmallFits(Current(Started(s)).end - AlignUp(Current(Started(s)).curr, r.alignment), r.size, r.alignment);
  }

  /** Range i answers request i: its size, at a multiple of its alignment. */
  ghost predicate Answers(out: seq<Range>, reqs: seq<Request>) {
    |out| == |reqs| && forall i :: 0 <= i < |reqs| ==> Answer(out[i], reqs[i])
  }

  ghost predicate Answer(r: Range, q: Request) {
    q.alignment > 0 && r.at % q.alignment == 0 && r.size == q.size
  }

  lemma StepApart(s: State, out: seq<Range>, reqs: seq<Request>, r: Request)
    requires Inv(s) && Apart(s, out) && Answers(out, reqs) && SmallRequest(s, r)
    ensures var (res, t) := AllocAligned(s, r.size, r.alignment);
            res.Pointer? && Inv(t) && Apart(t, out + [Range(res.at, r.size)]) && Answers(out + [Range(res.at, r.size)], reqs + [r])
  {
    hide Inv, AllocAligned, Spent, Acceptable, Apart;
    SmallNoCrash(s, r);
    SmallAcceptable(s, r);
    AllocAlignedServes(s, r.size, r.alignment);
    var (res, t) := AllocAligned(s, r.size, r.alignment);
    OldRegions(s, r.size, r.alignment);
    ApartStep(s, out, t, Range(res.at, r.size));
  }

  /** Over any run of such requests: every range lies inside its region behind the header, is
      aligned, and shares no byte with any other. */
  lemma {:induction false} RunApart(s: State, reqs: seq<Request>)
    requires Inv(s) && SmallRun(s, reqs)
    ensures var (t, out) := Run(s, reqs); Inv(t) && Apart(t, out) && Answers(out, reqs)
  {
    hide Inv, AllocAligned, Spent, SmallRequest, Apart, Answers;
    if reqs == [] {
      NothingYet(s);
    } else {
      var m := |reqs| - 1;
      var front, r := reqs[..m], reqs[m];
      assert reqs == front + [r];
      assert forall n :: 0 <= n < m ==> front[n] == reqs[n] && front[..n] == reqs[..n];
      RunApart(s, front);
      var (t, out) := Run(s, front);
      StepApart(t, out, front, r);
    }
  }

  lemma NothingYet(s: State)
    ensures Apart(s, []) && Answers([], [])
  {
  }

  lemma SmallNoCrash(s: State, r: Request)
    requires SmallRequest(s, r)
    ensures AllocAligned(s, r.size, r.alignment).0 != Crash
  {
  }

  lemma InRegionKept(s: State, t: State, r: Range)
    requires InRegion(s, r) && Keeps(s, t)
    ensures InRegion(t, r)
  {
    var k :| 0 <= k < |s.regions| && s.regions[k].base + HEADER <= r.at && r.at + r.size <= s.regions[k].curr;
    assert t.regions[k].base + HEADER <= r.at;
  }

  lemma ApartStep(s: State, out: seq<Range>, t: State, r: Range)
    requires Apart(s, out) && Served(s, t, r.at, r.size) && Keeps(s, t) && Current(t).curr == r.at + r.size
    ensures Apart(t, out + [r])
  {
    hide Inv, Spent;
    var all := out + [r];
    forall i | 0 <= i < |out|
      ensures InRegion(t, out[i])
    {
      InRegionKept(s, t, out[i]);
    }
    assert InRegion(t, r) by {
      var k := |t.regions| - 1;
      assert t.regions[k].base + HEADER <= r.at;
    }
    assert forall i :: 0 <= i < |all| ==> all[i] == if i < |out| then out[i] else r;
    forall x | InRange(r, x)
      ensures !Spent(s, x) && Spent(t, x)
    {
    }
  }
}
