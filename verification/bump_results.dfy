/** What bump allocations return, in plain numbers: where a range goes, how large a new region is,
    and when memory runs out. */
module BumpResults {
  import opened Num
  import opened Bump
  import opened BumpProofs
  import Pmm
  import PmmProofs
  import BumpWitness

  /** Some region of the memory manager has n bytes free. */
  ghost predicate HasFree(s: State, n: nat) {
    exists i :: 0 <= i < |s.pmm.regions| && s.pmm.regions[i].freeBytes >= n
  }

  /** From s to t the pages the manager grants are added, in the higher-half mapping, with the
      pointer at the given place in them. */
  ghost predicate Granted(s: State, n: u64, offset: nat, t: State) {
    hide Pmm.Alloc;
    var (res, pmm') := Pmm.Alloc(s.pmm, n);
    && res.Granted? && res.base + s.hhdm + n < WORD && res.base + s.hhdm + offset < WORD
    && t == State(s.regions + [Region(res.base + s.hhdm, res.base + s.hhdm + n, res.base + s.hhdm + offset)], pmm', s.hhdm)
  }

  /** A new region is granted exactly when one of the manager's regions has its size free; its
      pointer is behind a header of 24 bytes. */
  lemma AddRegionResult(s: State, n: u64)
    requires Inv(s) && n > 0 && n % 4096 == 0
    ensures AddRegion(s, n).0 <==> HasFree(s, n)
    ensures if HasFree(s, n) then Granted(s, n, 24, AddRegion(s, n).1) else AddRegion(s, n).1 == s
  {
    hide Pmm.Inv, Pmm.Alloc, PmmProofs.Carved, AlignUp, Wrap;
    assert Pmm.Inv(s.pmm) && s.pmm.policy == Pmm.FirstFit;
    RoundedPages(n);
    PmmProofs.AllocServes(s.pmm, n);
    if HasFree(s, n) {
      var k :| 0 <= k < |s.pmm.regions| && PmmProofs.ServedBy(s.pmm, n, k);
      GrantedBase(s.pmm, k, n);
      var b := Pmm.Alloc(s.pmm, n).0.base;
      assert Pmm.Managed(s.pmm, b + n - 1);
      NoWrap(b + s.hhdm);
      NoWrap(b + s.hhdm + n);
      NoWrap(b + s.hhdm + 24);
    }
  }

  /** Bytes by which a request ends behind the current region. */
  ghost function Over(s: State, size: nat, alignment: nat): int
    requires s.regions != [] && alignment > 0
  {
    RoundUp(Current(s).curr, alignment) + size - Current(s).end
  }

  /** The size of the region added for that: its whole pages and one more. */
  ghost function Added(over: nat): nat {
    (over + 4095) / 4096 * 4096 + 4096
  }

  lemma AddedIs(over: nat)
    ensures Reserved(over) == Added(over)
  {
    RoundUpLeast(over, PAGE_SIZE);
    SameMultiple(over, PAGE_SIZE, RoundUp(over, PAGE_SIZE), (over + 4095) / 4096 * 4096);
  }

  lemma AlignedIs(s: State, alignment: u64)
    requires Inv(s) && s.regions != [] && IsPow2(alignment) && 0 < alignment <= PAGE_SIZE
    ensures AlignUp(Current(s).curr, alignment) == RoundUp(Current(s).curr, alignment)
    ensures RoundUp(Current(s).curr, alignment) < Current(s).end + alignment && Current(s).end + ROOM <= WORD
  {
    hide Inv, AlignUp;
    EndRoom(s);
    BumpWitness.CurrBelowEnd(s);
    AlignUpValue(Current(s).curr, alignment);
    RoundUpLeast(Current(s).curr, alignment);
    SameMultiple(Current(s).curr, alignment, AlignUp(Current(s).curr, alignment), RoundUp(Current(s).curr, alignment));
  }

  /** A request that ends inside the current region goes to its aligned pointer, and nothing but
      the pointer changes. */
  lemma FitsResult(s: State, size: u64, alignment: u64)
    requires Inv(s) && s.regions != [] && 0 < size && IsPow2(alignment) && 0 < alignment <= PAGE_SIZE && Over(s, size, alignment) <= 0
    ensures var at := RoundUp(Current(s).curr, alignment); var n := |s.regions| - 1;
            at < WORD && at + size < WORD && AllocAligned(s, size, alignment) ==
              (Pointer(at), s.(regions := s.regions[n := Region(s.regions[n].base, s.regions[n].end, at + size)]))
  {
    hide Inv, AlignUp, AddRegion, NewSize, RoundUp, Wrap;
    AlignedIs(s, alignment);
    NoWrap(RoundUp(Current(s).curr, alignment) + size);
  }

  /** Any other request crashes exactly when no region of the memory manager has a new region's
      bytes free; else it goes behind the header of one, whether or not it fits there. */
  lemma GrowsResult(s: State, size: u64, alignment: u64)
    requires Inv(s) && s.regions != [] && 0 < size <= ROOM - 8 * PAGE_SIZE && IsPow2(alignment) && 0 < alignment <= PAGE_SIZE
    requires Over(s, size, alignment) > 0
    ensures Added(Over(s, size, alignment)) < WORD
    ensures Grown(s, Added(Over(s, size, alignment)), size, alignment)
  {
    hide Inv, AlignUp, AddRegion, NewSize, RoundUp, Wrap, Pmm.Alloc, Added, Reserved, HasFree, Granted;
    var over := Over(s, size, alignment);
    AlignedIs(s, alignment);
    AddedIs(over);
    NoWrap(RoundUp(Current(s).curr, alignment) + size);
    NewSizeValue(RoundUp(Current(s).curr, alignment) + size, Current(s).end);
    var n := Reserved(over);
    AddRegionResult(s, n);
    if HasFree(s, n) {
      NewRegionPlace(s, n, size, alignment);
      GrantedTaken(s, n, AddRegion(s, n).1, RoundUp(24, alignment), size);
    }
  }

  ghost predicate Grown(s: State, n: u64, size: u64, alignment: u64)
    requires alignment > 0
  {
    hide Pmm.Alloc, AllocAligned;
    var (res, t) := AllocAligned(s, size, alignment);
    if HasFree(s, n) then
      && Granted(s, n, RoundUp(24, alignment) + size, t)
      && res.Pointer? && res.at == Current(t).base + RoundUp(24, alignment)
    else res == Crash && t == s
  }

  lemma GrantedTaken(s: State, n: u64, t: State, offset: nat, size: nat)
    requires Granted(s, n, 24, t) && Current(t).base + offset + size < WORD
    ensures Current(t).base + offset < WORD && Granted(s, n, offset + size, Take(t, Current(t).base + offset, size))
    ensures Current(Take(t, Current(t).base + offset, size)).base == Current(t).base
  {
    hide Pmm.Alloc, Wrap;
    NoWrap(Current(t).base + offset + size);
  }

  /** The first aligned byte behind the header of a fresh region. */
  lemma NewRegionPlace(s: State, n: u64, size: u64, alignment: u64)
    requires Inv(s) && n >= 2 * PAGE_SIZE && n % PAGE_SIZE == 0 && AddRegion(s, n).0
    requires 0 < size <= ROOM - 8 * PAGE_SIZE && IsPow2(alignment) && 0 < alignment <= PAGE_SIZE
    ensures var t := AddRegion(s, n).1; var at := AlignUp(Current(t).curr, alignment);
            t.regions != [] && at == Current(t).base + RoundUp(24, alignment) && at + size < WORD && Wrap(at + size) == at + size
  {
    hide Inv, AlignUp, AddRegion, RoundUp, Wrap;
    AddRegionOk(s, n);
    var t := AddRegion(s, n).1;
    AddedHeader(s, n, t, alignment);
    AlignedIs(t, alignment);
    NoWrap(AlignUp(Current(t).curr, alignment) + size);
  }

  /** An empty allocator first adds a region of one page; it crashes when no region of the memory
      manager has a page free, and otherwise answers as that region does. */
  lemma FirstResult(s: State, size: u64, alignment: u64)
    requires Inv(s) && s.regions == [] && 0 < size && 0 < alignment
    ensures !HasFree(s, 4096) ==> AllocAligned(s, size, alignment) == (Crash, s)
    ensures HasFree(s, 4096) ==>
              && AddRegion(s, 4096).0
              && AllocAligned(s, size, alignment).0 == AllocAligned(AddRegion(s, 4096).1, size, alignment).0
              && (AllocAligned(s, size, alignment).0 != Crash ==>
                    AllocAligned(s, size, alignment).1 == AllocAligned(AddRegion(s, 4096).1, size, alignment).1)
  {
    hide Inv, AlignUp, AddRegion, HasFree, Reserve;
    AddRegionResult(s, 4096);
  }

  /** Requests of no bytes or with alignment 0 get the null pointer, and so does an unaligned
      request to an empty allocator. */
  lemma NullIff(s: State, size: u64, alignment: u64)
    ensures AllocAligned(s, size, alignment).0 == NullPointer <==> size == 0 || alignment == 0
    ensures Alloc(s, size).0 == NullPointer <==> size == 0 || s.regions == []
  {
    hide AlignUp, AddRegion, Reserve, Take;
  }
}
