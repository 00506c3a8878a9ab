/** The bump allocator as the source has it: an object whose region list it updates in place. */
module BumpObject {
  import opened Num
  import opened Bump
  import Pmm
  import PmmObject

  class BumpAllocator {
    const mm: PmmObject.MemoryManager
    const hhdm: u64
    var regions: seq<Region>

    constructor (manager: PmmObject.MemoryManager, offset: u64)
      ensures mm == manager && hhdm == offset && regions == []
    {
      mm, hhdm, regions := manager, offset, [];
    }

    function St(): State
      reads this, mm, mm.slab, mm.regions
      requires mm.Valid()
    {
      State(regions, mm.St(), hhdm)
    }

    /** Asks the memory manager for a region of `size` bytes and puts it at the end of the list. */
    method Extend(size: u64) returns (ok: bool)
      requires mm.Valid()
      modifies this, mm, mm.slab, mm.regions, mm.mem
      ensures mm.Valid() && ok == AddRegion(old(St()), size).0
      ensures ok ==> St() == AddRegion(old(St()), size).1
    {
      hide Pmm.AllocAligned, Wrap, PmmObject.FillGrant;
      var res := mm.AllocateAligned(size, PAGE_SIZE);
      if !res.Granted? {
        return false;
      }
      var base := Wrap(res.base + hhdm);
      regions := regions + [Region(base, Wrap(base + size), Wrap(base + HEADER))];
      return true;
    }

    method Allocate(size: u64) returns (res: Result)
      requires mm.Valid()
      modifies this, mm, mm.slab, mm.regions, mm.mem
      ensures mm.Valid() && res == Alloc(old(St()), size).0
      ensures res != Crash ==> St() == Alloc(old(St()), size).1
    {
      hide AddRegion, NewSize, Wrap;
      if regions == [] || size == 0 {
        return NullPointer;
      }
      var current := regions[|regions| - 1];
      var stop := Wrap(current.curr + size);
      if current.end < stop {
        var ok := Extend(NewSize(stop, current.end));
        if !ok || regions == [] {
          return Crash;
        }
        current := regions[|regions| - 1];
      }
      regions := regions[|regions| - 1 := current.(curr := Wrap(current.curr + size))];
      return Pointer(current.curr);
    }

    method AllocateAligned(size: u64, alignment: u64) returns (res: Result)
      requires mm.Valid()
      modifies this, mm, mm.slab, mm.regions, mm.mem
      ensures mm.Valid() && res == AllocAligned(old(St()), size, alignment).0
      ensures res != Crash ==> St() == AllocAligned(old(St()), size, alignment).1
    {
      hide AddRegion, NewSize, Wrap, AlignUp;
      if size == 0 || alignment == 0 {
        return NullPointer;
      }
      if regions == [] {
        var grown := Extend(PAGE_SIZE);
        if !grown || regions == [] {
          return Crash;
        }
      }
      var current := regions[|regions| - 1];
      var stop := Wrap(AlignUp(current.curr, alignment) + size);
      if current.end < stop {
        var ok := Extend(NewSize(stop, current.end));
        if !ok || regions == [] {
          return Crash;
        }
        current := regions[|regions| - 1];
      }
      var at := AlignUp(current.curr, alignment);
      regions := regions[|regions| - 1 := current.(curr := Wrap(at + size))];
      return Pointer(at);
    }
  }
}
