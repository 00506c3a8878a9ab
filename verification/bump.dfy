/** The bump allocator of kernel/src/allocators/bump.cpp, as written, on top of the physical
    memory manager. Addresses are those of the higher-half mapping: physical plus `hhdm`. */
module Bump {
  import opened Num
  import Pmm

  // sizeof(region): two pointers and a link, at the start of every region.
  const HEADER: nat := 24

  datatype Region = Region(base: u64, end: u64, curr: u64)

  /** `regions` in list order; the last one is the current region, none is the null list. */
  datatype State = State(regions: seq<Region>, pmm: Pmm.State, hhdm: u64)

  /** `Crash`: the memory manager failed, its error is only printed, and the region is used. */
  datatype Result = Pointer(at: u64) | NullPointer | Crash

  function Current(s: State): Region
    requires s.regions != []
  {
    s.regions[|s.regions| - 1]
  }

  /** A fresh region of `size` bytes at the end of the list. */
  function AddRegion(s: State, size: u64): (bool, State) {
    var (res, pmm') := Pmm.Alloc(s.pmm, size);
    if !res.Granted? then (false, s)
    else
      var base := Wrap(res.base + s.hhdm);
      (true, s.(regions := s.regions + [Region(base, Wrap(base + size), Wrap(base + HEADER))], pmm := pmm'))
  }

  /** The size of the region added when a request ends past the current one at address `stop`. */
  function NewSize(stop: u64, end: u64): u64 {
    Wrap(AlignUp(Wrap(stop - end), PAGE_SIZE) + PAGE_SIZE)
  }

  /** The current region, or a new one when [at, at + size) would pass its end. */
  function Reserve(s: State, at: u64, size: u64): (bool, State)
    requires s.regions != []
  {
    var stop := Wrap(at + size);
    if Current(s).end < stop then AddRegion(s, NewSize(stop, Current(s).end)) else (true, s)
  }

  function Take(s: State, at: u64, size: u64): State
    requires s.regions != []
  {
    s.(regions := s.regions[|s.regions| - 1 := Current(s).(curr := Wrap(at + size))])
  }

  /** alloc: never grows an empty allocator, and returns null for one. */
  function Alloc(s: State, size: u64): (Result, State) {
    if s.regions == [] || size == 0 then (NullPointer, s)
    else
      var (ok, t) := Reserve(s, Current(s).curr, size);
      if !ok || t.regions == [] then (Crash, s)
      else (Pointer(Current(t).curr), Take(t, Current(t).curr, size))
  }

  function AllocAligned(s: State, size: u64, alignment: u64): (Result, State) {
    if size == 0 || alignment == 0 then (NullPointer, s)
    else
      var (grown, s1) := if s.regions == [] then AddRegion(s, PAGE_SIZE) else (true, s);
      if !grown || s1.regions == [] then (Crash, s)
      else
        var (ok, t) := Reserve(s1, AlignUp(Current(s1).curr, alignment), size);
        if !ok || t.regions == [] then (Crash, s)
        else
          var at := AlignUp(Current(t).curr, alignment);
          (Pointer(at), Take(t, at, size))
  }
}
