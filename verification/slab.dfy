/** The slab allocator of kernel/include/allocators/slab.h.
    Blocks of one size `bs` are cut from buffers given to `Grow`; the free blocks of a buffer
    form an intrusive list, whose links live in the blocks' own memory (`next`). */
module Slab {
  import Num

  // sizeof and alignof of the region header that starts every buffer.
  const HEADER: nat := 32
  const REGION_ALIGN: nat := 8
  // sizeof a link.
  const LINK: nat := 8

  /** A buffer: its blocks start at `start`, `head` is the first block of the free list. */
  datatype Region = Region(start: nat, total: nat, free: nat, head: nat)

  /** `regions` has the newest buffer first; `next` is the memory holding the links. */
  datatype State = State(regions: seq<Region>, next: map<nat, nat>, total: nat, free: nat)

  const EMPTY := State([], map[], 0, 0)

  /** Address of block n of a run of blocks that starts at p. */
  function Slot(p: nat, n: nat, bs: nat): nat {
    if n == 0 then p else Slot(p, n - 1, bs) + bs
  }

  function RegionSize(n: nat, bs: nat): nat {
    HEADER + n * bs
  }

  function Load(next: map<nat, nat>, a: nat): nat {
    if a in next then next[a] else 0
  }

  // ---------------------------------------------------------------- the two operations

  /** The three assertions at the top of `grow`. */
  predicate GrowAccepts(buf: nat, size: nat, bs: nat) {
    buf != 0 && buf % REGION_ALIGN == 0 && size >= RegionSize(1, bs)
  }

  /** Links n blocks from p on, each to the one after it, and ends the list in the node
      that follows the last block. */
  function LinkBlocks(next: map<nat, nat>, p: nat, n: nat, bs: nat): map<nat, nat>
    decreases n
  {
    if n == 0 then next[p := 0] else LinkBlocks(next[p := p + bs], p + bs, n - 1, bs)
  }

  function Grow(s: State, buf: nat, size: nat, bs: nat): State
    requires bs > 0 && GrowAccepts(buf, size, bs)
  {
    var n := (size - HEADER) / bs;
    var start := buf + HEADER;
    State([Region(start, n, n, start)] + s.regions, LinkBlocks(s.next, start, n, bs), s.total + n, s.free + n)
  }

  /** Index of the first region from i on that has a free block, or |regions|. */
  function FirstWithFree(regions: seq<Region>, i: nat): (k: nat)
    requires i <= |regions|
    ensures i <= k <= |regions|
    ensures forall j :: i <= j < k ==> regions[j].free == 0
    ensures k < |regions| ==> regions[k].free != 0
    decreases |regions| - i
  {
    if i == |regions| || regions[i].free != 0 then i else FirstWithFree(regions, i + 1)
  }

  /** Unlinks the first block of a region; the block is zeroed before it is returned. */
  function Take(next: map<nat, nat>, r: Region): Region
    requires r.free > 0
  {
    r.(head := Load(next, r.head), free := r.free - 1)
  }

  /** Returns 0 for the null pointer. */
  function Alloc(s: State): (nat, State) {
    var k := FirstWithFree(s.regions, 0);
    if s.free == 0 || k == |s.regions| then (0, s)
    else
      var r := s.regions[k];
      (r.head, State(s.regions[k := Take(s.next, r)], s.next[r.head := 0], s.total, s.free - 1))
  }

  // ---------------------------------------------------------------- the invariant

  ghost function SumFree(rs: seq<Region>): nat {
    if rs == [] then 0 else rs[0].free + SumFree(rs[1..])
  }

  /** A list of n blocks from p on, in address order, and one sentinel node after them. */
  ghost predicate Chain(next: map<nat, nat>, p: nat, n: nat, bs: nat)
    decreases n
  {
    if n == 0 then Load(next, p) == 0
    else Load(next, p) == p + bs && Chain(next, p + bs, n - 1, bs)
  }

  /** Blocks are handed out from low to high addresses; the rest form the free list. */
  ghost predicate RegionOk(next: map<nat, nat>, r: Region, bs: nat) {
    && 0 < r.start && r.free <= r.total
    && r.head == Slot(r.start, r.total - r.free, bs)
    && Chain(next, r.head, r.free, bs)
  }

  /** The extra list node past the last block. */
  ghost function Sentinel(r: Region, bs: nat): nat {
    Slot(r.start, r.total, bs)
  }

  /** Two regions, each with its header and the link of its sentinel, share no byte. */
  ghost predicate Apart(r: Region, q: Region, bs: nat) {
    Sentinel(r, bs) + LINK <= q.start - HEADER || Sentinel(q, bs) + LINK <= r.start - HEADER
  }

  ghost predicate Inv(s: State, bs: nat) {
    && bs > 0
    && s.free == SumFree(s.regions)
    && (forall i :: 0 <= i < |s.regions| ==> RegionOk(s.next, s.regions[i], bs))
    && (forall i, j :: 0 <= i < j < |s.regions| ==> Apart(s.regions[i], s.regions[j], bs))
  }

  ghost predicate HandedFrom(r: Region, j: nat, bs: nat, a: nat) {
    r.free <= r.total && j < r.total - r.free && a == Slot(r.start, j, bs)
  }

  /** Block a has been handed out. */
  ghost predicate Handed(s: State, bs: nat, a: nat) {
    exists i: nat, j: nat :: i < |s.regions| && HandedFrom(s.regions[i], j, bs, a)
  }

  /** What `Grow` writes shares no byte with the regions already in use. */
  ghost predicate FreshBuffer(s: State, buf: nat, size: nat, bs: nat)
    requires bs > 0 && size >= HEADER
  {
    var n := (size - HEADER) / bs;
    forall i :: 0 <= i < |s.regions| ==> Apart(Region(buf + HEADER, n, n, buf + HEADER), s.regions[i], bs)
  }

  // ---------------------------------------------------------------- slots and chains

  lemma {:induction false} SlotOrder(p: nat, i: nat, j: nat, bs: nat)
    requires i < j
    ensures p <= Slot(p, i, bs) && Slot(p, i, bs) + bs <= Slot(p, j, bs)
    decreases j
  {
    if i + 1 < j { SlotOrder(p, i, j - 1, bs); }
    SlotFrom(p, i, bs);
  }

  lemma {:induction false} SlotFrom(p: nat, n: nat, bs: nat)
    ensures p <= Slot(p, n, bs)
    ensures n > 0 ==> Slot(p + bs, n - 1, bs) == Slot(p, n, bs)
  {
    if n > 0 { SlotFrom(p, n - 1, bs); }
  }

  lemma {:induction false} SlotValue(p: nat, n: nat, bs: nat)
    ensures Slot(p, n, bs) == p + n * bs
  {
    if n > 0 {
      SlotValue(p, n - 1, bs);
      assert n * bs == (n - 1) * bs + bs;
    }
  }

  /** Memory outside a chain does not matter to it. */
  lemma {:induction false} ChainFrame(next: map<nat, nat>, next': map<nat, nat>, p: nat, n: nat, bs: nat)
    requires Chain(next, p, n, bs)
    requires forall a :: p <= a <= Slot(p, n, bs) ==> Load(next', a) == Load(next, a)
    ensures Chain(next', p, n, bs)
    decreases n
  {
    SlotFrom(p, n, bs);
    if n > 0 { ChainFrame(next, next', p + bs, n - 1, bs); }
  }

  lemma {:induction false} LinkBlocksChain(next: map<nat, nat>, p: nat, n: nat, bs: nat)
    requires bs > 0
    ensures Chain(LinkBlocks(next, p, n, bs), p, n, bs)
    ensures forall a: nat :: !(p <= a <= Slot(p, n, bs)) ==> Load(LinkBlocks(next, p, n, bs), a) == Load(next, a)
    decreases n
  {
    SlotFrom(p, n, bs);
    if n > 0 {
      LinkBlocksChain(next[p := p + bs], p + bs, n - 1, bs);
    }
  }

  /** Following the links from the head meets exactly `free` blocks and then the sentinel. */
  lemma {:induction false} ChainLength(next: map<nat, nat>, p: nat, n: nat, bs: nat, k: nat)
    requires Chain(next, p, n, bs) && p > 0 && k <= n
    ensures Load(next, Slot(p, k, bs)) == if k < n then Slot(p, k + 1, bs) else 0
    decreases n
  {
    SlotFrom(p, k, bs);
    SlotFrom(p, k + 1, bs);
    if k > 0 { ChainLength(next, p + bs, n - 1, bs, k - 1); }
  }

  // ---------------------------------------------------------------- the sentinel

  /** The link of the sentinel lies inside the buffer exactly when the blocks leave room for it. */
  lemma SentinelInsideIff(s: State, buf: nat, size: nat, bs: nat)
    requires bs > 0 && GrowAccepts(buf, size, bs)
    ensures Sentinel(Grow(s, buf, size, bs).regions[0], bs) + LINK <= buf + size <==> (size - HEADER) % bs >= LINK
  {
    hide LinkBlocks, Slot;
    var n := (size - HEADER) / bs;
    SlotValue(buf + HEADER, n, bs);
    assert n * bs + (size - HEADER) % bs == size - HEADER;
  }

  /** A buffer of exactly n blocks, like the memory manager's 64 list nodes of 24 bytes: the link
      is written right behind it. */
  lemma SentinelOutside(s: State, buf: nat, n: nat, bs: nat)
    requires bs > 0 && n > 0 && buf != 0 && buf % REGION_ALIGN == 0
    ensures RegionSize(1, bs) <= RegionSize(n, bs)
    ensures Sentinel(Grow(s, buf, RegionSize(n, bs), bs).regions[0], bs) == buf + RegionSize(n, bs)
  {
    hide LinkBlocks, Slot;
    SlotValue(buf + HEADER, n, bs);
    Num.MulAtLeast(n, bs);
    Num.ModUnique(n * bs, bs, n, 0);
  }

  // ---------------------------------------------------------------- grow

  lemma GrowKeepsInv(s: State, buf: nat, size: nat, bs: nat)
    requires Inv(s, bs) && GrowAccepts(buf, size, bs) && FreshBuffer(s, buf, size, bs)
    ensures Inv(Grow(s, buf, size, bs), bs)
  {
    var n, start := (size - HEADER) / bs, buf + HEADER;
    GrowWith(s, Region(start, n, n, start), bs, Grow(s, buf, size, bs));
  }

  lemma GrowWith(s: State, r: Region, bs: nat, t: State)
    requires Inv(s, bs) && 0 < r.start == r.head && r.free == r.total
    requires forall i :: 0 <= i < |s.regions| ==> Apart(r, s.regions[i], bs)
    requires t == State([r] + s.regions, LinkBlocks(s.next, r.start, r.total, bs), t.total, s.free + r.total)
    ensures Inv(t, bs)
  {
    hide LinkBlocks, Chain;
    assert t.regions[1..] == s.regions;
    LinkBlocksChain(s.next, r.start, r.total, bs);
    forall i | 0 <= i < |s.regions|
      ensures RegionOk(t.next, s.regions[i], bs)
    {
      var q := s.regions[i];
      assert Apart(r, q, bs) && RegionOk(s.next, q, bs);
      RegionFrame(s.next, t.next, q, bs);
    }
  }

  lemma RegionFrame(next: map<nat, nat>, next': map<nat, nat>, q: Region, bs: nat)
    requires RegionOk(next, q, bs)
    requires forall a :: q.start <= a <= Sentinel(q, bs) ==> Load(next', a) == Load(next, a)
    ensures RegionOk(next', q, bs)
  {
    hide Chain;
    HeadPlace(next, q, bs);
    ChainFrame(next, next', q.head, q.free, bs);
  }

  lemma HeadPlace(next: map<nat, nat>, q: Region, bs: nat)
    requires RegionOk(next, q, bs)
    ensures q.start <= q.head <= Sentinel(q, bs) == Slot(q.head, q.free, bs)
    ensures q.free > 0 ==> q.head + bs <= Sentinel(q, bs)
  {
    hide Chain;
    SlotFrom(q.start, q.total - q.free, bs);
    SlotSplit(q.start, q.total - q.free, q.free, bs);
    SlotFrom(q.head, q.free, bs);
    if q.free > 0 { SlotOrder(q.head, 0, q.free, bs); }
  }

  lemma {:induction false} SlotSplit(p: nat, i: nat, j: nat, bs: nat)
    ensures Slot(Slot(p, i, bs), j, bs) == Slot(p, i + j, bs)
  {
    if j > 0 { SlotSplit(p, i, j - 1, bs); }
  }

  // ---------------------------------------------------------------- alloc

  lemma {:induction false} SumFreeUpdate(rs: seq<Region>, k: nat, r: Region)
    requires k < |rs|
    ensures SumFree(rs[k := r]) == SumFree(rs) - rs[k].free + r.free
  {
    if k > 0 {
      SumFreeUpdate(rs[1..], k - 1, r);
      assert rs[k := r][1..] == rs[1..][k - 1 := r];
    } else {
      assert rs[0 := r][1..] == rs[1..];
    }
  }

  lemma {:induction false} SumFreeFound(rs: seq<Region>, i: nat)
    requires i <= |rs| && (forall j :: 0 <= j < i ==> rs[j].free == 0)
    ensures SumFree(rs) == SumFree(rs[i..])
  {
    if i > 0 {
      SumFreeFound(rs[1..], i - 1);
      assert rs[1..][i - 1..] == rs[i..];
    } else {
      assert rs[0..] == rs;
    }
  }

  /** `Alloc` returns null exactly when no block is free, and then changes nothing. */
  lemma AllocNullIff(s: State, bs: nat)
    requires Inv(s, bs)
    ensures Alloc(s).0 == 0 <==> s.free == 0
    ensures s.free == 0 ==> Alloc(s).1 == s
    ensures s.free > 0 ==> Alloc(s).1.free == s.free - 1 && FirstWithFree(s.regions, 0) < |s.regions|
  {
    hide Chain;
    var k := FirstWithFree(s.regions, 0);
    SumFreeFound(s.regions, k);
    if k < |s.regions| {
      assert RegionOk(s.next, s.regions[k], bs);
      SlotFrom(s.regions[k].start, s.regions[k].total - s.regions[k].free, bs);
    }
  }

  lemma TakeRegion(next: map<nat, nat>, r: Region, bs: nat)
    requires bs > 0 && RegionOk(next, r, bs) && r.free > 0
    ensures RegionOk(next[r.head := 0], Take(next, r), bs)
    ensures r.head + bs <= Sentinel(r, bs) && r.start <= r.head
    ensures HandedFrom(Take(next, r), r.total - r.free, bs, r.head)
    ensures forall j: nat, a: nat :: HandedFrom(r, j, bs, a) ==> r.start <= a && a + bs <= r.head
  {
    HeadPlace(next, r, bs);
    SlotFrom(r.head + bs, r.free - 1, bs);
    ChainFrame(next, next[r.head := 0], r.head + bs, r.free - 1, bs);
    forall j: nat, a: nat | HandedFrom(r, j, bs, a)
      ensures r.start <= a && a + bs <= r.head
    {
      SlotOrder(r.start, j, r.total - r.free, bs);
    }
  }

  /** What `Alloc` does when a block is free: region k loses its first block b. */
  lemma AllocStep(s: State, bs: nat) returns (k: nat, b: nat)
    requires Inv(s, bs) && s.free > 0
    ensures k < |s.regions| && s.regions[k].free > 0 && b == s.regions[k].head
    ensures Alloc(s) == (b, State(s.regions[k := Take(s.next, s.regions[k])], s.next[b := 0], s.total, s.free - 1))
  {
    hide Inv;
    k := FirstWithFree(s.regions, 0);
    AllocNullIff(s, bs);
    b := s.regions[k].head;
  }

  lemma AllocKeepsInv(s: State, bs: nat)
    requires Inv(s, bs) && s.free > 0
    ensures Inv(Alloc(s).1, bs)
  {
    hide Chain, Slot, Alloc;
    var k, b := AllocStep(s, bs);
    var r, t := s.regions[k], Alloc(s).1;
    TakeRegion(s.next, r, bs);
    SumFreeUpdate(s.regions, k, Take(s.next, r));
    forall i | 0 <= i < |s.regions| && i != k
      ensures RegionOk(t.next, t.regions[i], bs)
    {
      assert if i < k then Apart(s.regions[i], r, bs) else Apart(r, s.regions[i], bs);
      assert RegionOk(s.next, s.regions[i], bs);
      RegionFrame(s.next, t.next, s.regions[i], bs);
    }
    forall i, j | 0 <= i < j < |t.regions|
      ensures Apart(t.regions[i], t.regions[j], bs)
    {
      assert Apart(s.regions[i], s.regions[j], bs);
    }
  }

  /** A successful `Alloc` hands out one block that does not overlap any block handed out
      before, nor any sentinel; and it hands out nothing else. */
  lemma AllocFresh(s: State, bs: nat)
    requires Inv(s, bs) && s.free > 0
    ensures Handed(Alloc(s).1, bs, Alloc(s).0)
    ensures forall a: nat :: Handed(s, bs, a) ==> a + bs <= Alloc(s).0 || Alloc(s).0 + bs <= a
    ensures forall a: nat :: Handed(Alloc(s).1, bs, a) <==> a == Alloc(s).0 || Handed(s, bs, a)
    ensures forall i :: 0 <= i < |s.regions| ==>
              Alloc(s).0 + bs <= Sentinel(s.regions[i], bs) || Sentinel(s.regions[i], bs) + LINK <= Alloc(s).0
  {
    hide Chain, Slot, Alloc;
    var k, b := AllocStep(s, bs);
    var r, t := s.regions[k], Alloc(s).1;
    TakeRegion(s.next, r, bs);
    forall i | 0 <= i < |s.regions|
      ensures b + bs <= Sentinel(s.regions[i], bs) || Sentinel(s.regions[i], bs) + LINK <= b
      ensures forall j: nat, a: nat :: HandedFrom(s.regions[i], j, bs, a) ==> a + bs <= b || b + bs <= a
    {
      if i != k {
        assert if i < k then Apart(s.regions[i], r, bs) else Apart(r, s.regions[i], bs);
        HandedInside(s.next, s.regions[i], bs);
        SlotFrom(s.regions[i].start, s.regions[i].total, bs);
      }
    }
    assert HandedFrom(t.regions[k], r.total - r.free, bs, b);
    forall a: nat
      ensures Handed(t, bs, a) <==> a == b || Handed(s, bs, a)
    {
      if i: nat, j: nat :| i < |t.regions| && HandedFrom(t.regions[i], j, bs, a) {
        if i != k || j < r.total - r.free {
          assert HandedFrom(s.regions[i], j, bs, a);
        } else {
          assert a == b;
        }
      }
      if i: nat, j: nat :| i < |s.regions| && HandedFrom(s.regions[i], j, bs, a) {
        assert HandedFrom(t.regions[i], j, bs, a);
      }
    }
  }

  lemma HandedInside(next: map<nat, nat>, q: Region, bs: nat)
    requires RegionOk(next, q, bs)
    ensures forall j: nat, a: nat :: HandedFrom(q, j, bs, a) ==> q.start <= a && a + bs <= Sentinel(q, bs)
  {
    forall j: nat, a: nat | HandedFrom(q, j, bs, a)
      ensures q.start <= a && a + bs <= Sentinel(q, bs)
    {
      SlotOrder(q.start, j, q.total, bs);
    }
  }

  /** Whatever is written into blocks that are handed out, the free lists stay intact. */
  lemma UserWritesKeepInv(s: State, next': map<nat, nat>, bs: nat)
    requires Inv(s, bs)
    requires forall a: nat :: Load(next', a) != Load(s.next, a) ==> exists b: nat :: Handed(s, bs, b) && b <= a < b + bs
    ensures Inv(s.(next := next'), bs)
  {
    hide Chain, Slot;
    forall i: nat | i < |s.regions|
      ensures RegionOk(next', s.regions[i], bs)
    {
      var q := s.regions[i];
      assert RegionOk(s.next, q, bs);
      HeadPlace(s.next, q, bs);
      forall a: nat | q.head <= a <= Slot(q.head, q.free, bs)
        ensures Load(next', a) == Load(s.next, a)
      {
        FreeNodesNotHanded(s, i, a, bs);
      }
      ChainFrame(s.next, next', q.head, q.free, bs);
    }
  }

  lemma FreeNodesNotHanded(s: State, i: nat, a: nat, bs: nat)
    requires Inv(s, bs) && i < |s.regions| && s.regions[i].head <= a <= Sentinel(s.regions[i], bs)
    ensures forall b: nat :: Handed(s, bs, b) ==> !(b <= a < b + bs)
  {
    hide Chain, Slot;
    var q := s.regions[i];
    assert RegionOk(s.next, q, bs);
    HeadPlace(s.next, q, bs);
    forall k: nat, j: nat, b: nat | k < |s.regions| && HandedFrom(s.regions[k], j, bs, b)
      ensures !(b <= a < b + bs)
    {
      assert RegionOk(s.next, s.regions[k], bs);
      if k == i {
        SlotOrder(q.start, j, q.total - q.free, bs);
      } else {
        assert if k < i then Apart(s.regions[k], q, bs) else Apart(q, s.regions[k], bs);
        HandedInside(s.next, s.regions[k], bs);
      }
    }
  }

  // ---------------------------------------------------------------- runs

  datatype Op = GrowOp(buf: nat, size: nat) | AllocOp

  /** One operation; `out` collects the blocks handed out. */
  function Step(s: State, out: seq<nat>, op: Op, bs: nat): (State, seq<nat>)
    requires bs > 0
  {
    match op
    case GrowOp(buf, size) => (if GrowAccepts(buf, size, bs) then Grow(s, buf, size, bs) else s, out)
    case AllocOp => (Alloc(s).1, if Alloc(s).0 == 0 then out else out + [Alloc(s).0])
  }

  function Run(s: State, ops: seq<Op>, bs: nat): (State, seq<nat>)
    requires bs > 0
  {
    if ops == [] then (s, [])
    else var (t, out) := Run(s, ops[..|ops| - 1], bs); Step(t, out, ops[|ops| - 1], bs)
  }

  ghost predicate FreshOp(s: State, op: Op, bs: nat)
    requires bs > 0
  {
    op.GrowOp? && GrowAccepts(op.buf, op.size, bs) ==> op.size >= HEADER && FreshBuffer(s, op.buf, op.size, bs)
  }

  /** Every buffer of the run is distinct from the buffers before it. */
  ghost predicate FreshBuffers(s: State, ops: seq<Op>, bs: nat)
    requires bs > 0
  {
    forall n :: 0 <= n < |ops| ==> FreshOp(Run(s, ops[..n], bs).0, ops[n], bs)
  }

  /** The blocks of `out` are all handed out, and no two of them overlap. */
  ghost predicate Spaced(s: State, out: seq<nat>, bs: nat) {
    && (forall i :: 0 <= i < |out| ==> Handed(s, bs, out[i]))
    && (forall i, j :: 0 <= i < j < |out| ==> out[i] + bs <= out[j] || out[j] + bs <= out[i])
  }

  lemma StepIsSafe(s: State, out: seq<nat>, op: Op, bs: nat)
    requires bs > 0 && Inv(s, bs) && Spaced(s, out, bs) && FreshOp(s, op, bs)
    ensures var (t, out') := Step(s, out, op, bs); Inv(t, bs) && Spaced(t, out', bs)
  {
    hide Inv, Handed, Alloc, Grow, FreshBuffer;
    match op {
      case GrowOp(buf, size) =>
        if GrowAccepts(buf, size, bs) {
          GrowKeepsInv(s, buf, size, bs);
          GrowKeepsHanded(s, buf, size, bs);
        }
      case AllocOp =>
        AllocNullIff(s, bs);
        if Alloc(s).0 != 0 {
          AllocKeepsInv(s, bs);
          AllocFresh(s, bs);
        }
    }
  }

  /** Over any run on distinct buffers, the free count stays the sum of the regions' counts
      (in Inv) and no two blocks handed out overlap. */
  lemma {:induction false} RunIsSafe(s: State, ops: seq<Op>, bs: nat)
    requires bs > 0 && Inv(s, bs) && FreshBuffers(s, ops, bs)
    ensures var (t, out) := Run(s, ops, bs); Inv(t, bs) && Spaced(t, out, bs)
  {
    hide Inv, Handed, Step, FreshOp;
    if ops != [] {
      var m := |ops| - 1;
      assert forall n :: 0 <= n < m ==> ops[..m][n] == ops[n] && ops[..m][..n] == ops[..n];
      RunIsSafe(s, ops[..m], bs);
      var (t, out) := Run(s, ops[..m], bs);
      StepIsSafe(t, out, ops[m], bs);
    }
  }

  lemma GrowKeepsHanded(s: State, buf: nat, size: nat, bs: nat)
    requires bs > 0 && GrowAccepts(buf, size, bs)
    ensures forall a: nat :: Handed(s, bs, a) ==> Handed(Grow(s, buf, size, bs), bs, a)
  {
    hide LinkBlocks;
    var t := Grow(s, buf, size, bs);
    forall a: nat | Handed(s, bs, a)
      ensures Handed(t, bs, a)
    {
      var i: nat, j: nat :| i < |s.regions| && HandedFrom(s.regions[i], j, bs, a);
      assert HandedFrom(t.regions[i + 1], j, bs, a);
    }
  }

  // ---------------------------------------------------------------- the order of blocks

  /** After k calls of alloc. */
  function After(s: State, k: nat): State {
    if k == 0 then s else Alloc(After(s, k - 1)).1
  }

  lemma {:induction false} FirstShift(r: Region, rs: seq<Region>, i: nat)
    requires r.free == 0 && i <= |rs|
    ensures FirstWithFree([r] + rs, i + 1) == FirstWithFree(rs, i) + 1
    decreases |rs| - i
  {
    var all := [r] + rs;
    if i < |rs| && rs[i].free == 0 {
      assert all[i + 1] == rs[i];
      FirstShift(r, rs, i + 1);
    }
  }

  /** With its first region used up, the others serve. */
  lemma EmptyFront(s: State, t: State, r: Region)
    requires r.free == 0 && t.regions == [r] + s.regions && t.free == s.free
    ensures Alloc(t).0 == Alloc(s).0
  {
    FirstShift(r, s.regions, 0);
  }

  /** What k calls take from a buffer just added. */
  ghost predicate Taken(s: State, t: State, start: nat, n: nat, k: nat, bs: nat) {
    && k <= n && Inv(t, bs) && t.free == s.free + n - k
    && t.regions == [Region(start, n, n - k, start + k * bs)] + s.regions
  }

  lemma TakeNext(s: State, t: State, start: nat, n: nat, k: nat, bs: nat)
    requires Taken(s, t, start, n, k, bs) && k < n && start > 0
    ensures Alloc(t).0 == start + k * bs && Taken(s, Alloc(t).1, start, n, k + 1, bs)
  {
    hide Slot, Apart;
    AllocKeepsInv(t, bs);
    assert RegionOk(t.next, t.regions[0], bs);
    assert (k + 1) * bs == k * bs + bs;
  }

  lemma {:induction false} TakenFrom(s: State, t: State, start: nat, n: nat, k: nat, bs: nat)
    requires Taken(s, t, start, n, 0, bs) && k <= n && start > 0
    ensures Taken(s, After(t, k), start, n, k, bs)
  {
    hide Taken, Alloc;
    if k > 0 {
      TakenFrom(s, t, start, n, k - 1, bs);
      TakeNext(s, After(t, k - 1), start, n, k - 1, bs);
    }
  }

  /** A buffer is cut from its front, behind a header of 32 bytes, and the newest buffer is used
      up before the older ones: call number k after adding it returns its k-th block, and the
      call after the last one what the allocator would have returned without it. */
  lemma NewestFirst(s: State, buf: nat, size: nat, bs: nat, k: nat)
    requires bs > 0 && Inv(s, bs) && buf != 0 && buf % 8 == 0 && size >= 32 + bs && FreshBuffer(s, buf, size, bs)
    requires k <= (size - 32) / bs
    ensures var t := After(Grow(s, buf, size, bs), k);
            Alloc(t).0 == if k < (size - 32) / bs then buf + 32 + k * bs else Alloc(s).0
  {
    hide Inv, Alloc, FreshBuffer, LinkBlocks;
    var n, t := (size - 32) / bs, Grow(s, buf, size, bs);
    GrowKeepsInv(s, buf, size, bs);
    assert 0 * bs == 0;
    TakenFrom(s, t, buf + 32, n, k, bs);
    if k < n {
      TakeNext(s, After(t, k), buf + 32, n, k, bs);
    } else {
      EmptyFront(s, After(t, k), Region(buf + 32, n, 0, buf + 32 + n * bs));
    }
  }

  // ---------------------------------------------------------------- the allocator object

  class SlabAlloc {
    const bs: nat
    var regions: seq<Region>
    var next: map<nat, nat>
    var total: nat
    var free: nat

    function St(): State
      reads this
    {
      State(regions, next, total, free)
    }

    constructor (blockSize: nat)
      ensures St() == EMPTY && bs == blockSize
    {
      bs := blockSize;
      regions, next, total, free := [], map[], 0, 0;
    }

    /** Where the source asserts, `ok` is false and nothing changes. */
    method AddBuffer(buf: nat, size: nat) returns (ok: bool)
      requires bs > 0
      modifies this
      ensures ok <==> buf != 0 && buf % 8 == 0 && size >= 32 + bs
      ensures ok == GrowAccepts(buf, size, bs)
      ensures St() == if ok then Grow(old(St()), buf, size, bs) else old(St())
    {
      ok := buf != 0 && buf % REGION_ALIGN == 0 && size >= RegionSize(1, bs);
      if !ok {
        return;
      }
      var ptr: nat := buf + HEADER;
      var start := ptr;
      var n: nat := (size - HEADER) / bs;
      total := total + n;
      free := free + n;
      var block := ptr;
      for i := 0 to n
        invariant block == ptr
        invariant LinkBlocks(next, ptr, n - i, bs) == LinkBlocks(old(next), start, n, bs)
        invariant regions == old(regions) && total == old(total) + n && free == old(free) + n
      {
        ptr := ptr + bs;
        next := next[block := ptr];
        block := ptr;
      }
      next := next[block := 0];
      regions := [Region(start, n, n, start)] + regions;
    }

    /** Null (0) when every region is empty. */
    method Get() returns (b: nat)
      modifies this
      ensures b == Alloc(old(St())).0
      ensures St() == Alloc(old(St())).1
    {
      if free == 0 {
        return 0;
      }
      var k := 0;
      while k < |regions| && regions[k].free == 0
        invariant 0 <= k <= |regions|
        invariant FirstWithFree(regions, k) == FirstWithFree(regions, 0)
      {
        k := k + 1;
      }
      if k == |regions| {
        return 0;
      }
      b := regions[k].head;
      regions := regions[k := regions[k].(head := Load(next, b), free := regions[k].free - 1)];
      free := free - 1;
      next := next[b := 0];
    }
  }
}
