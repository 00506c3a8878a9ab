/** Whole runs of the physical memory manager, from `initialize` on. */
module PmmRuns {
  import opened Num
  import opened Pmm
  import opened PmmProofs
  import opened PmmRegions
  import Slab

  datatype Op = AddOp(base: u64, size: u64) | AllocOp(size: u64)

  /** A range handed out; its size is rounded up to whole pages. */
  datatype Grant = Grant(base: u64, size: u64)

  ghost predicate InGrant(g: Grant, x: int) {
    g.base <= x < g.base + g.size
  }

  function Step(s: State, grants: seq<Grant>, op: Op): (State, seq<Grant>) {
    match op
    case AddOp(base, size) => (AddRegion(s, base, size).1, grants)
    case AllocOp(size) =>
      var (res, t) := Alloc(s, size);
      (t, if res.Granted? then grants + [Grant(res.base, AlignUp(size, PAGE_SIZE))] else grants)
  }

  function Run(s: State, ops: seq<Op>): (State, seq<Grant>) {
    if ops == [] then (s, [])
    else var (t, grants) := Run(s, ops[..|ops| - 1]); Step(t, grants, ops[|ops| - 1])
  }

  /** An added region that is accepted is sound and swallows the start of no managed region. */
  ghost predicate SafeOp(s: State, op: Op) {
    (op.AddOp? && AddRegion(s, op.base, op.size).0 == Added) ==>
      Sound(op.base, op.size) && !Swallows(s, AlignedBase(op.base), AlignedSize(op.base, op.size))
  }

  ghost predicate SafeRun(s: State, ops: seq<Op>) {
    forall n :: 0 <= n < |ops| ==> SafeOp(Run(s, ops[..n]).0, ops[n])
  }

  ghost function SumGrants(grants: seq<Grant>): nat {
    if grants == [] then 0 else SumGrants(grants[..|grants| - 1]) + grants[|grants| - 1].size
  }

  /** What holds after a run from s0 that ends in s: ranges handed out came from memory that
      was available, are no longer available, never overlap, and account for all bytes. */
  ghost predicate Good(s0: State, s: State, grants: seq<Grant>) {
    && Inv(s) && s.policy == FirstFit
    && (forall x :: Available(s, x) ==> Available(s0, x))
    && (forall i, x :: 0 <= i < |grants| && InGrant(grants[i], x) ==> Available(s0, x) && !Available(s, x))
    && (forall i, j, x :: 0 <= i < j < |grants| && InGrant(grants[i], x) ==> !InGrant(grants[j], x))
    && s.totalBytes - s.freeBytes == SumGrants(grants) + s0.totalBytes - s0.freeBytes
  }

  /** No reachable operation stops the kernel: no failed assertion, null dereference or todo. */
  lemma StepReturns(s: State, op: Op)
    requires Inv(s) && s.policy == FirstFit
    ensures match op
            case AddOp(base, size) => AddRegion(s, base, size).0 !in {AssertFailed, NullDeref}
            case AllocOp(size) => Alloc(s, size).0.Granted? || Alloc(s, size).0 == OutOfMem
  {
    hide AddRegion, Alloc, AlignUp, Inv;
    match op {
      case AddOp(base, size) => var p, slab1, slab2 := AddStep(s, base, size);
      case AllocOp(size) => AllocServes(s, size);
    }
  }

  lemma StepIsGood(s0: State, s: State, grants: seq<Grant>, op: Op)
    requires Good(s0, s, grants) && SafeOp(s, op)
    ensures var (t, grants') := Step(s, grants, op); Good(s0, t, grants')
  {
    hide AddRegion, Alloc, AlignUp, Inv, Available;
    match op {
      case AddOp(base, size) => AddIsGood(s0, s, grants, base, size);
      case AllocOp(size) =>
        AllocServes(s, size);
        if Alloc(s, size).0 != OutOfMem {
          var k :| 0 <= k < |s.regions| && ServedBy(s, size, k);
          GrantIsGood(s0, s, grants, Alloc(s, size).1, Grant(Alloc(s, size).0.base, AlignUp(size, PAGE_SIZE)));
        }
    }
  }

  lemma GrantIsGood(s0: State, s: State, grants: seq<Grant>, t: State, g: Grant)
    requires Good(s0, s, grants) && Carved(s, t, g.base, g.size)
    ensures Good(s0, t, grants + [g])
  {
    hide Inv, Free, Managed;
    var all := grants + [g];
    assert all[..|grants|] == grants && all[|grants|] == g;
    forall x | InGrant(g, x)
      ensures Available(s0, x) && !Available(t, x)
    {
      assert Free(s, x);
      assert Available(s, x);
    }
    assert forall i :: 0 <= i < |all| ==> all[i] == if i < |grants| then grants[i] else g;
  }

  lemma AddIsGood(s0: State, s: State, grants: seq<Grant>, base: u64, size: u64)
    requires Good(s0, s, grants) && SafeOp(s, AddOp(base, size))
    ensures Good(s0, AddRegion(s, base, size).1, grants)
  {
    hide AddRegion, AlignUp, Inv, Available, Slab.Inv, Slab.Handed, Slab.Alloc, Wrap, RegionOk;
    var t := AddRegion(s, base, size).1;
    var p, slab1, slab2 := AddStep(s, base, size);
    if AddRegion(s, base, size).0 == Added {
      AddRegionIff(s, base, size);
      forall x ensures Available(t, x) <==> Available(s, x) { AddKeepsAvailable(s, base, size, x); }
      AddCounters(s, base, size);
    }
  }

  lemma AddCounters(s: State, base: u64, size: u64)
    requires Inv(s) && AddRegion(s, base, size).0 == Added && Inv(AddRegion(s, base, size).1)
    ensures var t := AddRegion(s, base, size).1; t.totalBytes - t.freeBytes == s.totalBytes - s.freeBytes
  {
    hide AddRegion, AlignedBase, AlignedSize, Slab.Inv, Slab.Handed, Slab.Alloc, Wrap, RegionOk;
    var p, slab1, slab2 := AddStep(s, base, size);
    SumAppend(s.regions, Region(AlignedBase(base), AlignedSize(base, size), AlignedSize(base, size), p));
  }

  /** Over every safe run the invariant holds, ranges handed out are pairwise disjoint, and
      total bytes are free bytes plus the page-rounded sizes handed out. */
  lemma {:induction false} RunIsGood(s: State, ops: seq<Op>)
    requires Inv(s) && s.policy == FirstFit && SafeRun(s, ops)
    ensures var (t, grants) := Run(s, ops); Good(s, t, grants)
  {
    hide Good, Inv, Step, SafeOp;
    if ops == [] {
      StartIsGood(s);
    } else {
      var m := |ops| - 1;
      assert forall n :: 0 <= n < m ==> ops[..m][n] == ops[n] && ops[..m][..n] == ops[..n];
      RunIsGood(s, ops[..m]);
      var (t, grants) := Run(s, ops[..m]);
      StepIsGood(s, t, grants, ops[m]);
    }
  }

  lemma StartIsGood(s: State)
    requires Inv(s) && s.policy == FirstFit
    ensures Good(s, s, [])
  {
  }

  // ---------------------------------------------------------------- ascending regions

  /** Sound regions in ascending base order, with allocations anywhere between them. */
  predicate Ascending(ops: seq<Op>) {
    && (forall n :: 0 <= n < |ops| && ops[n].AddOp? ==> Sound(ops[n].base, ops[n].size))
    && forall m, n :: 0 <= m < n < |ops| && ops[m].AddOp? && ops[n].AddOp? ==> ops[m].base <= ops[n].base
  }

  ghost predicate BaseFrom(ops: seq<Op>, base: u64) {
    exists n :: 0 <= n < |ops| && ops[n].AddOp? && base == AlignedBase(ops[n].base)
  }

  /** Every region was added by one of the operations. */
  ghost predicate AddedBy(s: State, ops: seq<Op>) {
    forall i :: 0 <= i < |s.regions| ==> BaseFrom(ops, s.regions[i].base)
  }

  lemma AllocKeepsBases(s: State, size: u64)
    ensures var t := Alloc(s, size).1; |t.regions| == |s.regions| && forall i :: 0 <= i < |s.regions| ==> t.regions[i].base == s.regions[i].base
  {
    hide AlignUp, GoodAlignment, Wrap;
    var k := FirstServing(s.regions, 0, AlignUp(size, PAGE_SIZE));
    if k < |s.regions| { CarveKeepsBases(s, k, AlignUp(size, PAGE_SIZE)); }
  }

  lemma CarveKeepsBases(s: State, k: nat, size: u64)
    requires k < |s.regions|
    ensures var t := Carve(s, k, size, PAGE_SIZE).1; |t.regions| == |s.regions| && forall i :: 0 <= i < |s.regions| ==> t.regions[i].base == s.regions[i].base
  {
    hide AlignUp, Wrap, Slab.Alloc;
  }

  lemma StepAddedBy(s: State, grants: seq<Grant>, ops: seq<Op>, op: Op)
    requires AddedBy(s, ops)
    ensures AddedBy(Step(s, grants, op).0, ops + [op])
  {
    hide Alloc, AlignedBase, AlignedSize, Wrap, Slab.Alloc, BaseFrom;
    var t, all := Step(s, grants, op).0, ops + [op];
    if op.AllocOp? { AllocKeepsBases(s, op.size); }
    forall i | 0 <= i < |t.regions|
      ensures BaseFrom(all, t.regions[i].base)
    {
      if i < |s.regions| {
        StillAdded(ops, op, s.regions[i].base);
      } else {
        JustAdded(ops, op);
      }
    }
  }

  lemma StillAdded(ops: seq<Op>, op: Op, base: u64)
    requires BaseFrom(ops, base)
    ensures BaseFrom(ops + [op], base)
  {
    hide AlignedBase;
    var n :| 0 <= n < |ops| && ops[n].AddOp? && base == AlignedBase(ops[n].base);
    assert (ops + [op])[n] == ops[n];
  }

  lemma JustAdded(ops: seq<Op>, op: Op)
    requires op.AddOp?
    ensures BaseFrom(ops + [op], AlignedBase(op.base))
  {
    hide AlignedBase;
    assert (ops + [op])[|ops|] == op;
  }

  lemma {:induction false} RunAddedBy(s: State, ops: seq<Op>)
    requires s.regions == []
    ensures AddedBy(Run(s, ops).0, ops)
  {
    hide Step, AddedBy;
    if ops == [] {
      NoneAdded(s);
    } else {
      var m := |ops| - 1;
      RunAddedBy(s, ops[..m]);
      StepAddedBy(Run(s, ops[..m]).0, Run(s, ops[..m]).1, ops[..m], ops[m]);
      assert ops == ops[..m] + [ops[m]];
    }
  }

  lemma NoneAdded(s: State)
    requires s.regions == []
    ensures AddedBy(s, [])
  {
  }

  lemma AlignedOrder(base: u64, size: u64, base': u64, size': u64)
    requires Sound(base, size) && Sound(base', size') && base <= base'
    ensures AlignedBase(base) <= AlignedBase(base')
  {
    hide AlignedBase, Padding;
    BaseGeometry(base);
    BaseGeometry(base');
  }

  /** Regions added in ascending base order, each at least as long as its padding and below 2^64,
      never swallow one another: such runs are safe. */
  lemma AscendingIsSafe(s: State, ops: seq<Op>)
    requires s.regions == [] && Ascending(ops)
    ensures SafeRun(s, ops)
  {
    hide AddRegion, AlignedBase, AlignedSize, Sound, Run;
    forall n | 0 <= n < |ops|
      ensures SafeOp(Run(s, ops[..n]).0, ops[n])
    {
      RunAddedBy(s, ops[..n]);
      var t := Run(s, ops[..n]).0;
      if ops[n].AddOp? {
        forall i | 0 <= i < |t.regions|
          ensures t.regions[i].base <= AlignedBase(ops[n].base)
        {
          var m :| 0 <= m < n && ops[..n][m].AddOp? && t.regions[i].base == AlignedBase(ops[..n][m].base);
          AlignedOrder(ops[m].base, ops[m].size, ops[n].base, ops[n].size);
        }
      }
    }
  }

  /** `initialize` establishes the invariant: 64 nodes are free and nothing is managed. */
  lemma InitialIsValid(buf: nat)
    requires Slab.GrowAccepts(buf, Slab.RegionSize(INITIAL_MEM_BLOCK_COUNT, BLOCK_SZ), BLOCK_SZ)
    ensures Inv(Initial(FirstFit, buf))
    ensures forall x :: Available(Initial(FirstFit, buf), x)
  {
    hide Slab.Inv, Slab.LinkBlocks;
    var size := Slab.RegionSize(INITIAL_MEM_BLOCK_COUNT, BLOCK_SZ);
    assert Slab.Inv(Slab.EMPTY, BLOCK_SZ) by { EmptySlab(); }
    Slab.GrowKeepsInv(Slab.EMPTY, buf, size, BLOCK_SZ);
    assert size == 32 + 64 * 24;
  }

  /** The static buffer holds 64 list nodes of 24 bytes behind a header of 32, and the nodes come
      from it one after the other. */
  lemma BootNodes(buf: nat, k: nat)
    requires buf != 0 && buf % 8 == 0 && k <= 64
    ensures Slab.GrowAccepts(buf, Slab.RegionSize(INITIAL_MEM_BLOCK_COUNT, BLOCK_SZ), BLOCK_SZ)
    ensures Slab.Alloc(Slab.After(Initial(FirstFit, buf).slab, k)).0 == if k < 64 then buf + 32 + k * 24 else 0
  {
    hide Slab.Inv, Slab.LinkBlocks, Slab.After;
    var size := Slab.RegionSize(INITIAL_MEM_BLOCK_COUNT, BLOCK_SZ);
    assert size == 1568 && (size - 32) / BLOCK_SZ == 64;
    EmptySlab();
    Slab.NewestFirst(Slab.EMPTY, buf, size, BLOCK_SZ, k);
  }

  lemma EmptySlab()
    ensures Slab.Inv(Slab.EMPTY, BLOCK_SZ)
  {
  }

  /** A safe run from `initialize`: 64 nodes less two for each of at most 16 regions always
      leave more than the 16 below which a refill would be needed. */
  lemma BootRun(buf: nat, ops: seq<Op>, op: Op)
    requires Slab.GrowAccepts(buf, Slab.RegionSize(INITIAL_MEM_BLOCK_COUNT, BLOCK_SZ), BLOCK_SZ)
    requires SafeRun(Initial(FirstFit, buf), ops)
    ensures var (t, grants) := Run(Initial(FirstFit, buf), ops);
            && Inv(t) && t.slab.free > REFILL_BELOW
            && t.totalBytes == t.freeBytes + SumGrants(grants)
            && (forall i, j, x :: 0 <= i < j < |grants| && InGrant(grants[i], x) ==> !InGrant(grants[j], x))
            && (op.AddOp? ==> AddRegion(t, op.base, op.size).0 !in {AssertFailed, NullDeref})
            && (op.AllocOp? ==> Alloc(t, op.size).0.Granted? || Alloc(t, op.size).0 == OutOfMem)
  {
    hide AddRegion, Alloc, Run, SafeRun, Slab.Inv, Slab.Handed, RegionOk, Slab.Grow;
    var s := Initial(FirstFit, buf);
    InitialIsValid(buf);
    RunIsGood(s, ops);
    StepReturns(Run(s, ops).0, op);
  }
}
