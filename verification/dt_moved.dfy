/** What the rewrite pass reaches from `&nodes[0]`. When the node stack has moved, that record is a
    copy: its list of children ends early, and the children's parent links lead to the original
    root, which the pass never gives any cell counts. */
module DtMoved {
  import opened Options
  import opened DtTokens
  import opened DtBuild
  import opened DtTrees
  import opened DtLayout
  import opened DtNames
  import opened DtRewrite
  import DtRoot
  import DtCells

  /** The node records, with the copy at `&nodes[0]`, if there is one, as an additional record
      that no link leads to. */
  function Heap(s: State): seq<Node> {
    match s.rootCopy
    case Live => s.nodes
    case Frozen(x) => s.nodes + [x]
  }

  function RootIndex(s: State): nat {
    if s.rootCopy.Live? then 0 else |s.nodes|
  }

  /** The children, newest first and numbered from 1 on, that the copy's list still has. */
  function Kept(ms: seq<Tree>): seq<Tree> {
    if ms == [] then [] else if 1 + SizeAll(ms[1..]) < FIRST_CAPACITY then ms else Kept(ms[1..])
  }

  /** The part of the parsed tree m that the pass reaches. */
  function Reached(m: Tree): Tree {
    if Size(m) <= FIRST_CAPACITY then m else m.(children := Kept(m.children))
  }

  /** The pass as parse_from_blob starts it on the parsed tree m. */
  function RewriteRoot(m: Tree): Result<Decoded> {
    RewriteFrom(Reached(m), Cells(2, 1), None, if Size(m) <= FIRST_CAPACITY then None else Some(Cells(0, 0)))
  }

  // ---------------------------------------------------------------- where the reached tree is

  lemma {:induction false} KeptLaid(nodes: seq<Node>, props: seq<Prop>, p: nat, n: nat, ms: seq<Tree>)
    requires Links(nodes) && FIRST_CAPACITY <= n <= |nodes|
    requires KidsLaid(nodes, props, 0, 1, p, LastWithParent(nodes, At(0), n), ms)
    ensures KidsLaid(nodes, props, 0, 1, p, LastWithParent(nodes, At(0), FIRST_CAPACITY), Kept(ms))
    decreases |ms|
  {
    hide Laid;
    DtRoot.CountMonotone(nodes, At(0), FIRST_CAPACITY, n);
    if ms != [] {
      var i := 1 + SizeAll(ms[1..]);
      DtRoot.LastCount(nodes, At(0), n);
      if i >= FIRST_CAPACITY {
        assert nodes[i].nextSibling == LastWithParent(nodes, At(0), i);
        KeptLaid(nodes, props, p, i, ms[1..]);
      }
    }
  }

  /** No token gives a node any cells. */
  ghost predicate NoCells(nodes: seq<Node>) {
    forall i :: 0 <= i < |nodes| ==> nodes[i].addressCells == 0 && nodes[i].sizeCells == 0
  }

  lemma {:induction false} ExecNoCells(s: State, ts: seq<Token>)
    requires NoCells(s.nodes) && Exec(s, ts).Running?
    ensures NoCells(Exec(s, ts).s.nodes)
    decreases |ts|
  {
    if ts != [] {
      hide Exec;
      assert Exec(s, ts) == Exec(Apply(s, ts[0]).s, ts[1..]) by { ExecFirst(s, ts); }
      ExecNoCells(Apply(s, ts[0]).s, ts[1..]);
    }
  }

  lemma ExecFirst(s: State, ts: seq<Token>)
    requires ts != [] && Exec(s, ts).Running?
    ensures Apply(s, ts[0]).Running? && Exec(s, ts) == Exec(Apply(s, ts[0]).s, ts[1..])
  {
    hide Apply;
  }

  /** After the tokens of tree t the record at `&nodes[0]` is the reached part of the mirrored
      tree; its children's parent is node 0. */
  lemma RootLaid(t: Tree)
    ensures Exec(START, Flatten(t)).Running?
    ensures var u := Exec(START, Flatten(t)).s; var r := RootIndex(u);
            && NoCells(Heap(u)) && r < |Heap(u)| && Heap(u)[r].parent == Null
            && (r == 0 <==> Size(t) <= FIRST_CAPACITY) && (r == 0 || r > SizeAll(Reached(Mirror(t)).children))
            && Laid(Heap(u), u.props, Heap(u)[r], 0, 1, 0, Reached(Mirror(t)))
  {
    hide Exec, Flatten, Mirror, Size, Laid, RecordIs, DtRoot.Snapshot;
    DtRoot.RootRun(t);
    MirrorCounts(t);
    assert InRange(START) && NoCells(START.nodes);
    ExecNoCells(START, Flatten(t));
    BuildTree(START, t);
    BuildLaid(START, t);
    var u := Exec(START, Flatten(t)).s;
    CopyNoCells(u);
    CopyLaid(u, Mirror(t));
  }

  lemma CopyNoCells(u: State)
    requires DtRoot.Snapshot(u) && NoCells(u.nodes) && u.nodes[0].parent == Null
    ensures NoCells(Heap(u)) && RootIndex(u) < |Heap(u)| && Heap(u)[RootIndex(u)].parent == Null
    ensures RootIndex(u) == 0 <==> |u.nodes| <= FIRST_CAPACITY
  {
    hide LastWithParent, Shape;
  }

  lemma CopyLaid(u: State, m: Tree)
    requires DtRoot.Snapshot(u) && |u.nodes| == Size(m)
    requires Laid(u.nodes, u.props, u.nodes[0], 0, 1, 0, m)
    ensures Laid(Heap(u), u.props, Heap(u)[RootIndex(u)], 0, 1, 0, Reached(m))
    ensures RootIndex(u) == 0 || RootIndex(u) > SizeAll(Reached(m).children)
  {
    if |u.nodes| > FIRST_CAPACITY {
      hide LastWithParent, SizeAll, PropCountAll, PropsLaid;
      KeptLaid(u.nodes, u.props, |m.props|, |u.nodes|, m.children);
      KidsLaidFrame(u.nodes, u.props, Heap(u), u.props, 0, 1, |m.props|, u.rootCopy.node.children, Kept(m.children));
    }
  }

  // ---------------------------------------------------------------- when that is what is meant

  /** The property is decoded with the parent's cell counts. */
  predicate ReadsParent(p: (bytes, bytes)) {
    p.0 == REG || ((p.0 == RANGES || p.0 == BUS_RANGES) && p.1 != [])
  }

  ghost predicate NeedsParent(t: Tree) {
    exists i :: 0 <= i < |t.props| && ReadsParent(t.props[i])
  }

  lemma {:induction false} SecondLapFree(ps: Props, c: Cells, parent: Option<Cells>, parent': Option<Cells>, ds: seq<Data>)
    requires |ds| == |ps| && forall i :: 0 <= i < |ps| ==> !ReadsParent(ps[i])
    ensures SecondLap(ps, c, parent, ds) == SecondLap(ps, c, parent', ds)
    decreases |ps|
  {
    if ps != [] {
      hide KindOf, SecondStep, ReadsParent;
      SecondStepFree(ps[0], c, parent, parent', ds[0]);
      SecondLapFree(ps[1..], c, parent, parent', ds[1..]);
    }
  }

  lemma SecondStepFree(p: (bytes, bytes), c: Cells, parent: Option<Cells>, parent': Option<Cells>, d: Data)
    requires !ReadsParent(p)
    ensures SecondStep(KindOf(p.0), p.1, c, parent, d) == SecondStep(KindOf(p.0), p.1, c, parent', d)
  {
    hide KindOf, DtCells.RegRows, DtCells.RangesRows, DtCells.RegAsserts, DtCells.RangesAsserts, REG, RANGES, BUS_RANGES;
    KindNames(p.0);
  }

  lemma RewriteFree(t: Tree, c: Cells, c': Cells)
    requires !NeedsParent(t)
    ensures Rewrite(t, Some(c)) == Rewrite(t, Some(c'))
  {
    hide FirstLap, SecondLap, RewriteAll, ReadsParent;
    var first := FirstLap(t.props, Cells(0, 0));
    if first.Ok? {
      SecondLapFree(t.props, first.value.1, Some(c), Some(c'), first.value.0);
    }
  }

  /** Cell counts of 0 and 0 make the assertions on `reg` and `ranges` fail. */
  lemma RewriteNeeds(t: Tree)
    requires NeedsParent(t)
    ensures !Rewrite(t, Some(Cells(0, 0))).Ok?
  {
    hide Rewrite, IsReadable, LapCells, Excess, REG, RANGES, BUS_RANGES;
    var c := Some(Cells(0, 0));
    RewriteOutcome(t, c);
    if Checked(t, c) && !Excess(t) {
      assert !TooLarge(t.props) by { NoExcess(t); }
    }
  }

  lemma NoExcess(t: Tree)
    requires !Excess(t)
    ensures !TooLarge(t.props)
  {
    hide TooLarge;
  }

  lemma {:induction false} RewriteAllFree(ts: seq<Tree>, c: Cells, c': Cells)
    requires forall i :: 0 <= i < |ts| ==> !NeedsParent(ts[i])
    ensures RewriteAll(ts, c) == RewriteAll(ts, c')
    decreases |ts|
  {
    hide Rewrite, NeedsParent;
    if ts != [] {
      RewriteFree(ts[0], c, c');
      RewriteAllFree(ts[1..], c, c');
    }
  }

  lemma {:induction false} RewriteAllNeeds(ts: seq<Tree>)
    requires RewriteAll(ts, Cells(0, 0)).Ok?
    ensures forall i :: 0 <= i < |ts| ==> !NeedsParent(ts[i])
    decreases |ts|
  {
    hide Rewrite, NeedsParent;
    if ts != [] {
      if NeedsParent(ts[0]) { RewriteNeeds(ts[0]); }
      RewriteAllNeeds(ts[1..]);
      assert forall i :: 0 < i < |ts| ==> ts[i] == ts[1..][i - 1];
    }
  }

  lemma {:induction false} KeptShorter(ms: seq<Tree>)
    ensures |Kept(ms)| <= |ms| && (Kept(ms) == ms || |Kept(ms)| < |ms|)
    ensures Kept(ms) == ms <==> ms == [] || 1 + SizeAll(ms[1..]) < FIRST_CAPACITY
    decreases |ms|
  {
    if ms != [] { KeptShorter(ms[1..]); }
  }

  /** Mirrored, the nodes before the root's last child are those of the other children. */
  lemma LastChildMirrored(t: Tree)
    requires t.children != []
    ensures MirrorAll(t.children) != [] && 1 + SizeAll(MirrorAll(t.children)[1..]) == DtRoot.LastChildId(t)
  {
    hide Mirror, SizeAll;
    var front, last := t.children[..|t.children| - 1], t.children[|t.children| - 1];
    assert t.children == front + [last];
    MirrorAppend(front, last);
    assert ([Mirror(last)] + MirrorAll(front))[1..] == MirrorAll(front);
    MirrorAllCounts(front);
  }

  /** The node stack never moved; or the root kept all its children, and none of them has
      addresses to decode with the root's cell counts. */
  ghost predicate RootUsable(t: Tree) {
    || Size(t) <= FIRST_CAPACITY
    || (&& (t.children == [] || DtRoot.LastChildId(t) < FIRST_CAPACITY)
        && forall i :: 0 <= i < |t.children| ==> !NeedsParent(t.children[i]))
  }

  ghost predicate RootUsableMirrored(m: Tree) {
    || Size(m) <= FIRST_CAPACITY
    || (Kept(m.children) == m.children && forall i :: 0 <= i < |m.children| ==> !NeedsParent(m.children[i]))
  }

  lemma UsableMirrored(t: Tree)
    ensures RootUsable(t) <==> RootUsableMirrored(Mirror(t))
  {
    hide NeedsParent, Kept, Size, MirrorAll, SizeAll, Reverse;
    var m := Mirror(t);
    MirrorCounts(t);
    KeptShorter(m.children);
    if t.children != [] { LastChildMirrored(t); }
    MirrorNeeds(t.children, m.children);
  }

  /** The pass as started succeeds with all children exactly when the meant pass succeeds and
      the root record is usable, and then both give the same. */
  lemma RootParts(m: Tree)
    ensures RewriteRoot(m).Ok? && |RewriteRoot(m).value.children| == |m.children| <==> Rewrite(m, None).Ok? && RootUsableMirrored(m)
    ensures RootUsableMirrored(m) ==> RewriteRoot(m) == Rewrite(m, None)
  {
    hide FirstLap, SecondLap, RewriteAll, NeedsParent, Kept, Size;
    KeptShorter(m.children);
    DecodedLengths(Kept(m.children));
    DecodedLengths(m.children);
    var first := FirstLap(m.props, Cells(2, 1));
    if first.Ok? {
      if RewriteAll(m.children, Cells(0, 0)).Ok? { RewriteAllNeeds(m.children); }
      if forall i :: 0 <= i < |m.children| ==> !NeedsParent(m.children[i]) {
        RewriteAllFree(m.children, first.value.1, Cells(0, 0));
      }
    }
  }

  /** parse_from_blob's pass decodes tree t exactly when the pass with every parent link leading
      to the parent's own record would succeed and the record at `&nodes[0]` is usable. */
  lemma RootComputesIff(t: Tree)
    requires WellNamed(t)
    ensures RewriteRoot(Mirror(t)).Ok? && IsComputed(t, None, MirrorDecoded(RewriteRoot(Mirror(t)).value)) <==>
              Rewrite(Mirror(t), None).Ok? && RootUsable(t)
  {
    hide RewriteRoot, Rewrite, NeedsParent, Kept, Size, WellNamed, RootUsable, RootUsableMirrored;
    UsableMirrored(t);
    RootParts(Mirror(t));
    if Rewrite(Mirror(t), None).Ok? { ParsedComputes(t); }
    if RewriteRoot(Mirror(t)).Ok? { DecodedCounts(t, RewriteRoot(Mirror(t)).value); }
  }

  lemma RootSame(t: Tree)
    ensures RootUsable(t) ==> RewriteRoot(Mirror(t)) == Rewrite(Mirror(t), None)
  {
    hide RewriteRoot, Rewrite, RootUsable, RootUsableMirrored;
    UsableMirrored(t);
    RootParts(Mirror(t));
  }

  lemma DecodedCounts(t: Tree, d: Decoded)
    ensures IsComputed(t, None, MirrorDecoded(d)) ==> |d.children| == |Mirror(t).children|
  {
  }

  lemma DecodedLengths(ms: seq<Tree>)
    ensures forall c :: RewriteAll(ms, c).Ok? ==> |RewriteAll(ms, c).value| == |ms|
  {
  }

  lemma MirrorNeeds(ts: seq<Tree>, ms: seq<Tree>)
    requires ms == MirrorAll(ts)
    ensures (forall i :: 0 <= i < |ts| ==> !NeedsParent(ts[i])) <==> forall i :: 0 <= i < |ms| ==> !NeedsParent(ms[i])
  {
    hide Mirror, MirrorAll, NeedsParent;
    var n := |ts|;
    forall i | 0 <= i < n
      ensures NeedsParent(ms[i]) <==> NeedsParent(ts[n - 1 - i])
    {
      MirrorAllAt(ts, i);
      MirrorNeedsOne(ts[n - 1 - i]);
    }
    if i :| 0 <= i < n && NeedsParent(ts[i]) {
      var j := n - 1 - i;
      assert NeedsParent(ms[j]);
    }
  }

  lemma MirrorNeedsOne(t: Tree)
    ensures NeedsParent(Mirror(t)) <==> NeedsParent(t)
  {
    hide Reverse, ReadsParent, MirrorAll;
    var n, ms := |t.props|, Reverse(t.props);
    assert Mirror(t).props == ms;
    forall i | 0 <= i < n
      ensures ms[i] == t.props[n - 1 - i]
    {
      ReverseAt(t.props, i);
    }
    if i :| 0 <= i < n && ReadsParent(t.props[i]) {
      var j := n - 1 - i;
      assert ReadsParent(ms[j]);
    }
  }

  // ---------------------------------------------------------------- a concrete tree

  ghost predicate AllBare(ts: seq<Tree>) {
    forall i :: 0 <= i < |ts| ==> ts[i] == Tree([], [], [])
  }

  lemma {:induction false} BareLeaves(n: nat)
    ensures AllBare(DtRoot.Leaves(n)) && AllBare(MirrorAll(DtRoot.Leaves(n)))
  {
    if n > 0 { BareLeaves(n - 1); }
  }

  lemma {:induction false} RewriteBare(ts: seq<Tree>, c: Cells)
    requires AllBare(ts)
    ensures RewriteAll(ts, c).Ok?
    decreases |ts|
  {
    if ts != [] { RewriteBare(ts[1..], c); }
  }

  /** A root with one device at a 64-bit address, below which there are n leaves. */
  function Board(n: nat): Tree {
    Tree([], [], [Tree([], [(REG, seq(12, _ => 0))], DtRoot.Leaves(n))])
  }

  lemma BoardDevice(n: nat)
    ensures var m := Mirror(Board(n));
            m.props == [] && m.children == [Tree([], Board(n).children[0].props, MirrorAll(DtRoot.Leaves(n)))]
  {
    hide DtRoot.Leaves;
    var dev := Board(n).children[0];
    assert Board(n).children[1..] == [] && dev.props[1..] == [];
    assert Reverse(dev.props) == [dev.props[0]];
    assert Mirror(dev) == Tree([], dev.props, MirrorAll(DtRoot.Leaves(n)));
  }

  lemma DeviceDecodes(m: Tree, c: Cells)
    requires |m.props| == 1 && m.props[0].0 == REG && |m.props[0].1| == 12
    requires AllBare(m.children) && c == Cells(2, 1)
    ensures Rewrite(m, Some(c)).Ok? && NeedsParent(m)
  {
    hide RewriteAll, KindOf, DtCells.RegRows, DtCells.RangesRows, REG, RANGES, BUS_RANGES;
    KindNames(REG);
    assert m.props[1..] == [] && ReadsParent(m.props[0]);
    RewriteBare(m.children, Cells(0, 0));
    assert FirstLap(m.props[1..], Cells(0, 0)) == Result.Ok(([], Cells(0, 0)));
    assert [Raw] + [] == [Raw];
    assert FirstLap(m.props, Cells(0, 0)) == Result.Ok(([Raw], Cells(0, 0)));
    assert SecondLap(m.props, Cells(0, 0), Some(c), [Raw]).Ok?;
  }

  /** A concrete tree on which the pass stops although every value is in order: a device with a
      `reg` under a root, and more nodes than fit in the first buffer. */
  lemma RootStopsWitness()
    ensures var m := Mirror(Board(73));
            Rewrite(m, None).Ok? && !RewriteRoot(m).Ok? && DtRoot.LastChildId(Board(73)) < FIRST_CAPACITY
  {
    hide RewriteAll, NeedsParent, Rewrite, Mirror, DtRoot.Leaves, REG, RewriteRoot;
    var n := 73;
    var m := Mirror(Board(n));
    BoardDevice(n);
    BareLeaves(n);
    DtRoot.LeavesSize(n);
    DeviceDecodes(m.children[0], Cells(2, 1));
    OneDevice(m);
    MirrorCounts(Board(n));
    RewriteNeeds(m.children[0]);
  }

  lemma OneDevice(m: Tree)
    requires m.props == [] && |m.children| == 1
    ensures Rewrite(m, None).Ok? <==> Rewrite(m.children[0], Some(Cells(2, 1))).Ok?
    ensures Size(m) > FIRST_CAPACITY ==> (RewriteRoot(m).Ok? <==> Rewrite(m.children[0], Some(Cells(0, 0))).Ok?)
  {
    hide Size, Rewrite;
    var x := m.children[0];
    assert m.children[1..] == [] && Kept(m.children) == m.children;
    forall c: Cells
      ensures RewriteAll(m.children, c).Ok? <==> Rewrite(x, Some(c)).Ok?
    {
      assert RewriteAll([], c).Ok?;
    }
    assert Rewrite(m, None).Ok? <==> RewriteAll(m.children, Cells(2, 1)).Ok? by { RootOnly(m); }
  }

  lemma RootOnly(m: Tree)
    requires m.props == []
    ensures Rewrite(m, None).Ok? <==> RewriteAll(m.children, Cells(2, 1)).Ok?
  {
  }
}
