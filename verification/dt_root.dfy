/** The record the parser goes on with is `&nodes[0]`. Once the node stack has moved, that is a
    copy taken when the 74th node was added, while links and later children go to the original. */
module DtRoot {
  import opened DtTokens
  import opened DtBuild
  import opened DtTrees
  import Stack

  /** The first buffer of the node stack holds as many nodes as the stack's first growth gives. */
  lemma FirstBuffer()
    ensures FIRST_CAPACITY == Stack.NextCapacity(0, NODE_SIZE) == 73
  {
  }

  /** `root = &nodes[0]` after the token loop. */
  function RootRecord(s: State): Node
    requires |s.nodes| > 0
  {
    match s.rootCopy
    case Live => s.nodes[0]
    case Frozen(x) => x
  }

  /** Past the first buffer, the copy has the children among the first 73 nodes only. */
  ghost predicate Snapshot(s: State) {
    && Shape(s) && |s.nodes| > 0
    && (|s.nodes| <= FIRST_CAPACITY ==> s.rootCopy == Live)
    && (|s.nodes| > FIRST_CAPACITY ==>
          s.rootCopy == Frozen(s.nodes[0].(children := LastWithParent(s.nodes, At(0), FIRST_CAPACITY))))
  }

  lemma SnapBegin(s: State, name: bytes)
    requires Snapshot(s) && s.current.At?
    ensures Snapshot(Begin(s, name)) && Begin(s, name).current == At(|s.nodes|)
  {
    hide LastWithParent;
    BeginShape(s, name);
    var t := Begin(s, name);
    if |s.nodes| >= FIRST_CAPACITY {
      LastSame(s.nodes, t.nodes, At(0), FIRST_CAPACITY);
    }
  }

  lemma SnapProperty(s: State, c: nat, name: bytes, value: bytes)
    requires Snapshot(s) && s.current == At(c) && c > 0
    ensures c < |s.nodes| && Snapshot(AddProperty(s, c, name, value))
  {
    hide LastWithParent;
    PropertyShape(s, name, value);
    var u := AddProperty(s, c, name, value);
    if |s.nodes| > FIRST_CAPACITY { LastSame(s.nodes, u.nodes, At(0), FIRST_CAPACITY); }
  }

  lemma {:induction false} SnapProps(s: State, c: nat, ps: seq<(bytes, bytes)>)
    requires Snapshot(s) && s.current == At(c) && c > 0
    ensures Exec(s, FlattenProps(ps)).Running?
    ensures Snapshot(Exec(s, FlattenProps(ps)).s) && Exec(s, FlattenProps(ps)).s.current == At(c)
    decreases |ps|
  {
    hide Apply, Snapshot, AddProperty;
    if ps != [] {
      SnapProperty(s, c, ps[0].0, ps[0].1);
      PropertyFirst(s, c, ps);
      var u := AddProperty(s, c, ps[0].0, ps[0].1);
      assert u.current == At(c) by { PropertyCurrent(s, c, ps[0].0, ps[0].1); }
      SnapProps(u, c, ps[1..]);
    }
  }

  lemma PropertyCurrent(s: State, c: nat, name: bytes, value: bytes)
    requires c < |s.nodes|
    ensures AddProperty(s, c, name, value).current == s.current
  {
  }

  lemma {:induction false} SnapTree(s: State, t: Tree)
    requires Snapshot(s) && s.current.At?
    ensures Exec(s, Flatten(t)).Running? && Snapshot(Exec(s, Flatten(t)).s)
    decreases t, 1
  {
    hide Exec, Snapshot, FlattenProps, FlattenAll, Apply;
    SnapshotShape(s);
    var n := |s.nodes|;
    var b := Begin(s, t.name);
    BuildTree(s, t);
    ExecConcat(s, [BeginNode(t.name)] + FlattenProps(t.props) + FlattenAll(t.children), [EndNode]);
    ExecConcat(s, [BeginNode(t.name)] + FlattenProps(t.props), FlattenAll(t.children));
    ExecConcat(s, [BeginNode(t.name)], FlattenProps(t.props));
    ExecOne(s, BeginNode(t.name));
    BeginStep(s, t.name);
    SnapBegin(s, t.name);
    SnapProps(b, n, t.props);
    var p := Exec(b, FlattenProps(t.props)).s;
    SnapAll(p, n, t.children);
    var k := Exec(p, FlattenAll(t.children)).s;
    ExecOne(k, EndNode);
    SnapEnd(k);
  }

  lemma SnapshotShape(s: State)
    requires Snapshot(s)
    ensures Shape(s) && InRange(s) && |s.nodes| > 0
  {
  }

  lemma SnapEnd(k: State)
    requires Snapshot(k) && Apply(k, EndNode).Running?
    ensures Snapshot(Apply(k, EndNode).s)
  {
    ApplyKeepsShape(k, EndNode);
  }

  lemma {:induction false} SnapAll(s: State, c: nat, ts: seq<Tree>)
    requires Snapshot(s) && s.current == At(c)
    ensures Exec(s, FlattenAll(ts)).Running?
    ensures Snapshot(Exec(s, FlattenAll(ts)).s) && Exec(s, FlattenAll(ts)).s.current == At(c)
    decreases ts, 0
  {
    if ts != [] {
      hide Exec, Snapshot, Flatten, Apply;
      SnapshotShape(s);
      ExecConcat(s, Flatten(ts[0]), FlattenAll(ts[1..]));
      BuildTree(s, ts[0]);
      SnapTree(s, ts[0]);
      SnapAll(Exec(s, Flatten(ts[0])).s, c, ts[1..]);
    } else {
      assert Exec(s, []) == Running(s);
    }
  }

  // ---------------------------------------------------------------- how many children a list has

  function CountKids(nodes: seq<Node>, p: Ptr, n: nat): nat
    requires n <= |nodes|
  {
    if n == 0 then 0 else CountKids(nodes, p, n - 1) + if nodes[n - 1].parent == p then 1 else 0
  }

  lemma {:induction false} LastCount(nodes: seq<Node>, p: Ptr, n: nat)
    requires n <= |nodes|
    ensures match LastWithParent(nodes, p, n)
            case Null => CountKids(nodes, p, n) == 0
            case At(i) => i < n && nodes[i].parent == p && CountKids(nodes, p, n) == CountKids(nodes, p, i) + 1
  {
    if n > 0 && nodes[n - 1].parent != p { LastCount(nodes, p, n - 1); }
  }

  /** A list of children that begins with the last child before n has all children before n. */
  lemma {:induction false} KidsLength(nodes: seq<Node>, props: seq<Prop>, j: nat, lo: nat, n: nat, ts: seq<Tree>)
    requires Links(nodes) && n <= |nodes| && KidsAre(nodes, props, lo, LastWithParent(nodes, At(j), n), ts)
    ensures |ts| == CountKids(nodes, At(j), n)
    decreases |ts|
  {
    hide RecordIs;
    LastCount(nodes, At(j), n);
    if ts != [] {
      var i := LastWithParent(nodes, At(j), n).i;
      assert nodes[i].nextSibling == LastWithParent(nodes, At(j), i);
      KidsLength(nodes, props, j, lo, i, ts[1..]);
    }
  }

  lemma {:induction false} CountMonotone(nodes: seq<Node>, p: Ptr, m: nat, n: nat)
    requires m <= n <= |nodes|
    ensures CountKids(nodes, p, m) <= CountKids(nodes, p, n)
    ensures CountKids(nodes, p, m) == CountKids(nodes, p, n) ==> LastWithParent(nodes, p, m) == LastWithParent(nodes, p, n)
    ensures LastWithParent(nodes, p, n).At? ==>
              (CountKids(nodes, p, m) == CountKids(nodes, p, n) <==> LastWithParent(nodes, p, n).i < m)
    ensures LastWithParent(nodes, p, n).Null? ==> CountKids(nodes, p, n) == 0
    decreases n
  {
    LastCount(nodes, p, n);
    if m < n { CountMonotone(nodes, p, m, n - 1); } else if LastWithParent(nodes, p, n).At? { }
  }

  // ---------------------------------------------------------------- where the last child is

  lemma {:induction false} FlattenAllAppend(ts: seq<Tree>, t: Tree)
    ensures FlattenAll(ts + [t]) == FlattenAll(ts) + Flatten(t)
    ensures SizeAll(ts + [t]) == SizeAll(ts) + Size(t)
    decreases |ts|
  {
    hide Flatten, Size;
    if ts == [] {
      assert ([] + [t])[1..] == [];
    } else {
      FlattenAllAppend(ts[1..], t);
      assert (ts + [t])[1..] == ts[1..] + [t] && (ts + [t])[0] == ts[0];
    }
  }

  /** After the children of open node c, its list begins with the last one, numbered right
      behind all nodes of the others. */
  lemma LastChildPlace(s: State, c: nat, ts: seq<Tree>)
    requires s.current == At(c) && c < |s.nodes| && s.nodes[c].children == Null && ts != []
    ensures Exec(s, FlattenAll(ts)).Running? && c < |Exec(s, FlattenAll(ts)).s.nodes|
    ensures Exec(s, FlattenAll(ts)).s.nodes[c].children == At(|s.nodes| + SizeAll(ts[..|ts| - 1]))
  {
    hide Exec, Apply, RecordIs, Flatten, Size;
    var front, last := ts[..|ts| - 1], ts[|ts| - 1];
    assert ts == front + [last];
    FlattenAllAppend(front, last);
    ExecConcat(s, FlattenAll(front), Flatten(last));
    assert KidsAre(s.nodes, s.props, c + 1, Null, []);
    BuildAll(s, c, front, []);
    BuildTree(Exec(s, FlattenAll(front)).s, last);
  }

  // ---------------------------------------------------------------- the whole tree

  /** The number of the root's last child: one more than the nodes of the other children. */
  function LastChildId(t: Tree): nat
    requires t.children != []
  {
    1 + SizeAll(t.children[..|t.children| - 1])
  }

  /** The root is open and has its properties, but no children yet. */
  function RootOpen(t: Tree): State
  {
    var r := Exec(Begin(START, t.name), FlattenProps(t.props));
    if r.Running? then r.s else START
  }

  lemma RootOpenFacts(t: Tree)
    ensures Exec(Begin(START, t.name), FlattenProps(t.props)) == Running(RootOpen(t))
    ensures var p := RootOpen(t); Snapshot(p) && p.current == At(0) && |p.nodes| == 1 && p.nodes[0].children == Null
  {
    var b := Begin(START, t.name);
    assert Shape(START);
    BeginShape(START, t.name);
    assert PropsAre(b.props, b.nodes[0].properties, []);
    BuildProps(b, 0, t.props, []);
    ExecKeepsShape(b, FlattenProps(t.props));
  }

  lemma RootExec(t: Tree)
    ensures Exec(RootOpen(t), FlattenAll(t.children)).Running?
    ensures var k := Exec(RootOpen(t), FlattenAll(t.children)).s;
            Exec(START, Flatten(t)) == Apply(k, EndNode) && Snapshot(k) && k.current == At(0)
  {
    hide Exec, Apply, FlattenProps, FlattenAll, Snapshot, RootOpen;
    ExecConcat(START, [BeginNode(t.name)] + FlattenProps(t.props) + FlattenAll(t.children), [EndNode]);
    ExecConcat(START, [BeginNode(t.name)] + FlattenProps(t.props), FlattenAll(t.children));
    ExecConcat(START, [BeginNode(t.name)], FlattenProps(t.props));
    ExecOne(START, BeginNode(t.name));
    BeginStep(START, t.name);
    RootOpenFacts(t);
    SnapAll(RootOpen(t), 0, t.children);
    ExecOne(Exec(RootOpen(t), FlattenAll(t.children)).s, EndNode);
  }

  /** The state after the tokens of a whole tree: shape, snapshot, and the root's last child. */
  lemma RootRun(t: Tree)
    ensures Exec(START, Flatten(t)).Running?
    ensures var u := Exec(START, Flatten(t)).s;
            && Snapshot(u) && |u.nodes| == Size(t) && TreeAt(u, 0, Mirror(t))
            && u.nodes[0].children == if t.children == [] then Null else At(LastChildId(t))
  {
    hide Exec, Apply, Flatten, RecordIs, Snapshot, RootOpen, FlattenAll;
    assert InRange(START);
    BuildTree(START, t);
    RootOpenFacts(t);
    RootExec(t);
    var p, k := RootOpen(t), Exec(RootOpen(t), FlattenAll(t.children)).s;
    SnapEnd(k);
    EndKeepsNodes(k);
    if t.children == [] {
      NoChildren(p);
    } else {
      LastChildPlace(p, 0, t.children);
    }
  }

  lemma NoChildren(p: State)
    ensures FlattenAll([]) == [] && Exec(p, []) == Running(p)
  {
  }

  lemma EndKeepsNodes(k: State)
    requires Apply(k, EndNode).Running?
    ensures Apply(k, EndNode).s.nodes == k.nodes
  {
  }

  /** The record the parser goes on with is the whole tree exactly when the root's last child
      is one of the first 73 nodes. */
  lemma RootCompleteIff(t: Tree)
    ensures Exec(START, Flatten(t)).Running? && |Exec(START, Flatten(t)).s.nodes| > 0
    ensures var u := Exec(START, Flatten(t)).s;
            RecordIs(u.nodes, u.props, RootRecord(u), 1, Mirror(t)) <==>
              t.children == [] || LastChildId(t) < FIRST_CAPACITY
  {
    hide Exec, Flatten, SizeAll;
    RootRun(t);
    LastChildInside(t);
    var u := Exec(START, Flatten(t)).s;
    var n := |u.nodes|;
    if n > FIRST_CAPACITY {
      CountMonotone(u.nodes, At(0), FIRST_CAPACITY, n);
      KidsLength(u.nodes, u.props, 0, 1, n, MirrorAll(t.children));
      if RecordIs(u.nodes, u.props, RootRecord(u), 1, Mirror(t)) {
        KidsLength(u.nodes, u.props, 0, 1, FIRST_CAPACITY, MirrorAll(t.children));
      }
    }
  }

  lemma LastChildInside(t: Tree)
    ensures t.children != [] ==> LastChildId(t) < Size(t)
  {
    if t.children != [] {
      FlattenAllAppend(t.children[..|t.children| - 1], t.children[|t.children| - 1]);
      assert t.children == t.children[..|t.children| - 1] + [t.children[|t.children| - 1]];
    }
  }

  function Leaves(n: nat): seq<Tree> {
    if n == 0 then [] else [Tree([], [], [])] + Leaves(n - 1)
  }

  lemma {:induction false} LeavesSize(n: nat)
    ensures |Leaves(n)| == n && SizeAll(Leaves(n)) == n
    ensures n > 0 ==> Leaves(n)[..n - 1] == Leaves(n - 1)
  {
    if n > 0 {
      LeavesSize(n - 1);
      assert Leaves(n)[1..] == Leaves(n - 1);
      if n > 1 { assert Leaves(n)[..n - 1] == [Tree([], [], [])] + Leaves(n - 1)[..n - 2]; }
    }
  }

  /** A concrete tree that is lost: a root with 73 leaves keeps only 72 of them. */
  lemma RootIncompleteWitness()
    ensures var t := Tree([], [], Leaves(73));
            && Exec(START, Flatten(t)).Running? && |Exec(START, Flatten(t)).s.nodes| > 0
            && !RecordIs(Exec(START, Flatten(t)).s.nodes, Exec(START, Flatten(t)).s.props, RootRecord(Exec(START, Flatten(t)).s), 1, Mirror(t))
  {
    hide Exec, Flatten, RecordIs, Mirror, Leaves, SizeAll;
    var n := 73;
    LeavesSize(n);
    LeavesSize(n - 1);
    RootCompleteIff(Tree([], [], Leaves(n)));
  }
}
