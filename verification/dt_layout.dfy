/** Where the parser puts a tree in its two tables: nodes and properties are numbered in the
    order of the structure block, so every subtree owns a range of each table. */
module DtLayout {
  import opened DtTokens
  import opened DtBuild
  import opened DtTrees

  function PropCount(t: Tree): nat
    decreases t, 1
  {
    |t.props| + PropCountAll(t.children)
  }

  function PropCountAll(ts: seq<Tree>): nat
    decreases ts, 0
  {
    if ts == [] then 0 else PropCount(ts[0]) + PropCountAll(ts[1..])
  }

  /** The list ps, newest first, occupies properties p .. p + |ps|. */
  predicate PropsLaid(props: seq<Prop>, p: nat, head: Ptr, ps: seq<(bytes, bytes)>)
    decreases |ps|
  {
    p + |ps| <= |props|
    && if ps == [] then head == Null
       else head == At(p + |ps| - 1) && (props[head.i].name, props[head.i].value) == ps[0]
            && PropsLaid(props, p, props[head.i].next, ps[1..])
  }

  /** Record x is tree t; its children have node q as parent, its descendants are the nodes
      from lo on, and the subtree's properties those from p on. */
  predicate Laid(nodes: seq<Node>, props: seq<Prop>, x: Node, q: nat, lo: nat, p: nat, t: Tree)
    decreases t, 1
  {
    x.name == t.name && PropsLaid(props, p, x.properties, t.props)
    && KidsLaid(nodes, props, q, lo, p + |t.props|, x.children, t.children)
  }

  predicate KidsLaid(nodes: seq<Node>, props: seq<Prop>, q: nat, lo: nat, p: nat, head: Ptr, ts: seq<Tree>)
    decreases ts, 0
  {
    lo + SizeAll(ts) <= |nodes| && p + PropCountAll(ts) <= |props|
    && if ts == [] then head == Null
       else
         var i := lo + SizeAll(ts[1..]);
         i < |nodes| && head == At(i) && nodes[i].parent == At(q)
         && Laid(nodes, props, nodes[i], i, i + 1, p + PropCountAll(ts[1..]), ts[0])
         && KidsLaid(nodes, props, q, lo, p, nodes[i].nextSibling, ts[1..])
  }

  lemma {:induction false} LaidProps(props: seq<Prop>, p: nat, head: Ptr, ps: seq<(bytes, bytes)>)
    requires PropsLaid(props, p, head, ps)
    ensures PropsAre(props, head, ps)
    decreases |ps|
  {
    if ps != [] { LaidProps(props, p, props[head.i].next, ps[1..]); }
  }

  /** A laid-out record is the tree its links describe. */
  lemma {:induction false} LaidIsTree(nodes: seq<Node>, props: seq<Prop>, x: Node, q: nat, lo: nat, p: nat, t: Tree)
    requires Laid(nodes, props, x, q, lo, p, t)
    ensures RecordIs(nodes, props, x, lo, t)
    decreases t, 1
  {
    LaidProps(props, p, x.properties, t.props);
    LaidKidsAre(nodes, props, q, lo, p + |t.props|, x.children, t.children);
  }

  lemma {:induction false} LaidKidsAre(nodes: seq<Node>, props: seq<Prop>, q: nat, lo: nat, p: nat, head: Ptr, ts: seq<Tree>)
    requires KidsLaid(nodes, props, q, lo, p, head, ts)
    ensures KidsAre(nodes, props, lo, head, ts)
    decreases ts, 0
  {
    if ts != [] {
      hide Laid, RecordIs;
      LaidIsTree(nodes, props, nodes[head.i], head.i, head.i + 1, p + PropCountAll(ts[1..]), ts[0]);
      LaidKidsAre(nodes, props, q, lo, p, nodes[head.i].nextSibling, ts[1..]);
    }
  }

  // ---------------------------------------------------------------- frames

  lemma {:induction false} PropsLaidFrame(props: seq<Prop>, props': seq<Prop>, p: nat, head: Ptr, ps: seq<(bytes, bytes)>)
    requires PropsLaid(props, p, head, ps) && props <= props'
    ensures PropsLaid(props', p, head, ps)
    decreases |ps|
  {
    if ps != [] { PropsLaidFrame(props, props', p, props[head.i].next, ps[1..]); }
  }

  lemma {:induction false} LaidFrame(nodes: seq<Node>, props: seq<Prop>, nodes': seq<Node>, props': seq<Prop>, x: Node, q: nat, lo: nat, p: nat, t: Tree)
    requires Laid(nodes, props, x, q, lo, p, t) && |nodes| <= |nodes'| && props <= props'
    requires forall k :: lo <= k < |nodes| ==> nodes'[k] == nodes[k]
    ensures Laid(nodes', props', x, q, lo, p, t)
    decreases t, 1
  {
    hide SizeAll, PropCountAll;
    PropsLaidFrame(props, props', p, x.properties, t.props);
    KidsLaidFrame(nodes, props, nodes', props', q, lo, p + |t.props|, x.children, t.children);
  }

  lemma {:induction false} KidsLaidFrame(nodes: seq<Node>, props: seq<Prop>, nodes': seq<Node>, props': seq<Prop>, q: nat, lo: nat, p: nat, head: Ptr, ts: seq<Tree>)
    requires KidsLaid(nodes, props, q, lo, p, head, ts) && |nodes| <= |nodes'| && props <= props'
    requires forall k :: lo <= k < |nodes| ==> nodes'[k] == nodes[k]
    ensures KidsLaid(nodes', props', q, lo, p, head, ts)
    decreases ts, 0
  {
    if ts != [] {
      hide Laid;
      var i := head.i;
      LaidFrame(nodes, props, nodes', props', nodes[i], i, i + 1, p + PropCountAll(ts[1..]), ts[0]);
      KidsLaidFrame(nodes, props, nodes', props', q, lo, p, nodes[i].nextSibling, ts[1..]);
    }
  }

  // ---------------------------------------------------------------- the token loop lays trees out

  lemma {:induction false} BuildLaidProps(s: State, c: nat, p: nat, ps: seq<(bytes, bytes)>, done: seq<(bytes, bytes)>)
    requires s.current == At(c) && c < |s.nodes|
    requires PropsLaid(s.props, p, s.nodes[c].properties, done) && |s.props| == p + |done|
    ensures Exec(s, FlattenProps(ps)).Running?
    ensures var u := Exec(s, FlattenProps(ps)).s;
            && Extends(s, u) && |u.props| == p + |done| + |ps|
            && PropsLaid(u.props, p, u.nodes[c].properties, Reverse(ps) + done)
    decreases |ps|
  {
    if ps == [] {
      assert Reverse(ps) + done == done;
    } else {
      hide Exec, Apply, FlattenProps;
      var u := AddProperty(s, c, ps[0].0, ps[0].1);
      PropertyFirst(s, c, ps);
      PropsLaidFrame(s.props, u.props, p, s.nodes[c].properties, done);
      var done' := [ps[0]] + done;
      assert done'[1..] == done;
      BuildLaidProps(u, c, p, ps[1..], done');
      assert Reverse(ps[1..]) + done' == Reverse(ps) + done;
      ExtendsTrans(s, u, Exec(u, FlattenProps(ps[1..])).s);
    }
  }

  /** The state once the properties of tree t are read, with its node open, and the state once
      its children are read too. */
  lemma TreeSteps(s: State, t: Tree) returns (p: State, k: State)
    requires InRange(s)
    ensures Exec(Begin(s, t.name), FlattenProps(t.props)) == Running(p) && Exec(p, FlattenAll(t.children)) == Running(k)
    ensures Exec(s, Flatten(t)).Running? && Exec(s, Flatten(t)).s.nodes == k.nodes && Exec(s, Flatten(t)).s.props == k.props
    ensures p.current == At(|s.nodes|) && |p.nodes| == |s.nodes| + 1
    ensures var n := |s.nodes|; var x := p.nodes[n];
            && x.name == t.name && x.children == Null
            && n < |k.nodes| && k.nodes[n] == x.(children := k.nodes[n].children) && p.props <= k.props
  {
    hide Apply, Exec, FlattenProps, FlattenAll, PropsAre, KidsAre;
    var n := |s.nodes|;
    var b := Begin(s, t.name);
    ExecConcat(s, [BeginNode(t.name)] + FlattenProps(t.props) + FlattenAll(t.children), [EndNode]);
    ExecConcat(s, [BeginNode(t.name)] + FlattenProps(t.props), FlattenAll(t.children));
    ExecConcat(s, [BeginNode(t.name)], FlattenProps(t.props));
    ExecOne(s, BeginNode(t.name));
    BeginStep(s, t.name);
    NothingYet(b);
    BuildProps(b, n, t.props, []);
    p := Exec(b, FlattenProps(t.props)).s;
    NothingYet(p);
    BuildAll(p, n, t.children, []);
    k := Exec(p, FlattenAll(t.children)).s;
    ExecOne(k, EndNode);
    EndStep(k, n);
  }

  lemma NothingYet(s: State)
    ensures PropsAre(s.props, Null, []) && forall lo: nat :: KidsAre(s.nodes, s.props, lo, Null, [])
  {
  }

  /** What the tokens of tree t leave is laid out from the next free node and property on. */
  lemma {:induction false} BuildLaid(s: State, t: Tree)
    requires InRange(s)
    ensures Exec(s, Flatten(t)).Running?
    ensures var u := Exec(s, Flatten(t)).s; var n := |s.nodes|;
            && n < |u.nodes| && |u.props| == |s.props| + PropCount(t)
            && Laid(u.nodes, u.props, u.nodes[n], n, n + 1, |s.props|, Mirror(t))
    decreases t, 1
  {
    hide Apply, Exec, FlattenProps, FlattenAll, SizeAll, PropCountAll, Reverse, MirrorAll, PropsLaid, KidsLaid;
    var n := |s.nodes|;
    var b := Begin(s, t.name);
    var p, k := TreeSteps(s, t);
    NothingLaid(b);
    BuildLaidProps(b, n, |s.props|, t.props, []);
    NothingLaid(p);
    BuildLaidAll(p, n, |s.props| + |t.props|, t.children, []);
    assert Reverse(t.props) + [] == Reverse(t.props) && MirrorAll(t.children) + [] == MirrorAll(t.children);
    PropsLaidFrame(p.props, k.props, |s.props|, p.nodes[n].properties, Reverse(t.props));
  }

  lemma NothingLaid(s: State)
    ensures PropsLaid(s.props, |s.props|, Null, []) && SizeAll([]) == 0 && PropCountAll([]) == 0
    ensures forall q: nat :: KidsLaid(s.nodes, s.props, q, |s.nodes|, |s.props|, Null, [])
  {
  }

  lemma {:induction false} BuildLaidAll(s: State, c: nat, p: nat, ts: seq<Tree>, done: seq<Tree>)
    requires s.current == At(c) && c < |s.nodes|
    requires KidsLaid(s.nodes, s.props, c, c + 1, p, s.nodes[c].children, done)
    requires |s.nodes| == c + 1 + SizeAll(done) && |s.props| == p + PropCountAll(done)
    ensures Exec(s, FlattenAll(ts)).Running?
    ensures var u := Exec(s, FlattenAll(ts)).s;
            && Extends(s, u)
            && u.nodes[c].properties == s.nodes[c].properties
            && |u.props| == |s.props| + PropCountAll(ts)
            && KidsLaid(u.nodes, u.props, c, c + 1, p, u.nodes[c].children, MirrorAll(ts) + done)
    decreases ts, 0
  {
    if ts == [] {
      assert MirrorAll(ts) + done == done;
    } else {
      hide Exec, Apply, Mirror, Flatten, Size, PropCount, KidsLaid, Extends, InRange;
      ExecConcat(s, Flatten(ts[0]), FlattenAll(ts[1..]));
      OneChild(s, c, p, ts[0], done);
      var m := Exec(s, Flatten(ts[0])).s;
      var done' := [Mirror(ts[0])] + done;
      BuildLaidAll(m, c, p, ts[1..], done');
      assert MirrorAll(ts[1..]) + done' == MirrorAll(ts) + done;
      ExtendsTrans(s, m, Exec(m, FlattenAll(ts[1..])).s);
    }
  }

  lemma OneChild(s: State, c: nat, p: nat, t: Tree, done: seq<Tree>)
    requires s.current == At(c) && c < |s.nodes|
    requires KidsLaid(s.nodes, s.props, c, c + 1, p, s.nodes[c].children, done)
    requires |s.nodes| == c + 1 + SizeAll(done) && |s.props| == p + PropCountAll(done)
    ensures Exec(s, Flatten(t)).Running?
    ensures var m := Exec(s, Flatten(t)).s; var done' := [Mirror(t)] + done;
            && Extends(s, m) && c < |m.nodes| && m.current == At(c) && m.nodes[c].properties == s.nodes[c].properties
            && KidsLaid(m.nodes, m.props, c, c + 1, p, m.nodes[c].children, done')
            && |m.nodes| == c + 1 + SizeAll(done') && |m.props| == p + PropCountAll(done')
            && |m.props| == |s.props| + PropCount(t)
    decreases t, 2
  {
    hide Exec, RecordIs, Laid, Mirror, Flatten, Size, PropCount, Apply;
    BuildTree(s, t);
    BuildLaid(s, t);
    MirrorCounts(t);
    var m := Exec(s, Flatten(t)).s;
    KidsLaidFrame(s.nodes, s.props, m.nodes, m.props, c, c + 1, p, s.nodes[c].children, done);
    assert ([Mirror(t)] + done)[1..] == done;
  }

  lemma {:induction false} CountsAppend(ts: seq<Tree>, t: Tree)
    ensures SizeAll(ts + [t]) == SizeAll(ts) + Size(t) && PropCountAll(ts + [t]) == PropCountAll(ts) + PropCount(t)
    decreases |ts|
  {
    hide Size, PropCount;
    if ts == [] {
      assert ([] + [t])[1..] == [];
    } else {
      CountsAppend(ts[1..], t);
      assert (ts + [t])[1..] == ts[1..] + [t] && (ts + [t])[0] == ts[0];
    }
  }

  /** Mirroring keeps the number of nodes and of properties. */
  lemma {:induction false} MirrorCounts(t: Tree)
    ensures Size(Mirror(t)) == Size(t) && PropCount(Mirror(t)) == PropCount(t)
    decreases t, 1
  {
    MirrorAllCounts(t.children);
  }

  lemma {:induction false} MirrorAllCounts(ts: seq<Tree>)
    ensures SizeAll(MirrorAll(ts)) == SizeAll(ts) && PropCountAll(MirrorAll(ts)) == PropCountAll(ts)
    decreases ts, 0
  {
    if ts != [] {
      hide Mirror, Size, PropCount;
      MirrorCounts(ts[0]);
      MirrorAllCounts(ts[1..]);
      CountsAppend(MirrorAll(ts[1..]), Mirror(ts[0]));
    }
  }
}
