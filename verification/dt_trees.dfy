/** Devicetrees as values, their flattening into tokens, and the proof that the token loop
    rebuilds the tree with every sibling list and property list reversed. */
module DtTrees {
  import opened DtTokens
  import opened DtBuild

  datatype Tree = Tree(name: bytes, props: seq<(bytes, bytes)>, children: seq<Tree>)

  // ---------------------------------------------------------------- flattening

  /** Section 5.4.2: BEGIN_NODE, the properties, the children, END_NODE. */
  function Flatten(t: Tree): seq<Token>
    decreases t, 1
  {
    [BeginNode(t.name)] + FlattenProps(t.props) + FlattenAll(t.children) + [EndNode]
  }

  function FlattenAll(ts: seq<Tree>): seq<Token>
    decreases ts, 0
  {
    if ts == [] then [] else Flatten(ts[0]) + FlattenAll(ts[1..])
  }

  function FlattenProps(ps: seq<(bytes, bytes)>): seq<Token> {
    if ps == [] then [] else [Property(ps[0].0, ps[0].1)] + FlattenProps(ps[1..])
  }

  /** The tokens without the NOPs. */
  function StripNops(ts: seq<Token>): seq<Token> {
    if ts == [] then [] else (if ts[0] == Nop then [] else [ts[0]]) + StripNops(ts[1..])
  }

  function Size(t: Tree): nat
    decreases t, 1
  {
    1 + SizeAll(t.children)
  }

  function SizeAll(ts: seq<Tree>): nat
    decreases ts, 0
  {
    if ts == [] then 0 else Size(ts[0]) + SizeAll(ts[1..])
  }

  // ---------------------------------------------------------------- mirroring

  function Reverse<T>(s: seq<T>): (r: seq<T>)
    ensures |r| == |s|
  {
    if s == [] then [] else Reverse(s[1..]) + [s[0]]
  }

  /** The tree as the linked lists present it: newest property and newest child first. */
  function Mirror(t: Tree): Tree
    decreases t, 1
  {
    Tree(t.name, Reverse(t.props), MirrorAll(t.children))
  }

  function MirrorAll(ts: seq<Tree>): (r: seq<Tree>)
    ensures |r| == |ts|
    decreases ts, 0
  {
    if ts == [] then [] else MirrorAll(ts[1..]) + [Mirror(ts[0])]
  }

  lemma {:induction false} ReverseAppend<T>(s: seq<T>, x: T)
    ensures Reverse(s + [x]) == [x] + Reverse(s)
  {
    if s == [] {
      assert ([] + [x])[1..] == [];
    } else {
      ReverseAppend(s[1..], x);
      assert (s + [x])[1..] == s[1..] + [x];
    }
  }

  lemma {:induction false} ReverseTwice<T>(s: seq<T>)
    ensures Reverse(Reverse(s)) == s
  {
    if s != [] {
      ReverseTwice(s[1..]);
      ReverseAppend(Reverse(s[1..]), s[0]);
    }
  }

  lemma {:induction false} MirrorAppend(ts: seq<Tree>, t: Tree)
    ensures MirrorAll(ts + [t]) == [Mirror(t)] + MirrorAll(ts)
  {
    if ts == [] {
      assert ([] + [t])[1..] == [];
    } else {
      MirrorAppend(ts[1..], t);
      assert (ts + [t])[1..] == ts[1..] + [t];
    }
  }

  /** Mirroring loses nothing: done twice it is the identity. */
  lemma {:induction false} MirrorTwice(t: Tree)
    ensures Mirror(Mirror(t)) == t
    decreases t, 1
  {
    ReverseTwice(t.props);
    MirrorAllTwice(t.children);
  }

  lemma {:induction false} MirrorAllTwice(ts: seq<Tree>)
    ensures MirrorAll(MirrorAll(ts)) == ts
    decreases ts, 0
  {
    if ts != [] {
      MirrorTwice(ts[0]);
      MirrorAllTwice(ts[1..]);
      MirrorAppend(MirrorAll(ts[1..]), Mirror(ts[0]));
    }
  }

  // ---------------------------------------------------------------- trees in memory

  predicate PropsAre(props: seq<Prop>, p: Ptr, ps: seq<(bytes, bytes)>)
    decreases |ps|
  {
    if ps == [] then p == Null
    else p.At? && p.i < |props| && (props[p.i].name, props[p.i].value) == ps[0] && PropsAre(props, props[p.i].next, ps[1..])
  }

  /** Node record x, followed through its links, is tree t; its descendants are numbered from
      lo on. */
  predicate RecordIs(nodes: seq<Node>, props: seq<Prop>, x: Node, lo: nat, t: Tree)
    decreases t, 1
  {
    x.name == t.name && PropsAre(props, x.properties, t.props) && KidsAre(nodes, props, lo, x.children, t.children)
  }

  predicate KidsAre(nodes: seq<Node>, props: seq<Prop>, lo: nat, p: Ptr, ts: seq<Tree>)
    decreases ts, 0
  {
    if ts == [] then p == Null
    else p.At? && lo <= p.i < |nodes| && RecordIs(nodes, props, nodes[p.i], p.i + 1, ts[0])
         && KidsAre(nodes, props, lo, nodes[p.i].nextSibling, ts[1..])
  }

  predicate TreeAt(s: State, j: nat, t: Tree) {
    j < |s.nodes| && RecordIs(s.nodes, s.props, s.nodes[j], j + 1, t)
  }

  /** Memory determines the tree: a node record is at most one tree. */
  lemma {:induction false} RecordUnique(nodes: seq<Node>, props: seq<Prop>, x: Node, lo: nat, t: Tree, u: Tree)
    requires RecordIs(nodes, props, x, lo, t) && RecordIs(nodes, props, x, lo, u)
    ensures t == u
    decreases t, 1
  {
    PropsUnique(props, x.properties, t.props, u.props);
    KidsUnique(nodes, props, lo, x.children, t.children, u.children);
  }

  lemma {:induction false} KidsUnique(nodes: seq<Node>, props: seq<Prop>, lo: nat, p: Ptr, ts: seq<Tree>, us: seq<Tree>)
    requires KidsAre(nodes, props, lo, p, ts) && KidsAre(nodes, props, lo, p, us)
    ensures ts == us
    decreases ts, 0
  {
    if ts != [] && us != [] {
      RecordUnique(nodes, props, nodes[p.i], p.i + 1, ts[0], us[0]);
      KidsUnique(nodes, props, lo, nodes[p.i].nextSibling, ts[1..], us[1..]);
      assert ts == [ts[0]] + ts[1..] && us == [us[0]] + us[1..];
    }
  }

  lemma {:induction false} PropsUnique(props: seq<Prop>, p: Ptr, ps: seq<(bytes, bytes)>, qs: seq<(bytes, bytes)>)
    requires PropsAre(props, p, ps) && PropsAre(props, p, qs)
    ensures ps == qs
    decreases |ps|
  {
    if ps != [] && qs != [] {
      PropsUnique(props, props[p.i].next, ps[1..], qs[1..]);
      assert ps == [ps[0]] + ps[1..] && qs == [qs[0]] + qs[1..];
    }
  }

  /** Nodes below lo, nodes added later and properties added later do not matter. */
  lemma {:induction false} RecordFrame(nodes: seq<Node>, props: seq<Prop>, nodes': seq<Node>, props': seq<Prop>, x: Node, lo: nat, t: Tree)
    requires RecordIs(nodes, props, x, lo, t) && |nodes| <= |nodes'| && props <= props'
    requires forall k :: lo <= k < |nodes| ==> nodes'[k] == nodes[k]
    ensures RecordIs(nodes', props', x, lo, t)
    decreases t, 1
  {
    PropsFrame(props, props', x.properties, t.props);
    KidsFrame(nodes, props, nodes', props', lo, x.children, t.children);
  }

  lemma {:induction false} KidsFrame(nodes: seq<Node>, props: seq<Prop>, nodes': seq<Node>, props': seq<Prop>, lo: nat, p: Ptr, ts: seq<Tree>)
    requires KidsAre(nodes, props, lo, p, ts) && |nodes| <= |nodes'| && props <= props'
    requires forall k :: lo <= k < |nodes| ==> nodes'[k] == nodes[k]
    ensures KidsAre(nodes', props', lo, p, ts)
    decreases ts, 0
  {
    if ts != [] {
      RecordFrame(nodes, props, nodes', props', nodes[p.i], p.i + 1, ts[0]);
      KidsFrame(nodes, props, nodes', props', lo, nodes[p.i].nextSibling, ts[1..]);
    }
  }

  lemma {:induction false} PropsFrame(props: seq<Prop>, props': seq<Prop>, p: Ptr, ps: seq<(bytes, bytes)>)
    requires PropsAre(props, p, ps) && props <= props'
    ensures PropsAre(props', p, ps)
    decreases |ps|
  {
    if ps != [] { PropsFrame(props, props', props[p.i].next, ps[1..]); }
  }

  // ---------------------------------------------------------------- running concatenations

  lemma {:induction false} ExecConcat(s: State, ts: seq<Token>, us: seq<Token>)
    ensures Exec(s, ts + us) == match Exec(s, ts) case NullDeref => NullDeref case Running(m) => Exec(m, us)
    decreases |ts|
  {
    hide Apply;
    if ts == [] {
      assert ts + us == us;
    } else {
      assert (ts + us)[1..] == ts[1..] + us && (ts + us)[0] == ts[0];
      if Apply(s, ts[0]).Running? { ExecConcat(Apply(s, ts[0]).s, ts[1..], us); }
    }
  }

  lemma ExecOne(s: State, t: Token)
    ensures Exec(s, [t]) == Apply(s, t)
  {
    hide Apply;
    assert [t][1..] == [];
    if Apply(s, t).Running? { assert Exec(Apply(s, t).s, []) == Apply(s, t); }
  }

  /** NOP tokens have no effect, wherever they stand. */
  lemma {:induction false} NopsIgnored(s: State, ts: seq<Token>)
    requires InRange(s) && Shape(s)
    ensures Exec(s, ts) == Exec(s, StripNops(ts))
    decreases |ts|
  {
    hide Shape, Apply, Begin, AddProperty;
    if ts != [] {
      assert Apply(s, Nop) == Running(s) by { NopStep(s); }
      ApplyKeepsShape(s, ts[0]);
      ExecConcat(s, if ts[0] == Nop then [] else [ts[0]], StripNops(ts[1..]));
      ExecOne(s, ts[0]);
      if Apply(s, ts[0]).Running? {
        ShapeInRange(Apply(s, ts[0]).s);
        NopsIgnored(Apply(s, ts[0]).s, ts[1..]);
      }
    }
  }

  lemma NopStep(s: State)
    requires InRange(s)
    ensures Apply(s, Nop) == Running(s)
  {
  }

  lemma ShapeInRange(s: State)
    requires Shape(s)
    ensures InRange(s)
  {
  }

  // ---------------------------------------------------------------- the build theorem

  /** Old nodes stay as they were, except that the open node c may get new first children and
      properties; properties are only added. */
  ghost predicate Extends(s: State, t: State) {
    && |s.nodes| <= |t.nodes| && s.props <= t.props
    && t.current == s.current && t.depth == s.depth
    && (forall k :: 0 <= k < |s.nodes| && s.current != At(k) ==> t.nodes[k] == s.nodes[k])
    && (forall k :: 0 <= k < |s.nodes| && s.current == At(k) ==>
          t.nodes[k] == s.nodes[k].(children := t.nodes[k].children, properties := t.nodes[k].properties))
  }

  lemma ExtendsTrans(s: State, t: State, u: State)
    requires Extends(s, t) && Extends(t, u)
    ensures Extends(s, u)
  {
  }

  /** Running the tokens of a property list starts with adding its first property. */
  lemma PropertyFirst(s: State, c: nat, ps: seq<(bytes, bytes)>)
    requires s.current == At(c) && c < |s.nodes| && ps != []
    ensures Exec(s, FlattenProps(ps)) == Exec(AddProperty(s, c, ps[0].0, ps[0].1), FlattenProps(ps[1..]))
  {
    hide AddProperty;
    var t := Property(ps[0].0, ps[0].1);
    ExecConcat(s, [t], FlattenProps(ps[1..]));
    ExecOne(s, t);
  }

  /** The properties of the open node, in order: they end up reversed in front of its list. */
  lemma {:induction false} BuildProps(s: State, c: nat, ps: seq<(bytes, bytes)>, done: seq<(bytes, bytes)>)
    requires s.current == At(c) && c < |s.nodes| && PropsAre(s.props, s.nodes[c].properties, done)
    ensures Exec(s, FlattenProps(ps)).Running?
    ensures var t := Exec(s, FlattenProps(ps)).s;
            && Extends(s, t) && |t.nodes| == |s.nodes| && t.nodes[c].children == s.nodes[c].children
            && t.rootCopy == s.rootCopy
            && PropsAre(t.props, t.nodes[c].properties, Reverse(ps) + done)
    decreases |ps|
  {
    if ps == [] {
      assert Reverse(ps) + done == done;
    } else {
      hide Exec, Apply, FlattenProps;
      var u := AddProperty(s, c, ps[0].0, ps[0].1);
      PropertyFirst(s, c, ps);
      PropsFrame(s.props, u.props, s.nodes[c].properties, done);
      assert ([ps[0]] + done)[1..] == done;
      BuildProps(u, c, ps[1..], [ps[0]] + done);
      assert Reverse(ps[1..]) + ([ps[0]] + done) == Reverse(ps) + done;
      ExtendsTrans(s, u, Exec(u, FlattenProps(ps[1..])).s);
    }
  }

  /** What running the tokens of tree t does: one new subtree, at the head of the open node's
      list of children. */
  ghost predicate Built(s: State, t: Tree, u: State) {
    var n := |s.nodes|;
    && InRange(s) && Extends(s, u) && |u.nodes| == n + Size(t)
    && TreeAt(u, n, Mirror(t)) && u.nodes[n].parent == s.current
    && u.nodes[n].nextSibling == (if s.current.At? then s.nodes[s.current.i].children else Null)
    && (s.current.At? ==> u.nodes[s.current.i].children == At(n) && u.nodes[s.current.i].properties == s.nodes[s.current.i].properties)
  }

  lemma {:induction false} BuildTree(s: State, t: Tree)
    requires InRange(s)
    ensures Exec(s, Flatten(t)).Running? && Built(s, t, Exec(s, Flatten(t)).s)
    decreases t, 1
  {
    hide Apply, Exec, FlattenProps, FlattenAll, SizeAll, Reverse, MirrorAll;
    var n := |s.nodes|;
    var b := Begin(s, t.name);
    ExecConcat(s, [BeginNode(t.name)] + FlattenProps(t.props) + FlattenAll(t.children), [EndNode]);
    ExecConcat(s, [BeginNode(t.name)] + FlattenProps(t.props), FlattenAll(t.children));
    ExecConcat(s, [BeginNode(t.name)], FlattenProps(t.props));
    ExecOne(s, BeginNode(t.name));
    assert Apply(s, BeginNode(t.name)) == Running(b) by { BeginStep(s, t.name); }
    BuildProps(b, n, t.props, []);
    var p := Exec(b, FlattenProps(t.props)).s;
    BuildAll(p, n, t.children, []);
    var k := Exec(p, FlattenAll(t.children)).s;
    assert Reverse(t.props) + [] == Reverse(t.props) && MirrorAll(t.children) + [] == MirrorAll(t.children);
    ExecOne(k, EndNode);
    assert Apply(k, EndNode) == Running(k.(current := s.current, depth := s.depth)) by { EndStep(k, n); }
    PropsFrame(p.props, k.props, p.nodes[n].properties, Reverse(t.props));
    assert Exec(s, Flatten(t)) == Running(k.(current := s.current, depth := s.depth));
  }

  lemma BeginStep(s: State, name: bytes)
    requires InRange(s)
    ensures Apply(s, BeginNode(name)) == Running(Begin(s, name))
  {
  }

  lemma EndStep(k: State, n: nat)
    requires k.current == At(n) && n < |k.nodes| && k.depth > 0
    ensures Apply(k, EndNode) == Running(k.(current := k.nodes[n].parent, depth := k.depth - 1))
  {
  }

  /** The children of the open node c, in order: they end up reversed in front of its list. */
  lemma {:induction false} BuildAll(s: State, c: nat, ts: seq<Tree>, done: seq<Tree>)
    requires s.current == At(c) && c < |s.nodes| && KidsAre(s.nodes, s.props, c + 1, s.nodes[c].children, done)
    ensures Exec(s, FlattenAll(ts)).Running?
    ensures var u := Exec(s, FlattenAll(ts)).s;
            && Extends(s, u) && |u.nodes| == |s.nodes| + SizeAll(ts)
            && u.nodes[c].properties == s.nodes[c].properties
            && KidsAre(u.nodes, u.props, c + 1, u.nodes[c].children, MirrorAll(ts) + done)
    decreases ts, 0
  {
    if ts == [] {
      assert MirrorAll(ts) + done == done;
    } else {
      hide Exec, Apply, Mirror, Flatten, Size, KidsAre, Extends, InRange;
      ExecConcat(s, Flatten(ts[0]), FlattenAll(ts[1..]));
      BuildChild(s, c, ts[0], done);
      var m, done' := Exec(s, Flatten(ts[0])).s, [Mirror(ts[0])] + done;
      BuildAll(m, c, ts[1..], done');
      assert MirrorAll(ts[1..]) + done' == MirrorAll(ts) + done;
      ExtendsTrans(s, m, Exec(m, FlattenAll(ts[1..])).s);
    }
  }

  /** One more child of the open node c. */
  lemma BuildChild(s: State, c: nat, t: Tree, done: seq<Tree>)
    requires s.current == At(c) && c < |s.nodes| && KidsAre(s.nodes, s.props, c + 1, s.nodes[c].children, done)
    ensures Exec(s, Flatten(t)).Running?
    ensures var m := Exec(s, Flatten(t)).s;
            && Extends(s, m) && c < |m.nodes| == |s.nodes| + Size(t) && m.current == At(c)
            && m.nodes[c].properties == s.nodes[c].properties
            && KidsAre(m.nodes, m.props, c + 1, m.nodes[c].children, [Mirror(t)] + done)
    decreases t, 2
  {
    hide Exec, RecordIs, Mirror, Flatten, Size, Apply;
    BuildTree(s, t);
    var m := Exec(s, Flatten(t)).s;
    KidsFrame(s.nodes, s.props, m.nodes, m.props, c + 1, s.nodes[c].children, done);
    assert ([Mirror(t)] + done)[1..] == done;
  }

  /** The token loop on a flattened tree with NOPs anywhere: it ends with no open node, and
      node 0 is the mirrored tree. */
  lemma BuildFlattened(t: Tree, ts: seq<Token>)
    requires StripNops(ts) == Flatten(t)
    ensures Exec(START, ts).Running?
    ensures var u := Exec(START, ts).s;
            Shape(u) && u.current == Null && u.depth == 0 && |u.nodes| == Size(t) && TreeAt(u, 0, Mirror(t))
  {
    assert Shape(START);
    NopsIgnored(START, ts);
    BuildTree(START, t);
    ExecKeepsShape(START, ts);
  }
}
