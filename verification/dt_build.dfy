/** Building the node tree from structure tokens: parse_node, pre_parse_property and the token
    switch of kernel/src/devices/device_tree.cpp.
    Nodes and properties are referred to by creation order. A node keeps that identity when the
    node stack moves to a larger buffer, because pmm::free keeps old buffers intact and every
    link still points into them; only `&nodes[0]` then names a copy, kept in `rootCopy`. */
module DtBuild {
  import opened DtTokens

  datatype Ptr = Null | At(i: nat)

  datatype Node = Node(
    name: bytes, addressCells: nat, sizeCells: nat,
    properties: Ptr, parent: Ptr, children: Ptr, nextSibling: Ptr)

  datatype Prop = Prop(name: bytes, next: Ptr, value: bytes)

  datatype RootCopy = Live | Frozen(node: Node)

  datatype State = State(nodes: seq<Node>, props: seq<Prop>, current: Ptr, depth: nat, rootCopy: RootCopy)

  const START := State([], [], Null, 0, Live)

  // sizeof(node) is 56 bytes, so the stack's first one-page buffer holds 73 of them.
  const NODE_SIZE: nat := 56
  const FIRST_CAPACITY: nat := 4096 / NODE_SIZE

  // ---------------------------------------------------------------- the token switch

  /** emplace_back of node number FIRST_CAPACITY first copies the full buffer, and with it the
      root as it is then; later copies copy that copy. */
  function Freeze(s: State): RootCopy {
    if |s.nodes| == FIRST_CAPACITY then Frozen(s.nodes[0]) else s.rootCopy
  }

  function Begin(s: State, name: bytes): State
    requires s.current.At? ==> s.current.i < |s.nodes|
  {
    var n := |s.nodes|;
    match s.current
    case Null =>
      s.(nodes := s.nodes + [Node(name, 0, 0, Null, Null, Null, Null)],
         current := At(n), depth := s.depth + 1, rootCopy := Freeze(s))
    case At(c) =>
      s.(nodes := s.nodes[c := s.nodes[c].(children := At(n))]
                  + [Node(name, 0, 0, Null, At(c), Null, s.nodes[c].children)],
         current := At(n), depth := s.depth + 1, rootCopy := Freeze(s))
  }

  function AddProperty(s: State, c: nat, name: bytes, value: bytes): State
    requires c < |s.nodes|
  {
    s.(props := s.props + [Prop(name, s.nodes[c].properties, value)],
       nodes := s.nodes[c := s.nodes[c].(properties := At(|s.props|))])
  }

  datatype Outcome = Running(s: State) | NullDeref

  predicate InRange(s: State) {
    s.current.At? ==> s.current.i < |s.nodes|
  }

  /** One token. END_NODE and PROP dereference `current`; it never dangles (see Shape). */
  function Apply(s: State, t: Token): Outcome {
    if !InRange(s) then NullDeref else
    match t
    case BeginNode(name) => Running(Begin(s, name))
    case EndNode =>
      if s.current == Null then NullDeref
      else Running(s.(current := s.nodes[s.current.i].parent, depth := if s.depth == 0 then 0 else s.depth - 1))
    case Property(name, value) =>
      if s.current == Null then NullDeref else Running(AddProperty(s, s.current.i, name, value))
    case Nop => Running(s)
    case End => Running(s)
  }

  // ---------------------------------------------------------------- what holds at every token

  /** The last node before n whose parent is p. */
  function LastWithParent(nodes: seq<Node>, p: Ptr, n: nat): Ptr
    requires n <= |nodes|
  {
    if n == 0 then Null
    else if nodes[n - 1].parent == p then At(n - 1)
    else LastWithParent(nodes, p, n - 1)
  }

  /** The length of the parent chain from q. */
  function ChainLength(nodes: seq<Node>, q: Ptr): nat
    requires ParentsBefore(nodes) && (q.At? ==> q.i < |nodes|)
    decreases if q.At? then q.i + 1 else 0
  {
    if q == Null then 0 else 1 + ChainLength(nodes, nodes[q.i].parent)
  }

  predicate ParentsBefore(nodes: seq<Node>) {
    forall i :: 0 <= i < |nodes| && nodes[i].parent.At? ==> nodes[i].parent.i < i
  }

  /** Parents come first, so there are no cycles; the children of a node, and the later
      siblings of a child, are exactly the nodes with that parent, newest first. */
  predicate Links(nodes: seq<Node>) {
    && ParentsBefore(nodes)
    && (forall i :: 0 <= i < |nodes| ==> nodes[i].children == LastWithParent(nodes, At(i), |nodes|))
    && (forall i :: 0 <= i < |nodes| ==>
          nodes[i].nextSibling == if nodes[i].parent == Null then Null else LastWithParent(nodes, nodes[i].parent, i))
  }

  predicate PropLinks(s: State) {
    && (forall i :: 0 <= i < |s.nodes| && s.nodes[i].properties.At? ==> s.nodes[i].properties.i < |s.props|)
    && (forall p :: 0 <= p < |s.props| && s.props[p].next.At? ==> s.props[p].next.i < p)
  }

  predicate Shape(s: State) {
    && InRange(s) && Links(s.nodes) && PropLinks(s)
    && s.depth == ChainLength(s.nodes, s.current)
  }

  lemma {:induction false} LastSame(nodes: seq<Node>, nodes': seq<Node>, p: Ptr, n: nat)
    requires n <= |nodes| && n <= |nodes'|
    requires forall i :: 0 <= i < n ==> nodes'[i].parent == nodes[i].parent
    ensures LastWithParent(nodes', p, n) == LastWithParent(nodes, p, n)
  {
    if n > 0 { LastSame(nodes, nodes', p, n - 1); }
  }

  lemma {:induction false} ChainSame(nodes: seq<Node>, nodes': seq<Node>, q: Ptr)
    requires ParentsBefore(nodes) && ParentsBefore(nodes') && |nodes| <= |nodes'| && (q.At? ==> q.i < |nodes|)
    requires forall i :: 0 <= i < |nodes| ==> nodes'[i].parent == nodes[i].parent
    ensures ChainLength(nodes', q) == ChainLength(nodes, q)
    decreases if q.At? then q.i + 1 else 0
  {
    if q.At? { ChainSame(nodes, nodes', nodes[q.i].parent); }
  }

  lemma {:induction false} LastUpper(nodes: seq<Node>, p: Ptr, n: nat, m: nat)
    requires m <= n <= |nodes| && forall i :: m <= i < n ==> nodes[i].parent != p
    ensures LastWithParent(nodes, p, n) == LastWithParent(nodes, p, m)
    decreases n
  {
    if m < n { LastUpper(nodes, p, n - 1, m); }
  }

  lemma BeginLinks(s: State, name: bytes)
    requires Shape(s)
    ensures Links(Begin(s, name).nodes)
  {
    var t := Begin(s, name).nodes;
    var n := |s.nodes|;
    assert forall i :: 0 <= i < n ==> t[i].parent == s.nodes[i].parent && t[i].nextSibling == s.nodes[i].nextSibling;
    assert t[n].parent == s.current;
    forall i: nat | i < |t|
      ensures t[i].children == LastWithParent(t, At(i), |t|)
      ensures t[i].nextSibling == if t[i].parent == Null then Null else LastWithParent(t, t[i].parent, i)
    {
      LastSame(s.nodes, t, At(i), n);
      LastSame(s.nodes, t, t[i].parent, i);
      if i == n { LastUpper(t, At(n), n, 0); }
    }
  }

  lemma BeginShape(s: State, name: bytes)
    requires Shape(s)
    ensures Shape(Begin(s, name))
  {
    hide Links, LastWithParent;
    BeginLinks(s, name);
    var t := Begin(s, name);
    assert ParentsBefore(s.nodes) && ParentsBefore(t.nodes) by { LinksParents(s.nodes); LinksParents(t.nodes); }
    assert forall i :: 0 <= i < |s.nodes| ==> t.nodes[i].parent == s.nodes[i].parent;
    ChainSame(s.nodes, t.nodes, s.current);
  }

  lemma LinksParents(nodes: seq<Node>)
    requires Links(nodes)
    ensures ParentsBefore(nodes)
  {
  }

  lemma PropertyShape(s: State, name: bytes, value: bytes)
    requires Shape(s) && s.current.At?
    ensures Shape(AddProperty(s, s.current.i, name, value))
  {
    var t := AddProperty(s, s.current.i, name, value);
    forall i | 0 <= i < |t.nodes|
      ensures t.nodes[i].children == LastWithParent(t.nodes, At(i), |t.nodes|)
      ensures t.nodes[i].nextSibling == if t.nodes[i].parent == Null then Null else LastWithParent(t.nodes, t.nodes[i].parent, i)
    {
      LastSame(s.nodes, t.nodes, At(i), |t.nodes|);
      LastSame(s.nodes, t.nodes, t.nodes[i].parent, i);
    }
    ChainSame(s.nodes, t.nodes, s.current);
  }

  /** Every token keeps the shape: depth is the length of the parent chain, and the links
      describe one forest. Nothing is assumed about the token stream. */
  lemma ApplyKeepsShape(s: State, t: Token)
    requires Shape(s)
    ensures Apply(s, t).Running? ==> Shape(Apply(s, t).s)
    ensures Apply(s, t) == NullDeref <==> s.current == Null && (t.EndNode? || t.Property?)
  {
    hide Links;
    match t {
      case BeginNode(name) => BeginShape(s, name);
      case Property(name, value) => if s.current.At? { PropertyShape(s, name, value); }
      case EndNode => LinksParents(s.nodes);
      case _ =>
    }
  }

  /** Runs a token sequence. */
  function Exec(s: State, ts: seq<Token>): Outcome
    decreases |ts|
  {
    if ts == [] then Running(s)
    else match Apply(s, ts[0])
      case NullDeref => NullDeref
      case Running(t) => Exec(t, ts[1..])
  }

  lemma {:induction false} ExecKeepsShape(s: State, ts: seq<Token>)
    requires Shape(s) && Exec(s, ts).Running?
    ensures Shape(Exec(s, ts).s)
    decreases |ts|
  {
    hide Shape, Apply;
    if ts != [] {
      ApplyKeepsShape(s, ts[0]);
      ExecKeepsShape(Apply(s, ts[0]).s, ts[1..]);
    }
  }

  function Balance(ts: seq<Token>): int {
    if ts == [] then 0
    else (if ts[0].BeginNode? then 1 else if ts[0].EndNode? then -1 else 0) + Balance(ts[1..])
  }

  /** At any point of any run, depth is the number of open nodes; so `current` is null exactly
      when BEGIN_NODE and END_NODE tokens balance. */
  lemma {:induction false} ExecBalance(s: State, ts: seq<Token>)
    requires Shape(s) && Exec(s, ts).Running?
    ensures Exec(s, ts).s.depth == s.depth + Balance(ts)
    ensures Exec(s, ts).s.current == Null <==> s.depth + Balance(ts) == 0
    decreases |ts|
  {
    hide Shape, Apply;
    if ts == [] {
      NullIff(s);
    } else {
      ApplyKeepsShape(s, ts[0]);
      DepthStep(s, ts[0]);
      ExecBalance(Apply(s, ts[0]).s, ts[1..]);
    }
  }

  lemma NullIff(s: State)
    requires Shape(s)
    ensures s.current == Null <==> s.depth == 0
  {
  }

  lemma DepthStep(s: State, t: Token)
    requires Shape(s) && Apply(s, t).Running?
    ensures Apply(s, t).s.depth == s.depth + if t.BeginNode? then 1 else if t.EndNode? then -1 else 0
  {
    if t.EndNode? { assert s.depth == 1 + ChainLength(s.nodes, s.nodes[s.current.i].parent); }
  }
}
