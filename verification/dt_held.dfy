/** Decoded trees in the two tables of the parser: what the links of a node record lead to after
    the rewrite pass, and which part of the tables that depends on. */
module DtHeld {
  import opened Options
  import opened DtBuild
  import opened DtTrees
  import opened DtLayout
  import opened DtRewrite

  function CellsOf(x: Node): Cells {
    Cells(x.addressCells, x.sizeCells)
  }

  function ParentCells(nodes: seq<Node>, parent: Ptr): Option<Cells>
    requires parent.At? ==> parent.i < |nodes|
  {
    if parent == Null then None else Some(CellsOf(nodes[parent.i]))
  }

  function WithCells(x: Node, c: Cells): Node {
    x.(addressCells := c.a, sizeCells := c.s)
  }

  function CodeOf<T>(r: Result<T>): Result<()> {
    match r
    case Ok(_) => Ok(())
    case AddressCellsTooLarge => AddressCellsTooLarge
    case SizeCellsTooLarge => SizeCellsTooLarge
    case Stopped => Stopped
  }

  // ---------------------------------------------------------------- decoded trees in memory

  datatype Tables = Tables(nodes: seq<Node>, props: seq<Prop>, data: seq<Data>)

  /** The properties linked from head hold ds. */
  predicate DataAre(t: Tables, head: Ptr, ds: seq<Data>)
    decreases |ds|
  {
    if ds == [] then head == Null
    else head.At? && head.i < |t.props| && head.i < |t.data| && t.data[head.i] == ds[0] && DataAre(t, t.props[head.i].next, ds[1..])
  }

  /** Record x, followed through its links, is the decoded tree d. */
  predicate Holds(t: Tables, x: Node, d: Decoded)
    decreases d, 1
  {
    x.name == d.name && CellsOf(x) == d.cells && DataAre(t, x.properties, d.data) && KidsHold(t, x.children, d.children, Null)
  }

  /** The siblings from head up to, but without, end. */
  predicate KidsHold(t: Tables, head: Ptr, ds: seq<Decoded>, end: Ptr)
    decreases ds, 0
  {
    if ds == [] then head == end
    else head.At? && head.i < |t.nodes| && Holds(t, t.nodes[head.i], ds[0]) && KidsHold(t, t.nodes[head.i].nextSibling, ds[1..], end)
  }

  /** Only cell counts differ. */
  ghost predicate SameLinks(ns: seq<Node>, nodes: seq<Node>) {
    |ns| == |nodes| && forall i :: 0 <= i < |ns| ==> nodes[i] == WithCells(ns[i], CellsOf(nodes[i]))
  }

  /** The data of a list of n properties from p on, newest first. */
  ghost predicate DataAt(data: seq<Data>, p: nat, n: nat, ds: seq<Data>) {
    p + n <= |data| && |ds| <= n && forall k :: 0 <= k < |ds| ==> data[p + n - 1 - k] == ds[k]
  }

  ghost predicate AllRaw(data: seq<Data>, p: nat, n: nat) {
    p + n <= |data| && forall k :: p <= k < p + n ==> data[k] == Raw
  }

  ghost predicate Bare(nodes: seq<Node>, lo: nat, n: nat) {
    lo + n <= |nodes| && forall k :: lo <= k < lo + n ==> CellsOf(nodes[k]) == Cells(0, 0)
  }

  /** s and t agree from lo up to hi. */
  ghost predicate Same<T>(s: seq<T>, t: seq<T>, lo: nat, hi: nat) {
    |s| == |t| && hi <= |s| && forall k :: lo <= k < hi ==> t[k] == s[k]
  }

  lemma {:induction false} DataLinked(t: Tables, p: nat, head: Ptr, ps: Props, ds: seq<Data>)
    requires PropsLaid(t.props, p, head, ps) && |ds| == |ps| && DataAt(t.data, p, |ps|, ds)
    ensures DataAre(t, head, ds)
    decreases |ps|
  {
    if ps != [] {
      assert t.data[p + |ps| - 1 - 0] == ds[0];
      var n, rest := |ps| - 1, ds[1..];
      forall k | 0 <= k < |rest|
        ensures t.data[p + n - 1 - k] == rest[k]
      {
        assert t.data[p + |ps| - 1 - (k + 1)] == ds[k + 1];
      }
      DataLinked(t, p, t.props[head.i].next, ps[1..], rest);
    }
  }

  lemma {:induction false} DataFrame(t: Tables, u: Tables, p: nat, head: Ptr, ps: Props, ds: seq<Data>)
    requires PropsLaid(t.props, p, head, ps) && DataAre(t, head, ds) && Same(t.data, u.data, p, p + |ps|) && u.props == t.props
    ensures DataAre(u, head, ds)
    decreases |ds|
  {
    if ds != [] { DataFrame(t, u, p, t.props[head.i].next, ps[1..], ds[1..]); }
  }

  lemma {:induction false} DropCounts(ms: seq<Tree>, k: nat)
    requires k <= |ms|
    ensures SizeAll(ms[k..]) <= SizeAll(ms) && PropCountAll(ms[k..]) <= PropCountAll(ms)
    decreases k
  {
    hide Size, PropCount;
    if k > 0 {
      DropCounts(ms[1..], k - 1);
      assert ms[1..][k - 1..] == ms[k..];
    } else {
      assert ms[0..] == ms;
    }
  }

  lemma NothingLeft(ms: seq<Tree>)
    ensures ms[|ms|..] == [] && SizeAll([]) == 0 && PropCountAll([]) == 0
  {
  }

  lemma {:induction false} SameLength(ns: seq<Node>, t: Tables, q: nat, lo: nat, p: nat, head: Ptr, ms: seq<Tree>, ds: seq<Decoded>)
    requires KidsLaid(ns, t.props, q, lo, p, head, ms) && SameLinks(ns, t.nodes) && KidsHold(t, head, ds, Null)
    ensures |ds| == |ms|
    decreases |ms|
  {
    hide Laid, Holds, SizeAll, PropCountAll;
    if ms != [] && ds != [] {
      SameLength(ns, t, q, lo, p, ns[head.i].nextSibling, ms[1..], ds[1..]);
    }
  }

  lemma LaidParts(ns: seq<Node>, props: seq<Prop>, x: Node, q: nat, lo: nat, p: nat, m: Tree)
    requires Laid(ns, props, x, q, lo, p, m)
    ensures PropsLaid(props, p, x.properties, m.props) && KidsLaid(ns, props, q, lo, p + |m.props|, x.children, m.children)
  {
    hide PropsLaid, KidsLaid;
  }


  lemma HoldsParts(t: Tables, x: Node, d: Decoded)
    ensures Holds(t, x, d) <==>
              x.name == d.name && CellsOf(x) == d.cells && DataAre(t, x.properties, d.data) && KidsHold(t, x.children, d.children, Null)
  {
    hide DataAre, KidsHold;
  }


  lemma LinksOf(ns: seq<Node>, nodes: seq<Node>, j: nat)
    requires SameLinks(ns, nodes) && j < |nodes|
    ensures |ns| == |nodes| && nodes[j].properties == ns[j].properties && nodes[j].children == ns[j].children
  {
  }


  lemma KidsBounds(ns: seq<Node>, props: seq<Prop>, q: nat, lo: nat, p: nat, head: Ptr, ms: seq<Tree>)
    requires KidsLaid(ns, props, q, lo, p, head, ms)
    ensures lo + SizeAll(ms) <= |ns| && p + PropCountAll(ms) <= |props|
  {
    hide Laid;
  }


  /** The first of a list of siblings, with its ranges behind those of the others. */
  lemma FirstKid(ns: seq<Node>, nodes: seq<Node>, props: seq<Prop>, q: nat, lo: nat, p: nat, head: Ptr, ms: seq<Tree>)
    requires KidsLaid(ns, props, q, lo, p, head, ms) && ms != [] && SameLinks(ns, nodes)
    ensures head == At(lo + SizeAll(ms[1..])) && head.i < |ns| == |nodes| && ns[head.i].parent == At(q)
    ensures nodes[head.i].nextSibling == ns[head.i].nextSibling
    ensures Laid(ns, props, ns[head.i], head.i, head.i + 1, p + PropCountAll(ms[1..]), ms[0])
    ensures KidsLaid(ns, props, q, lo, p, ns[head.i].nextSibling, ms[1..])
    ensures SizeAll(ms) == SizeAll(ms[1..]) + 1 + SizeAll(ms[0].children)
    ensures PropCountAll(ms) == PropCountAll(ms[1..]) + PropCount(ms[0])
    ensures lo + SizeAll(ms) <= |ns| && p + PropCountAll(ms) <= |props|
  {
    hide Laid;
  }

  /** A decoded tree stays when nothing in its two ranges changes. */
  lemma {:induction false} HoldsFrame(ns: seq<Node>, t: Tables, u: Tables, i: nat, lo: nat, p: nat, m: Tree, d: Decoded)
    requires i < |ns| && Laid(ns, t.props, ns[i], i, lo, p, m) && SameLinks(ns, t.nodes) && u.props == t.props
    requires Holds(t, t.nodes[i], d)
    requires Same(t.nodes, u.nodes, lo, lo + SizeAll(m.children)) && u.nodes[i] == t.nodes[i]
    requires Same(t.data, u.data, p, p + PropCount(m))
    ensures Holds(u, u.nodes[i], d)
    decreases d, 1
  {
    hide SizeAll, PropCountAll, KidsHold, KidsLaid, DataAre, PropsLaid;
    DataFrame(t, u, p, ns[i].properties, m.props, d.data);
    AllSiblingsFrame(ns, t, u, i, lo, p + |m.props|, ns[i].children, m.children, d.children);
  }

  lemma {:induction false} AllSiblingsFrame(ns: seq<Node>, t: Tables, u: Tables, q: nat, lo: nat, p: nat, head: Ptr, ms: seq<Tree>, ds: seq<Decoded>)
    requires KidsLaid(ns, t.props, q, lo, p, head, ms) && SameLinks(ns, t.nodes) && u.props == t.props
    requires KidsHold(t, head, ds, Null)
    requires Same(t.nodes, u.nodes, lo, lo + SizeAll(ms)) && Same(t.data, u.data, p, p + PropCountAll(ms))
    ensures KidsHold(u, head, ds, Null)
    decreases ds, 1
  {
    hide SizeAll, PropCountAll, KidsLaid, KidsHold, Same, SameLinks;
    SameLength(ns, t, q, lo, p, head, ms, ds);
    NothingLeft(ms);
    SiblingsFrame(ns, t, u, q, lo, p, head, ms, ds, Null);
  }


  /** So do the first |ds| of a list of siblings, which own what lies behind the ranges of the
      others. */
  lemma {:induction false} SiblingsFrame(ns: seq<Node>, t: Tables, u: Tables, q: nat, lo: nat, p: nat, head: Ptr, ms: seq<Tree>, ds: seq<Decoded>, end: Ptr)
    requires KidsLaid(ns, t.props, q, lo, p, head, ms) && SameLinks(ns, t.nodes) && u.props == t.props && |ds| <= |ms|
    requires KidsHold(t, head, ds, end)
    requires Same(t.nodes, u.nodes, lo + SizeAll(ms[|ds|..]), lo + SizeAll(ms))
    requires Same(t.data, u.data, p + PropCountAll(ms[|ds|..]), p + PropCountAll(ms))
    ensures KidsHold(u, head, ds, end)
    decreases ds, 0
  {
    hide Laid, Holds, KidsHold, KidsLaid, SizeAll, PropCount, PropCountAll, SameLinks, Same;
    if ds == [] {
      NoneHeld(t, u, head, ds, end);
    } else {
      FirstKid(ns, t.nodes, t.props, q, lo, p, head, ms);
      FirstHeld(t, head, ds, end);
      FirstRanges(t, u, lo, p, ms, |ds|);
      var i := head.i;
      HoldsFrame(ns, t, u, i, i + 1, p + PropCountAll(ms[1..]), ms[0], ds[0]);
      SiblingsFrame(ns, t, u, q, lo, p, ns[i].nextSibling, ms[1..], ds[1..], end);
      FirstHeld(u, head, ds, end);
    }
  }

  lemma FirstRanges(t: Tables, u: Tables, lo: nat, p: nat, ms: seq<Tree>, n: nat)
    requires 0 < n <= |ms| && SizeAll(ms) == SizeAll(ms[1..]) + 1 + SizeAll(ms[0].children)
    requires PropCountAll(ms) == PropCountAll(ms[1..]) + PropCount(ms[0])
    requires Same(t.nodes, u.nodes, lo + SizeAll(ms[n..]), lo + SizeAll(ms))
    requires Same(t.data, u.data, p + PropCountAll(ms[n..]), p + PropCountAll(ms))
    ensures ms[1..][n - 1..] == ms[n..]
    ensures var i := lo + SizeAll(ms[1..]);
            && Same(t.nodes, u.nodes, i + 1, i + 1 + SizeAll(ms[0].children)) && i < |t.nodes| == |u.nodes| && u.nodes[i] == t.nodes[i]
            && Same(t.nodes, u.nodes, lo + SizeAll(ms[n..]), lo + SizeAll(ms[1..]))
    ensures var k := p + PropCountAll(ms[1..]);
            && Same(t.data, u.data, k, k + PropCount(ms[0]))
            && Same(t.data, u.data, p + PropCountAll(ms[n..]), p + PropCountAll(ms[1..]))
  {
    hide SizeAll, PropCount, PropCountAll;
    DropCounts(ms[1..], n - 1);
    assert ms[1..][n - 1..] == ms[n..];
  }

  lemma NoneHeld(t: Tables, u: Tables, head: Ptr, ds: seq<Decoded>, end: Ptr)
    requires ds == []
    ensures KidsHold(t, head, ds, end) <==> KidsHold(u, head, ds, end)
  {
  }

  lemma FirstHeld(t: Tables, head: Ptr, ds: seq<Decoded>, end: Ptr)
    requires ds != []
    ensures KidsHold(t, head, ds, end) <==>
              && head.At? && head.i < |t.nodes| && Holds(t, t.nodes[head.i], ds[0])
              && KidsHold(t, t.nodes[head.i].nextSibling, ds[1..], end)
  {
    hide Holds;
  }

  /** One more decoded sibling at the end of a list. */
  lemma {:induction false} SiblingsAppend(t: Tables, head: Ptr, ds: seq<Decoded>, i: nat, d: Decoded)
    requires KidsHold(t, head, ds, At(i)) && i < |t.nodes| && Holds(t, t.nodes[i], d)
    ensures KidsHold(t, head, ds + [d], t.nodes[i].nextSibling)
    decreases |ds|
  {
    hide Holds;
    if ds != [] {
      SiblingsAppend(t, t.nodes[head.i].nextSibling, ds[1..], i, d);
      assert (ds + [d])[1..] == ds[1..] + [d];
    } else {
      assert ds + [d] == [d] && [d][1..] == [];
    }
  }
}
