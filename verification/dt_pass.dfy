/** The second pass in place: recursive_property_rewrite overwrites property records and the cell
    counts of node records, following their links. */
module DtPass {
  import opened Options
  import opened Num
  import opened Endian
  import opened DtTokens
  import opened DtBuild
  import opened DtTrees
  import opened DtLayout
  import opened DtNames
  import opened DtRewrite
  import opened DtHeld
  import opened DtArena
  import opened DtPlace
  import opened DtColumns
  import opened DtFill
  import opened DtMemory
  import opened DtStored
  import Bump
  import BumpProofs
  import DtBlob
  import DtCells
  import DtMoved
  import DtStatus

  /** `NotFollowed`: an array found no room, or has three cells; the run ends here. */
  datatype Code = Ran(res: Result<()>) | NotFollowed

  // ---------------------------------------------------------------- laps as loops see them

  function Prepend(done: seq<Data>, r: Result<(seq<Data>, Cells)>): Result<(seq<Data>, Cells)> {
    if r.Ok? then Result.Ok((done + r.value.0, r.value.1)) else r
  }

  lemma FirstLapStep(done: seq<Data>, ps: Props, c: Cells)
    requires ps != []
    ensures var r := FirstStep(KindOf(ps[0].0), ps[0].1, c);
            if r.Ok? then Prepend(done, FirstLap(ps, c)) == Prepend(done + [r.value.0], FirstLap(ps[1..], r.value.1))
            else CodeOf(FirstLap(ps, c)) == CodeOf(r)
  {
    hide FirstStep, KindOf;
    var r := FirstStep(KindOf(ps[0].0), ps[0].1, c);
    if r.Ok? && FirstLap(ps[1..], r.value.1).Ok? {
      var ds := FirstLap(ps[1..], r.value.1).value.0;
      assert done + ([r.value.0] + ds) == done + [r.value.0] + ds;
    }
  }

  /** Properties that the second lap decodes are left raw by the first. */
  ghost predicate RawForSecond(ps: Props, ds: seq<Data>)
    requires |ds| == |ps|
  {
    forall i :: 0 <= i < |ps| ==> (KindOf(ps[i].0) in {RegProp, RangesProp} ==> ds[i] == Raw) && (InArrays(ds[i]) ==> ds[i].Strings?)
  }

  lemma {:induction false} FirstLapLeavesRaw(ps: Props, c: Cells)
    requires FirstLap(ps, c).Ok?
    ensures RawForSecond(ps, FirstLap(ps, c).value.0)
    decreases |ps|
  {
    if ps != [] {
      hide KindOf, FirstStep;
      StepLeavesRaw(ps[0], c);
      FirstLapLeavesRaw(ps[1..], FirstStep(KindOf(ps[0].0), ps[0].1, c).value.1);
      assert forall i :: 0 < i < |ps| ==> ps[i] == ps[1..][i - 1];
    }
  }

  lemma StepLeavesRaw(p: (bytes, bytes), c: Cells)
    ensures KindOf(p.0) in {RegProp, RangesProp} ==> FirstStep(KindOf(p.0), p.1, c) == Result.Ok((Raw, c))
    ensures FirstStep(KindOf(p.0), p.1, c).Ok? && InArrays(FirstStep(KindOf(p.0), p.1, c).value.0) ==> FirstStep(KindOf(p.0), p.1, c).value.0.Strings?
  {
    hide KindOf, ReadU32, DtCells.Strings, DtCells.NulEnded;
  }

  function PrependSecond(done: seq<Data>, r: Result<seq<Data>>): Result<seq<Data>> {
    if r.Ok? then Result.Ok(done + r.value) else r
  }

  lemma SecondLapStep(done: seq<Data>, ps: Props, c: Cells, parent: Option<Cells>, ds: seq<Data>)
    requires ps != [] && |ds| == |ps|
    ensures var r := SecondStep(KindOf(ps[0].0), ps[0].1, c, parent, ds[0]);
            if r.Ok? then PrependSecond(done, SecondLap(ps, c, parent, ds)) == PrependSecond(done + [r.value], SecondLap(ps[1..], c, parent, ds[1..]))
            else CodeOf(SecondLap(ps, c, parent, ds)) == CodeOf(r)
  {
    hide SecondStep, KindOf;
    var r := SecondStep(KindOf(ps[0].0), ps[0].1, c, parent, ds[0]);
    if r.Ok? && SecondLap(ps[1..], c, parent, ds[1..]).Ok? {
      var rest := SecondLap(ps[1..], c, parent, ds[1..]).value;
      assert done + ([r.value] + rest) == done + [r.value] + rest;
    }
  }

  function PrependAll(done: seq<Decoded>, r: Result<seq<Decoded>>): Result<seq<Decoded>> {
    if r.Ok? then Result.Ok(done + r.value) else r
  }

  lemma RewriteAllStep(done: seq<Decoded>, ts: seq<Tree>, c: Cells)
    requires ts != []
    ensures var r := RewriteFrom(ts[0], Cells(0, 0), Some(c), None);
            if r.Ok? then PrependAll(done, RewriteAll(ts, c)) == PrependAll(done + [r.value], RewriteAll(ts[1..], c))
            else CodeOf(RewriteAll(ts, c)) == CodeOf(r)
  {
    hide RewriteFrom;
    var r := Rewrite(ts[0], Some(c));
    if r.Ok? && RewriteAll(ts[1..], c).Ok? {
      var rest := RewriteAll(ts[1..], c).value;
      assert done + ([r.value] + rest) == done + [r.value] + rest;
    }
  }

  // ---------------------------------------------------------------- the pass

  /** What the loop over the children ms of node q needs: they are laid out as the parser does
      and not touched yet. */
  ghost predicate KidsReady(t: Tables, ns: seq<Node>, head: Ptr, q: nat, lo: nat, p: nat, ms: seq<Tree>, c: Cells) {
    && SameLinks(ns, t.nodes) && |t.data| == |t.props|
    && q < |t.nodes| && CellsOf(t.nodes[q]) == c && !(lo <= q < lo + SizeAll(ms))
    && KidsLaid(ns, t.props, q, lo, p, head, ms)
    && Bare(t.nodes, lo, SizeAll(ms)) && AllRaw(t.data, p, PropCountAll(ms))
  }

  /** What a call on node j needs: it is tree m, laid out as the parser does, and nothing of it
      but its own cell counts is touched yet. Its parent link leads to a record with cell counts
      up; its children's, to itself or to a record with cell counts below. */
  ghost predicate Ready(t: Tables, ns: seq<Node>, j: nat, q: nat, lo: nat, p: nat, m: Tree, up: Option<Cells>, below: Option<Cells>) {
    && SameLinks(ns, t.nodes) && |t.data| == |t.props|
    && j < |ns| && q < |ns| && !(lo <= j < lo + SizeAll(m.children)) && !(lo <= q < lo + SizeAll(m.children))
    && (ns[j].parent.At? ==> ns[j].parent.i < |ns| && ns[j].parent.i != j)
    && up == ParentCells(t.nodes, ns[j].parent)
    && below == (if q == j then None else Some(CellsOf(t.nodes[q])))
    && Laid(ns, t.props, ns[j], q, lo, p, m)
    && Bare(t.nodes, lo, SizeAll(m.children)) && AllRaw(t.data, p, PropCount(m))
  }

  lemma KidsStart(t: Tables, head: Ptr, ms: seq<Tree>, c: Cells)
    ensures KidsHold(t, head, [], head) && PrependAll([], RewriteAll(ms, c)) == RewriteAll(ms, c) && ms[0..] == ms
  {
    hide RewriteAll;
    if RewriteAll(ms, c).Ok? { assert [] + RewriteAll(ms, c).value == RewriteAll(ms, c).value; }
  }

  lemma KidsEnd(t: Tables, ns: seq<Node>, head: Ptr, q: nat, lo: nat, p: nat, ms: seq<Tree>, c: Cells)
    requires KidsReady(t, ns, head, q, lo, p, ms, c)
    ensures head == Null <==> ms == []
    ensures ms == [] ==> forall ds :: PrependAll(ds, RewriteAll(ms, c)) == Result.Ok(ds)
  {
    hide Laid, Rewrite;
    assert forall ds: seq<Decoded> :: ds + [] == ds;
  }

  /** The first of the children is ready for a call. */
  lemma KidReady(t: Tables, ns: seq<Node>, head: Ptr, q: nat, lo: nat, p: nat, ms: seq<Tree>, c: Cells)
    requires KidsReady(t, ns, head, q, lo, p, ms, c) && ms != [] && head.At?
    ensures head.i < |t.nodes| && CellsOf(t.nodes[head.i]) == Cells(0, 0)
    ensures Ready(t, ns, head.i, head.i, head.i + 1, p + PropCountAll(ms[1..]), ms[0], Some(c), None)
  {
    hide Laid, KidsLaid, SizeAll, PropCountAll, PropCount;
    FirstKid(ns, t.nodes, t.props, q, lo, p, head, ms);
  }

  /** After that call the other children are ready. */
  lemma NextKid(t: Tables, u: Tables, ns: seq<Node>, i: nat, q: nat, lo: nat, p: nat, ms: seq<Tree>, c: Cells)
    requires ms != [] && KidsReady(t, ns, At(i), q, lo, p, ms, c) && SameLinks(ns, u.nodes) && u.props == t.props
    requires Same(t.data, u.data, 0, p + PropCountAll(ms[1..])) && |u.nodes| == |t.nodes|
    requires forall k :: 0 <= k < |t.nodes| && k != i && !(i + 1 <= k < i + 1 + SizeAll(ms[0].children)) ==> u.nodes[k] == t.nodes[k]
    ensures i < |u.nodes| && KidsReady(u, ns, u.nodes[i].nextSibling, q, lo, p, ms[1..], c)
  {
    hide Laid, KidsLaid, SizeAll, PropCountAll, PropCount, SameLinks;
    FirstKid(ns, u.nodes, t.props, q, lo, p, At(i), ms);
  }

  lemma RootReady(t: Tables, ns: seq<Node>, r: nat, m: Tree)
    requires |t.data| == |t.props| && AllRaw(t.data, 0, |t.props|) && DtMoved.NoCells(ns) && r < |ns|
    requires ns[r].parent == Null && (r == 0 || r > SizeAll(m.children)) && Laid(ns, t.props, ns[r], 0, 1, 0, m)
    requires t.nodes == ns[r := WithCells(ns[r], Cells(2, 1))]
    ensures Ready(t, ns, r, 0, 1, 0, m, None, if r == 0 then None else Some(Cells(0, 0)))
  {
    hide PropsLaid, PropCountAll;
    assert 1 + SizeAll(m.children) <= |ns|;
    assert PropCount(m) <= |t.props|;
  }

  /** Renaming the root touches nothing below it. */
  lemma Renamed(t: Tables, u: Tables, ns: seq<Node>, r: nat, m: Tree, d: Decoded, name: bytes)
    requires r < |t.nodes| && (r == 0 || r > SizeAll(m.children)) && SameLinks(ns, t.nodes)
    requires Laid(ns, t.props, ns[r], 0, 1, 0, m) && Holds(t, t.nodes[r], d) && |t.data| == |t.props|
    requires u == t.(nodes := t.nodes[r := t.nodes[r].(name := name)])
    ensures Holds(u, u.nodes[r], d.(name := name))
  {
    hide Laid, Holds, SizeAll, PropCountAll, KidsLaid, DataAre, PropsLaid, KidsHold, Same, SameLinks;
    LinksOf(ns, t.nodes, r);
    LaidParts(ns, t.props, ns[r], 0, 1, 0, m);
    KidsBounds(ns, t.props, 0, 1, |m.props|, ns[r].children, m.children);
    HoldsParts(t, t.nodes[r], d);
    RenamedRanges(t, u, r, SizeAll(m.children), |m.props| + PropCountAll(m.children), |m.props|);
    DataFrame(t, u, 0, ns[r].properties, m.props, d.data);
    AllSiblingsFrame(ns, t, u, 0, 1, |m.props|, ns[r].children, m.children, d.children);
    HoldsParts(u, u.nodes[r], d.(name := name));
  }

  lemma RenamedRanges(t: Tables, u: Tables, r: nat, n: nat, k: nat, l: nat)
    requires r < |t.nodes| == |u.nodes| && (r == 0 || r > n) && 1 + n <= |t.nodes| && l <= k <= |t.data|
    requires u == t.(nodes := u.nodes) && forall k :: 0 <= k < |t.nodes| && k != r ==> u.nodes[k] == t.nodes[k]
    ensures Same(t.nodes, u.nodes, 1, 1 + n) && Same(t.data, u.data, 0, l) && Same(t.data, u.data, l, k)
  {
  }

  lemma ReadyParts(t: Tables, ns: seq<Node>, j: nat, q: nat, lo: nat, p: nat, m: Tree, up: Option<Cells>, below: Option<Cells>)
    requires Ready(t, ns, j, q, lo, p, m, up, below)
    ensures j < |t.nodes| == |ns| && PropCount(m) == |m.props| + PropCountAll(m.children) && p + PropCount(m) <= |t.props|
    ensures ns[j].name == m.name && PropsLaid(t.props, p, ns[j].properties, m.props)
    ensures KidsLaid(ns, t.props, q, lo, p + |m.props|, ns[j].children, m.children)
    ensures t.nodes[j] == WithCells(ns[j], CellsOf(t.nodes[j]))
  {
    hide PropsLaid, KidsLaid, SizeAll, PropCountAll;
  }

  lemma OnlyCells(ns: seq<Node>, nodes: seq<Node>, nodes': seq<Node>, j: nat)
    requires SameLinks(ns, nodes) && j < |nodes| == |nodes'| && nodes' == nodes[j := WithCells(nodes[j], CellsOf(nodes'[j]))]
    ensures SameLinks(ns, nodes') && nodes'[j] == WithCells(ns[j], CellsOf(nodes'[j]))
  {
  }

  lemma RewriteFromSteps(m: Tree, c0: Cells, up: Option<Cells>, below: Option<Cells>)
    ensures var r, first := RewriteFrom(m, c0, up, below), FirstLap(m.props, c0);
            if !first.Ok? then CodeOf(r) == CodeOf(first)
            else
              var second := SecondLap(m.props, first.value.1, up, first.value.0);
              if !second.Ok? then CodeOf(r) == CodeOf(second)
              else
                var kids := RewriteAll(m.children, if below.Some? then below.value else first.value.1);
                if kids.Ok? then r == Result.Ok(Decoded(m.name, first.value.1, second.value, kids.value)) else CodeOf(r) == CodeOf(kids)
  {
    hide FirstLap, SecondLap, RewriteAll;
  }

  lemma NodeHolds(t: Tables, ns: seq<Node>, j: nat, p: nat, m: Tree, d: Decoded)
    requires j < |t.nodes| == |ns| && t.nodes[j] == WithCells(ns[j], d.cells) && ns[j].name == m.name == d.name
    requires PropsLaid(t.props, p, ns[j].properties, m.props) && |d.data| == |m.props| && DataAt(t.data, p, |m.props|, d.data)
    requires KidsHold(t, ns[j].children, d.children, Null)
    ensures Holds(t, t.nodes[j], d)
  {
    hide PropsLaid, KidsHold, DataAre;
    DataLinked(t, p, ns[j].properties, m.props, d.data);
  }

  /** What a property adds to the log. */
  function EntryFor(i: nat, d: Data): seq<Entry> {
    if InArrays(d) then [Entry(i, d)] else []
  }

  /** What a property adds to the log in the second lap. */
  function SecondEntry(i: nat, d: Data): seq<Entry> {
    if d.Strings? then [] else EntryFor(i, d)
  }

  /** A run whose log should grow by `more`: it ends where an array finds no room. */
  ghost predicate Follows(w: World, log: seq<Entry>, more: seq<Entry>, code: Code, log': seq<Entry>) {
    if RunOf(w, log + more).LostRun? then code == NotFollowed else code != NotFollowed && log' == log + more
  }

  class Rewriter {
    var nodes: seq<Node>
    var records: seq<Record>
    var bump: Bump.State
    var mem: Mem
    const props: seq<Prop>
    const root: nat
    // The addresses of the property values in the blob.
    const values: seq<nat>

    // What has been computed, allocated and placed so far.
    ghost var data: seq<Data>
    ghost var log: seq<Entry>
    ghost var items: seq<seq<Array>>
    ghost const start: World

    /** After the token loop: every property is raw, and root is `&nodes[0]`. */
    constructor (s: State, w: World)
      ensures nodes == DtMoved.Heap(s) && props == s.props && root == DtMoved.RootIndex(s)
      ensures |data| == |props| && AllRaw(data, 0, |props|)
      ensures Stored() && log == [] && start == w
    {
      nodes, props, root := DtMoved.Heap(s), s.props, DtMoved.RootIndex(s);
      values, bump, mem, start := w.values, w.bump, w.mem, w;
      records, data, log, items := seq(|s.props|, _ => Plain(Raw)), seq(|s.props|, _ => Raw), [], [];
      new;
      NothingLogged(start);
    }

    ghost function Now(): Tables
      reads this
    {
      Tables(nodes, props, data)
    }

    /** Records, allocator and memory are those of the log. */
    ghost predicate Stored()
      reads this
    {
      && values == start.values && |records| == |data| == |props|
      && AsLogged(start, log, items, bump, mem) && Recorded(records, data, log, items)
    }

    // -------------------------------------------------------------- arrays

    /** bump.alloc_aligned for an array that will be written over `extent` bytes. */
    method Reserve(size: nat, alignment: u64, extent: nat, ghost col: Column) returns (ok: bool, at: nat)
      requires col.reserved == size && col.alignment == alignment && Extent(col) == extent
      modifies this`bump
      ensures ok <==> PlaceColumn(old(bump), col).Placed?
      ensures ok ==> PlaceColumn(old(bump), col) == Placed([Array(at, col)], bump)
    {
      if size > LIMIT {
        return false, 0;
      }
      var (res, t) := Bump.AllocAligned(bump, size, alignment);
      match res
      case Crash =>
        ok, at := false, 0;
      case NullPointer =>
        bump := t;
        ok, at := true, 0;
      case Pointer(p) =>
        ok := t.regions != [] && p + size <= Bump.Current(t).end && p + extent <= Bump.Current(t).end;
        at := p;
        bump := t;
    }

    /** Property i is data d, whose arrays are in memory now. */
    method Finish(i: nat, record: Record, m: Mem, ghost d: Data, ghost before: Bump.State, ghost arrays: seq<Array>)
      requires Stored0(before) && i < |props| && data[i] == Raw && InArrays(d) && ItemOk(arrays)
      requires Place(before, ItemOf(d, ValueAt(values, i))) == Placed(arrays, bump)
      requires m == PutAll(mem, ItemStores(arrays)) && record == RecordOf(d, Ats(arrays))
      modifies this`records, this`mem, this`data, this`log, this`items
      ensures Stored() && log == old(log) + [Entry(i, d)] && data == old(data)[i := d]
    {
      hide AsLogged, Recorded, RecordOf, PutAll, ItemStores, ItemOf, Place;
      AsLoggedMore(start, log, items, before, mem, Entry(i, d), arrays, bump);
      RecordedMore(records, data, log, items, i, d, arrays);
      records := records[i := record];
      mem := m;
      data, log, items := data[i := d], log + [Entry(i, d)], items + [arrays];
    }

    /** As Stored, while the allocator has already moved on from state b. */
    ghost predicate Stored0(b: Bump.State)
      reads this
    {
      && values == start.values && |records| == |data| == |props|
      && AsLogged(start, log, items, b, mem) && Recorded(records, data, log, items)
    }

    /** The two requests of property_rewrite_reg for n rows. */
    method AllocateReg(n: nat, a: nat, s: nat, ghost rows: seq<seq<nat>>) returns (ok: bool, aAt: nat, sAt: nat)
      requires a <= 2 && s <= 2 && n == |rows| && forall i :: 0 <= i < |rows| ==> |rows[i]| == 2
      modifies this`bump
      ensures var p := PlaceAll(old(bump), [NumberColumn(Field(rows, 0), a, a), NumberColumn(Field(rows, 1), s, s)]);
              (ok <==> p.Placed?) && (ok ==> p == Placed(RegArrays(rows, a, s, aAt, sAt), bump))
    {
      hide PlaceAll, PlaceColumn, NumberColumn, Field, ColumnOk;
      ghost var x, y := NumberColumn(Field(rows, 0), a, a), NumberColumn(Field(rows, 1), s, s);
      sAt := 0;
      PlaceTwo(bump, x, y);
      NumberSizes(Field(rows, 0), a, a);
      NumberSizes(Field(rows, 1), s, s);
      ok, aAt := Reserve(n * (4 * a), Alignment(a), n * (4 * a), x);
      if ok {
        ok, sAt := Reserve(n * (4 * s), Alignment(s), n * (4 * s), y);
      }
      assert RegArrays(rows, a, s, aAt, sAt) == [Array(aAt, x)] + [Array(sAt, y)];
    }

    /** The three requests of property_rewrite_ranges for n rows: the parent addresses are given
        the child's size. */
    method AllocateRanges(n: nat, a: nat, p: nat, s: nat, ghost rows: seq<seq<nat>>) returns (ok: bool, cAt: nat, pAt: nat, sAt: nat)
      requires 1 <= a <= 2 && s <= 2 && n == |rows| && forall i :: 0 <= i < |rows| ==> |rows[i]| == 3
      modifies this`bump
      ensures var q := PlaceAll(old(bump), [NumberColumn(Field(rows, 0), a, a), NumberColumn(Field(rows, 1), p, a), NumberColumn(Field(rows, 2), s, s)]);
              (ok <==> q.Placed?) && (ok ==> q == Placed(RangesArrays(rows, a, p, s, cAt, pAt, sAt), bump))
    {
      hide PlaceAll, PlaceColumn, NumberColumn, Field, ColumnOk;
      ghost var x, y, z := NumberColumn(Field(rows, 0), a, a), NumberColumn(Field(rows, 1), p, a), NumberColumn(Field(rows, 2), s, s);
      pAt, sAt := 0, 0;
      PlaceThree(bump, x, y, z);
      NumberSizes(Field(rows, 0), a, a);
      NumberSizes(Field(rows, 1), p, a);
      NumberSizes(Field(rows, 2), s, s);
      ok, cAt := Reserve(n * (4 * a), Alignment(a), n * (4 * a), x);
      if ok {
        PlaceTwo(bump, y, z);
        ok, pAt := Reserve(n * (4 * a), Alignment(a), n * (4 * p), y);
        if ok {
          ok, sAt := Reserve(n * (4 * s), Alignment(s), n * (4 * s), z);
        }
      }
      assert RangesArrays(rows, a, p, s, cAt, pAt, sAt) == [Array(cAt, x)] + ([Array(pAt, y)] + [Array(sAt, z)]);
    }

    /** Allocating and filling the arrays of property i for `reg`, with up to two cells each. */
    method StoreReg(i: nat, a: nat, s: nat) returns (code: Code)
      requires Stored() && i < |props| && data[i] == Raw && a <= 2 && DtCells.RegAsserts(|props[i].value|, a, s)
      modifies this`records, this`bump, this`mem, this`data, this`log, this`items
      ensures var d := RegData(a, s, DtCells.RegRows(props[i].value, a, s));
              if RunOf(start, old(log) + [Entry(i, d)]).LostRun? then code == NotFollowed
              else code == Ran(Result.Ok(())) && Stored() && log == old(log) + [Entry(i, d)] && data == old(data)[i := d]
    {
      hide DtCells.RegRows, AsLogged, Recorded, RunOf, Place, PlaceAll, NumberColumn, Field, PutAll, ItemStores, ItemOk, DataOk, Ats, P;
      var v := props[i].value;
      var n := |v| / (4 * a + 4 * s);
      ghost var rows, before := DtCells.RegRows(v, a, s), bump;
      ghost var e := Entry(i, RegData(a, s, rows));
      LoggedRun(start, log, items, bump, mem);
      RunMore(start, log, e);
      RegItem(v, a, s);
      RegPlace(bump, a, s, rows, ValueAt(values, i));
      var ok, aAt, sAt := AllocateReg(n, a, s, rows);
      if !ok {
        return NotFollowed;
      }
      var m := FillReg(mem, v, a, s, n, aAt, sAt);
      ghost var arrays := RegArrays(rows, a, s, aAt, sAt);
      TwoAts(arrays[0], arrays[1]);
      Finish(i, InBump(n, [aAt, sAt]), m, e.data, before, arrays);
      code := Ran(Result.Ok(()));
    }

    /** property_rewrite_reg on property i, whose node's parent has these cell counts. */
    method PropertyRewriteReg(i: nat, parent: Option<Cells>) returns (code: Code)
      requires Stored() && i < |props| && data[i] == Raw
      modifies this`records, this`bump, this`mem, this`data, this`log, this`items
      ensures var r := SecondStep(RegProp, props[i].value, Cells(0, 0), parent, Raw);
              if !r.Ok? then code == Ran(CodeOf(r)) && data == old(data)
              else if RunOf(start, old(log) + [Entry(i, r.value)]).LostRun? then code == NotFollowed
              else code == Ran(Result.Ok(())) && Stored() && log == old(log) + [Entry(i, r.value)] && data == old(data)[i := r.value]
    {
      hide DtCells.RegRows, AsLogged, Recorded, RunOf;
      if parent.None? {
        return Ran(Stopped);
      }
      var a, s := parent.value.a, parent.value.s;
      if !DtCells.RegAsserts(|props[i].value|, a, s) {
        return Ran(Stopped);
      }
      if a > 2 {
        WideLost(start, log, items, bump, mem, i);
        return NotFollowed;
      }
      code := StoreReg(i, a, s);
    }

    /** Allocating and filling the arrays of property i for `ranges`, with one or two address
        cells on each side. */
    method StoreRanges(i: nat, a: nat, p: nat, s: nat) returns (code: Code)
      requires Stored() && i < |props| && data[i] == Raw
      requires 1 <= a <= 2 && 1 <= p <= 2 && DtCells.RangesAsserts(|props[i].value|, a, p, s)
      modifies this`records, this`bump, this`mem, this`data, this`log, this`items
      ensures var d := RangesData(a, p, s, DtCells.RangesRows(props[i].value, a, p, s));
              if RunOf(start, old(log) + [Entry(i, d)]).LostRun? then code == NotFollowed
              else code == Ran(Result.Ok(())) && Stored() && log == old(log) + [Entry(i, d)] && data == old(data)[i := d]
    {
      hide DtCells.RangesRows, AsLogged, Recorded, RunOf, Place, PlaceAll, NumberColumn, Field, PutAll, ItemStores, ItemOk, DataOk, Ats, P;
      var v := props[i].value;
      var n := |v| / (4 * a + 4 * p + 4 * s);
      ghost var rows, before := DtCells.RangesRows(v, a, p, s), bump;
      ghost var e := Entry(i, RangesData(a, p, s, rows));
      LoggedRun(start, log, items, bump, mem);
      RunMore(start, log, e);
      RangesItem(v, a, p, s);
      RangesPlace(bump, a, p, s, rows, ValueAt(values, i));
      var ok, cAt, pAt, sAt := AllocateRanges(n, a, p, s, rows);
      if !ok {
        return NotFollowed;
      }
      var m := FillRanges(mem, v, a, p, s, n, cAt, pAt, sAt);
      ghost var arrays := RangesArrays(rows, a, p, s, cAt, pAt, sAt);
      ThreeAts(arrays[0], arrays[1], arrays[2]);
      Finish(i, InBump(n, [cAt, pAt, sAt]), m, e.data, before, arrays);
      code := Ran(Result.Ok(()));
    }

    /** An empty `ranges` gets null pointers. */
    method StoreEmptyRanges(i: nat) returns (code: Code)
      requires Stored() && i < |props| && data[i] == Raw
      modifies this`records, this`bump, this`mem, this`data, this`log, this`items
      ensures var d := RangesData(0, 0, 0, []);
              && !RunOf(start, old(log) + [Entry(i, d)]).LostRun?
              && code == Ran(Result.Ok(())) && Stored() && log == old(log) + [Entry(i, d)] && data == old(data)[i := d]
    {
      hide AsLogged, Recorded, RunOf, Place, NumberColumn, PutAll, ItemStores, ItemOk, NoArrays, Ats;
      ghost var d := RangesData(0, 0, 0, []);
      LoggedRun(start, log, items, bump, mem);
      RunMore(start, log, Entry(i, d));
      EmptyPlace(bump, ValueAt(values, i));
      EmptyStores(mem);
      Finish(i, InBump(0, [0, 0, 0]), mem, d, bump, NoArrays());
      code := Ran(Result.Ok(()));
    }

    /** property_rewrite_ranges on property i of a node with cell counts c. */
    method PropertyRewriteRanges(i: nat, c: Cells, parent: Option<Cells>) returns (code: Code)
      requires Stored() && i < |props| && data[i] == Raw
      modifies this`records, this`bump, this`mem, this`data, this`log, this`items
      ensures var r := SecondStep(RangesProp, props[i].value, c, parent, Raw);
              if !r.Ok? then code == Ran(CodeOf(r)) && data == old(data)
              else if RunOf(start, old(log) + [Entry(i, r.value)]).LostRun? then code == NotFollowed
              else code == Ran(Result.Ok(())) && Stored() && log == old(log) + [Entry(i, r.value)] && data == old(data)[i := r.value]
    {
      hide DtCells.RangesRows, AsLogged, Recorded, RunOf;
      var v := props[i].value;
      if v == [] {
        code := StoreEmptyRanges(i);
        return;
      }
      if parent.None? {
        return Ran(Stopped);
      }
      var a, p, s := c.a, parent.value.a, c.s;
      if !DtCells.RangesAsserts(|v|, a, p, s) || a == 0 || p == 0 || p > 3 {
        return Ran(Stopped);
      }
      if a > 2 || p > 2 {
        WideLost(start, log, items, bump, mem, i);
        return NotFollowed;
      }
      code := StoreRanges(i, a, p, s);
    }

    /** The `compatible` branch on property i. */
    method RewriteCompatible(i: nat) returns (code: Code)
      requires Stored() && i < |props| && data[i] == Raw && DtCells.NulEnded(props[i].value)
      modifies this`records, this`bump, this`mem, this`data, this`log, this`items
      ensures var d := Data.Strings(DtCells.Strings(props[i].value, 0));
              if RunOf(start, old(log) + [Entry(i, d)]).LostRun? then code == NotFollowed
              else code == Ran(Result.Ok(())) && Stored() && log == old(log) + [Entry(i, d)] && data == old(data)[i := d]
    {
      hide DtCells.Strings, AsLogged, Recorded, RunOf, Place, PlaceAll, PlaceColumn, Views, ViewCell, PutAll, ItemStores, ItemOk, ColumnOk, Ats;
      var v := props[i].value;
      ghost var strings := DtCells.Strings(v, 0);
      ghost var e := Entry(i, Data.Strings(strings));
      LoggedRun(start, log, items, bump, mem);
      RunMore(start, log, e);
      var count := DtCells.CountPass(v);
      DtCells.CountStrings(v, 0);
      assert v[0..] == v;
      var p := ValueAt(values, i);
      ghost var col, before := ViewArray(strings, p, 0).col, bump;
      ViewItem(strings, p);
      ViewSizes(strings, p);
      PlaceOne(bump, col);
      var ok, at := Reserve((count + 1) * 8, 8, (count + 1) * 16, col);
      if !ok {
        return NotFollowed;
      }
      var m := FillViews(mem, v, p, count, at);
      ghost var arrays := [ViewArray(strings, p, at)];
      OneAt(arrays[0]);
      Finish(i, InBump(0, [at]), m, e.data, before, arrays);
      code := Ran(Result.Ok(()));
    }

    // -------------------------------------------------------------- the laps

    /** The record of property i keeps the data itself. */
    method Keep(i: nat, d: Data)
      requires Stored() && i < |props| && data[i] == Raw && !InArrays(d)
      modifies this`records, this`data
      ensures Stored() && data == old(data)[i := d]
    {
      hide AsLogged, Recorded;
      RecordedPlain(records, data, log, items, i, d);
      records, data := records[i := Plain(d)], data[i := d];
    }

    /** The body of the first lap for property i of node j. Its value is still raw. */
    method VisitFirst(j: nat, i: nat) returns (code: Code)
      requires Stored() && j < |nodes| && i < |props| && data[i] == Raw
      modifies this
      ensures var c := CellsOf(old(nodes)[j]); var r := FirstStep(KindOf(props[i].name), props[i].value, c);
              && nodes == old(nodes)[j := WithCells(old(nodes)[j], if r.Ok? then r.value.1 else c)]
              && (code == NotFollowed || code == Ran(CodeOf(r)))
              && (code.Ran? ==> |data| == |props| && Same(old(data), data, 0, i) && Same(old(data), data, i + 1, |data|))
              && (r.Ok? ==> Follows(start, old(log), EntryFor(i, r.value.0), code, log))
              && (r.Ok? && code.Ran? ==> Stored() && data == old(data)[i := r.value.0])
    {
      hide ReadU32, KindOf, DtCells.NulEnded, DtCells.Strings, AsLogged, Recorded, RunOf, Same;
      var v := props[i].value;
      code := Ran(Result.Ok(()));
      StillFollowed(start, log, items, bump, mem);
      match KindOf(props[i].name) {
        case CompatibleProp =>
          if !DtCells.NulEnded(v) {
            SameData(data, data, i);
            return Ran(Stopped);
          }
          code := RewriteCompatible(i);
          if code == NotFollowed {
            return;
          }
        case TextProp =>
          Keep(i, Text(v));
        case WordProp =>
          if |v| < 4 {
            SameData(data, data, i);
            return Ran(Stopped);
          }
          Keep(i, Word(ReadU32(v, 0)));
        case StatusProp =>
          Keep(i, Status(DtStatus.StatusOf(v)));
        case AddressCellsProp =>
          if |v| < 4 {
            SameData(data, data, i);
            return Ran(Stopped);
          }
          var w := ReadU32(v, 0);
          Keep(i, Word(w));
          if w > 3 {
            SameData(old(data), data, i);
            return Ran(AddressCellsTooLarge);
          }
          nodes := nodes[j := nodes[j].(addressCells := w)];
        case SizeCellsProp =>
          if |v| < 4 {
            SameData(data, data, i);
            return Ran(Stopped);
          }
          var w := ReadU32(v, 0);
          Keep(i, Word(w));
          if w > 2 {
            SameData(old(data), data, i);
            return Ran(SizeCellsTooLarge);
          }
          nodes := nodes[j := nodes[j].(sizeCells := w)];
        case DmaProp(coherent) =>
          Keep(i, Dma(coherent));
        case ControllerProp =>
          Keep(i, Controller);
        case _ =>
      }
      SameData(old(data), data, i);
    }

    /** The first lap over the properties of node j, which are ps. */
    method FirstLapOf(j: nat, ghost p: nat, ghost ps: Props) returns (code: Code)
      requires Stored() && j < |nodes| && PropsLaid(props, p, nodes[j].properties, ps) && AllRaw(data, p, |ps|)
      modifies this
      ensures |nodes| == |old(nodes)| && nodes == old(nodes)[j := WithCells(old(nodes)[j], CellsOf(nodes[j]))]
      ensures var r := FirstLap(ps, CellsOf(old(nodes)[j]));
              && (code == NotFollowed || code == Ran(CodeOf(r)))
              && (r.Ok? ==> Follows(start, old(log), LapLog(r.value.0, p, false), code, log))
              && (r.Ok? && code.Ran? ==> Stored() && CellsOf(nodes[j]) == r.value.1 && DataAt(data, p, |ps|, r.value.0))
      ensures code.Ran? ==> Same(old(data), data, 0, p) && Same(old(data), data, p + |ps|, |data|)
    {
      hide FirstStep, KindOf, FirstLap, AsLogged, Recorded, RunOf, LapLog;
      ghost var c0, log0 := CellsOf(nodes[j]), log;
      ghost var rest, done: seq<Data>, first := ps, [], FirstLap(ps, c0);
      var prop := nodes[j].properties;
      FirstLapEnd(ps, c0);
      while prop != Null
        invariant PropsLaid(props, p, prop, rest) && |done| + |rest| == |ps| && Stored()
        invariant |nodes| == |old(nodes)| && nodes == old(nodes)[j := WithCells(old(nodes)[j], CellsOf(nodes[j]))]
        invariant DataAt(data, p, |ps|, done) && AllRaw(data, p, |rest|)
        invariant Same(old(data), data, 0, p) && Same(old(data), data, p + |ps|, |data|)
        invariant Prepend(done, FirstLap(rest, CellsOf(nodes[j]))) == first
        invariant first.Ok? ==> log + LapLog(FirstLap(rest, CellsOf(nodes[j])).value.0, p, false) == log0 + LapLog(first.value.0, p, false)
        decreases |rest|
      {
        var i := prop.i;
        ghost var c, log1 := CellsOf(nodes[j]), log;
        FirstLapStep(done, rest, c);
        code := VisitFirst(j, i);
        if first.Ok? {
          FirstLapLog(start, log0, log1, LapLog(first.value.0, p, false), rest, c, p, code, log);
        }
        if code != Ran(Result.Ok(())) {
          return;
        }
        done := done + [data[i]];
        rest := rest[1..];
        prop := props[i].next;
      }
      FirstLapEnd(rest, CellsOf(nodes[j]));
      assert rest == [] && done + [] == done;
      LogEnd(log, p, false);
      StillFollowed(start, log, items, bump, mem);
      code := Ran(Result.Ok(()));
    }

    /** The body of the second lap for property i of node j; what it decodes is still raw. */
    method VisitSecond(j: nat, i: nat) returns (code: Code)
      requires Stored() && j < |nodes| && i < |props| && (nodes[j].parent.At? ==> nodes[j].parent.i < |nodes|)
      requires KindOf(props[i].name) in {RegProp, RangesProp} ==> data[i] == Raw
      requires InArrays(data[i]) ==> data[i].Strings?
      modifies this`records, this`bump, this`mem, this`data, this`log, this`items
      ensures var r := SecondStep(KindOf(props[i].name), props[i].value, CellsOf(nodes[j]), ParentCells(nodes, nodes[j].parent), old(data)[i]);
              && (code == NotFollowed || code == Ran(CodeOf(r)))
              && (code.Ran? ==> |data| == |props| && Same(old(data), data, 0, i) && Same(old(data), data, i + 1, |data|))
              && (r.Ok? ==> Follows(start, old(log), SecondEntry(i, r.value), code, log))
              && (r.Ok? && code.Ran? ==> Stored() && data == old(data)[i := r.value])
    {
      hide KindOf, DtCells.RegRows, DtCells.RangesRows, DtCells.RegAsserts, DtCells.RangesAsserts, AsLogged, Recorded, RunOf, Same;
      var k := KindOf(props[i].name);
      StillFollowed(start, log, items, bump, mem);
      code := Ran(Result.Ok(()));
      if k == RegProp {
        code := PropertyRewriteReg(i, ParentCells(nodes, nodes[j].parent));
      } else if k == RangesProp {
        code := PropertyRewriteRanges(i, CellsOf(nodes[j]), ParentCells(nodes, nodes[j].parent));
      }
      if code.Ran? {
        SameData(old(data), data, i);
      }
    }

    /** The second lap over the properties of node j, which are ps and hold ds. */
    method SecondLapOf(j: nat, ghost p: nat, ghost ps: Props, ghost ds: seq<Data>) returns (code: Code)
      requires Stored() && j < |nodes| && (nodes[j].parent.At? ==> nodes[j].parent.i < |nodes|)
      requires PropsLaid(props, p, nodes[j].properties, ps) && |ds| == |ps| && DataAt(data, p, |ps|, ds) && RawForSecond(ps, ds)
      modifies this`records, this`bump, this`mem, this`data, this`log, this`items
      ensures var r := SecondLap(ps, CellsOf(nodes[j]), ParentCells(nodes, nodes[j].parent), ds);
              && (code == NotFollowed || code == Ran(CodeOf(r)))
              && (r.Ok? ==> Follows(start, old(log), LapLog(r.value, p, true), code, log))
              && (r.Ok? && code.Ran? ==> Stored() && DataAt(data, p, |ps|, r.value))
      ensures code.Ran? ==> Same(old(data), data, 0, p) && Same(old(data), data, p + |ps|, |data|)
    {
      hide SecondStep, KindOf, SecondLap, AsLogged, Recorded, RunOf, LapLog;
      ghost var c, parent, log0 := CellsOf(nodes[j]), ParentCells(nodes, nodes[j].parent), log;
      ghost var rest, todo, done: seq<Data>, second := ps, ds, [], SecondLap(ps, c, parent, ds);
      var prop := nodes[j].properties;
      SecondLapEnd(ps, c, parent, ds);
      while prop != Null
        invariant PropsLaid(props, p, prop, rest) && |done| + |rest| == |ps| && |todo| == |rest| && Stored()
        invariant DataAt(data, p, |ps|, done) && DataAt(data, p, |rest|, todo) && RawForSecond(rest, todo)
        invariant Same(old(data), data, 0, p) && Same(old(data), data, p + |ps|, |data|)
        invariant PrependSecond(done, SecondLap(rest, c, parent, todo)) == second
        invariant second.Ok? ==> log + LapLog(SecondLap(rest, c, parent, todo).value, p, true) == log0 + LapLog(second.value, p, true)
        decreases |rest|
      {
        var i := prop.i;
        ghost var log1 := log;
        SecondLapStep(done, rest, c, parent, todo);
        FirstTodo(data, p, rest, todo);
        code := VisitSecond(j, i);
        if second.Ok? {
          SecondLapLog(start, log0, log1, LapLog(second.value, p, true), rest, c, parent, todo, p, code, log);
        }
        if code != Ran(Result.Ok(())) {
          return;
        }
        done := done + [data[i]];
        rest, todo := rest[1..], todo[1..];
        prop := props[i].next;
      }
      SecondLapEnd(rest, c, parent, todo);
      assert rest == [] && todo == [] && done + [] == done;
      LogEnd(log, p, true);
      StillFollowed(start, log, items, bump, mem);
      code := Ran(Result.Ok(()));
    }

    // -------------------------------------------------------------- the tree

    /** The loop over the children, here the list ms from head on, of node q with cell counts c. */
    method RewriteKids(head: Ptr, ghost ns: seq<Node>, ghost q: nat, ghost lo: nat, ghost p: nat, ghost ms: seq<Tree>, ghost c: Cells)
      returns (code: Code)
      requires Stored() && KidsReady(Now(), ns, head, q, lo, p, ms, c)
      modifies this
      ensures var r := RewriteAll(ms, c);
              && (code == NotFollowed || code == Ran(CodeOf(r)))
              && (r.Ok? ==> Follows(start, old(log), LogAll(r.value, p), code, log))
              && (r.Ok? && code.Ran? ==> Stored() && KidsHold(Now(), head, r.value, Null))
      ensures code.Ran? ==> SameLinks(ns, nodes)
      ensures code.Ran? ==> Same(old(nodes), nodes, 0, lo) && Same(old(nodes), nodes, lo + SizeAll(ms), |nodes|)
      ensures code.Ran? ==> Same(old(data), data, 0, p) && Same(old(data), data, p + PropCountAll(ms), |data|)
      decreases ms, 0
    {
      hide Laid, KidsLaid, Holds, KidsHold, RewriteFrom, RewriteAll, SizeAll, PropCountAll, PropCount, SameLinks, AsLogged, Recorded, RunOf, Log, LogAll;
      ghost var ds: seq<Decoded>, all, rest, log0 := [], RewriteAll(ms, c), ms, log;
      var child := head;
      KidsStart(Now(), head, ms, c);
      while child != Null
        invariant |ds| + |rest| == |ms| && rest == ms[|ds|..] && Stored()
        invariant KidsReady(Now(), ns, child, q, lo, p, rest, c)
        invariant KidsHold(Now(), head, ds, child)
        invariant PrependAll(ds, RewriteAll(rest, c)) == all
        invariant all.Ok? ==> log + LogAll(RewriteAll(rest, c).value, p) == log0 + LogAll(all.value, p)
        invariant SizeAll(rest) <= SizeAll(ms) && PropCountAll(rest) <= PropCountAll(ms)
        invariant Same(old(nodes), nodes, 0, lo) && Same(old(nodes), nodes, lo + SizeAll(ms), |nodes|)
        invariant Same(old(data), data, 0, p) && Same(old(data), data, p + PropCountAll(ms), |data|)
        decreases |rest|
      {
        var i := child.i;
        KidsEnd(Now(), ns, child, q, lo, p, rest, c);
        RewriteAllStep(ds, rest, c);
        FirstKid(ns, nodes, props, q, lo, p, child, rest);
        KidReady(Now(), ns, child, q, lo, p, rest, c);
        ghost var before, log1, r := Now(), log, RewriteFrom(rest[0], Cells(0, 0), Some(c), None);
        code := RewriteNode(i, ns, i, i + 1, p + PropCountAll(rest[1..]), rest[0], Some(c), None);
        if all.Ok? {
          KidsLog(start, log0, log1, LogAll(all.value, p), rest, c, p, code, log);
        }
        if code != Ran(Result.Ok(())) {
          return;
        }
        SiblingsFrame(ns, before, Now(), q, lo, p, head, ms, ds, child);
        SiblingsAppend(Now(), head, ds, i, r.value);
        NextKid(before, Now(), ns, i, q, lo, p, rest, c);
        assert ms[|ds|..][1..] == ms[|ds| + 1..] && |ds + [r.value]| == |ds| + 1;
        ds := ds + [r.value];
        rest := rest[1..];
        child := nodes[i].nextSibling;
      }
      KidsEnd(Now(), ns, child, q, lo, p, rest, c);
      KidsLogEnd(log, p);
      StillFollowed(start, log, items, bump, mem);
      code := Ran(Result.Ok(()));
    }

    /** recursive_property_rewrite on node j, which is tree m. */
    method RewriteNode(j: nat, ghost ns: seq<Node>, ghost q: nat, ghost lo: nat, ghost p: nat, ghost m: Tree, ghost up: Option<Cells>, ghost below: Option<Cells>)
      returns (code: Code)
      requires Stored() && j < |nodes| && Ready(Now(), ns, j, q, lo, p, m, up, below)
      modifies this
      ensures j < |old(nodes)|
      ensures var r := RewriteFrom(m, CellsOf(old(nodes)[j]), up, below);
              && (code == NotFollowed || code == Ran(CodeOf(r)))
              && (r.Ok? ==> Follows(start, old(log), Log(r.value, p), code, log))
              && (r.Ok? && code.Ran? ==> Stored() && j < |nodes| && Holds(Now(), nodes[j], r.value))
      ensures code.Ran? ==> SameLinks(ns, nodes) && |nodes| == |old(nodes)| && |data| == |props|
      ensures code.Ran? ==> forall k :: 0 <= k < |nodes| && k != j && !(lo <= k < lo + SizeAll(m.children)) ==> nodes[k] == old(nodes)[k]
      ensures code.Ran? ==> Same(old(data), data, 0, p) && Same(old(data), data, p + PropCount(m), |data|)
      decreases m, 1
    {
      hide PropsLaid, KidsLaid, FirstLap, SecondLap, RewriteFrom, RewriteAll, Holds, KidsHold, SizeAll, PropCountAll, PropCount, SameLinks,
        AsLogged, Recorded, RunOf, LapLog, Log, LogAll, RawForSecond;
      ghost var before, log0, c0, n := Now(), log, CellsOf(nodes[j]), |m.props|;
      ReadyParts(before, ns, j, q, lo, p, m, up, below);
      RewriteFromSteps(m, c0, up, below);
      code := FirstLapOf(j, p, m.props);
      OnlyCells(ns, before.nodes, nodes, j);
      if code != Ran(Result.Ok(())) {
        NodeLog(start, log0, m, c0, up, below, p);
        return;
      }
      ghost var (first, c) := FirstLap(m.props, c0).value;
      FirstLapLeavesRaw(m.props, c0);
      code := SecondLapOf(j, p, m.props, first);
      if code != Ran(Result.Ok(())) {
        NodeLog(start, log0, m, c0, up, below, p);
        return;
      }
      ghost var second, mid := SecondLap(m.props, c, up, first).value, Now();
      ghost var cc := if below.Some? then below.value else c;
      code := RewriteKids(nodes[j].children, ns, q, lo, p + n, m.children, cc);
      NodeLog(start, log0, m, c0, up, below, p);
      if code == Ran(Result.Ok(())) {
        assert nodes[j] == mid.nodes[j];
        NodeHolds(Now(), ns, j, p, m, Decoded(m.name, c, second, RewriteAll(m.children, cc).value));
      }
    }

    /** The pass on the whole tree, which the token loop left as m at the root: the root gets its
        default cell counts first, and its name at the end. */
    method Run(ghost m: Tree) returns (code: Code)
      requires Stored() && log == [] && AllRaw(data, 0, |props|) && DtMoved.NoCells(nodes)
      requires root < |nodes| && nodes[root].parent == Null && (root == 0 || root > SizeAll(m.children))
      requires Laid(nodes, props, nodes[root], 0, 1, 0, m)
      modifies this
      ensures var r := RewriteFrom(m, Cells(2, 1), None, if root == 0 then None else Some(Cells(0, 0)));
              && (code == NotFollowed || code == Ran(CodeOf(r)))
              && (r.Ok? ==> Follows(start, [], Log(r.value, 0), code, log))
              && (r.Ok? && code.Ran? ==> Stored() && root < |nodes| && Holds(Now(), nodes[root], r.value.(name := Ascii("/"))))
    {
      hide Laid, Holds, RewriteFrom, SizeAll, PropCountAll, AsLogged, Recorded, RunOf, Log;
      ghost var ns := nodes;
      nodes := nodes[root := nodes[root].(addressCells := 2, sizeCells := 1)];
      RootReady(Now(), ns, root, m);
      code := RewriteNode(root, ns, 0, 1, 0, m, None, if root == 0 then None else Some(Cells(0, 0)));
      if code == Ran(Result.Ok(())) {
        ghost var t := Now();
        nodes := nodes[root := nodes[root].(name := Ascii("/"))];
        Renamed(t, Now(), ns, root, m, RewriteFrom(m, Cells(2, 1), None, if root == 0 then None else Some(Cells(0, 0))).value, Ascii("/"));
      }
    }
  }

  lemma NothingLogged(w: World)
    ensures RunOf(w, []) == Run([], w.bump) && AllStores([]) == [] && PutAll(w.mem, []) == w.mem
  {
  }

  lemma LoggedRun(w: World, log: seq<Entry>, items: seq<seq<Array>>, bump: Bump.State, mem: Mem)
    requires AsLogged(w, log, items, bump, mem)
    ensures RunOf(w, log) == Run(items, bump)
  {
  }

  lemma WideLost(w: World, log: seq<Entry>, items: seq<seq<Array>>, bump: Bump.State, mem: Mem, i: nat)
    requires AsLogged(w, log, items, bump, mem)
    ensures RunOf(w, log + [Entry(i, Wide)]).LostRun?
  {
    hide RunOf;
    RunMore(w, log, Entry(i, Wide));
  }

  lemma RegItem(v: bytes, a: nat, s: nat)
    requires a <= 2 && DtCells.RegAsserts(|v|, a, s)
    ensures var rows := DtCells.RegRows(v, a, s); |rows| == |v| / (4 * a + 4 * s) && DataOk(RegData(a, s, rows))
  {
    hide DtCells.RegRows, P;
    DtCells.RegRowsFit(v, a, s);
  }

  lemma RegPlace(b: Bump.State, a: nat, s: nat, rows: seq<seq<nat>>, at: nat)
    requires DataOk(RegData(a, s, rows))
    ensures Place(b, ItemOf(RegData(a, s, rows), at)) == PlaceAll(b, [NumberColumn(Field(rows, 0), a, a), NumberColumn(Field(rows, 1), s, s)])
  {
    hide NumberColumn, Field, PlaceAll, P;
  }

  lemma NumberSizes(vs: seq<nat>, cells: nat, room: nat)
    requires room <= 2 && (|vs| == 0 || cells == room || room > 0)
    ensures var col := NumberColumn(vs, cells, room);
            ColumnOk(col) && col.reserved == |vs| * (4 * room) && col.alignment == Alignment(room) && Extent(col) == |vs| * (4 * cells)
  {
    hide ColumnOk, Numbers;
    NumberColumnOk(vs, cells, room);
    DtCells.StartValue(|vs|, 4 * room);
    DtCells.StartValue(|vs|, 4 * cells);
  }

  lemma TwoAts(x: Array, y: Array)
    ensures Ats([x, y]) == [x.at, y.at]
  {
    assert [x, y][..1] == [x] && [x][..0] == [];
    assert Ats([x]) == Ats([]) + [x.at];
  }

  lemma RangesItem(v: bytes, a: nat, p: nat, s: nat)
    requires 1 <= a <= 2 && 1 <= p <= 2 && DtCells.RangesAsserts(|v|, a, p, s)
    ensures var rows := DtCells.RangesRows(v, a, p, s); |rows| == |v| / (4 * a + 4 * p + 4 * s) && DataOk(RangesData(a, p, s, rows))
  {
    hide DtCells.RangesRows, P;
    DtCells.RangesRowsFit(v, a, p, s);
  }

  lemma RangesPlace(b: Bump.State, a: nat, p: nat, s: nat, rows: seq<seq<nat>>, at: nat)
    requires DataOk(RangesData(a, p, s, rows))
    ensures Place(b, ItemOf(RangesData(a, p, s, rows), at)) ==
              PlaceAll(b, [NumberColumn(Field(rows, 0), a, a), NumberColumn(Field(rows, 1), p, a), NumberColumn(Field(rows, 2), s, s)])
  {
    hide NumberColumn, Field, PlaceAll, P;
  }

  /** The arrays of an empty `ranges`: none. */
  ghost function NoArrays(): seq<Array> {
    [Array(0, NumberColumn([], 0, 0)), Array(0, NumberColumn([], 0, 0)), Array(0, NumberColumn([], 0, 0))]
  }

  lemma EmptyPlace(b: Bump.State, p: nat)
    ensures Place(b, ItemOf(RangesData(0, 0, 0, []), p)) == Placed(NoArrays(), b) && ItemOk(NoArrays())
  {
    hide PlaceAll, PlaceColumn, NumberColumn, ColumnOk;
    var x := NumberColumn([], 0, 0);
    assert Field([], 0) == [] && Field([], 1) == [] && Field([], 2) == [];
    PlaceThree(b, x, x, x);
    PlaceTwo(b, x, x);
    EmptyColumn(b, x);
    NumberColumnOk([], 0, 0);
    assert [Array(0, x)] + ([Array(0, x)] + [Array(0, x)]) == [Array(0, x), Array(0, x), Array(0, x)];
  }

  lemma EmptyColumn(b: Bump.State, x: Column)
    requires x == NumberColumn([], 0, 0)
    ensures PlaceColumn(b, x) == Placed([Array(0, x)], b)
  {
  }

  lemma EmptyStores(mem: Mem)
    requires ItemOk(NoArrays())
    ensures PutAll(mem, ItemStores(NoArrays())) == mem && Ats(NoArrays()) == [0, 0, 0]
  {
    var x := Array(0, NumberColumn([], 0, 0));
    ThreeAts(x, x, x);
  }

  lemma ThreeAts(x: Array, y: Array, z: Array)
    ensures Ats([x, y, z]) == [x.at, y.at, z.at]
  {
    TwoAts(x, y);
    assert [x, y, z][..2] == [x, y];
  }

  lemma OneAt(x: Array)
    ensures Ats([x]) == [x.at]
  {
    assert [x][..0] == [] && Ats([]) == [];
  }

  lemma ViewItem(strings: seq<bytes>, p: nat)
    ensures forall b :: Place(b, ItemOf(Data.Strings(strings), p)) == PlaceAll(b, [ViewArray(strings, p, 0).col])
  {
    hide PlaceAll, Views, ViewCell;
  }

  lemma ViewSizes(strings: seq<bytes>, p: nat)
    ensures var col := ViewArray(strings, p, 0).col;
            ColumnOk(col) && col.reserved == (|strings| + 1) * 8 && Extent(col) == (|strings| + 1) * 16
  {
    hide ColumnOk, Views, ViewCell;
    ViewColumnOk(strings, p);
    DtCells.StartValue(|strings| + 1, 8);
    DtCells.StartValue(|strings| + 1, 16);
  }

  lemma StillFollowed(w: World, log: seq<Entry>, items: seq<seq<Array>>, bump: Bump.State, mem: Mem)
    requires AsLogged(w, log, items, bump, mem)
    ensures !RunOf(w, log).LostRun? && log + [] == log
  {
  }

  lemma SameData(s: seq<Data>, t: seq<Data>, i: nat)
    requires i < |s| == |t| && t == s[i := t[i]]
    ensures Same(s, t, 0, i) && Same(s, t, i + 1, |t|)
  {
  }

  lemma FirstLapEnd(ps: Props, c: Cells)
    ensures FirstLap([], c) == Result.Ok(([], c)) && Prepend([], FirstLap(ps, c)) == FirstLap(ps, c)
  {
    hide FirstStep, KindOf;
    if FirstLap(ps, c).Ok? { assert [] + FirstLap(ps, c).value.0 == FirstLap(ps, c).value.0; }
  }

  lemma SecondLapEnd(ps: Props, c: Cells, parent: Option<Cells>, ds: seq<Data>)
    requires |ds| == |ps|
    ensures SecondLap([], c, parent, []) == Result.Ok([])
    ensures PrependSecond([], SecondLap(ps, c, parent, ds)) == SecondLap(ps, c, parent, ds)
  {
    hide SecondStep, KindOf;
    if SecondLap(ps, c, parent, ds).Ok? { assert [] + SecondLap(ps, c, parent, ds).value == SecondLap(ps, c, parent, ds).value; }
  }

  // ---------------------------------------------------------------- the whole of parse_from_blob

  /** On a blob that holds tree t the token loop ends in this state. */
  lemma LoopResult(mem: bytes, t: Tree, ts: seq<Token>, dict: map<bytes, nat>)
    requires DtBlob.Holds(mem, t, ts, dict)
    ensures Exec(START, Flatten(t)).Running?
    ensures DtBlob.ParseLoop(mem, ReadU32(mem, 8), ReadU32(mem, 12), 0, START) == DtBlob.Parsed(Exec(START, Flatten(t)).s)
  {
    hide Exec, Flatten, DtBlob.Laid, ReadU32, StripNops, RecordIs, Shape, Size, Mirror, DtBlob.ParseLoop;
    DtBlob.NoEnd(t);
    DtBlob.StripEnd(ts);
    BuildFlattened(t, ts);
    DtBlob.LoopRuns(mem, ReadU32(mem, 8), ReadU32(mem, 12), 0, ts, dict, START);
    DtBlob.StartShape();
    NopsIgnored(START, ts);
  }

  lemma LogEnd(log: seq<Entry>, p: nat, second: bool)
    ensures log + LapLog([], p, second) == log
  {
    assert LapLog([], p, second) == [];
  }

  /** One property of the first lap and its place in the log. */
  lemma FirstLapLog(w: World, log0: seq<Entry>, log1: seq<Entry>, all: seq<Entry>, ps: Props, c: Cells, p: nat, code: Code, log: seq<Entry>)
    requires ps != [] && FirstLap(ps, c).Ok?
    requires log1 + LapLog(FirstLap(ps, c).value.0, p, false) == log0 + all
    requires var r := FirstStep(KindOf(ps[0].0), ps[0].1, c); r.Ok? ==> Follows(w, log1, EntryFor(p + |ps| - 1, r.value.0), code, log)
    ensures var r := FirstStep(KindOf(ps[0].0), ps[0].1, c);
            && r.Ok? && FirstLap(ps[1..], r.value.1).Ok?
            && if code == NotFollowed then RunOf(w, log0 + all).LostRun?
               else log + LapLog(FirstLap(ps[1..], r.value.1).value.0, p, false) == log0 + all
  {
    hide FirstStep, KindOf, RunOf;
    var (d, c1) := FirstStep(KindOf(ps[0].0), ps[0].1, c).value;
    var more, e := LapLog(FirstLap(ps[1..], c1).value.0, p, false), EntryFor(p + |ps| - 1, d);
    var ds := FirstLap(ps, c).value.0;
    assert ds == [d] + FirstLap(ps[1..], c1).value.0 && ds[1..] == FirstLap(ps[1..], c1).value.0;
    FirstEntry(ps[0], c);
    assert LapLog(ds, p, false) == e + more;
    assert log1 + (e + more) == (log1 + e) + more;
    if RunOf(w, log1 + e).LostRun? { LostStays(w, log1 + e, more); }
  }

  lemma FirstEntry(p: (bytes, bytes), c: Cells)
    ensures var r := FirstStep(KindOf(p.0), p.1, c); r.Ok? && InArrays(r.value.0) ==> r.value.0.Strings?
  {
    hide KindOf;
    StepLeavesRaw(p, c);
  }

  lemma FirstTodo(data: seq<Data>, p: nat, ps: Props, todo: seq<Data>)
    requires ps != [] && |todo| == |ps| && DataAt(data, p, |ps|, todo) && RawForSecond(ps, todo)
    ensures data[p + |ps| - 1] == todo[0] && (KindOf(ps[0].0) in {RegProp, RangesProp} ==> todo[0] == Raw) && (InArrays(todo[0]) ==> todo[0].Strings?)
  {
    hide KindOf;
    assert data[p + |ps| - 1 - 0] == todo[0];
  }

  /** One property of the second lap and its place in the log. */
  lemma SecondLapLog(w: World, log0: seq<Entry>, log1: seq<Entry>, all: seq<Entry>, ps: Props, c: Cells, parent: Option<Cells>, ds: seq<Data>, p: nat, code: Code, log: seq<Entry>)
    requires ps != [] && |ds| == |ps| && SecondLap(ps, c, parent, ds).Ok?
    requires log1 + LapLog(SecondLap(ps, c, parent, ds).value, p, true) == log0 + all
    requires var r := SecondStep(KindOf(ps[0].0), ps[0].1, c, parent, ds[0]); r.Ok? ==> Follows(w, log1, SecondEntry(p + |ps| - 1, r.value), code, log)
    ensures var r := SecondStep(KindOf(ps[0].0), ps[0].1, c, parent, ds[0]);
            && r.Ok? && SecondLap(ps[1..], c, parent, ds[1..]).Ok?
            && if code == NotFollowed then RunOf(w, log0 + all).LostRun?
               else log + LapLog(SecondLap(ps[1..], c, parent, ds[1..]).value, p, true) == log0 + all
  {
    hide SecondStep, KindOf, RunOf;
    var d := SecondStep(KindOf(ps[0].0), ps[0].1, c, parent, ds[0]).value;
    var rest := SecondLap(ps[1..], c, parent, ds[1..]).value;
    var more, e := LapLog(rest, p, true), SecondEntry(p + |ps| - 1, d);
    var vs := SecondLap(ps, c, parent, ds).value;
    assert vs == [d] + rest && vs[1..] == rest;
    assert LapLog(vs, p, true) == e + more;
    assert log1 + (e + more) == (log1 + e) + more;
    if RunOf(w, log1 + e).LostRun? { LostStays(w, log1 + e, more); }
  }

  // ---------------------------------------------------------------- the log of a subtree

  lemma {:induction false} RewriteCounts(m: Tree, init: Cells, up: Option<Cells>, below: Option<Cells>)
    requires RewriteFrom(m, init, up, below).Ok?
    ensures DataCount(RewriteFrom(m, init, up, below).value) == PropCount(m)
    decreases m, 1
  {
    hide FirstLap, SecondLap;
    RewriteAllCounts(m.children, if below.Some? then below.value else FirstLap(m.props, init).value.1);
  }

  lemma {:induction false} RewriteAllCounts(ms: seq<Tree>, c: Cells)
    requires RewriteAll(ms, c).Ok?
    ensures DataCountAll(RewriteAll(ms, c).value) == PropCountAll(ms)
    decreases ms, 0
  {
    if ms != [] {
      hide RewriteFrom, PropCount, DataCount;
      RewriteCounts(ms[0], Cells(0, 0), Some(c), None);
      RewriteAllCounts(ms[1..], c);
      var all := RewriteAll(ms, c).value;
      assert all[1..] == RewriteAll(ms[1..], c).value;
    }
  }

  lemma KidsLogEnd(log: seq<Entry>, p: nat)
    ensures log + LogAll([], p) == log
  {
    assert LogAll([], p) == [];
  }

  /** One child and its place in the log. */
  lemma KidsLog(w: World, log0: seq<Entry>, log1: seq<Entry>, all: seq<Entry>, ms: seq<Tree>, c: Cells, p: nat, code: Code, log: seq<Entry>)
    requires ms != [] && RewriteAll(ms, c).Ok?
    requires log1 + LogAll(RewriteAll(ms, c).value, p) == log0 + all
    requires var r := RewriteFrom(ms[0], Cells(0, 0), Some(c), None);
             r.Ok? ==> Follows(w, log1, Log(r.value, p + PropCountAll(ms[1..])), code, log)
    ensures var r := RewriteFrom(ms[0], Cells(0, 0), Some(c), None);
            && r.Ok? && RewriteAll(ms[1..], c).Ok?
            && if code == NotFollowed then RunOf(w, log0 + all).LostRun?
               else log + LogAll(RewriteAll(ms[1..], c).value, p) == log0 + all
  {
    hide RewriteFrom, RunOf, Log;
    var d := RewriteFrom(ms[0], Cells(0, 0), Some(c), None).value;
    var rest := RewriteAll(ms[1..], c).value;
    RewriteAllCounts(ms[1..], c);
    var more, e := LogAll(rest, p), Log(d, p + PropCountAll(ms[1..]));
    var ds := RewriteAll(ms, c).value;
    assert ds == [d] + rest && ds[1..] == rest;
    assert LogAll(ds, p) == e + more;
    assert log1 + (e + more) == (log1 + e) + more;
    if RunOf(w, log1 + e).LostRun? { LostStays(w, log1 + e, more); }
  }

  /** The second lap does not change what the first one allocated for. */
  lemma {:induction false} LapLogKept(ps: Props, c: Cells, parent: Option<Cells>, ds: seq<Data>, p: nat)
    requires |ds| == |ps| && RawForSecond(ps, ds) && SecondLap(ps, c, parent, ds).Ok?
    ensures LapLog(SecondLap(ps, c, parent, ds).value, p, false) == LapLog(ds, p, false)
    decreases |ps|
  {
    hide KindOf, SecondStep, InArrays, RawForSecond;
    if ps != [] {
      RawTail(ps, ds);
      SecondKeepsStrings(ps[0], c, parent, ds[0]);
      LapLogKept(ps[1..], c, parent, ds[1..], p);
      var vs := SecondLap(ps, c, parent, ds).value;
      assert vs[1..] == SecondLap(ps[1..], c, parent, ds[1..]).value;
    }
  }

  lemma RawTail(ps: Props, ds: seq<Data>)
    requires ps != [] && |ds| == |ps| && RawForSecond(ps, ds)
    ensures RawForSecond(ps[1..], ds[1..]) && (KindOf(ps[0].0) in {RegProp, RangesProp} ==> ds[0] == Raw)
  {
    hide KindOf, InArrays;
    assert forall i :: 0 <= i < |ps[1..]| ==> ps[1..][i] == ps[i + 1] && ds[1..][i] == ds[i + 1];
  }

  lemma SecondKeepsStrings(p: (bytes, bytes), c: Cells, parent: Option<Cells>, d: Data)
    requires KindOf(p.0) in {RegProp, RangesProp} ==> d == Raw
    requires SecondStep(KindOf(p.0), p.1, c, parent, d).Ok?
    ensures var e := SecondStep(KindOf(p.0), p.1, c, parent, d).value; e == d || (!d.Strings? && !e.Strings?)
  {
    hide KindOf, DtCells.RegRows, DtCells.RangesRows, DtCells.RegAsserts, DtCells.RangesAsserts;
  }

  /** The log of a node: its first lap, its second lap, then its children. A run lost on the way
      is lost as a whole. */
  lemma NodeLog(w: World, log: seq<Entry>, m: Tree, c0: Cells, up: Option<Cells>, below: Option<Cells>, p: nat)
    ensures RewriteFrom(m, c0, up, below).Ok? ==>
              && FirstLap(m.props, c0).Ok?
              && var (first, c) := FirstLap(m.props, c0).value;
              && SecondLap(m.props, c, up, first).Ok? && RewriteAll(m.children, if below.Some? then below.value else c).Ok?
              && var second, kids := SecondLap(m.props, c, up, first).value, RewriteAll(m.children, if below.Some? then below.value else c).value;
              && var x, y, z := LapLog(first, p, false), LapLog(second, p, true), LogAll(kids, p + |m.props|);
              && var all := log + Log(RewriteFrom(m, c0, up, below).value, p);
              && all == ((log + x) + y) + z
              && (RunOf(w, log + x).LostRun? ==> RunOf(w, all).LostRun?)
              && (RunOf(w, (log + x) + y).LostRun? ==> RunOf(w, all).LostRun?)
  {
    hide FirstLap, SecondLap, RewriteAll, RunOf, LapLog, LogAll;
    var r := RewriteFrom(m, c0, up, below);
    if r.Ok? {
      FirstLapLeavesRaw(m.props, c0);
      var (first, c) := FirstLap(m.props, c0).value;
      LapLogKept(m.props, c, up, first, p);
      var x, y := LapLog(first, p, false), LapLog(r.value.data, p, true);
      var z := LogAll(r.value.children, p + |m.props|);
      assert Log(r.value, p) == x + y + z;
      assert log + (x + y + z) == ((log + x) + y) + z && ((log + x) + y) + z == (log + x) + (y + z);
      if RunOf(w, log + x).LostRun? { LostStays(w, log + x, y + z); }
      if RunOf(w, (log + x) + y).LostRun? { LostStays(w, (log + x) + y, z); }
    }
  }

  /** The records of the log's properties point to arrays that read back as computed. */
  ghost predicate ReadsBack(t: Rewriter, entries: seq<Entry>)
    reads t
  {
    forall k :: 0 <= k < |entries| ==>
      && entries[k].id < |t.records| && entries[k].id < |t.data| && t.data[entries[k].id] == entries[k].data && DataOk(entries[k].data)
      && t.records[entries[k].id].InBump? && DataHolds(t.mem, t.records[entries[k].id].ats, entries[k].data, ValueAt(t.values, entries[k].id))
  }

  /** What a run of the pass that should return r leaves: unless an array finds no room, it
      returns that; on success the links from the root lead to the computed tree, named "/", and
      the arrays read back as computed exactly when no two of them clash. */
  ghost predicate Finished(t: Rewriter, w: World, r: Result<Decoded>, code: Code)
    reads t
  {
    && (code == NotFollowed || code == Ran(CodeOf(r)))
    && (r.Ok? ==>
          && (code == NotFollowed <==> RunOf(w, Log(r.value, 0)).LostRun?)
          && (code != NotFollowed ==>
                && t.Stored() && t.root < |t.nodes| && Holds(t.Now(), t.nodes[t.root], r.value.(name := Ascii("/")))
                && (ReadsBack(t, Log(r.value, 0)) <==> ClashFree(Flat(RunOf(w, Log(r.value, 0)).items)))))
  }

  /** parse_from_blob on a blob that holds tree t, whose header and reservation block pass: the
      token loop, then the rewrite pass on its tables. */
  method ParseFromBlob(mem: bytes, w: World, ghost t: Tree, ghost ts: seq<Token>, ghost dict: map<bytes, nat>) returns (code: Code, tables: Rewriter)
    requires DtBlob.Holds(mem, t, ts, dict) && BumpProofs.Inv(w.bump)
    ensures fresh(tables)
    ensures Finished(tables, w, DtMoved.RewriteRoot(Mirror(t)), code)
  {
    hide Exec, Flatten, Laid, RewriteFrom, ReadU32, Holds, StripNops, Mirror, Size, SizeAll, DtBlob.ParseLoop, DtBlob.Laid,
      AsLogged, Recorded, RunOf, Log, ReadsBack, ClashFree, Flat, BumpProofs.Inv;
    LoopResult(mem, t, ts, dict);
    DtMoved.RootLaid(t);
    MirrorCounts(t);
    var tree := new DtBlob.DeviceTree();
    var parse := tree.ParseTokens(mem, ReadU32(mem, 8), ReadU32(mem, 12));
    tables := new Rewriter(parse.s, w);
    code := tables.Run(DtMoved.Reached(Mirror(t)));
    ghost var r := DtMoved.RewriteRoot(Mirror(t));
    if r.Ok? { assert [] + Log(r.value, 0) == Log(r.value, 0); }
    if code == Ran(Result.Ok(())) {
      RecordsRead(tables, w);
    }
  }

  /** Following the records gives what was computed exactly when no two arrays clash. */
  lemma RecordsRead(t: Rewriter, w: World)
    requires t.Stored() && t.start == w && BumpProofs.Inv(w.bump)
    ensures ReadsBack(t, t.log) <==> ClashFree(Flat(RunOf(w, t.log).items))
  {
    hide ClashFree, Flat, BumpProofs.Inv, DataHolds, DataOk, Recorded, RunOf, ReadsBack, LogHolds;
    LoggedRun(w, t.log, t.items, t.bump, t.mem);
    MemoryHoldsIff(w, t.log);
    MemoryIs(w, t.log, t.items, t.bump, t.mem);
    RecordsHold(t);
  }

  lemma MemoryIs(w: World, log: seq<Entry>, items: seq<seq<Array>>, bump: Bump.State, mem: Mem)
    requires AsLogged(w, log, items, bump, mem)
    ensures MemoryAfter(w, log) == mem
  {
    hide RunOf, PutAll, AllStores, AllOk;
  }

  lemma RecordsHold(t: Rewriter)
    requires t.Stored()
    ensures ReadsBack(t, t.log) <==> LogHolds(t.mem, t.log, t.items, t.values)
  {
    hide DataHolds, DataOk, AsLogged, Ats;
  }
}
