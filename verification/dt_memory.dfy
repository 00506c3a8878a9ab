/** The rewrite pass with its memory: which arrays it allocates in which order, and when memory
    still holds all of them at the end. */
module DtMemory {
  import opened Options
  import opened Endian
  import opened DtTokens
  import opened DtTrees
  import opened DtNames
  import opened DtRewrite
  import opened DtArena
  import opened DtPlace
  import opened DtColumns
  import BumpProofs
  import Bump
  import DtCells
  import DtMoved

  // ---------------------------------------------------------------- the order of allocation

  /** Property number `id` gets arrays for `data`. */
  datatype Entry = Entry(id: nat, data: Data)

  /** One lap over a property list whose properties are numbered from p on, newest first: the
      first lap allocates for `compatible`, the second for `reg` and `ranges`. */
  function LapLog(ds: seq<Data>, p: nat, second: bool): seq<Entry> {
    if ds == [] then []
    else (if InArrays(ds[0]) && ds[0].Strings? == !second then [Entry(p + |ds| - 1, ds[0])] else []) + LapLog(ds[1..], p, second)
  }

  function DataCount(d: Decoded): nat
    decreases d, 1
  {
    |d.data| + DataCountAll(d.children)
  }

  function DataCountAll(ds: seq<Decoded>): nat
    decreases ds, 0
  {
    if ds == [] then 0 else DataCount(ds[0]) + DataCountAll(ds[1..])
  }

  /** A node, whose subtree's properties are numbered from p on, then its children. */
  function Log(d: Decoded, p: nat): seq<Entry>
    decreases d, 1
  {
    LapLog(d.data, p, false) + LapLog(d.data, p, true) + LogAll(d.children, p + |d.data|)
  }

  function LogAll(ds: seq<Decoded>, p: nat): seq<Entry>
    decreases ds, 0
  {
    if ds == [] then [] else Log(ds[0], p + DataCountAll(ds[1..])) + LogAll(ds[1..], p)
  }

  // ---------------------------------------------------------------- a run with memory

  /** The allocator and memory before the pass, and the addresses of the property values. */
  datatype World = World(bump: Bump.State, mem: Mem, values: seq<nat>)

  function Items(log: seq<Entry>, values: seq<nat>): (items: seq<Item>)
    ensures |items| == |log| && forall k :: 0 <= k < |log| ==> items[k] == ItemOf(log[k].data, ValueAt(values, log[k].id))
  {
    if log == [] then []
    else
      var e := log[|log| - 1];
      Items(log[..|log| - 1], values) + [ItemOf(e.data, ValueAt(values, e.id))]
  }

  function ValueAt(values: seq<nat>, id: nat): nat {
    if id < |values| then values[id] else 0
  }

  function RunOf(w: World, log: seq<Entry>): Run {
    Play(w.bump, Items(log, w.values))
  }

  ghost function MemoryAfter(w: World, log: seq<Entry>): Mem {
    var r := RunOf(w, log);
    if r.Run? && AllOk(r.items) then PutAll(w.mem, AllStores(r.items)) else w.mem
  }

  /** Every array, read where the pass put it, gives what was computed. */
  ghost predicate LogHolds(mem: Mem, log: seq<Entry>, items: seq<seq<Array>>, values: seq<nat>) {
    |items| == |log| && forall k :: 0 <= k < |log| ==> DataOk(log[k].data) && DataHolds(mem, Ats(items[k]), log[k].data, ValueAt(values, log[k].id))
  }

  lemma ItemsFit(log: seq<Entry>, values: seq<nat>)
    ensures forall k :: 0 <= k < |log| ==> ItemFits(Items(log, values)[k])
  {
    hide ItemFits, ItemOf, Items;
    forall k | 0 <= k < |log|
      ensures ItemFits(ItemOf(log[k].data, ValueAt(values, log[k].id)))
    {
      EntryFits(log[k].data, ValueAt(values, log[k].id));
    }
  }

  lemma EntryFits(d: Data, p: nat)
    ensures ItemFits(ItemOf(d, p))
  {
    hide Columns, DataOk;
    if DataOk(d) { ColumnsOk(d, p); }
  }

  /** After the pass every array reads back as computed exactly when no byte written beyond a
      reservation is a different byte of a later array. */
  lemma MemoryHoldsIff(w: World, log: seq<Entry>)
    requires BumpProofs.Inv(w.bump) && RunOf(w, log).Run?
    ensures LogHolds(MemoryAfter(w, log), log, RunOf(w, log).items, w.values) <==> ClashFree(Flat(RunOf(w, log).items))
  {
    hide BumpProofs.Inv, Play, ItemFits, AllHeld, ClashFree, Apart, AllOk, Fills, LogHolds, Flat, Items, PutAll;
    ItemsFit(log, w.values);
    PlayOk(w.bump, Items(log, w.values));
    HeldIff(w.bump, Items(log, w.values), w.mem);
    LogIsHeld(MemoryAfter(w, log), log, RunOf(w, log).items, w.values);
  }

  lemma LogIsHeld(mem: Mem, log: seq<Entry>, items: seq<seq<Array>>, values: seq<nat>)
    requires Fills(Items(log, values), items)
    ensures LogHolds(mem, log, items, values) <==> AllHeld(mem, items)
  {
    hide Held, DataHolds, DataOk, Columns, Flat, Items, FillsOne;
    forall k | 0 <= k < |log|
      ensures DataOk(log[k].data)
      ensures (forall c :: 0 <= c < |items[k]| ==> Held(mem, items[k][c])) <==> DataHolds(mem, Ats(items[k]), log[k].data, ValueAt(values, log[k].id))
    {
      EntryHeld(mem, log[k], items[k], values);
    }
    HeldByItem(mem, items);
  }

  lemma EntryHeld(mem: Mem, e: Entry, arrays: seq<Array>, values: seq<nat>)
    requires FillsOne(ItemOf(e.data, ValueAt(values, e.id)), arrays)
    ensures DataOk(e.data)
    ensures (forall c :: 0 <= c < |arrays| ==> Held(mem, arrays[c])) <==> DataHolds(mem, Ats(arrays), e.data, ValueAt(values, e.id))
  {
    hide Held, DataHolds, Columns, DataOk;
    HeldIsData(mem, arrays, e.data, ValueAt(values, e.id));
  }

  lemma HeldByItem(mem: Mem, items: seq<seq<Array>>)
    ensures AllHeld(mem, items) <==> forall i, c :: 0 <= i < |items| && 0 <= c < |items[i]| ==> Held(mem, items[i][c])
  {
    hide Held, Flat;
    if AllHeld(mem, items) {
      forall i, c | 0 <= i < |items| && 0 <= c < |items[i]|
        ensures Held(mem, items[i][c])
      {
        var f := FlatAt(items, i, c);
      }
    }
    if forall i, c :: 0 <= i < |items| && 0 <= c < |items[i]| ==> Held(mem, items[i][c]) {
      forall f | 0 <= f < |Flat(items)|
        ensures Held(mem, Flat(items)[f])
      {
        var i, c := FlatFrom(items, f);
      }
    }
  }

  // ---------------------------------------------------------------- what the pass computes fits its arrays

  ghost predicate AllOkIn(d: Decoded)
    decreases d, 1
  {
    (forall i :: 0 <= i < |d.data| ==> DataOk(d.data[i])) && forall i :: 0 <= i < |d.children| ==> AllOkIn(d.children[i])
  }

  lemma SecondStepFits(k: Kind, v: bytes, c: Cells, parent: Option<Cells>, d: Data)
    requires DataOk(d) && SecondStep(k, v, c, parent, d).Ok?
    ensures DataOk(SecondStep(k, v, c, parent, d).value)
  {
    hide DtCells.RegRows, DtCells.RangesRows, P;
    if k == RegProp && parent.Some? && DtCells.RegAsserts(|v|, parent.value.a, parent.value.s) {
      DtCells.RegRowsFit(v, parent.value.a, parent.value.s);
    }
    if k == RangesProp && v != [] && parent.Some? && DtCells.RangesAsserts(|v|, c.a, parent.value.a, c.s) {
      DtCells.RangesRowsFit(v, c.a, parent.value.a, c.s);
    }
  }

  lemma FirstStepFits(k: Kind, v: bytes, c: Cells)
    requires FirstStep(k, v, c).Ok?
    ensures DataOk(FirstStep(k, v, c).value.0)
  {
    hide ReadU32, DtCells.NulEnded, DtCells.Strings, P;
  }

  lemma {:induction false} FirstLapFits(ps: Props, c: Cells)
    requires FirstLap(ps, c).Ok?
    ensures forall i :: 0 <= i < |ps| ==> DataOk(FirstLap(ps, c).value.0[i])
    decreases |ps|
  {
    if ps != [] {
      hide KindOf, FirstStep, DataOk;
      FirstStepFits(KindOf(ps[0].0), ps[0].1, c);
      FirstLapFits(ps[1..], FirstStep(KindOf(ps[0].0), ps[0].1, c).value.1);
    }
  }

  lemma {:induction false} SecondLapFits(ps: Props, c: Cells, parent: Option<Cells>, ds: seq<Data>)
    requires |ds| == |ps| && (forall i :: 0 <= i < |ps| ==> DataOk(ds[i])) && SecondLap(ps, c, parent, ds).Ok?
    ensures forall i :: 0 <= i < |ps| ==> DataOk(SecondLap(ps, c, parent, ds).value[i])
    decreases |ps|
  {
    if ps != [] {
      hide KindOf, SecondStep, DataOk;
      SecondStepFits(KindOf(ps[0].0), ps[0].1, c, parent, ds[0]);
      SecondLapFits(ps[1..], c, parent, ds[1..]);
    }
  }

  lemma {:induction false} RewriteFits(t: Tree, init: Cells, parent: Option<Cells>, below: Option<Cells>)
    requires RewriteFrom(t, init, parent, below).Ok?
    ensures AllOkIn(RewriteFrom(t, init, parent, below).value)
    decreases t, 1
  {
    hide FirstLap, SecondLap, DataOk;
    FirstLapFits(t.props, init);
    var (first, c) := FirstLap(t.props, init).value;
    SecondLapFits(t.props, c, parent, first);
    RewriteAllFits(t.children, if below.Some? then below.value else c);
  }

  lemma {:induction false} RewriteAllFits(ts: seq<Tree>, c: Cells)
    requires RewriteAll(ts, c).Ok?
    ensures forall i :: 0 <= i < |ts| ==> AllOkIn(RewriteAll(ts, c).value[i])
    decreases ts, 0
  {
    hide RewriteFrom, AllOkIn;
    if ts != [] {
      RewriteFits(ts[0], Cells(0, 0), Some(c), None);
      RewriteAllFits(ts[1..], c);
    }
  }

  ghost predicate AllOkLog(log: seq<Entry>) {
    forall k :: 0 <= k < |log| ==> DataOk(log[k].data) && InArrays(log[k].data)
  }

  lemma {:induction false} LapLogFits(ds: seq<Data>, p: nat, second: bool)
    requires forall i :: 0 <= i < |ds| ==> DataOk(ds[i])
    ensures AllOkLog(LapLog(ds, p, second))
    decreases |ds|
  {
    hide DataOk;
    if ds != [] { LapLogFits(ds[1..], p, second); }
  }

  /** The only arrays of a successful pass that are not followed are those of three cells. */
  lemma {:induction false} LogFits(d: Decoded, p: nat)
    requires AllOkIn(d)
    ensures AllOkLog(Log(d, p))
    decreases d, 1
  {
    hide DataOk, LapLog, InArrays;
    LapLogFits(d.data, p, false);
    LapLogFits(d.data, p, true);
    LogAllFits(d.children, p + |d.data|);
  }

  lemma {:induction false} LogAllFits(ds: seq<Decoded>, p: nat)
    requires forall i :: 0 <= i < |ds| ==> AllOkIn(ds[i])
    ensures AllOkLog(LogAll(ds, p))
    decreases ds, 0
  {
    hide DataOk, InArrays, Log, AllOkIn;
    if ds != [] {
      LogFits(ds[0], p + DataCountAll(ds[1..]));
      LogAllFits(ds[1..], p);
    }
  }

  // ---------------------------------------------------------------- the main results

  /** The pass on tree t succeeds, is followed to its end, computes what t says, and every array
      still reads back as that afterwards. */
  ghost predicate Decodes(w: World, t: Tree, parent: Option<Cells>, p: nat) {
    && Rewrite(t, parent).Ok?
    && var d := Rewrite(t, parent).value;
    && RunOf(w, Log(d, p)).Run?
    && IsComputed(t, parent, d)
    && LogHolds(MemoryAfter(w, Log(d, p)), Log(d, p), RunOf(w, Log(d, p)).items, w.values)
  }

  /** With sound parent links: tree t is decoded, arrays included, exactly when the pass
      succeeds, all arrays find room, and no array written beyond its reservation clashes with
      a later one. */
  lemma RewriteDecodesIff(w: World, t: Tree, parent: Option<Cells>, p: nat)
    requires WellNamed(t) && BumpProofs.Inv(w.bump)
    ensures Decodes(w, t, parent, p) <==>
              && Rewrite(t, parent).Ok?
              && var run := RunOf(w, Log(Rewrite(t, parent).value, p)); run.Run? && ClashFree(Flat(run.items))
  {
    hide Rewrite, Log, RunOf, MemoryAfter, LogHolds, ClashFree, IsComputed, BumpProofs.Inv, WellNamed;
    if Rewrite(t, parent).Ok? {
      var log := Log(Rewrite(t, parent).value, p);
      RewriteComputes(t, parent);
      if RunOf(w, log).Run? { MemoryHoldsIff(w, log); }
    }
  }

  /** What parse_from_blob leaves of tree t decodes t. */
  ghost predicate RootDecodes(w: World, t: Tree) {
    && DtMoved.RewriteRoot(Mirror(t)).Ok?
    && var d := DtMoved.RewriteRoot(Mirror(t)).value;
    && RunOf(w, Log(d, 0)).Run?
    && IsComputed(t, None, MirrorDecoded(d))
    && LogHolds(MemoryAfter(w, Log(d, 0)), Log(d, 0), RunOf(w, Log(d, 0)).items, w.values)
  }

  /** parse_from_blob decodes tree t, arrays included, exactly when the pass with sound parent
      links succeeds, the record at `&nodes[0]` is usable, all arrays find room, and no array
      written beyond its reservation clashes with a later one. */
  lemma RootDecodesIff(w: World, t: Tree)
    requires WellNamed(t) && BumpProofs.Inv(w.bump)
    ensures RootDecodes(w, t) <==>
              && Rewrite(Mirror(t), None).Ok? && DtMoved.RootUsable(t)
              && var run := RunOf(w, Log(Rewrite(Mirror(t), None).value, 0)); run.Run? && ClashFree(Flat(run.items))
  {
    hide Rewrite, Log, RunOf, MemoryAfter, LogHolds, ClashFree, IsComputed, BumpProofs.Inv, WellNamed, DtMoved.RootUsable, DtMoved.RewriteRoot, Mirror;
    DtMoved.RootComputesIff(t);
    DtMoved.RootSame(t);
    if DtMoved.RewriteRoot(Mirror(t)).Ok? {
      var log := Log(DtMoved.RewriteRoot(Mirror(t)).value, 0);
      if RunOf(w, log).Run? { MemoryHoldsIff(w, log); }
    }
  }
}
