/** Which arrays of the rewrite pass survive: all of `reg`, `ranges` with no more parent than child
    cells, and the first half of the strings of `compatible`, whatever else is allocated. */
module DtSurvive {
  import opened Options
  import opened Endian
  import opened DtCells
  import opened DtRewrite
  import opened DtArena
  import opened DtPlace
  import opened DtColumns
  import opened DtMemory
  import opened DtTrees
  import BumpProofs
  import DtMoved

  ghost predicate NoOverrun(a: Array) {
    Extent(a.col) <= a.col.reserved
  }

  lemma {:induction false} ItemApart(items: seq<seq<Array>>, i: nat)
    requires Apart(Flat(items)) && i < |items|
    ensures Apart(items[i])
    decreases |items|
  {
    hide InArray, InReserved, Apart;
    var n := |items| - 1;
    ApartSplit(Flat(items[..n]), items[n]);
    if i < n { ItemApart(items[..n], i); }
  }

  /** A property whose arrays stay inside their reservations keeps all of them. */
  lemma ItemSurvives(mem: Mem, items: seq<seq<Array>>, i: nat)
    requires AllOk(items) && Apart(Flat(items)) && i < |items|
    requires forall c :: 0 <= c < |items[i]| ==> NoOverrun(items[i][c])
    ensures forall c :: 0 <= c < |items[i]| ==> Held(PutAll(mem, AllStores(items)), items[i][c])
  {
    hide Extent, AllOk, AllStores, PutAll, ByteOf, Flat;
    ItemApart(items, i);
    forall c, x: nat | 0 <= c < |items[i]| && InArray(items[i][c], x)
      ensures ByteAt(PutAll(mem, AllStores(items)), x) == ByteOf(items[i][c], x)
    {
      assert InReserved(items[i][c], x);
      forall d | 0 <= d < |items[i]| && InArray(items[i][d], x)
        ensures d == c
      {
        assert InReserved(items[i][d], x);
      }
      ReservedSurvives(mem, items, i, c, x);
    }
  }

  /** No array is written beyond its reservation. */
  predicate Narrow(d: Data) {
    d.RegData? || (d.RangesData? && (d.p <= d.a || d.rows == []))
  }

  lemma {:induction false} StartMonotone(n: nat, v: nat, w: nat)
    requires v <= w || n == 0
    ensures Start(n, v) <= Start(n, w)
  {
    if n > 0 { StartMonotone(n - 1, v, w); }
  }

  lemma NarrowColumns(d: Data, p: nat)
    requires DataOk(d) && Narrow(d)
    ensures forall c :: 0 <= c < |Columns(d, p)| ==> Extent(Columns(d, p)[c]) <= Columns(d, p)[c].reserved
  {
    hide Extent, NumberColumn, P;
    if d.RegData? {
      NarrowColumn(Field(d.rows, 0), d.a, d.a);
      NarrowColumn(Field(d.rows, 1), d.s, d.s);
    } else {
      NarrowColumn(Field(d.rows, 0), d.a, d.a);
      NarrowColumn(Field(d.rows, 1), d.p, d.a);
      NarrowColumn(Field(d.rows, 2), d.s, d.s);
    }
  }

  lemma NarrowColumn(vs: seq<nat>, cells: nat, room: nat)
    requires room <= 2 && (cells <= room || vs == []) && (vs == [] || cells == room || room > 0)
    ensures Extent(NumberColumn(vs, cells, room)) <= NumberColumn(vs, cells, room).reserved
  {
    hide Extent, Numbers;
    NumberColumnOk(vs, cells, room);
    StartMonotone(|vs|, 4 * cells, 4 * room);
  }

  /** After any pass that is followed to its end, every `reg`, and every `ranges` whose parent
      has no more address cells than the node, reads back as computed. */
  lemma NarrowSurvives(w: World, log: seq<Entry>, k: nat)
    requires BumpProofs.Inv(w.bump) && RunOf(w, log).Run? && k < |log| && Narrow(log[k].data)
    ensures |RunOf(w, log).items| == |log| && DataOk(log[k].data)
    ensures DataHolds(MemoryAfter(w, log), Ats(RunOf(w, log).items[k]), log[k].data, ValueAt(w.values, log[k].id))
  {
    hide BumpProofs.Inv, Play, ItemFits, AllStores, AllOk, Apart, DataHolds, Flat, Items, PutAll, Columns, Extent, Narrow, Held;
    ItemsFit(log, w.values);
    PlayOk(w.bump, Items(log, w.values));
    var items, d, p := RunOf(w, log).items, log[k].data, ValueAt(w.values, log[k].id);
    assert FillsOne(ItemOf(d, p), items[k]);
    EntryHeld(MemoryAfter(w, log), log[k], items[k], w.values);
    NarrowColumns(d, p);
    ItemSurvives(w.mem, items, k);
  }

  /** After any such pass the first half of the strings of a `compatible` property is in place. */
  lemma StringsSurvive(w: World, log: seq<Entry>, k: nat, j: nat)
    requires BumpProofs.Inv(w.bump) && RunOf(w, log).Run? && k < |log| && log[k].data.Strings?
    requires j < |log[k].data.strings| && 2 * (j + 1) <= |log[k].data.strings| + 1
    ensures |RunOf(w, log).items| == |log| && |RunOf(w, log).items[k]| == 1
    ensures var strings, at := log[k].data.strings, RunOf(w, log).items[k][0].at;
            ViewHolds(MemoryAfter(w, log), at, j, StringStart(strings, ValueAt(w.values, log[k].id), j), |strings[j]|)
  {
    hide BumpProofs.Inv, Play, ItemFits, AllStores, AllOk, Apart, Flat, Items, PutAll, ViewHolds, Views, ViewCell, Start;
    ItemsFit(log, w.values);
    PlayOk(w.bump, Items(log, w.values));
    var items, strings, p := RunOf(w, log).items, log[k].data.strings, ValueAt(w.values, log[k].id);
    assert FillsOne(ItemOf(log[k].data, p), items[k]);
    var a := items[k][0];
    ViewColumnOk(strings, p);
    StringsRoom(|strings|, j);
    CellSurvives(w.mem, items, k, j);
    ViewAt(strings, p, j);
    ViewCellHolds(MemoryAfter(w, log), a.at, j, StringStart(strings, p, j), |strings[j]|);
  }

  lemma StringsRoom(n: nat, j: nat)
    requires j < n && 2 * (j + 1) <= n + 1
    ensures Start(j, 16) + 16 <= Start(n + 1, 8)
  {
    StartValue(j, 16);
    StartValue(n + 1, 8);
  }

  /** A reserved cell of a property with a single array survives. */
  lemma CellSurvives(mem: Mem, items: seq<seq<Array>>, k: nat, j: nat)
    requires AllOk(items) && Apart(Flat(items)) && k < |items| && |items[k]| == 1
    requires var col := items[k][0].col; ColumnOk(col) && j < |col.cells| && Start(j, col.width) + col.width <= col.reserved
    ensures var a := items[k][0]; Get(PutAll(mem, AllStores(items)), a.at + Start(j, a.col.width), a.col.width) == a.col.cells[j]
  {
    hide AllStores, PutAll, Flat, AllOk, Apart, Bytes, Get, Start;
    var a := items[k][0];
    var w, x0, end := a.col.width, a.at + Start(j, a.col.width), PutAll(mem, AllStores(items));
    CellBytes(a.col.cells, j, w);
    forall i | 0 <= i < w
      ensures Get(end, x0, w)[i] == a.col.cells[j][i]
    {
      assert InArray(a, x0 + i) && InReserved(a, x0 + i);
      ReservedSurvives(mem, items, k, 0, x0 + i);
      assert a.col.cells[j][i] == Bytes(a.col.cells)[Start(j, w)..Start(j, w) + w][i];
    }
  }

  /** Nothing clashes when only the last property allocated for is written beyond its
      reservations: no `ranges` with more parent than child cells, and no `compatible`. */
  lemma NarrowHolds(w: World, log: seq<Entry>)
    requires BumpProofs.Inv(w.bump) && RunOf(w, log).Run?
    requires forall k :: 0 <= k < |log| ==> Narrow(log[k].data)
    ensures LogHolds(MemoryAfter(w, log), log, RunOf(w, log).items, w.values)
    ensures ClashFree(Flat(RunOf(w, log).items))
  {
    hide BumpProofs.Inv, RunOf, MemoryAfter, DataHolds, DataOk, Narrow, ClashFree, Flat;
    MemoryHoldsIff(w, log);
    LogLength(w, log);
    forall k | 0 <= k < |log|
      ensures DataOk(log[k].data) && DataHolds(MemoryAfter(w, log), Ats(RunOf(w, log).items[k]), log[k].data, ValueAt(w.values, log[k].id))
    {
      NarrowSurvives(w, log, k);
    }
  }

  /** Every tree without `compatible` and without a bus whose parent has more address cells is
      decoded whenever the pass succeeds, the root is usable and all arrays find room. */
  lemma NarrowDecodes(w: World, t: Tree)
    requires WellNamed(t) && BumpProofs.Inv(w.bump) && Rewrite(Mirror(t), None).Ok? && DtMoved.RootUsable(t)
    requires var log := Log(Rewrite(Mirror(t), None).value, 0); RunOf(w, log).Run? && forall k :: 0 <= k < |log| ==> Narrow(log[k].data)
    ensures RootDecodes(w, t)
  {
    hide BumpProofs.Inv, Rewrite, Log, RunOf, Mirror, RootDecodes, DtMoved.RootUsable, WellNamed, Narrow, ClashFree, LogHolds, MemoryAfter;
    NarrowHolds(w, Log(Rewrite(Mirror(t), None).value, 0));
    RootDecodesIff(w, t);
  }

  lemma LogLength(w: World, log: seq<Entry>)
    requires BumpProofs.Inv(w.bump) && RunOf(w, log).Run?
    ensures |RunOf(w, log).items| == |log|
  {
    hide BumpProofs.Inv, Play, ItemFits, Items, AllOk, Apart, Flat, Fills;
    ItemsFit(log, w.values);
    PlayOk(w.bump, Items(log, w.values));
    FillsLength(Items(log, w.values), Play(w.bump, Items(log, w.values)).items);
  }

  lemma FillsLength(items: seq<Item>, arrays: seq<seq<Array>>)
    requires Fills(items, arrays)
    ensures |arrays| == |items|
  {
    hide FillsOne;
  }

  /** The property allocated for last keeps a single array whole. */
  lemma LastSurvives(mem: Mem, items: seq<seq<Array>>)
    requires items != [] && AllOk(items) && |items[|items| - 1]| == 1
    ensures Held(PutAll(mem, AllStores(items)), items[|items| - 1][0])
  {
    hide ItemStores, PutAll, ByteOf, InArray, ItemOk;
    var n := |items| - 1;
    var front, a := items[..n], items[n][0];
    PutAllAppend(mem, AllStores(front), ItemStores(items[n]));
    forall x: nat | InArray(a, x)
      ensures ByteAt(PutAll(mem, AllStores(items)), x) == ByteOf(a, x)
    {
      ItemByte(PutAll(mem, AllStores(front)), items[n], x);
      assert InSome(items[n], x);
    }
  }

  /** A `compatible` array is whole, its closing empty view included, when nothing is allocated
      after it. */
  lemma LastHolds(w: World, log: seq<Entry>)
    requires BumpProofs.Inv(w.bump) && RunOf(w, log).Run? && log != [] && log[|log| - 1].data.Strings?
    ensures var n := |log| - 1;
            && |RunOf(w, log).items| == |log| && DataOk(log[n].data)
            && DataHolds(MemoryAfter(w, log), Ats(RunOf(w, log).items[n]), log[n].data, ValueAt(w.values, log[n].id))
  {
    hide BumpProofs.Inv, Play, ItemFits, AllStores, AllOk, Apart, DataHolds, Flat, Items, PutAll, Views, ViewCell, Held;
    ItemsFit(log, w.values);
    PlayOk(w.bump, Items(log, w.values));
    var items, n := RunOf(w, log).items, |log| - 1;
    EntryHeld(MemoryAfter(w, log), log[n], items[n], w.values) by {
      assert FillsOne(ItemOf(log[n].data, ValueAt(w.values, log[n].id)), items[n]);
    }
    LastSurvives(w.mem, items);
  }
}
