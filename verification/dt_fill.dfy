/** The loops of property_rewrite_reg, property_rewrite_ranges and the `compatible` branch, which
    fill arrays in byte memory. */
module DtFill {
  import opened Endian
  import opened DtTokens
  import opened DtCells
  import opened DtArena
  import opened DtColumns

  lemma LoopStep(mem: Mem, arrays: seq<Array>, i: nat)
    requires forall c :: 0 <= c < |arrays| ==> i < |arrays[c].col.cells|
    ensures PutAll(mem, LoopStores(arrays, i + 1)) == PutAll(PutAll(mem, LoopStores(arrays, i)), RowStores(arrays, i))
  {
    hide PutAll, RowStores;
    PutAllAppend(mem, LoopStores(arrays, i), RowStores(arrays, i));
  }

  /** Cell i of an array. */
  function CellStore(a: Array, i: nat): Store
    requires i < |a.col.cells|
  {
    Store(a.at + Start(i, a.col.width), a.col.cells[i])
  }

  lemma RowTwo(mem: Mem, x: Array, y: Array, i: nat)
    requires i < |x.col.cells| && i < |y.col.cells|
    ensures var sx, sy := CellStore(x, i), CellStore(y, i);
            PutAll(mem, RowStores([x, y], i)) == Put(Put(mem, sx.at, sx.bs), sy.at, sy.bs)
  {
    hide Put;
    var sx, sy := CellStore(x, i), CellStore(y, i);
    assert [x, y][1..] == [y] && [y][1..] == [];
    assert RowStores([y], i) == [sy] + RowStores([], i) == [sy];
    assert RowStores([x, y], i) == [sx, sy] && [sx, sy][..1] == [sx] && [sx][..0] == [];
    assert PutAll(mem, [sx]) == Put(PutAll(mem, []), sx.at, sx.bs);
  }

  lemma RowThree(mem: Mem, x: Array, y: Array, z: Array, i: nat)
    requires i < |x.col.cells| && i < |y.col.cells| && i < |z.col.cells|
    ensures var sx, sy, sz := CellStore(x, i), CellStore(y, i), CellStore(z, i);
            PutAll(mem, RowStores([x, y, z], i)) == Put(Put(Put(mem, sx.at, sx.bs), sy.at, sy.bs), sz.at, sz.bs)
  {
    hide Put, PutAll, RowStores;
    var sx, sy, sz := CellStore(x, i), CellStore(y, i), CellStore(z, i);
    assert RowStores([x, y, z], i) == RowStores([x, y], i) + [sz] by { RowThreeStores(x, y, z, i); }
    PutAllAppend(mem, RowStores([x, y], i), [sz]);
    RowTwo(mem, x, y, i);
    PutOne(PutAll(mem, RowStores([x, y], i)), sz);
  }

  lemma RowThreeStores(x: Array, y: Array, z: Array, i: nat)
    requires i < |x.col.cells| && i < |y.col.cells| && i < |z.col.cells|
    ensures RowStores([x, y, z], i) == RowStores([x, y], i) + [CellStore(z, i)]
  {
    RowStoresAre([x, y, z], i);
    RowStoresAre([x, y], i);
  }

  lemma PutOne(mem: Mem, s: Store)
    ensures PutAll(mem, [s]) == Put(mem, s.at, s.bs)
  {
    hide Put;
    assert [s][..0] == [] && PutAll(mem, []) == mem;
  }

  /** A store of no bytes. */
  lemma PutNone(mem: Mem, at: nat, v: nat)
    ensures Put(mem, at, Native(v, 0)) == mem
  {
  }

  function RegArrays(rows: seq<seq<nat>>, a: nat, s: nat, aAt: nat, sAt: nat): seq<Array>
    requires forall i :: 0 <= i < |rows| ==> |rows[i]| == 2
  {
    [Array(aAt, NumberColumn(Field(rows, 0), a, a)), Array(sAt, NumberColumn(Field(rows, 1), s, s))]
  }

  /** Filling the two arrays of a `reg` value, for up to two cells each. */
  method FillReg(mem: Mem, v: bytes, a: nat, s: nat, pairs: nat, aAt: nat, sAt: nat) returns (m: Mem)
    requires a <= 2 && s <= 2 && RegAsserts(|v|, a, s) && pairs == |v| / (4 * a + 4 * s)
    ensures var arrays := RegArrays(RegRows(v, a, s), a, s, aAt, sAt); ItemOk(arrays) && m == PutAll(mem, ItemStores(arrays))
  {
    hide ReadCells, RegRows, RegAsserts, Put, PutAll, LoopStores, RowStores, ColumnOk, Native, NumberColumn, Field;
    ghost var rows := RegRows(v, a, s);
    ghost var arrays := RegArrays(rows, a, s, aAt, sAt);
    ghost var x, y := arrays[0], arrays[1];
    assert |rows| == pairs && arrays == [x, y];
    RegArraysOk(rows, a, s, aAt, sAt);
    m := mem;
    var j: nat := 0;
    NoRows(mem, arrays);
    for i := 0 to pairs
      invariant j == Start(i, 4 * a + 4 * s)
      invariant m == PutAll(mem, LoopStores(arrays, i))
    {
      LoopStep(mem, arrays, i);
      RegRow(v, a, s, i);
      RowPut(m, x, y, i, rows[i][0], 4 * a, rows[i][1], 4 * s);
      if a > 0 {
        m := Put(m, aAt + Start(i, 4 * a), Native(ReadCells(v, j, a), 4 * a));
      }
      j := j + 4 * a;
      if s > 0 {
        m := Put(m, sAt + Start(i, 4 * s), Native(ReadCells(v, j, s), 4 * s));
      }
      j := j + 4 * s;
    }
  }

  /** A store of a number, which the loops leave out when its width is 0. */
  function PutNumber(m: Mem, at: nat, v: nat, w: nat): Mem {
    if w == 0 then m else Put(m, at, Native(v, w))
  }

  lemma PutNumberIsPut(m: Mem, at: nat, v: nat, w: nat)
    ensures PutNumber(m, at, v, w) == Put(m, at, Native(v, w))
  {
    if w == 0 { PutNone(m, at, v); }
  }

  /** What one row of two numbers stores. */
  lemma RowPut(m: Mem, x: Array, y: Array, i: nat, u: nat, w: nat, v: nat, z: nat)
    requires i < |x.col.cells| && i < |y.col.cells|
    requires CellStore(x, i).bs == Native(u, w) && CellStore(y, i).bs == Native(v, z)
    ensures PutAll(m, RowStores([x, y], i)) == PutNumber(PutNumber(m, CellStore(x, i).at, u, w), CellStore(y, i).at, v, z)
  {
    hide Put, PutAll, RowStores, Native, PutNumber, CellStore;
    var sx, sy := CellStore(x, i), CellStore(y, i);
    RowTwo(m, x, y, i);
    PutNumberIsPut(m, sx.at, u, w);
    PutNumberIsPut(Put(m, sx.at, sx.bs), sy.at, v, z);
  }

  lemma NoRows(mem: Mem, arrays: seq<Array>)
    ensures PutAll(mem, LoopStores(arrays, 0)) == mem
  {
  }

  lemma RegArraysOk(rows: seq<seq<nat>>, a: nat, s: nat, aAt: nat, sAt: nat)
    requires a <= 2 && s <= 2 && forall i :: 0 <= i < |rows| ==> |rows[i]| == 2
    ensures var arrays := RegArrays(rows, a, s, aAt, sAt);
            && ItemOk(arrays) && RowCount(arrays) == |rows|
            && forall i :: 0 <= i < |rows| ==>
                 && CellStore(arrays[0], i) == Store(aAt + Start(i, 4 * a), Native(rows[i][0], 4 * a))
                 && CellStore(arrays[1], i) == Store(sAt + Start(i, 4 * s), Native(rows[i][1], 4 * s))
  {
    hide ColumnOk, Native;
    RegColumnsOk(Field(rows, 0), Field(rows, 1), a, s);
  }

  function RangesArrays(rows: seq<seq<nat>>, a: nat, p: nat, s: nat, cAt: nat, pAt: nat, sAt: nat): seq<Array>
    requires forall i :: 0 <= i < |rows| ==> |rows[i]| == 3
  {
    [Array(cAt, NumberColumn(Field(rows, 0), a, a)), Array(pAt, NumberColumn(Field(rows, 1), p, a)),
     Array(sAt, NumberColumn(Field(rows, 2), s, s))]
  }

  /** Filling the three arrays of a `ranges` value, for one or two address cells on each side. */
  method FillRanges(mem: Mem, v: bytes, a: nat, p: nat, s: nat, trips: nat, cAt: nat, pAt: nat, sAt: nat) returns (m: Mem)
    requires 1 <= a <= 2 && 1 <= p <= 2 && s <= 2 && RangesAsserts(|v|, a, p, s) && trips == |v| / (4 * a + 4 * p + 4 * s)
    ensures var arrays := RangesArrays(RangesRows(v, a, p, s), a, p, s, cAt, pAt, sAt);
            ItemOk(arrays) && m == PutAll(mem, ItemStores(arrays))
  {
    hide ReadCells, RangesRows, RangesAsserts, Put, PutAll, LoopStores, RowStores, NumberColumn, ColumnOk, Native, Field;
    ghost var rows := RangesRows(v, a, p, s);
    ghost var arrays := RangesArrays(rows, a, p, s, cAt, pAt, sAt);
    ghost var x, y, z := arrays[0], arrays[1], arrays[2];
    assert |rows| == trips;
    RangesArraysOk(rows, a, p, s, cAt, pAt, sAt);
    m := mem;
    var j: nat := 0;
    NoRows(mem, arrays);
    for i := 0 to trips
      invariant j == Start(i, 4 * a + 4 * p + 4 * s)
      invariant m == PutAll(mem, LoopStores(arrays, i))
    {
      RangesRow(v, a, p, s, i);
      LoopStep(mem, arrays, i);
      RowThree(m, x, y, z, i);
      m := Put(m, cAt + Start(i, 4 * a), Native(ReadCells(v, j, a), 4 * a));
      j := j + 4 * a;
      m := Put(m, pAt + Start(i, 4 * p), Native(ReadCells(v, j, p), 4 * p));
      j := j + 4 * p;
      PutNone(m, sAt + Start(i, 0), rows[i][2]);
      if s > 0 {
        m := Put(m, sAt + Start(i, 4 * s), Native(ReadCells(v, j, s), 4 * s));
      }
      j := j + 4 * s;
    }
  }

  lemma RangesArraysOk(rows: seq<seq<nat>>, a: nat, p: nat, s: nat, cAt: nat, pAt: nat, sAt: nat)
    requires 1 <= a <= 2 && s <= 2 && forall i :: 0 <= i < |rows| ==> |rows[i]| == 3
    ensures var arrays := RangesArrays(rows, a, p, s, cAt, pAt, sAt);
            && ItemOk(arrays) && RowCount(arrays) == |rows|
            && forall i :: 0 <= i < |rows| ==>
                 && CellStore(arrays[0], i) == Store(cAt + Start(i, 4 * a), Native(rows[i][0], 4 * a))
                 && CellStore(arrays[1], i) == Store(pAt + Start(i, 4 * p), Native(rows[i][1], 4 * p))
                 && CellStore(arrays[2], i) == Store(sAt + Start(i, 4 * s), Native(rows[i][2], 4 * s))
  {
    hide ColumnOk, Native;
    RangesColumnsOk(Field(rows, 0), Field(rows, 1), Field(rows, 2), a, p, s);
  }

  function ViewArray(strings: seq<bytes>, p: nat, at: nat): Array {
    Array(at, Column(16, Start(|strings| + 1, 8), 8, Views(strings, p) + [ViewCell(0, 0)]))
  }

  lemma ViewStores(mem: Mem, strings: seq<bytes>, p: nat, at: nat, k: nat)
    requires k <= |strings|
    ensures var a := ViewArray(strings, p, at);
            && ItemOk([a]) && RowCount([a]) == |strings| + 1
            && PutAll(mem, LoopStores([a], k + 1)) ==
                 Put(PutAll(mem, LoopStores([a], k)), at + Start(k, 16),
                     if k < |strings| then ViewCell(StringStart(strings, p, k), |strings[k]|) else ViewCell(0, 0))
  {
    hide Put, PutAll, LoopStores, RowStores, ViewCell, Views, ColumnOk, StringStart;
    var a := ViewArray(strings, p, at);
    ViewColumnOk(strings, p);
    LoopStep(mem, [a], k);
    assert RowStores([a], k) == [CellStore(a, k)] by { RowStoresAre([a], k); }
    PutOne(PutAll(mem, LoopStores([a], k)), CellStore(a, k));
    if k < |strings| { ViewAt(strings, p, k); }
  }

  /** Filling the array of a `compatible` value at address p: one view per string, then an empty
      one. */
  method FillViews(mem: Mem, v: bytes, p: nat, count: nat, at: nat) returns (m: Mem)
    requires NulEnded(v) && count == CountNuls(v)
    ensures var a := ViewArray(Strings(v, 0), p, at); ItemOk([a]) && m == PutAll(mem, ItemStores([a]))
  {
    hide Strings, CountNuls, FindNul, Put, PutAll, LoopStores, ViewCell, StringStart;
    ghost var strings := Strings(v, 0);
    ghost var a := ViewArray(strings, p, at);
    assert v[0..] == v;
    CountStrings(v, 0);
    m := mem;
    NoRows(mem, [a]);
    FirstString(strings, p);
    StringsEnd(v);
    var i: nat, j: nat := 0, 0;
    while i < |v|
      invariant i <= |v| && j <= count
      invariant strings[j..] == Strings(v, i) && StringStart(strings, p, j) == p + i
      invariant m == PutAll(mem, LoopStores([a], j))
    {
      ghost var end := StringsStep(v, i);
      var e := FindNul(v, i);
      assert |strings[j..]| == |Strings(v, i)| > 0 && strings[j..][0] == strings[j] && strings[j..][1..] == strings[j + 1..];
      ViewStores(mem, strings, p, at, j);
      m := Put(m, at + Start(j, 16), ViewCell(p + i, e - i));
      NextString(strings, p, j);
      i := e + 1;
      j := j + 1;
    }
    assert |strings[j..]| == 0;
    ViewStores(mem, strings, p, at, count);
    m := Put(m, at + Start(count, 16), ViewCell(0, 0));
  }

  lemma FirstString(strings: seq<bytes>, p: nat)
    ensures StringStart(strings, p, 0) == p && strings[0..] == strings
  {
  }

  lemma NextString(strings: seq<bytes>, p: nat, k: nat)
    requires k < |strings|
    ensures StringStart(strings, p, k + 1) == StringStart(strings, p, k) + |strings[k]| + 1
  {
  }
}
