/** Two small trees with every value in order whose arrays overwrite each other: a bus whose
    parent has more address cells, and a `compatible` with two strings before a `reg`. */
module DtWitness {
  import opened Options
  import opened Num
  import opened Endian
  import opened DtTokens
  import opened DtTrees
  import opened DtNames
  import opened DtRewrite
  import opened DtArena
  import opened DtPlace
  import opened DtColumns
  import opened DtMemory
  import Bump
  import BumpProofs
  import Pmm
  import Slab
  import BumpWitness
  import DtCells
  import DtMoved
  import DtOverlap
  import DtStored

  // ---------------------------------------------------------------- placing in a fresh page

  /** A column that fits behind the pointer goes there. */
  lemma PlaceInside(b: Bump.State, col: Column, bytes: nat)
    requires BumpWitness.Roomy(b, bytes) && b.regions != [] && ColumnOk(col) && 0 < col.reserved <= LIMIT
    requires var c := Bump.Current(b); c.curr % col.alignment == 0 && c.curr + col.reserved <= c.end && c.curr + Extent(col) <= c.end
    ensures var c, p := Bump.Current(b), PlaceColumn(b, col);
            && p.Placed? && p.arrays == [Array(c.curr, col)]
            && BumpWitness.Roomy(p.bump, bytes) && p.bump.regions != []
            && Bump.Current(p.bump).curr == c.curr + col.reserved && Bump.Current(p.bump).end == c.end
  {
    hide BumpProofs.Inv, AlignUp, ColumnOk, Extent, Bump.Take, Bump.AllocAligned;
    DtOverlap.ColumnAlignment(col);
    SmallPowers();
    BumpProofs.EndRoom(b);
    AlignUpValue(Bump.Current(b).curr, col.alignment);
    BumpWitness.StaysInside(b, col.reserved, col.alignment);
  }

  /** The first column of an empty allocator goes behind the header of its first page. */
  lemma PlaceFirst(b: Bump.State, col: Column, bytes: nat) returns (b1: Bump.State)
    requires BumpWitness.Roomy(b, bytes) && b.regions == [] && bytes >= PAGE_SIZE && ColumnOk(col)
    requires 0 < col.reserved <= PAGE_SIZE - Bump.HEADER && Extent(col) <= PAGE_SIZE - Bump.HEADER
    ensures b1.regions != [] && Bump.Current(b1).end == Bump.Current(b1).base + PAGE_SIZE && Bump.Current(b1).base % PAGE_SIZE == 0
    ensures Bump.Current(b1).curr == Bump.Current(b1).base + Bump.HEADER && BumpWitness.Roomy(b1, bytes - PAGE_SIZE)
    ensures PlaceColumn(b1, col).Placed? ==> PlaceColumn(b, col) == PlaceColumn(b1, col)
  {
    hide BumpProofs.Inv, AlignUp, ColumnOk, Extent, Bump.Take, Bump.NewSize, Bump.AddRegion, Bump.AllocAligned;
    DtOverlap.ColumnAlignment(col);
    BumpWitness.FirstPage(b, bytes);
    b1 := Bump.AddRegion(b, PAGE_SIZE).1;
    BumpWitness.FirstRequest(b, col.reserved, col.alignment);
    BaseAligned(b1);
  }

  lemma BaseAligned(b: Bump.State)
    requires BumpProofs.Inv(b) && b.regions != []
    ensures Bump.Current(b).base % PAGE_SIZE == 0
  {
    assert BumpProofs.RegionOk(b.pmm, b.hhdm, Bump.Current(b));
  }

  /** The first byte a store of a number writes is its lowest. */
  lemma NativeLow(v: nat, n: nat)
    requires n > 0
    ensures Native(v, n)[0] == v % 256
  {
  }

  // ---------------------------------------------------------------- a bus with one address cell

  /** One row: child address 0, parent address 2^32, size 4096. */
  function BusRows(): (rows: seq<seq<nat>>)
    ensures |rows| == 1 && |rows[0]| == 3
  {
    [[0, 0x1_0000_0000, 0x1000]]
  }

  function BusValue(): bytes {
    DtCells.EncodeRows(BusRows(), [1, 2, 1])
  }

  /** A root with one bus: one address cell, one size cell, and the row above as its ranges. */
  function BusTree(): Tree {
    Tree([], [], [Tree([], [(ADDRESS_CELLS, ToBytes(1, 4)), (SIZE_CELLS, ToBytes(1, 4)), (RANGES, BusValue())], [])])
  }

  lemma OneWord()
    ensures ReadU32(ToBytes(1, 4), 0) == 1
  {
    hide ReadU32, ToBytes;
    Constants();
    BigToBytes(1, 4);
    ReadValue(ToBytes(1, 4), 0);
    assert ToBytes(1, 4)[0..4] == ToBytes(1, 4);
  }

  lemma BusRowsBack()
    ensures |BusValue()| == 16 && DtCells.RangesAsserts(16, 1, 2, 1) && DtCells.RangesRows(BusValue(), 1, 2, 1) == BusRows()
  {
    hide DtCells.EncodeRow, DtCells.DecodeRow;
    var rows, ws := BusRows(), [1, 2, 1];
    DtCells.ThreeFields(1, 2, 1);
    BusFits();
    DtCells.RowsBack(rows, ws);
    assert DtCells.Start(1, 16) == DtCells.Start(0, 16) + 16;
  }

  lemma BusFits()
    ensures DtCells.RowFits(BusRows()[0], [1, 2, 1])
  {
    Constants();
  }

  /** The bus as the pass reads it, newest property first. */
  function BusNode(): Tree {
    Tree([], [(RANGES, BusValue()), (SIZE_CELLS, ToBytes(1, 4)), (ADDRESS_CELLS, ToBytes(1, 4))], [])
  }

  lemma BusMirror()
    ensures Mirror(BusTree()) == Tree([], [], [BusNode()])
  {
    hide BusValue, RANGES, SIZE_CELLS, ADDRESS_CELLS, REG, COMPATIBLE, ToBytes;
    var t, bus := BusTree(), BusTree().children[0];
    assert t.children[1..] == [];
    assert MirrorAll([]) == [] && MirrorAll(t.children) == [Mirror(bus)];
    var ps := bus.props;
    assert Reverse(ps) == [ps[2], ps[1], ps[0]] by { ReverseThree(ps); }
  }

  lemma ReverseThree(ps: Props)
    requires |ps| == 3
    ensures Reverse(ps) == [ps[2], ps[1], ps[0]]
  {
    hide Reverse;
    var r := Reverse(ps);
    ReverseAt(ps, 0);
    ReverseAt(ps, 1);
    ReverseAt(ps, 2);
  }

  lemma FirstLapCons(ps: Props, c: Cells, d: Data, c1: Cells, ds: seq<Data>, c2: Cells)
    requires ps != [] && FirstStep(KindOf(ps[0].0), ps[0].1, c) == Result.Ok((d, c1)) && FirstLap(ps[1..], c1) == Result.Ok((ds, c2))
    ensures FirstLap(ps, c) == Result.Ok(([d] + ds, c2))
  {
    hide FirstStep, KindOf;
  }

  lemma SecondLapCons(ps: Props, c: Cells, parent: Option<Cells>, ds: seq<Data>, d: Data, es: seq<Data>)
    requires ps != [] && |ds| == |ps| && SecondStep(KindOf(ps[0].0), ps[0].1, c, parent, ds[0]) == Result.Ok(d)
    requires SecondLap(ps[1..], c, parent, ds[1..]) == Result.Ok(es)
    ensures SecondLap(ps, c, parent, ds) == Result.Ok([d] + es)
  {
    hide SecondStep, KindOf;
  }

  ghost predicate BusProps(ps: Props) {
    && |ps| == 3 && KindOf(ps[0].0) == RangesProp && KindOf(ps[1].0) == SizeCellsProp && KindOf(ps[2].0) == AddressCellsProp
    && |ps[1].1| == |ps[2].1| == 4 && ReadU32(ps[1].1, 0) == ReadU32(ps[2].1, 0) == 1
  }

  lemma BusNodeProps()
    ensures BusProps(BusNode().props) && BusNode().props[0].1 == BusValue()
  {
    hide BusValue, KindOf, ReadU32, ToBytes, RANGES, SIZE_CELLS, ADDRESS_CELLS;
    KindNames(RANGES);
    KindNames(SIZE_CELLS);
    KindNames(ADDRESS_CELLS);
    OneWord();
  }

  lemma {:induction false} BusFirstLap(ps: Props)
    requires BusProps(ps)
    ensures FirstLap(ps, Cells(0, 0)) == Result.Ok(([Raw, Word(1), Word(1)], Cells(1, 1)))
  {
    hide KindOf, ReadU32;
    var a, b, e := ps[1..], ps[1..][1..], ps[1..][1..][1..];
    assert e == [] && FirstLap(e, Cells(1, 1)) == Result.Ok(([], Cells(1, 1)));
    var w := Word(1);
    FirstLapCons(b, Cells(0, 1), w, Cells(1, 1), [], Cells(1, 1));
    FirstLapCons(a, Cells(0, 0), w, Cells(0, 1), [w] + [], Cells(1, 1));
    FirstLapCons(ps, Cells(0, 0), Raw, Cells(0, 0), [w] + ([w] + []), Cells(1, 1));
    assert [Raw] + ([w] + ([w] + [])) == [Raw, w, w];
  }

  lemma {:induction false} BusSecondLap(ps: Props, v: bytes)
    requires BusProps(ps) && ps[0].1 == v && |v| == 16 && DtCells.RangesAsserts(16, 1, 2, 1)
    ensures SecondLap(ps, Cells(1, 1), Some(Cells(2, 1)), [Raw, Word(1), Word(1)]) ==
              Result.Ok([RangesData(1, 2, 1, DtCells.RangesRows(v, 1, 2, 1)), Word(1), Word(1)])
  {
    hide KindOf, ReadU32, DtCells.RangesRows;
    var c, up, w := Cells(1, 1), Some(Cells(2, 1)), Word(1);
    var ds := [Raw, w, w];
    var a, b, e := ps[1..], ps[1..][1..], ps[1..][1..][1..];
    assert e == [] && ds[1..] == [w, w] && [w, w][1..] == [w] && [w][1..] == [];
    assert SecondLap(e, c, up, []) == Result.Ok([]);
    SecondLapCons(b, c, up, [w], w, []);
    SecondLapCons(a, c, up, [w, w], w, [w] + []);
    var d := RangesData(1, 2, 1, DtCells.RangesRows(v, 1, 2, 1));
    SecondLapCons(ps, c, up, ds, d, [w] + ([w] + []));
    assert [d] + ([w] + ([w] + [])) == [d, w, w];
  }

  function BusDecoded(): Decoded {
    Decoded([], Cells(2, 1), [], [Decoded([], Cells(1, 1), [RangesData(1, 2, 1, BusRows()), Word(1), Word(1)], [])])
  }

  lemma BusRewrite()
    ensures Rewrite(Mirror(BusTree()), None) == Result.Ok(BusDecoded())
  {
    hide FirstLap, SecondLap, BusValue, BusRows, DtCells.RangesRows, DtCells.RangesAsserts, KindOf, RANGES, SIZE_CELLS, ADDRESS_CELLS, REG, COMPATIBLE, ToBytes;
    BusMirror();
    BusNodeProps();
    BusRowsBack();
    var m, ps := BusNode(), BusNode().props;
    BusFirstLap(ps);
    BusSecondLap(ps, BusValue());
    NoChildren(Cells(1, 1));
    var d := Decoded([], Cells(1, 1), [RangesData(1, 2, 1, BusRows()), Word(1), Word(1)], []);
    assert Rewrite(m, Some(Cells(2, 1))) == Result.Ok(d);
    RootOf(m, d);
  }

  /** A root without properties and with one child. */
  lemma RootOf(m: Tree, d: Decoded)
    requires Rewrite(m, Some(Cells(2, 1))) == Result.Ok(d)
    ensures Rewrite(Tree([], [], [m]), None) == Result.Ok(Decoded([], Cells(2, 1), [], [d]))
  {
    hide Rewrite;
    NoChildren(Cells(2, 1));
    assert [m][1..] == [] && [d] + [] == [d];
    assert RewriteAll([m], Cells(2, 1)) == Result.Ok([d]);
    NoProps();
    RootRewrite(Tree([], [], [m]), [d]);
  }

  lemma NoChildren(c: Cells)
    ensures RewriteAll([], c) == Result.Ok([])
  {
  }

  lemma NoProps()
    ensures FirstLap([], Cells(2, 1)) == Result.Ok(([], Cells(2, 1))) && SecondLap([], Cells(2, 1), None, []) == Result.Ok([])
  {
  }

  lemma RootRewrite(t: Tree, ds: seq<Decoded>)
    requires FirstLap(t.props, Cells(2, 1)) == Result.Ok(([], Cells(2, 1))) && SecondLap(t.props, Cells(2, 1), None, []) == Result.Ok([])
    requires RewriteAll(t.children, Cells(2, 1)) == Result.Ok(ds)
    ensures Rewrite(t, None) == Result.Ok(Decoded(t.name, Cells(2, 1), [], ds))
  {
    hide FirstLap, SecondLap, RewriteAll;
  }

  lemma BusLog()
    ensures Log(BusDecoded(), 0) == [Entry(2, RangesData(1, 2, 1, BusRows()))]
  {
    hide BusRows, LapLog;
    var d := BusDecoded();
    var bus := d.children[0];
    var a, b := bus.data[1..], bus.data[1..][1..];
    assert b[1..] == [];
    forall second
      ensures LapLog(a, 0, second) == LapLog(b, 0, second) == [] && LapLog([], 0, second) == []
      ensures LapLog(bus.data, 0, second) == if second then [Entry(2, bus.data[0])] else []
    {
      LapLogStep(b, second);
      LapLogStep(a, second);
      LapLogStep(bus.data, second);
      NoLapLog(second);
    }
    assert LapLog([], 0, false) == [] && LapLog([], 0, true) == [] && LogAll([], 3) == [];
    LogLeaf(bus, 0);
    LogRoot(d, bus);
  }

  lemma LapLogStep(ds: seq<Data>, second: bool)
    requires ds != []
    ensures LapLog(ds, 0, second) ==
              (if InArrays(ds[0]) && ds[0].Strings? == !second then [Entry(|ds| - 1, ds[0])] else []) + LapLog(ds[1..], 0, second)
  {
    hide InArrays;
  }

  lemma NoLapLog(second: bool)
    ensures LapLog([], 0, second) == []
  {
  }

  lemma LogLeaf(d: Decoded, p: nat)
    requires d.children == []
    ensures Log(d, p) == LapLog(d.data, p, false) + LapLog(d.data, p, true)
  {
    hide LapLog;
    assert LogAll([], p + |d.data|) == [];
  }

  /** A root whose only child is d. */
  lemma LogRoot(r: Decoded, d: Decoded)
    requires r.children == [d]
    ensures Log(r, 0) == LapLog(r.data, 0, false) + LapLog(r.data, 0, true) + Log(d, |r.data|)
  {
    hide LapLog;
    assert r.children[1..] == [] && DataCountAll([]) == 0 && LogAll([], |r.data|) == [];
    assert LogAll(r.children, |r.data|) == Log(d, |r.data|) + [];
  }

  /** Two columns of a word each behind one another. */
  lemma PlaceRest(b: Bump.State, y: Column, z: Column) returns (b1: Bump.State, b2: Bump.State)
    requires BumpWitness.Roomy(b, 0) && b.regions != [] && ColumnOk(y) && ColumnOk(z)
    requires y.reserved == z.reserved == y.alignment == z.alignment == 4 && Extent(y) <= 8 && Extent(z) <= 4
    requires var c := Bump.Current(b); c.curr % 4 == 0 && c.curr + 8 <= c.end
    ensures PlaceColumn(b, y) == Placed([Array(Bump.Current(b).curr, y)], b1)
    ensures PlaceColumn(b1, z) == Placed([Array(Bump.Current(b).curr + 4, z)], b2)
  {
    hide ColumnOk, Extent, PlaceColumn, BumpWitness.Roomy;
    PlaceInside(b, y, 0);
    b1 := PlaceColumn(b, y).bump;
    PlaceInside(b1, z, 0);
    b2 := PlaceColumn(b1, z).bump;
  }

  /** Three columns of one number each, one word apart, in the first page of an allocator. */
  lemma PlaceRow(b: Bump.State, u: nat, v: nat, z: nat) returns (x: nat, b': Bump.State)
    requires BumpWitness.Roomy(b, PAGE_SIZE) && b.regions == []
    ensures PlaceAll(b, [NumberColumn([u], 1, 1), NumberColumn([v], 2, 1), NumberColumn([z], 1, 1)])
              == Placed([Array(x, NumberColumn([u], 1, 1)), Array(x + 4, NumberColumn([v], 2, 1)), Array(x + 8, NumberColumn([z], 1, 1))], b')
  {
    hide NumberColumn, ColumnOk, Extent, PlaceColumn, PlaceAll, BumpWitness.Roomy;
    var cx, cy, cz := NumberColumn([u], 1, 1), NumberColumn([v], 2, 1), NumberColumn([z], 1, 1);
    OneNumber(u, 1, 1);
    OneNumber(v, 2, 1);
    OneNumber(z, 1, 1);
    var b1 := PlaceFirst(b, cx, PAGE_SIZE);
    x := Bump.Current(b1).curr;
    PlaceInside(b1, cx, 0);
    var b2 := PlaceColumn(b1, cx).bump;
    var b3;
    b3, b' := PlaceRest(b2, cy, cz);
    DtStored.PlaceThree(b, cx, cy, cz);
    DtStored.PlaceTwo(b2, cy, cz);
    assert [Array(x, cx)] + ([Array(x + 4, cy)] + [Array(x + 8, cz)]) == [Array(x, cx), Array(x + 4, cy), Array(x + 8, cz)];
  }

  /** A log of one entry. */
  lemma RunOne(w: World, e: Entry)
    ensures RunOf(w, [e]) == match Place(w.bump, ItemOf(e.data, ValueAt(w.values, e.id)))
                             case Lost => LostRun
                             case Placed(arrays, b) => Run([arrays], b)
  {
    hide ItemOf, Place;
    assert [e][..0] == [] && Items([], w.values) == [];
    var it := ItemOf(e.data, ValueAt(w.values, e.id));
    assert Items([e], w.values) == [it] && [it][..0] == [] && Play(w.bump, []) == Run([], w.bump);
    match Place(w.bump, it) {
      case Placed(arrays, b) => assert [] + [arrays] == [arrays];
      case _ =>
    }
  }

  /** The high word of the parent address and the size share four bytes. */
  lemma BusClash(x: nat)
    ensures var arrays := [Array(x, NumberColumn([0], 1, 1)), Array(x + 4, NumberColumn([0x1_0000_0000], 2, 1)), Array(x + 8, NumberColumn([0x1000], 1, 1))];
            !ClashFree(arrays)
  {
    hide NumberColumn, Native;
    var v, z := 0x1_0000_0000, 0x1000;
    var arrays := [Array(x, NumberColumn([0], 1, 1)), Array(x + 4, NumberColumn([v], 2, 1)), Array(x + 8, NumberColumn([z], 1, 1))];
    OneNumber(v, 2, 1);
    OneNumber(z, 1, 1);
    DtOverlap.NativeWords(v);
    NativeLow(1, 4);
    NativeLow(z, 4);
    var p, s := arrays[1], arrays[2];
    assert Overrun(p, x + 8) && InArray(s, x + 8);
    assert ByteOf(p, x + 8) == Native(v, 8)[4] == Native(v / WORD32, 4)[0];
    assert ByteOf(p, x + 8) == 1 && ByteOf(s, x + 8) == 0;
    assert arrays[1] == p && arrays[2] == s;
  }

  /** A concrete tree that is not decoded although every value is in order: after the pass the
      parent address of its bus reads back wrongly. */
  lemma BusWitness(w: World)
    requires BumpWitness.Roomy(w.bump, PAGE_SIZE) && w.bump.regions == []
    ensures WellNamed(BusTree()) && Rewrite(Mirror(BusTree()), None).Ok? && DtMoved.RootUsable(BusTree())
    ensures RunOf(w, Log(Rewrite(Mirror(BusTree()), None).value, 0)).Run? && !RootDecodes(w, BusTree())
  {
    hide BumpProofs.Inv, Rewrite, Mirror, Log, RunOf, ClashFree, NumberColumn, PlaceAll, RootDecodes, DtMoved.RootUsable, BusTree, BusDecoded, WellNamed;
    BusRewrite();
    BusLog();
    BusSound();
    var x, b' := PlaceRow(w.bump, 0, 0x1_0000_0000, 0x1000);
    BusRun(w, x, b');
    BusClash(x);
    RootDecodesIff(w, BusTree());
  }

  lemma BusRun(w: World, x: nat, b': Bump.State)
    requires PlaceAll(w.bump, [NumberColumn([0], 1, 1), NumberColumn([0x1_0000_0000], 2, 1), NumberColumn([0x1000], 1, 1)])
             == Placed([Array(x, NumberColumn([0], 1, 1)), Array(x + 4, NumberColumn([0x1_0000_0000], 2, 1)), Array(x + 8, NumberColumn([0x1000], 1, 1))], b')
    ensures var run := RunOf(w, [Entry(2, RangesData(1, 2, 1, BusRows()))]);
            && run.Run?
            && Flat(run.items) == [Array(x, NumberColumn([0], 1, 1)), Array(x + 4, NumberColumn([0x1_0000_0000], 2, 1)), Array(x + 8, NumberColumn([0x1000], 1, 1))]
  {
    hide NumberColumn, PlaceAll, RunOf;
    RunOne(w, Entry(2, RangesData(1, 2, 1, BusRows())));
    BusColumns(ValueAt(w.values, 2));
    var arrays := [Array(x, NumberColumn([0], 1, 1)), Array(x + 4, NumberColumn([0x1_0000_0000], 2, 1)), Array(x + 8, NumberColumn([0x1000], 1, 1))];
    FlatOne(arrays);
  }

  lemma FlatOne(arrays: seq<Array>)
    ensures Flat([arrays]) == arrays
  {
    assert [arrays][..0] == [] && Flat([]) == [] && [] + arrays == arrays;
  }

  lemma BusColumns(p: nat)
    ensures ItemOf(RangesData(1, 2, 1, BusRows()), p) == Arrays([NumberColumn([0], 1, 1), NumberColumn([0x1_0000_0000], 2, 1), NumberColumn([0x1000], 1, 1)])
  {
    hide NumberColumn;
    Constants();
    var rows := BusRows();
    assert Field(rows, 0) == [0] && Field(rows, 1) == [0x1_0000_0000] && Field(rows, 2) == [0x1000];
  }

  lemma BusSound()
    ensures WellNamed(BusTree()) && DtMoved.RootUsable(BusTree())
  {
    hide BusValue, RANGES, SIZE_CELLS, ADDRESS_CELLS, REG, COMPATIBLE, ToBytes;
    var bus := BusTree().children[0];
    Lengths();
    assert WellNamed(bus);
    assert SizeAll([]) == 0 && Size(bus) == 1;
    assert BusTree().children[1..] == [];
    assert SizeAll(BusTree().children) == 1;
  }

  // ---------------------------------------------------------------- two strings before an address

  /** The strings "a" and "b". */
  function TwoStrings(): bytes {
    [97, 0, 98, 0]
  }

  function ZeroRows(): (rows: seq<seq<nat>>)
    ensures |rows| == 1 && |rows[0]| == 2
  {
    [[0, 0]]
  }

  function ZeroReg(): bytes {
    DtCells.EncodeRows(ZeroRows(), [2, 1])
  }

  /** A root with two compatible strings, and one device at address 0. */
  function CompatTree(): Tree {
    Tree([], [(COMPATIBLE, TwoStrings())], [Tree([], [(REG, ZeroReg())], [])])
  }

  lemma CompatMirror()
    ensures Mirror(CompatTree()) == CompatTree()
  {
    hide ZeroReg, RANGES, SIZE_CELLS, ADDRESS_CELLS, REG, COMPATIBLE, TwoStrings;
    var t, dev := CompatTree(), CompatTree().children[0];
    assert t.children[1..] == [] && MirrorAll([]) == [] && MirrorAll(t.children) == [Mirror(dev)];
    ReverseOne(t.props);
    ReverseOne(dev.props);
  }

  lemma ReverseOne(ps: Props)
    requires |ps| == 1
    ensures Reverse(ps) == ps
  {
    assert ps[1..] == [] && Reverse(ps[1..]) == [];
  }

  lemma StringsAre()
    ensures DtCells.NulEnded(TwoStrings()) && DtCells.Strings(TwoStrings(), 0) == [[97], [98]]
  {
    var v := TwoStrings();
    assert FindNul(v, 1) == 1 && FindNul(v, 0) == 1 && FindNul(v, 3) == 3 && FindNul(v, 2) == 3;
    assert v[0..1] == [97] && v[2..3] == [98];
    assert DtCells.Strings(v, 4) == [] && DtCells.Strings(v, 2) == [[98]] + [];
  }

  lemma ZeroRegBack()
    ensures |ZeroReg()| == 12 && DtCells.RegAsserts(12, 2, 1) && DtCells.RegRows(ZeroReg(), 2, 1) == ZeroRows()
  {
    hide DtCells.EncodeRow, DtCells.DecodeRow;
    var rows, ws := ZeroRows(), [2, 1];
    DtCells.TwoFields(2, 1);
    Constants();
    assert DtCells.RowFits(rows[0], ws);
    DtCells.RowsBack(rows, ws);
    assert DtCells.Start(1, 12) == DtCells.Start(0, 12) + 12;
  }

  function CompatDecoded(): Decoded {
    Decoded([], Cells(2, 1), [Data.Strings([[97], [98]])], [Decoded([], Cells(0, 0), [RegData(2, 1, ZeroRows())], [])])
  }

  lemma CompatRoot()
    ensures var ps := CompatTree().props;
            && FirstLap(ps, Cells(2, 1)) == Result.Ok(([Data.Strings([[97], [98]])], Cells(2, 1)))
            && SecondLap(ps, Cells(2, 1), None, [Data.Strings([[97], [98]])]) == Result.Ok([Data.Strings([[97], [98]])])
  {
    hide KindOf, RANGES, SIZE_CELLS, ADDRESS_CELLS, REG, COMPATIBLE, ZeroReg, TwoStrings, DtCells.Strings, DtCells.NulEnded;
    KindNames(COMPATIBLE);
    StringsAre();
    NoProps();
    var ps, d := CompatTree().props, Data.Strings([[97], [98]]);
    assert ps[1..] == [] && [d] + [] == [d] && [d][1..] == [];
    FirstLapCons(ps, Cells(2, 1), d, Cells(2, 1), [], Cells(2, 1));
    SecondLapCons(ps, Cells(2, 1), None, [d], d, []);
  }

  lemma CompatChild()
    ensures Rewrite(CompatTree().children[0], Some(Cells(2, 1))) == Result.Ok(CompatDecoded().children[0])
  {
    hide KindOf, RANGES, SIZE_CELLS, ADDRESS_CELLS, REG, COMPATIBLE, ZeroReg, ZeroRows, TwoStrings, DtCells.RegRows, FirstLap, SecondLap;
    KindNames(REG);
    ZeroRegBack();
    NoPropsAt(Cells(0, 0), Some(Cells(2, 1)));
    NoChildren(Cells(0, 0));
    var ps, d := CompatTree().children[0].props, RegData(2, 1, ZeroRows());
    assert ps[1..] == [] && [Raw] + [] == [Raw] && [Raw][1..] == [] && [d] + [] == [d];
    FirstLapCons(ps, Cells(0, 0), Raw, Cells(0, 0), [], Cells(0, 0));
    SecondLapCons(ps, Cells(0, 0), Some(Cells(2, 1)), [Raw], d, []);
  }

  lemma NoPropsAt(c: Cells, parent: Option<Cells>)
    ensures FirstLap([], c) == Result.Ok(([], c)) && SecondLap([], c, parent, []) == Result.Ok([])
  {
  }

  lemma CompatRewrite()
    ensures Rewrite(Mirror(CompatTree()), None) == Result.Ok(CompatDecoded())
  {
    hide FirstLap, SecondLap, RANGES, SIZE_CELLS, ADDRESS_CELLS, REG, COMPATIBLE, ZeroReg, TwoStrings, Mirror;
    CompatMirror();
    CompatRoot();
    CompatChild();
    NoChildren(Cells(2, 1));
    var t, d := CompatTree(), CompatDecoded();
    assert t.children[1..] == [] && d.children[0..1] == d.children;
    OneChild(t.children, Cells(2, 1), d.children[0]);
    PassOf(t, d);
  }

  lemma OneChild(ts: seq<Tree>, c: Cells, d: Decoded)
    requires |ts| == 1 && Rewrite(ts[0], Some(c)) == Result.Ok(d)
    ensures RewriteAll(ts, c) == Result.Ok([d])
  {
    hide Rewrite;
    NoChildren(c);
    assert ts[1..] == [] && [d] + [] == [d];
  }

  lemma PassOf(t: Tree, d: Decoded)
    requires FirstLap(t.props, Cells(2, 1)) == Result.Ok((d.data, d.cells)) && SecondLap(t.props, d.cells, None, d.data) == Result.Ok(d.data)
    requires RewriteAll(t.children, d.cells) == Result.Ok(d.children) && t.name == d.name
    ensures Rewrite(t, None) == Result.Ok(d)
  {
    hide FirstLap, SecondLap, RewriteAll;
  }

  lemma CompatLog()
    ensures Log(CompatDecoded(), 0) == [Entry(0, Data.Strings([[97], [98]])), Entry(1, RegData(2, 1, ZeroRows()))]
  {
    hide ZeroRows;
    var d := CompatDecoded();
    var dev := d.children[0];
    assert d.data[1..] == [] && dev.data[1..] == [];
    assert LapLog(d.data, 0, false) == [Entry(0, d.data[0])] && LapLog(d.data, 0, true) == [];
    assert LapLog(dev.data, 1, false) == [] && LapLog(dev.data, 1, true) == [Entry(1, dev.data[0])];
    LogLeaf(dev, 1);
    LogRoot(d, dev);
  }

  /** The array of the two strings at address p. */
  function CompatColumn(p: nat): Column {
    Column(16, 24, 8, Views([[97], [98]], p) + [ViewCell(0, 0)])
  }

  lemma CompatColumnIs(p: nat)
    ensures ItemOf(Data.Strings([[97], [98]]), p) == Arrays([CompatColumn(p)])
    ensures ColumnOk(CompatColumn(p)) && Extent(CompatColumn(p)) == 48
  {
    hide Views, ViewCell, ColumnOk, Extent;
    var strings: seq<bytes> := [[97], [98]];
    ViewColumnOk(strings, p);
    DtCells.StartValue(3, 8);
    DtCells.StartValue(3, 16);
  }

  lemma ZeroColumns(p: nat)
    ensures ItemOf(RegData(2, 1, ZeroRows()), p) == Arrays([NumberColumn([0], 2, 2), NumberColumn([0], 1, 1)])
  {
    hide NumberColumn;
    Constants();
    assert Field(ZeroRows(), 0) == [0] && Field(ZeroRows(), 1) == [0];
  }

  /** The two arrays of the device behind an aligned pointer. */
  lemma PlaceDevice(b: Bump.State) returns (b': Bump.State)
    requires BumpWitness.Roomy(b, 0) && b.regions != []
    requires Bump.Current(b).curr % 8 == 0 && Bump.Current(b).curr + 12 <= Bump.Current(b).end
    ensures var x := Bump.Current(b).curr;
            PlaceAll(b, [NumberColumn([0], 2, 2), NumberColumn([0], 1, 1)])
              == Placed([Array(x, NumberColumn([0], 2, 2)), Array(x + 8, NumberColumn([0], 1, 1))], b')
  {
    hide NumberColumn, ColumnOk, Extent, PlaceColumn, PlaceAll, BumpWitness.Roomy, Bump.Current;
    var ca, cs, x := NumberColumn([0], 2, 2), NumberColumn([0], 1, 1), Bump.Current(b).curr;
    OneNumber(0, 2, 2);
    OneNumber(0, 1, 1);
    PlaceInside(b, ca, 0);
    var b1 := PlaceColumn(b, ca).bump;
    PlaceInside(b1, cs, 0);
    b' := PlaceColumn(b1, cs).bump;
    DtStored.PlaceTwo(b, ca, cs);
    assert [Array(x, ca)] + [Array(x + 8, cs)] == [Array(x, ca), Array(x + 8, cs)];
  }

  /** The three arrays behind each other in the first page. */
  lemma PlaceCompat(b: Bump.State, p: nat) returns (x: nat, b1: Bump.State, b2: Bump.State)
    requires BumpWitness.Roomy(b, PAGE_SIZE) && b.regions == []
    ensures PlaceAll(b, [CompatColumn(p)]) == Placed([Array(x, CompatColumn(p))], b1)
    ensures PlaceAll(b1, [NumberColumn([0], 2, 2), NumberColumn([0], 1, 1)])
              == Placed([Array(x + 24, NumberColumn([0], 2, 2)), Array(x + 32, NumberColumn([0], 1, 1))], b2)
  {
    hide NumberColumn, ColumnOk, Extent, PlaceColumn, PlaceAll, BumpWitness.Roomy, Views, ViewCell;
    var c := CompatColumn(p);
    CompatColumnIs(p);
    var b0 := PlaceFirst(b, c, PAGE_SIZE);
    x := Bump.Current(b0).curr;
    PlaceInside(b0, c, 0);
    b1 := PlaceColumn(b0, c).bump;
    b2 := PlaceDevice(b1);
    DtStored.PlaceOne(b, c);
  }

  /** The length of the second string and the address of the device share eight bytes. */
  lemma CompatClash(x: nat, p: nat)
    ensures !ClashFree([Array(x, CompatColumn(p)), Array(x + 24, NumberColumn([0], 2, 2)), Array(x + 32, NumberColumn([0], 1, 1))])
  {
    hide NumberColumn, Native, Views, ColumnOk;
    var arrays := [Array(x, CompatColumn(p)), Array(x + 24, NumberColumn([0], 2, 2)), Array(x + 32, NumberColumn([0], 1, 1))];
    var a, r := arrays[0], arrays[1];
    CompatColumnIs(p);
    OneNumber(0, 2, 2);
    NativeLow(0, 8);
    NativeLow(1, 8);
    var strings: seq<bytes> := [[97], [98]];
    ViewAt(strings, p, 1);
    CellBytes(a.col.cells, 1, 16);
    DtCells.StartValue(1, 16);
    assert Bytes(a.col.cells)[16..32][8] == Native(1, 8)[0] == 1;
    assert Overrun(a, x + 24) && InArray(r, x + 24);
    assert ByteOf(a, x + 24) == 1 && ByteOf(r, x + 24) == 0;
  }

  lemma RunTwo(w: World, e: Entry, f: Entry, x: seq<Array>, y: seq<Array>, b1: Bump.State, b2: Bump.State)
    requires Place(w.bump, ItemOf(e.data, ValueAt(w.values, e.id))) == Placed(x, b1)
    requires Place(b1, ItemOf(f.data, ValueAt(w.values, f.id))) == Placed(y, b2)
    ensures RunOf(w, [e, f]) == Run([x, y], b2) && Flat([x, y]) == x + y
  {
    hide ItemOf, Place, RunOf;
    RunOne(w, e);
    DtStored.RunMore(w, [e], f);
    assert [e] + [f] == [e, f] && [x] + [y] == [x, y];
    assert [x, y][..1] == [x];
    FlatOne(x);
  }

  /** A concrete tree that is not decoded although every value is in order: the device's address
      overwrites the length of the second compatible string. */
  lemma CompatWitness(w: World)
    requires BumpWitness.Roomy(w.bump, PAGE_SIZE) && w.bump.regions == []
    ensures WellNamed(CompatTree()) && Rewrite(Mirror(CompatTree()), None).Ok? && DtMoved.RootUsable(CompatTree())
    ensures RunOf(w, Log(Rewrite(Mirror(CompatTree()), None).value, 0)).Run? && !RootDecodes(w, CompatTree())
  {
    hide BumpProofs.Inv, Rewrite, Mirror, Log, RunOf, ClashFree, NumberColumn, PlaceAll, ItemOf, RootDecodes, DtMoved.RootUsable, CompatTree, CompatDecoded,
      WellNamed, CompatColumn;
    CompatRewrite();
    CompatLog();
    CompatSound();
    var p, q := ValueAt(w.values, 0), ValueAt(w.values, 1);
    var x, b1, b2 := PlaceCompat(w.bump, p);
    CompatColumnIs(p);
    ZeroColumns(q);
    var ca, cs := NumberColumn([0], 2, 2), NumberColumn([0], 1, 1);
    var first, second := [Array(x, CompatColumn(p))], [Array(x + 24, ca), Array(x + 32, cs)];
    RunTwo(w, Entry(0, Data.Strings([[97], [98]])), Entry(1, RegData(2, 1, ZeroRows())), first, second, b1, b2);
    assert first + second == [Array(x, CompatColumn(p)), Array(x + 24, ca), Array(x + 32, cs)];
    CompatClash(x, p);
    RootDecodesIff(w, CompatTree());
  }

  lemma CompatSound()
    ensures WellNamed(CompatTree()) && DtMoved.RootUsable(CompatTree())
  {
    hide ZeroReg, RANGES, SIZE_CELLS, ADDRESS_CELLS, REG, COMPATIBLE;
    var dev := CompatTree().children[0];
    assert WellNamed(dev);
    assert SizeAll([]) == 0 && Size(dev) == 1;
    assert CompatTree().children[1..] == [];
    assert SizeAll(CompatTree().children) == 1;
  }

  /** Both, on an allocator and memory manager as they are after boot with two free pages. */
  lemma NotDecodedAfterBoot(buf: nat, hhdm: u64, mem: Mem, values: seq<nat>)
    requires Slab.GrowAccepts(buf, Slab.RegionSize(Pmm.INITIAL_MEM_BLOCK_COUNT, Pmm.BLOCK_SZ), Pmm.BLOCK_SZ)
    requires hhdm % PAGE_SIZE == 0 && 0x3000 + BumpProofs.ROOM + hhdm < WORD
    ensures var w := World(BumpWitness.Booted(buf, 0x2000, hhdm), mem, values);
            && BumpProofs.Inv(w.bump) && !RootDecodes(w, BusTree()) && !RootDecodes(w, CompatTree())
  {
    hide BumpWitness.Booted, BumpProofs.Inv, RootDecodes, BusTree, CompatTree, WellNamed, Mirror, Rewrite, Log, RunOf, DtMoved.RootUsable;
    BumpWitness.BootedRoomy(buf, 0x2000, hhdm);
    BumpWitness.BootedEmpty(buf, 0x2000, hhdm);
    var w := World(BumpWitness.Booted(buf, 0x2000, hhdm), mem, values);
    BusWitness(w);
    CompatWitness(w);
  }
}
