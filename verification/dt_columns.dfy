/** The arrays of `compatible`, `reg` and `ranges` properties: what the pass stores for the value
    it computed, how much it reserves for that, and what reading the arrays back means. */
module DtColumns {
  import opened Num
  import opened Endian
  import opened DtTokens
  import opened DtCells
  import opened DtRewrite
  import opened DtArena
  import opened DtPlace

  // ---------------------------------------------------------------- numbers in memory

  /** What a load of n bytes sees. */
  function Load(mem: Mem, at: nat, n: nat): nat {
    LittleEndian(Get(mem, at, n))
  }

  function Numbers(vs: seq<nat>, w: nat): (cells: seq<bytes>)
    ensures |cells| == |vs| && forall i :: 0 <= i < |vs| ==> cells[i] == Native(vs[i], w)
  {
    if vs == [] then [] else Numbers(vs[..|vs| - 1], w) + [Native(vs[|vs| - 1], w)]
  }

  /** An array of numbers of w bytes each. */
  ghost predicate NumbersAt(mem: Mem, at: nat, w: nat, vs: seq<nat>) {
    forall i :: 0 <= i < |vs| ==> Load(mem, at + Start(i, w), w) == vs[i]
  }

  ghost predicate CellsAt(mem: Mem, at: nat, w: nat, cells: seq<bytes>) {
    forall i :: 0 <= i < |cells| ==> Get(mem, at + Start(i, w), w) == cells[i]
  }

  /** Memory holds an array exactly when it holds every cell. */
  lemma HeldCells(mem: Mem, a: Array)
    requires ColumnOk(a.col)
    ensures Held(mem, a) <==> CellsAt(mem, a.at, a.col.width, a.col.cells)
  {
    hide Bytes, Get;
    var cells, w := a.col.cells, a.col.width;
    if Held(mem, a) {
      forall i | 0 <= i < |cells|
        ensures Get(mem, a.at + Start(i, w), w) == cells[i]
      {
        CellBytes(cells, i, w);
        var cell := Get(mem, a.at + Start(i, w), w);
        forall k | 0 <= k < w
          ensures cell[k] == cells[i][k]
        {
          assert cells[i][k] == Bytes(cells)[Start(i, w)..Start(i, w) + w][k];
          assert InArray(a, a.at + Start(i, w) + k);
        }
      }
    }
    if CellsAt(mem, a.at, w, cells) {
      forall x: nat | InArray(a, x)
        ensures ByteAt(mem, x) == ByteOf(a, x)
      {
        var i := ByteCell(cells, w, x - a.at);
        assert Get(mem, a.at + Start(i, w), w)[x - a.at - Start(i, w)] == cells[i][x - a.at - Start(i, w)];
      }
    }
  }

  /** Memory holds the cell exactly when a load sees the number. */
  ghost predicate LoadsCell(mem: Mem, x: nat, w: nat, v: nat, cell: bytes) {
    Get(mem, x, w) == cell <==> Load(mem, x, w) == v
  }

  lemma NumberCell(mem: Mem, x: nat, w: nat, v: nat)
    requires v < P(w)
    ensures LoadsCell(mem, x, w, v, Native(v, w))
  {
    hide Get, LittleEndian, Native;
    NativeValue(v, w);
    NativeBack(Get(mem, x, w));
  }

  ghost predicate NumberCells(mem: Mem, at: nat, w: nat, vs: seq<nat>, cells: seq<bytes>) {
    |cells| == |vs| && forall i :: 0 <= i < |vs| ==> LoadsCell(mem, at + Start(i, w), w, vs[i], cells[i])
  }

  lemma NumberCellsAre(mem: Mem, at: nat, w: nat, vs: seq<nat>)
    requires forall i :: 0 <= i < |vs| ==> vs[i] < P(w)
    ensures NumberCells(mem, at, w, vs, Numbers(vs, w))
  {
    hide LoadsCell, Native, Numbers, Start, P;
    forall i | 0 <= i < |vs|
      ensures LoadsCell(mem, at + Start(i, w), w, vs[i], Numbers(vs, w)[i])
    {
      NumberCell(mem, at + Start(i, w), w, vs[i]);
    }
  }

  lemma HeldNumbers(mem: Mem, a: Array, vs: seq<nat>)
    requires ColumnOk(a.col) && a.col.cells == Numbers(vs, a.col.width) && forall i :: 0 <= i < |vs| ==> vs[i] < P(a.col.width)
    ensures Held(mem, a) <==> NumbersAt(mem, a.at, a.col.width, vs)
  {
    hide Held, CellsAt, Native, Numbers, ColumnOk, P, NumberCells, NumbersAt;
    HeldCells(mem, a);
    NumberCellsAre(mem, a.at, a.col.width, vs);
    CellsOrNumbers(mem, a.at, a.col.width, vs, a.col.cells);
  }

  lemma CellsOrNumbers(mem: Mem, at: nat, w: nat, vs: seq<nat>, cells: seq<bytes>)
    requires NumberCells(mem, at, w, vs, cells)
    ensures CellsAt(mem, at, w, cells) <==> NumbersAt(mem, at, w, vs)
  {
    hide Get, Load, Start;
  }

  // ---------------------------------------------------------------- string views in memory

  /** One str_view: pointer and length. */
  function ViewCell(p: nat, len: nat): (bs: bytes)
    ensures |bs| == 16
  {
    Native(p, 8) + Native(len, 8)
  }

  /** The views of strings that follow each other from address p on, a NUL after each. */
  function Views(strings: seq<bytes>, p: nat): (cells: seq<bytes>)
    ensures |cells| == |strings| && forall i :: 0 <= i < |cells| ==> |cells[i]| == 16
    decreases |strings|
  {
    if strings == [] then [] else [ViewCell(p, |strings[0]|)] + Views(strings[1..], p + |strings[0]| + 1)
  }

  /** Where string k starts. */
  function StringStart(strings: seq<bytes>, p: nat, k: nat): nat
    requires k <= |strings|
  {
    if k == 0 then p else StringStart(strings, p, k - 1) + |strings[k - 1]| + 1
  }

  lemma {:induction false} ViewAt(strings: seq<bytes>, p: nat, k: nat)
    requires k < |strings|
    ensures Views(strings, p)[k] == ViewCell(StringStart(strings, p, k), |strings[k]|)
    decreases k
  {
    hide ViewCell;
    if k > 0 {
      ViewAt(strings[1..], p + |strings[0]| + 1, k - 1);
      StartShift(strings, p, k - 1);
    }
  }

  lemma {:induction false} StartShift(strings: seq<bytes>, p: nat, k: nat)
    requires k < |strings|
    ensures StringStart(strings, p, k + 1) == StringStart(strings[1..], p + |strings[0]| + 1, k)
  {
    if k > 0 { StartShift(strings, p, k - 1); }
  }

  /** View k of an array at address at. */
  ghost predicate ViewHolds(mem: Mem, at: nat, k: nat, p: nat, len: nat) {
    Load(mem, at + Start(k, 16), 8) == p % WORD && Load(mem, at + Start(k, 16) + 8, 8) == len % WORD
  }

  /** The array that `compatible` is for: a view per string, then an empty view. */
  ghost predicate ViewsAt(mem: Mem, at: nat, strings: seq<bytes>, p: nat) {
    StringsAt(mem, at, strings, p) && ViewHolds(mem, at, |strings|, 0, 0)
  }

  ghost predicate StringsAt(mem: Mem, at: nat, strings: seq<bytes>, p: nat) {
    forall k :: 0 <= k < |strings| ==> ViewHolds(mem, at, k, StringStart(strings, p, k), |strings[k]|)
  }

  lemma {:induction false} BytesMod(v: nat, n: nat)
    ensures ToBytes(v % P(n), n) == ToBytes(v, n)
  {
    if n > 0 {
      BytesMod(v / 256, n - 1);
      ModHead(v, P(n - 1));
    }
  }

  lemma ModHead(v: nat, p: nat)
    requires p > 0
    ensures v % (256 * p) / 256 == v / 256 % p && v % (256 * p) % 256 == v % 256
  {
    var q, r, b := v / 256 / p, v / 256 % p, v % 256;
    assert v / 256 == q * p + r;
    assert v == 256 * (q * p + r) + b;
    assert q * (256 * p) == 256 * (q * p);
    Num.ModUnique(v, 256 * p, q, 256 * r + b);
  }

  lemma ViewCellHolds(mem: Mem, at: nat, k: nat, p: nat, len: nat)
    ensures Get(mem, at + Start(k, 16), 16) == ViewCell(p, len) <==> ViewHolds(mem, at, k, p, len)
  {
    hide LittleEndian, ToBytes, ReverseBytes, Get;
    var x := at + Start(k, 16);
    var lo, hi := Get(mem, x, 8), Get(mem, x + 8, 8);
    assert Get(mem, x, 16) == lo + hi;
    Constants();
    WordCell(lo, p);
    WordCell(hi, len);
    if Get(mem, x, 16) == ViewCell(p, len) {
      assert lo == Get(mem, x, 16)[..8] && hi == Get(mem, x, 16)[8..];
      assert ViewCell(p, len)[..8] == Native(p, 8) && ViewCell(p, len)[8..] == Native(len, 8);
    }
  }

  lemma WordCell(bs: bytes, v: nat)
    requires |bs| == 8
    ensures bs == Native(v, 8) <==> LittleEndian(bs) == v % WORD
  {
    hide LittleEndian;
    Constants();
    BytesMod(v, 8);
    NativeValue(v % WORD, 8);
    NativeBack(bs);
  }

  lemma HeldViews(mem: Mem, a: Array, strings: seq<bytes>, p: nat)
    requires ColumnOk(a.col) && a.col.width == 16 && a.col.cells == Views(strings, p) + [ViewCell(0, 0)]
    ensures Held(mem, a) <==> ViewsAt(mem, a.at, strings, p)
  {
    hide Held, Get, ViewHolds, ViewCell, Views, StringStart, Start, ColumnOk;
    HeldCells(mem, a);
    var n := |strings|;
    forall k | 0 <= k < n
      ensures a.col.cells[k] == ViewCell(StringStart(strings, p, k), |strings[k]|)
      ensures Get(mem, a.at + Start(k, 16), 16) == a.col.cells[k] <==> ViewHolds(mem, a.at, k, StringStart(strings, p, k), |strings[k]|)
    {
      ViewAt(strings, p, k);
      ViewCellHolds(mem, a.at, k, StringStart(strings, p, k), |strings[k]|);
    }
    ViewCellHolds(mem, a.at, n, 0, 0);
    assert a.col.cells[n] == ViewCell(0, 0);
  }

  // ---------------------------------------------------------------- the arrays of a property

  function Field(rows: seq<seq<nat>>, c: nat): (vs: seq<nat>)
    requires forall i :: 0 <= i < |rows| ==> c < |rows[i]|
    ensures |vs| == |rows| && forall i :: 0 <= i < |rows| ==> vs[i] == rows[i][c]
  {
    if rows == [] then [] else Field(rows[..|rows| - 1], c) + [rows[|rows| - 1][c]]
  }

  /** The size of an element is also the alignment asked for. */
  function Alignment(cells: nat): u64 {
    if cells <= 2 then 4 * cells else 0
  }

  /** An array of numbers of `cells` cells each, with room for elements of `room` cells. */
  function NumberColumn(vs: seq<nat>, cells: nat, room: nat): Column {
    Column(4 * cells, Start(|vs|, 4 * room), Alignment(room), Numbers(vs, 4 * cells))
  }

  /** What the pass guarantees about data that go into arrays. */
  predicate DataOk(d: Data) {
    match d
    case RegData(a, s, rows) =>
      a <= 2 && s <= 2 && forall i :: 0 <= i < |rows| ==> |rows[i]| == 2 && rows[i][0] < P(4 * a) && rows[i][1] < P(4 * s)
    case RangesData(a, p, s, rows) =>
      && a <= 2 && p <= 2 && s <= 2 && (rows == [] || (a > 0 && p > 0))
      && forall i :: 0 <= i < |rows| ==> |rows[i]| == 3 && rows[i][0] < P(4 * a) && rows[i][1] < P(4 * p) && rows[i][2] < P(4 * s)
    case _ => true
  }

  predicate InArrays(d: Data) {
    d.Strings? || d.RegData? || d.RangesData? || d.Wide?
  }

  /** The arrays as written: the parent-address array is reserved with the child's size, and the
      views with the size of a pointer each. `p` is the address of the property's value. */
  function Columns(d: Data, p: nat): seq<Column>
    requires DataOk(d)
  {
    match d
    case RegData(a, s, rows) => [NumberColumn(Field(rows, 0), a, a), NumberColumn(Field(rows, 1), s, s)]
    case RangesData(a, q, s, rows) =>
      [NumberColumn(Field(rows, 0), a, a), NumberColumn(Field(rows, 1), q, a), NumberColumn(Field(rows, 2), s, s)]
    case Strings(strings) => [Column(16, Start(|strings| + 1, 8), 8, Views(strings, p) + [ViewCell(0, 0)])]
    case _ => []
  }

  function ItemOf(d: Data, p: nat): Item {
    if d.Wide? || !DataOk(d) then Unfollowed else Arrays(Columns(d, p))
  }

  /** Reading the arrays at these addresses gives the data. */
  ghost predicate DataHolds(mem: Mem, ats: seq<nat>, d: Data, p: nat)
    requires DataOk(d)
  {
    match d
    case RegData(a, s, rows) =>
      |ats| == 2 && NumbersAt(mem, ats[0], 4 * a, Field(rows, 0)) && NumbersAt(mem, ats[1], 4 * s, Field(rows, 1))
    case RangesData(a, q, s, rows) =>
      && |ats| == 3 && NumbersAt(mem, ats[0], 4 * a, Field(rows, 0))
      && NumbersAt(mem, ats[1], 4 * q, Field(rows, 1)) && NumbersAt(mem, ats[2], 4 * s, Field(rows, 2))
    case Strings(strings) => |ats| == 1 && ViewsAt(mem, ats[0], strings, p)
    case _ => true
  }

  function Ats(arrays: seq<Array>): (ats: seq<nat>)
    ensures |ats| == |arrays| && forall c :: 0 <= c < |arrays| ==> ats[c] == arrays[c].at
  {
    if arrays == [] then [] else Ats(arrays[..|arrays| - 1]) + [arrays[|arrays| - 1].at]
  }

  lemma {:induction false} StartZero(n: nat)
    ensures Start(n, 0) == 0
  {
    if n > 0 { StartZero(n - 1); }
  }

  lemma NumberColumnOk(vs: seq<nat>, cells: nat, room: nat)
    requires room <= 2 && (|vs| == 0 || cells == room || room > 0)
    ensures ColumnOk(NumberColumn(vs, cells, room)) && Extent(NumberColumn(vs, cells, room)) == Start(|vs|, 4 * cells)
  {
    hide Numbers, Bytes, Start;
    BytesOfWidth(Numbers(vs, 4 * cells), 4 * cells);
    StartPositive(|vs|, 4 * room);
    StartPositive(|vs|, 4 * cells);
  }

  /** What the pass asks the allocator for, in bytes: the parent addresses of `ranges` with the
      element size of the child addresses, the views with the size of a pointer each. */
  lemma Requests(d: Data, p: nat)
    requires DataOk(d)
    ensures var cols := Columns(d, p);
            match d
            case RegData(a, s, rows) => |cols| == 2 && Asks(cols[0], 4 * a, |rows|) && Asks(cols[1], 4 * s, |rows|)
            case RangesData(a, _, s, rows) =>
              |cols| == 3 && Asks(cols[0], 4 * a, |rows|) && Asks(cols[1], 4 * a, |rows|) && Asks(cols[2], 4 * s, |rows|)
            case Strings(strings) => |cols| == 1 && Asks(cols[0], 8, |strings| + 1)
            case _ => cols == []
  {
    hide Numbers, Views, ViewCell, Field;
    match d {
      case RegData(a, s, rows) =>
        StartValue(|rows|, 4 * a);
        StartValue(|rows|, 4 * s);
      case RangesData(a, _, s, rows) =>
        StartValue(|rows|, 4 * a);
        StartValue(|rows|, 4 * s);
      case Strings(strings) => StartValue(|strings| + 1, 8);
      case _ =>
    }
  }

  /** n elements of w bytes, aligned to w. */
  predicate Asks(col: Column, w: nat, n: nat) {
    col.reserved == n * w && col.alignment == w
  }

  lemma OneNumber(v: nat, cells: nat, room: nat)
    requires 1 <= cells <= 2 && 1 <= room <= 2
    ensures var col := NumberColumn([v], cells, room);
            && ColumnOk(col) && col.reserved == 4 * room && col.alignment == 4 * room && Extent(col) == 4 * cells
            && Bytes(col.cells) == Native(v, 4 * cells)
  {
    hide ColumnOk, Native;
    NumberColumnOk([v], cells, room);
    StartValue(1, 4 * cells);
    StartValue(1, 4 * room);
    var cells' := Numbers([v], 4 * cells);
    assert cells' == [Native(v, 4 * cells)] && cells'[..0] == [] && Bytes([]) == [];
  }

  lemma {:induction false} StartPositive(n: nat, w: nat)
    ensures Start(n, w) == 0 <==> n == 0 || w == 0
  {
    if n > 0 { StartPositive(n - 1, w); }
  }

  lemma ViewColumnOk(strings: seq<bytes>, p: nat)
    ensures var col := Column(16, Start(|strings| + 1, 8), 8, Views(strings, p) + [ViewCell(0, 0)]); ColumnOk(col) && Extent(col) == Start(|strings| + 1, 16)
  {
    hide Views, ViewCell;
    var cells := Views(strings, p) + [ViewCell(0, 0)];
    BytesOfWidth(cells, 16);
    StartPositive(|strings| + 1, 8);
  }

  lemma ColumnsOk(d: Data, p: nat)
    requires DataOk(d)
    ensures ItemFits(ItemOf(d, p))
    ensures forall c :: 0 <= c < |Columns(d, p)| ==> ColumnOk(Columns(d, p)[c])
  {
    hide ColumnOk, NumberColumn, Views, ViewCell, Field, P;
    match d {
      case RegData(a, s, rows) =>
        RegColumnsOk(Field(rows, 0), Field(rows, 1), a, s);
      case RangesData(a, q, s, rows) =>
        RangesColumnsOk(Field(rows, 0), Field(rows, 1), Field(rows, 2), a, q, s);
      case Strings(strings) =>
        ViewColumnOk(strings, p);
      case _ =>
    }
  }

  lemma RegColumnsOk(vs: seq<nat>, us: seq<nat>, a: nat, s: nat)
    requires a <= 2 && s <= 2 && |us| == |vs|
    ensures var x, y := NumberColumn(vs, a, a), NumberColumn(us, s, s); ColumnOk(x) && ColumnOk(y) && |x.cells| == |y.cells|
  {
    hide ColumnOk, Numbers;
    NumberColumnOk(vs, a, a);
    NumberColumnOk(us, s, s);
  }

  lemma RangesColumnsOk(vs: seq<nat>, ps: seq<nat>, us: seq<nat>, a: nat, q: nat, s: nat)
    requires a <= 2 && s <= 2 && |us| == |ps| == |vs| && (vs == [] || a > 0)
    ensures var x, y, z := NumberColumn(vs, a, a), NumberColumn(ps, q, a), NumberColumn(us, s, s);
            ColumnOk(x) && ColumnOk(y) && ColumnOk(z) && |x.cells| == |y.cells| == |z.cells|
  {
    hide ColumnOk, Numbers;
    NumberColumnOk(vs, a, a);
    NumberColumnOk(ps, q, a);
    NumberColumnOk(us, s, s);
  }

  /** Memory holds all arrays of a property exactly when reading them gives the data. */
  lemma {:induction false} HeldIsData(mem: Mem, arrays: seq<Array>, d: Data, p: nat)
    requires DataOk(d) && FillsOne(Arrays(Columns(d, p)), arrays)
    ensures (forall c :: 0 <= c < |arrays| ==> Held(mem, arrays[c])) <==> DataHolds(mem, Ats(arrays), d, p)
  {
    hide ColumnOk, Views, ViewCell, P, Held, NumbersAt, ViewsAt, NumberColumn;
    ColumnsOk(d, p);
    if d.RegData? {
      HeldField(mem, arrays[0], d.rows, 0, d.a, d.a);
      HeldField(mem, arrays[1], d.rows, 1, d.s, d.s);
    } else if d.RangesData? {
      HeldField(mem, arrays[0], d.rows, 0, d.a, d.a);
      HeldField(mem, arrays[1], d.rows, 1, d.p, d.a);
      HeldField(mem, arrays[2], d.rows, 2, d.s, d.s);
    } else if d.Strings? {
      HeldViews(mem, arrays[0], d.strings, p);
    }
  }

  lemma {:induction false} HeldField(mem: Mem, a: Array, rows: seq<seq<nat>>, c: nat, cells: nat, room: nat)
    requires forall i :: 0 <= i < |rows| ==> c < |rows[i]| && rows[i][c] < P(4 * cells)
    requires ColumnOk(a.col) && a.col == NumberColumn(Field(rows, c), cells, room)
    ensures Held(mem, a) <==> NumbersAt(mem, a.at, 4 * cells, Field(rows, c))
  {
    hide ColumnOk, Held, NumbersAt, Field, P, Numbers;
    var vs := Field(rows, c);
    HeldNumbers(mem, a, vs);
  }
}
