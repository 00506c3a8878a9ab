/** The arrays of one `ranges` property: the parent addresses are reserved with the child's size,
    so with more parent than child cells they reach into the size array. */
module DtOverlap {
  import opened Num
  import opened Endian
  import opened DtTokens
  import opened DtCells
  import opened DtRewrite
  import opened DtArena
  import opened DtPlace
  import opened DtColumns
  import opened DtFill
  import DtStored
  import Bump
  import BumpProofs

  /** How many 32-bit words n numbers of one or two cells are. */
  function WordCount(n: nat, cells: nat): nat {
    if cells == 1 then n else 2 * n
  }

  /** Word w of an array of such numbers, low word first. */
  function WordOf(vs: seq<nat>, cells: nat, w: nat): nat
    requires 1 <= cells <= 2 && w < WordCount(|vs|, cells)
  {
    if cells == 1 then vs[w]
    else if w % 2 == 0 then vs[w / 2] % WORD32 else vs[w / 2] / WORD32
  }

  lemma {:induction false} StartWords(n: nat)
    ensures Start(n, 4) == 4 * n && Start(n, 8) == 8 * n
  {
    if n > 0 { StartWords(n - 1); }
  }

  lemma WordsLength(vs: seq<nat>, cells: nat)
    requires 1 <= cells <= 2
    ensures |Bytes(Numbers(vs, 4 * cells))| == 4 * WordCount(|vs|, cells)
  {
    hide Bytes, Native, Start, Numbers;
    BytesOfWidth(Numbers(vs, 4 * cells), 4 * cells);
    StartWords(|vs|);
  }

  lemma {:induction false} LittleConcat(x: bytes, y: bytes)
    ensures LittleEndian(x + y) == LittleEndian(x) + P(|x|) * LittleEndian(y)
  {
    if x == [] {
      assert x + y == y;
    } else {
      LittleConcat(x[1..], y);
      assert (x + y)[1..] == x[1..] + y;
      assert 256 * (P(|x| - 1) * LittleEndian(y)) == P(|x|) * LittleEndian(y) by { Assoc3(256, P(|x| - 1), LittleEndian(y)); }
    }
  }

  lemma Assoc3(a: nat, b: nat, c: nat)
    ensures a * (b * c) == (a * b) * c
  {
  }

  /** A 64-bit number is its low word, then its high word. */
  lemma NativeWords(v: nat)
    requires v < WORD
    ensures Native(v, 8) == Native(v % WORD32, 4) + Native(v / WORD32, 4)
  {
    hide Native, LittleEndian;
    Constants();
    var lo, hi := v % WORD32, v / WORD32;
    LittleConcat(Native(lo, 4), Native(hi, 4));
    NativeValue(lo, 4);
    NativeValue(hi, 4);
    NativeBack(Native(lo, 4) + Native(hi, 4));
  }

  lemma Fits(vs: seq<nat>, cells: nat, i: nat)
    requires 1 <= cells <= 2 && i < |vs| && vs[i] < P(4 * cells)
    ensures vs[i] < WORD && (cells == 1 ==> vs[i] < WORD32)
  {
    Constants();
  }

  /** Word w of the bytes of such an array. */
  lemma WordBytes(vs: seq<nat>, cells: nat, w: nat)
    requires 1 <= cells <= 2 && w < WordCount(|vs|, cells) && forall i :: 0 <= i < |vs| ==> vs[i] < P(4 * cells)
    ensures var bs := Bytes(Numbers(vs, 4 * cells));
            && |bs| == 4 * WordCount(|vs|, cells)
            && bs[4 * w..4 * w + 4] == Native(WordOf(vs, cells, w), 4) && WordOf(vs, cells, w) < WORD32
  {
    hide Bytes, Native, Start, Numbers, P;
    var i := if cells == 1 then w else w / 2;
    Fits(vs, cells, i);
    WordsLength(vs, cells);
    StartWords(i);
    CellBytes(Numbers(vs, 4 * cells), i, 4 * cells);
    if cells == 2 {
      NativeWords(vs[i]);
      Halves(Bytes(Numbers(vs, 8)), 8 * i, Native(vs[i] % WORD32, 4), Native(vs[i] / WORD32, 4));
    }
  }

  lemma Halves(bs: bytes, at: nat, lo: bytes, hi: bytes)
    requires |lo| == |hi| == 4 && at + 8 <= |bs| && bs[at..at + 8] == lo + hi
    ensures bs[at..at + 4] == lo && bs[at + 4..at + 8] == hi
  {
    assert bs[at..at + 8][..4] == bs[at..at + 4] && bs[at..at + 8][4..] == bs[at + 4..at + 8];
  }

  /** Two number arrays have the same value in every word they share. */
  ghost predicate SharedWordsAgree(x: nat, vs: seq<nat>, p: nat, y: nat, us: seq<nat>, s: nat)
    requires 1 <= p <= 2 && 1 <= s <= 2
  {
    forall w: nat, z: nat :: w < WordCount(|vs|, p) && z < WordCount(|us|, s) && x + 4 * w == y + 4 * z ==> WordOf(vs, p, w) == WordOf(us, s, z)
  }

  /** Number arrays at multiples of 4 agree exactly when they agree in every word they share. */
  lemma WordsAgree(a: Array, b: Array, vs: seq<nat>, p: nat, us: seq<nat>, s: nat)
    requires 1 <= p <= 2 && 1 <= s <= 2 && a.at % 4 == 0 && b.at % 4 == 0
    requires a.col.cells == Numbers(vs, 4 * p) && b.col.cells == Numbers(us, 4 * s)
    requires (forall i :: 0 <= i < |vs| ==> vs[i] < P(4 * p)) && forall i :: 0 <= i < |us| ==> us[i] < P(4 * s)
    ensures Agree(a, b) <==> SharedWordsAgree(a.at, vs, p, b.at, us, s)
  {
    hide Bytes, Native, Numbers, P, WordOf, WordCount, Agree;
    if Agree(a, b) {
      forall w: nat, z: nat | w < WordCount(|vs|, p) && z < WordCount(|us|, s) && a.at + 4 * w == b.at + 4 * z
        ensures WordOf(vs, p, w) == WordOf(us, s, z)
      {
        WordFromBytes(a, b, vs, p, us, s, w, z);
      }
    }
    if SharedWordsAgree(a.at, vs, p, b.at, us, s) {
      BytesFromWords(a, b, vs, p, us, s);
    }
  }

  lemma WordFromBytes(a: Array, b: Array, vs: seq<nat>, p: nat, us: seq<nat>, s: nat, w: nat, z: nat)
    requires 1 <= p <= 2 && 1 <= s <= 2 && Agree(a, b) && w < WordCount(|vs|, p) && z < WordCount(|us|, s)
    requires a.col.cells == Numbers(vs, 4 * p) && b.col.cells == Numbers(us, 4 * s) && a.at + 4 * w == b.at + 4 * z
    requires (forall i :: 0 <= i < |vs| ==> vs[i] < P(4 * p)) && forall i :: 0 <= i < |us| ==> us[i] < P(4 * s)
    ensures WordOf(vs, p, w) == WordOf(us, s, z)
  {
    hide Bytes, Native, Numbers, P, WordOf, WordCount, Agree;
    WordBytes(vs, p, w);
    WordBytes(us, s, z);
    SameSlices(a, b, 4 * w, 4 * z);
    NativeUnique(WordOf(vs, p, w), WordOf(us, s, z));
  }

  lemma NativeUnique(u: nat, v: nat)
    requires u < WORD32 && v < WORD32 && Native(u, 4) == Native(v, 4)
    ensures u == v
  {
    hide Native;
    Constants();
    NativeValue(u, 4);
    NativeValue(v, 4);
  }

  lemma BytesFromWords(a: Array, b: Array, vs: seq<nat>, p: nat, us: seq<nat>, s: nat)
    requires 1 <= p <= 2 && 1 <= s <= 2 && a.at % 4 == 0 && b.at % 4 == 0
    requires a.col.cells == Numbers(vs, 4 * p) && b.col.cells == Numbers(us, 4 * s)
    requires (forall i :: 0 <= i < |vs| ==> vs[i] < P(4 * p)) && forall i :: 0 <= i < |us| ==> us[i] < P(4 * s)
    requires SharedWordsAgree(a.at, vs, p, b.at, us, s)
    ensures Agree(a, b)
  {
    hide Bytes, Native, Numbers, P, WordOf, WordCount, SharedWordsAgree, InArray, ByteOf;
    forall x: nat | InArray(a, x) && InArray(b, x)
      ensures ByteOf(a, x) == ByteOf(b, x)
    {
      ByteFromWords(a, b, vs, p, us, s, x);
    }
  }

  lemma ByteFromWords(a: Array, b: Array, vs: seq<nat>, p: nat, us: seq<nat>, s: nat, x: nat)
    requires 1 <= p <= 2 && 1 <= s <= 2 && a.at % 4 == 0 && b.at % 4 == 0
    requires a.col.cells == Numbers(vs, 4 * p) && b.col.cells == Numbers(us, 4 * s)
    requires (forall i :: 0 <= i < |vs| ==> vs[i] < P(4 * p)) && forall i :: 0 <= i < |us| ==> us[i] < P(4 * s)
    requires SharedWordsAgree(a.at, vs, p, b.at, us, s) && InArray(a, x) && InArray(b, x)
    ensures ByteOf(a, x) == ByteOf(b, x)
  {
    hide Bytes, Native, Numbers, P, WordOf, WordCount, SharedWordsAgree;
    WordsLength(vs, p);
    WordsLength(us, s);
    var w, z, k := WordIndex(x, a.at, b.at);
    WordBytes(vs, p, w);
    WordBytes(us, s, z);
    SharedAt(a.at, vs, p, b.at, us, s, w, z);
    SliceByte(Bytes(a.col.cells), 4 * w, k);
    SliceByte(Bytes(b.col.cells), 4 * z, k);
  }

  lemma WordIndex(x: nat, a: nat, b: nat) returns (w: nat, z: nat, k: nat)
    requires a <= x && b <= x && a % 4 == 0 && b % 4 == 0
    ensures k < 4 && x == a + 4 * w + k && x == b + 4 * z + k
  {
    w, z := (x - a) / 4, (x - b) / 4;
    k := x - a - 4 * w;
  }

  lemma SharedAt(x: nat, vs: seq<nat>, p: nat, y: nat, us: seq<nat>, s: nat, w: nat, z: nat)
    requires 1 <= p <= 2 && 1 <= s <= 2 && SharedWordsAgree(x, vs, p, y, us, s)
    requires w < WordCount(|vs|, p) && z < WordCount(|us|, s) && x + 4 * w == y + 4 * z
    ensures WordOf(vs, p, w) == WordOf(us, s, z)
  {
    hide WordOf, WordCount;
  }

  lemma SliceByte(bs: bytes, i: nat, k: nat)
    requires k < 4 && i + 4 <= |bs|
    ensures bs[i..i + 4][k] == bs[i + k]
  {
  }

  lemma SameSlices(a: Array, b: Array, i: nat, j: nat)
    requires Agree(a, b) && a.at + i == b.at + j
    requires i + 4 <= Extent(a.col) && j + 4 <= Extent(b.col)
    ensures Bytes(a.col.cells)[i..i + 4] == Bytes(b.col.cells)[j..j + 4]
  {
    hide Bytes;
    SameByte(a, b, i, j, 0);
    SameByte(a, b, i, j, 1);
    SameByte(a, b, i, j, 2);
    SameByte(a, b, i, j, 3);
  }

  lemma SameByte(a: Array, b: Array, i: nat, j: nat, k: nat)
    requires Agree(a, b) && a.at + i == b.at + j && k < 4
    requires i + 4 <= Extent(a.col) && j + 4 <= Extent(b.col)
    ensures Bytes(a.col.cells)[i + k] == Bytes(b.col.cells)[j + k]
  {
    hide Bytes;
    assert InArray(a, a.at + i + k) && InArray(b, a.at + i + k);
    assert ByteOf(a, a.at + i + k) == ByteOf(b, a.at + i + k);
  }

  // ---------------------------------------------------------------- one ranges property

  /** The three columns read back as decoded exactly when the parent has no more address cells
      than the child, or there are no size cells, or every word of the parent addresses that lies
      in the size array equals the word of a size that lies there. */
  ghost predicate RangesKept(rows: seq<seq<nat>>, a: nat, p: nat, s: nat, pAt: nat, sAt: nat)
    requires (forall i :: 0 <= i < |rows| ==> |rows[i]| == 3) && 1 <= p <= 2 && s <= 2
  {
    p <= a || s == 0 || SharedWordsAgree(pAt, Field(rows, 1), p, sAt, Field(rows, 2), s)
  }

  /** Once the loop of property_rewrite_ranges is done. */
  lemma RangesHeldIff(mem: Mem, rows: seq<seq<nat>>, a: nat, p: nat, s: nat, cAt: nat, pAt: nat, sAt: nat, at: nat)
    requires 1 <= a <= 2 && 1 <= p <= 2 && DataOk(RangesData(a, p, s, rows))
    requires Apart(RangesArrays(rows, a, p, s, cAt, pAt, sAt)) && pAt % 4 == 0 && sAt % 4 == 0
    ensures ItemOk(RangesArrays(rows, a, p, s, cAt, pAt, sAt))
    ensures DataHolds(PutAll(mem, ItemStores(RangesArrays(rows, a, p, s, cAt, pAt, sAt))), [cAt, pAt, sAt], RangesData(a, p, s, rows), at)
            <==> RangesKept(rows, a, p, s, pAt, sAt)
  {
    hide ItemOk, ItemStores, PutAll, DataHolds, Held, NumberColumn, Field, P, Apart, RangesKept, Ats, ClashFree, AllAgree, AllHeld;
    var arrays, d := RangesArrays(rows, a, p, s, cAt, pAt, sAt), RangesData(a, p, s, rows);
    RangesArraysOk(rows, a, p, s, cAt, pAt, sAt);
    OneItem(mem, arrays);
    HeldIffAgree(mem, [arrays]);
    ClashIffAgree(arrays);
    RangesFill(rows, a, p, s, cAt, pAt, sAt, at);
    HeldIsData(PutAll(mem, ItemStores(arrays)), arrays, d, at);
    RangesClash(rows, a, p, s, cAt, pAt, sAt);
  }

  lemma OneItem(mem: Mem, arrays: seq<Array>)
    requires ItemOk(arrays)
    ensures AllOk([arrays]) && AllStores([arrays]) == ItemStores(arrays) && Flat([arrays]) == arrays
    ensures AllHeld(PutAll(mem, ItemStores(arrays)), [arrays]) <==> forall c :: 0 <= c < |arrays| ==> Held(PutAll(mem, ItemStores(arrays)), arrays[c])
  {
    hide ItemOk, ItemStores, PutAll, Held;
    assert [arrays][..0] == [];
    assert AllStores([]) == [] && Flat([]) == [];
    assert [] + ItemStores(arrays) == ItemStores(arrays) && [] + arrays == arrays;
  }

  lemma RangesFill(rows: seq<seq<nat>>, a: nat, p: nat, s: nat, cAt: nat, pAt: nat, sAt: nat, at: nat)
    requires DataOk(RangesData(a, p, s, rows))
    ensures var arrays := RangesArrays(rows, a, p, s, cAt, pAt, sAt);
            FillsOne(Arrays(Columns(RangesData(a, p, s, rows), at)), arrays) && Ats(arrays) == [cAt, pAt, sAt]
  {
    hide NumberColumn, Field, P;
    var arrays := RangesArrays(rows, a, p, s, cAt, pAt, sAt);
    assert arrays[..2][..1][..0] == [] && Ats([]) == [];
    assert Ats(arrays[..2][..1]) == [cAt];
    assert Ats(arrays[..2]) == [cAt, pAt];
  }

  lemma RangesClash(rows: seq<seq<nat>>, a: nat, p: nat, s: nat, cAt: nat, pAt: nat, sAt: nat)
    requires 1 <= a <= 2 && 1 <= p <= 2 && DataOk(RangesData(a, p, s, rows))
    requires Apart(RangesArrays(rows, a, p, s, cAt, pAt, sAt)) && pAt % 4 == 0 && sAt % 4 == 0
    ensures ClashFree(RangesArrays(rows, a, p, s, cAt, pAt, sAt)) <==> RangesKept(rows, a, p, s, pAt, sAt)
  {
    hide Field, P, NumberColumn, InArray, InReserved, ByteOf, SharedWordsAgree, Apart;
    var arrays := RangesArrays(rows, a, p, s, cAt, pAt, sAt);
    var x, y, z := arrays[0], arrays[1], arrays[2];
    RangesExtents(rows, a, p, s);
    ThreeClash(x, y, z);
    if p > a && s > 0 { FieldWords(rows, a, p, s, y, z); }
  }

  /** Of three arrays where only the middle one may overrun. */
  lemma ThreeClash(x: Array, y: Array, z: Array)
    requires Apart([x, y, z]) && Extent(x.col) <= x.col.reserved
    ensures Extent(y.col) <= y.col.reserved || Extent(z.col) == 0 ==> ClashFree([x, y, z])
    ensures ClashFree([x, y, z]) <==> Agree(y, z)
  {
    hide ByteOf, Extent;
    var arrays := [x, y, z];
    assert arrays[0] == x && arrays[1] == y && arrays[2] == z;
    if Agree(y, z) {
      forall f, g, b: nat | 0 <= f < g < |arrays| && Overrun(arrays[f], b) && InArray(arrays[g], b)
        ensures ByteOf(arrays[f], b) == ByteOf(arrays[g], b)
      {
        assert f == 1 && g == 2;
      }
    }
    if ClashFree(arrays) {
      forall b: nat | InArray(y, b) && InArray(z, b)
        ensures ByteOf(y, b) == ByteOf(z, b)
      {
        assert !InReserved(arrays[1], b);
        assert Overrun(arrays[1], b) && InArray(arrays[2], b);
      }
    }
  }

  lemma RangesExtents(rows: seq<seq<nat>>, a: nat, p: nat, s: nat)
    requires 1 <= a <= 2 && 1 <= p <= 2 && s <= 2 && forall i :: 0 <= i < |rows| ==> |rows[i]| == 3
    ensures var x, y, z := NumberColumn(Field(rows, 0), a, a), NumberColumn(Field(rows, 1), p, a), NumberColumn(Field(rows, 2), s, s);
            && Extent(x) <= x.reserved && (p <= a ==> Extent(y) <= y.reserved) && (s == 0 ==> Extent(z) == 0)
  {
    hide Numbers, Field, Extent;
    NumberColumnOk(Field(rows, 0), a, a);
    NumberColumnOk(Field(rows, 1), p, a);
    NumberColumnOk(Field(rows, 2), s, s);
    StartWords(|rows|);
    StartZero(|rows|);
  }

  lemma FieldWords(rows: seq<seq<nat>>, a: nat, p: nat, s: nat, y: Array, z: Array)
    requires 1 <= p <= 2 && 1 <= s <= 2 && DataOk(RangesData(a, p, s, rows)) && y.at % 4 == 0 && z.at % 4 == 0
    requires y.col == NumberColumn(Field(rows, 1), p, a) && z.col == NumberColumn(Field(rows, 2), s, s)
    ensures Agree(y, z) <==> SharedWordsAgree(y.at, Field(rows, 1), p, z.at, Field(rows, 2), s)
  {
    hide Numbers, P, Agree, SharedWordsAgree;
    var vs, us := Field(rows, 1), Field(rows, 2);
    WordsAgree(y, z, vs, p, us, s);
  }

  // ---------------------------------------------------------------- all three in one region

  /** A request that adds no region starts at the aligned pointer and moves it to its end. */
  lemma SameRegion(b: Bump.State, col: Column)
    requires BumpProofs.Inv(b) && b.regions != [] && col.reserved > 0 && ColumnOk(col) && PlaceColumn(b, col).Placed?
    requires |PlaceColumn(b, col).bump.regions| <= |b.regions|
    ensures var p := PlaceColumn(b, col); var at := AlignUp(Bump.Current(b).curr, col.alignment);
            && p.arrays == [Array(at, col)] && BumpProofs.Inv(p.bump) && |p.bump.regions| == |b.regions|
            && Bump.Current(p.bump).curr == at + col.reserved
  {
    hide BumpProofs.Inv, AlignUp, Bump.AddRegion, BumpProofs.Spent, BumpProofs.Acceptable, ColumnOk;
    assert col.alignment == 4 || col.alignment == 8 by { ColumnAlignment(col); }
    SmallPowers();
    PlaceColumnOk(b, col);
    BumpProofs.InsideAcceptable(b, col.reserved, col.alignment);
    BumpProofs.OldRegions(b, col.reserved, col.alignment);
    var at := AlignUp(Bump.Current(b).curr, col.alignment);
    var (ok, t) := Bump.Reserve(b, at, col.reserved);
    ReserveCount(b, at, col.reserved);
  }

  lemma ColumnAlignment(col: Column)
    requires ColumnOk(col) && col.reserved > 0
    ensures col.alignment == 4 || col.alignment == 8
  {
    hide Extent;
  }

  lemma ReserveCount(b: Bump.State, at: u64, size: u64)
    requires b.regions != []
    ensures var (ok, t) := Bump.Reserve(b, at, size); t == b || |t.regions| == |b.regions| + 1
  {
    hide Bump.NewSize, Wrap;
  }

  /** A request never drops a region. */
  lemma RegionsGrow(b: Bump.State, col: Column)
    requires PlaceColumn(b, col).Placed?
    ensures |b.regions| <= |PlaceColumn(b, col).bump.regions|
  {
    hide AlignUp, Wrap, Bump.NewSize, Extent;
  }

  lemma {:induction false} RegionsGrowAll(b: Bump.State, cols: seq<Column>)
    requires PlaceAll(b, cols).Placed?
    ensures |b.regions| <= |PlaceAll(b, cols).bump.regions|
    decreases |cols|
  {
    hide PlaceColumn;
    if cols != [] {
      RegionsGrow(b, cols[0]);
      RegionsGrowAll(PlaceColumn(b, cols[0]).bump, cols[1..]);
    }
  }

  /** Aligning an address that is a multiple of 4. */
  lemma AlignWords(x: u64)
    requires x + 8 < WORD
    ensures x % 4 == 0 ==> AlignUp(x, 4) == x && AlignUp(x, 8) == if x % 8 == 0 then x else x + 4
    ensures AlignUp(x, 4) % 4 == 0 && AlignUp(x, 4) < x + 4
  {
    hide AlignUp;
    SmallPowers();
    var four: u64, eight: u64 := 4, 8;
    AlignUpValue(x, four);
    AlignUpValue(x, eight);
  }

  /** Where the size array starts, in words behind the reservation of the parent addresses: one
      later when 64-bit sizes have to be aligned. */
  function Shift(x: nat, s: nat): nat {
    if s == 2 && x % 8 == 4 then 1 else 0
  }

  /** Placing the arrays of a value with one child cell and two parent cells. */
  function PlaceRanges(b: Bump.State, rows: seq<seq<nat>>, s: nat): Placement
    requires forall i :: 0 <= i < |rows| ==> |rows[i]| == 3
  {
    PlaceAll(b, [NumberColumn(Field(rows, 0), 1, 1), NumberColumn(Field(rows, 1), 2, 1), NumberColumn(Field(rows, 2), s, s)])
  }

  /** There is room for all of them in the current region. */
  predicate Together(b: Bump.State, rows: seq<seq<nat>>, s: nat)
    requires forall i :: 0 <= i < |rows| ==> |rows[i]| == 3
  {
    b.regions != [] && PlaceRanges(b, rows, s).Placed? && |PlaceRanges(b, rows, s).bump.regions| <= |b.regions|
  }

  function SizesAt(x: nat, n: nat, s: nat): nat {
    if s == 0 then 0 else x + 4 * (2 * n + Shift(x, s))
  }

  lemma TogetherAt(b: Bump.State, rows: seq<seq<nat>>, s: nat)
    requires BumpProofs.Inv(b) && rows != [] && DataOk(RangesData(1, 2, s, rows)) && Together(b, rows, s)
    ensures var x, n := AlignUp(Bump.Current(b).curr, 4), |rows|; var p := PlaceRanges(b, rows, s);
            x % 4 == 0 && p.arrays == RangesArrays(rows, 1, 2, s, x, x + 4 * n, SizesAt(x, n, s))
  {
    hide BumpProofs.Inv, AlignUp, PlaceColumn, PlaceAll, NumberColumn, ColumnOk, Field, P, Shift, Bump.Current;
    var x, n := AlignUp(Bump.Current(b).curr, 4), |rows|;
    var cx, cy, cz := NumberColumn(Field(rows, 0), 1, 1), NumberColumn(Field(rows, 1), 2, 1), NumberColumn(Field(rows, 2), s, s);
    RangesColumnsOk(Field(rows, 0), Field(rows, 1), Field(rows, 2), 1, 2, s);
    PlaceThreeSteps(b, cx, cy, cz);
    var p1 := PlaceColumn(b, cx);
    var p2 := PlaceColumn(p1.bump, cy);
    RegionsGrow(p1.bump, cy);
    RegionsGrow(p2.bump, cz);
    FourBytes(rows, s, cx, cy, cz);
    TwoPlaced(b, cx, cy, n);
    ThirdPlaced(p2.bump, cz, x, n, s);
    assert PlaceAll(b, [cx, cy, cz]).arrays == [Array(x, cx)] + ([Array(x + 4 * n, cy)] + [Array(SizesAt(x, n, s), cz)]);
  }

  lemma TwoPlaced(b: Bump.State, cx: Column, cy: Column, n: nat)
    requires BumpProofs.Inv(b) && b.regions != [] && n > 0 && ColumnOk(cx) && ColumnOk(cy)
    requires cx.reserved == cy.reserved == 4 * n && cx.alignment == cy.alignment == 4
    requires PlaceColumn(b, cx).Placed? && PlaceColumn(PlaceColumn(b, cx).bump, cy).Placed?
    requires |PlaceColumn(b, cx).bump.regions| <= |b.regions| && |PlaceColumn(PlaceColumn(b, cx).bump, cy).bump.regions| <= |b.regions|
    ensures var x := AlignUp(Bump.Current(b).curr, 4); var p1 := PlaceColumn(b, cx); var p2 := PlaceColumn(p1.bump, cy);
            && x % 4 == 0 && p1.arrays == [Array(x, cx)] && p2.arrays == [Array(x + 4 * n, cy)]
            && BumpProofs.Inv(p2.bump) && |p2.bump.regions| == |b.regions| && Bump.Current(p2.bump).curr == x + 8 * n
  {
    hide BumpProofs.Inv, AlignUp, PlaceColumn, ColumnOk;
    SameRegion(b, cx);
    CurrRoom(b);
    AlignWords(Bump.Current(b).curr);
    var b1 := PlaceColumn(b, cx).bump;
    SameRegion(b1, cy);
    CurrRoom(b1);
    AlignWords(Bump.Current(b1).curr);
  }

  lemma ThirdPlaced(b: Bump.State, cz: Column, x: nat, n: nat, s: nat)
    requires BumpProofs.Inv(b) && b.regions != [] && s <= 2 && ColumnOk(cz) && cz.alignment == 4 * s && (cz.reserved == 0 <==> s == 0)
    requires x % 4 == 0 && Bump.Current(b).curr == x + 8 * n && PlaceColumn(b, cz).Placed? && |PlaceColumn(b, cz).bump.regions| <= |b.regions|
    ensures PlaceColumn(b, cz).arrays == [Array(SizesAt(x, n, s), cz)]
  {
    hide BumpProofs.Inv, AlignUp, PlaceColumn, ColumnOk;
    if s == 0 {
      NullColumn(b, cz);
    } else {
      SameRegion(b, cz);
      CurrRoom(b);
      AlignWords(Bump.Current(b).curr);
    }
  }

  lemma PlaceThreeSteps(b: Bump.State, x: Column, y: Column, z: Column)
    requires PlaceAll(b, [x, y, z]).Placed?
    ensures PlaceColumn(b, x).Placed? && PlaceColumn(PlaceColumn(b, x).bump, y).Placed?
    ensures PlaceColumn(PlaceColumn(PlaceColumn(b, x).bump, y).bump, z).Placed?
    ensures var p1 := PlaceColumn(b, x); var p2 := PlaceColumn(p1.bump, y); var p3 := PlaceColumn(p2.bump, z);
            PlaceAll(b, [x, y, z]) == Placed(p1.arrays + (p2.arrays + p3.arrays), p3.bump)
  {
    hide PlaceColumn, PlaceAll;
    DtStored.PlaceThree(b, x, y, z);
    DtStored.PlaceTwo(PlaceColumn(b, x).bump, y, z);
  }

  lemma FourBytes(rows: seq<seq<nat>>, s: nat, x: Column, y: Column, z: Column)
    requires rows != [] && s <= 2 && forall i :: 0 <= i < |rows| ==> |rows[i]| == 3
    requires x == NumberColumn(Field(rows, 0), 1, 1) && y == NumberColumn(Field(rows, 1), 2, 1) && z == NumberColumn(Field(rows, 2), s, s)
    ensures x.reserved == y.reserved == 4 * |rows| && x.alignment == y.alignment == 4 && z.alignment == 4 * s
    ensures (z.reserved == 0 <==> s == 0)
  {
    hide Field, Numbers;
    StartWords(|rows|);
    StartPositive(|rows|, 4 * s);
  }

  lemma CurrRoom(b: Bump.State)
    requires BumpProofs.Inv(b) && b.regions != []
    ensures Bump.Current(b).curr + 8 < WORD
  {
    hide BumpProofs.Inv;
    BumpProofs.EndRoom(b);
    CurrEnd(b);
  }

  lemma CurrEnd(b: Bump.State)
    requires BumpProofs.Inv(b) && b.regions != []
    ensures Bump.Current(b).curr <= Bump.Current(b).end
  {
    assert BumpProofs.RegionOk(b.pmm, b.hhdm, Bump.Current(b));
  }

  lemma NullColumn(b: Bump.State, col: Column)
    requires col.reserved == 0
    ensures PlaceColumn(b, col) == Placed([Array(0, col)], b)
  {
  }

  /** A `ranges` value with one child cell and two parent cells, its arrays in one region: with no
      size cells all columns read back as decoded; else they do exactly when the upper half of
      the parent addresses, word for word, equals the sizes that lie there. */
  lemma RangesTogetherIff(mem: Mem, b: Bump.State, rows: seq<seq<nat>>, s: nat, at: nat)
    requires BumpProofs.Inv(b) && rows != [] && DataOk(RangesData(1, 2, s, rows)) && Together(b, rows, s)
    ensures var arrays := PlaceRanges(b, rows, s).arrays;
            && ItemOk(arrays)
            && (DataHolds(PutAll(mem, ItemStores(arrays)), Ats(arrays), RangesData(1, 2, s, rows), at) <==>
                  s == 0 || UpperHalfIsSizes(rows, s, |rows| + Shift(AlignUp(Bump.Current(b).curr, 4), s)))
  {
    hide BumpProofs.Inv, AlignUp, PlaceRanges, RangesArrays, ItemOk, ItemStores, PutAll, P, Apart, DataHolds, Ats, UpperHalfIsSizes, Field, Shift, Bump.Current, SizesAt;
    TogetherAt(b, rows, s);
    TogetherApart(b, rows, s);
    HeldTogether(mem, rows, s, AlignUp(Bump.Current(b).curr, 4), at);
  }

  /** The three arrays from address x on. */
  lemma HeldTogether(mem: Mem, rows: seq<seq<nat>>, s: nat, x: nat, at: nat)
    requires DataOk(RangesData(1, 2, s, rows)) && x % 4 == 0
    requires Apart(RangesArrays(rows, 1, 2, s, x, x + 4 * |rows|, SizesAt(x, |rows|, s)))
    ensures var arrays := RangesArrays(rows, 1, 2, s, x, x + 4 * |rows|, SizesAt(x, |rows|, s));
            && ItemOk(arrays)
            && (DataHolds(PutAll(mem, ItemStores(arrays)), Ats(arrays), RangesData(1, 2, s, rows), at) <==>
                  s == 0 || UpperHalfIsSizes(rows, s, |rows| + Shift(x, s)))
  {
    hide RangesArrays, ItemOk, ItemStores, PutAll, P, Apart, DataHolds, Ats, RangesKept, UpperHalfIsSizes, Field, Columns;
    var n := |rows|;
    RangesHeldIff(mem, rows, 1, 2, s, x, x + 4 * n, SizesAt(x, n, s), at);
    RangesFill(rows, 1, 2, s, x, x + 4 * n, SizesAt(x, n, s), at);
    UpperHalfIff(rows, s, x);
  }

  lemma TogetherApart(b: Bump.State, rows: seq<seq<nat>>, s: nat)
    requires BumpProofs.Inv(b) && DataOk(RangesData(1, 2, s, rows)) && Together(b, rows, s)
    ensures Apart(PlaceRanges(b, rows, s).arrays)
  {
    hide BumpProofs.Inv, PlaceAll, NumberColumn, ColumnOk, Field, P, Apart;
    RangesColumnsOk(Field(rows, 0), Field(rows, 1), Field(rows, 2), 1, 2, s);
    PlaceAllOk(b, [NumberColumn(Field(rows, 0), 1, 1), NumberColumn(Field(rows, 1), 2, 1), NumberColumn(Field(rows, 2), s, s)]);
  }

  /** From word `first` on, the parent addresses are the sizes. */
  ghost predicate UpperHalfIsSizes(rows: seq<seq<nat>>, s: nat, first: nat)
    requires (forall i :: 0 <= i < |rows| ==> |rows[i]| == 3) && 1 <= s <= 2
  {
    forall w: nat :: first <= w < 2 * |rows| && w - first < WordCount(|rows|, s) ==>
      WordOf(Field(rows, 1), 2, w) == WordOf(Field(rows, 2), s, w - first)
  }

  lemma UpperHalfIff(rows: seq<seq<nat>>, s: nat, x: nat)
    requires (forall i :: 0 <= i < |rows| ==> |rows[i]| == 3) && s <= 2
    ensures RangesKept(rows, 1, 2, s, x + 4 * |rows|, SizesAt(x, |rows|, s)) <==> s == 0 || UpperHalfIsSizes(rows, s, |rows| + Shift(x, s))
  {
    hide Field, WordOf, Shift;
    if s > 0 {
      var n, vs, us, first := |rows|, Field(rows, 1), Field(rows, 2), |rows| + Shift(x, s);
      if SharedWordsAgree(x + 4 * n, vs, 2, SizesAt(x, n, s), us, s) {
        forall w: nat | first <= w < 2 * n && w - first < WordCount(n, s)
          ensures WordOf(vs, 2, w) == WordOf(us, s, w - first)
        {
          var z := w - first;
          assert x + 4 * n + 4 * w == SizesAt(x, n, s) + 4 * z;
        }
      }
      if UpperHalfIsSizes(rows, s, first) {
        forall w: nat, z: nat | w < WordCount(n, 2) && z < WordCount(n, s) && x + 4 * n + 4 * w == SizesAt(x, n, s) + 4 * z
          ensures WordOf(vs, 2, w) == WordOf(us, s, z)
        {
          assert z == w - first;
        }
      }
    }
  }
}
