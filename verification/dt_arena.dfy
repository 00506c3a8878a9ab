/** Byte memory and the arrays the rewrite pass puts into it with bump.alloc_aligned. An array is
    reserved with one size and written with another, so arrays can share bytes. */
module DtArena {
  import opened Num
  import opened Endian
  import opened DtTokens
  import opened DtCells

  // ---------------------------------------------------------------- byte memory

  type Mem = map<nat, byte>

  /** Bytes that nobody has written read as 0. */
  function ByteAt(mem: Mem, x: nat): byte {
    if x in mem then mem[x] else 0
  }

  function Put(mem: Mem, at: nat, bs: bytes): Mem {
    if bs == [] then mem else Put(mem, at, bs[..|bs| - 1])[at + |bs| - 1 := bs[|bs| - 1]]
  }

  /** What a read of n bytes sees. */
  function Get(mem: Mem, at: nat, n: nat): (bs: bytes)
    ensures |bs| == n && forall k :: 0 <= k < n ==> bs[k] == ByteAt(mem, at + k)
  {
    if n == 0 then [] else Get(mem, at, n - 1) + [ByteAt(mem, at + n - 1)]
  }

  lemma {:induction false} PutByte(mem: Mem, at: nat, bs: bytes, x: nat)
    ensures ByteAt(Put(mem, at, bs), x) == if at <= x < at + |bs| then bs[x - at] else ByteAt(mem, x)
    decreases |bs|
  {
    if bs != [] { PutByte(mem, at, bs[..|bs| - 1], x); }
  }

  datatype Store = Store(at: nat, bs: bytes)

  function PutAll(mem: Mem, ss: seq<Store>): Mem {
    if ss == [] then mem else
      var last := ss[|ss| - 1];
      Put(PutAll(mem, ss[..|ss| - 1]), last.at, last.bs)
  }

  predicate Covers(s: Store, x: nat) {
    s.at <= x < s.at + |s.bs|
  }

  ghost predicate Written(ss: seq<Store>, x: nat, b: byte) {
    exists i :: 0 <= i < |ss| && Covers(ss[i], x) && ss[i].bs[x - ss[i].at] == b
  }

  /** A byte holds what some store put there, or what it held before. */
  lemma {:induction false} PutAllByte(mem: Mem, ss: seq<Store>, x: nat)
    ensures Written(ss, x, ByteAt(PutAll(mem, ss), x))
            || (ByteAt(PutAll(mem, ss), x) == ByteAt(mem, x) && forall i :: 0 <= i < |ss| ==> !Covers(ss[i], x))
    decreases |ss|
  {
    if ss != [] {
      hide Put;
      var n := |ss| - 1;
      var front := ss[..n];
      PutAllByte(mem, front, x);
      PutByte(PutAll(mem, front), ss[n].at, ss[n].bs, x);
      var b := ByteAt(PutAll(mem, front), x);
      if !Covers(ss[n], x) && Written(front, x, b) {
        var i :| 0 <= i < n && Covers(front[i], x) && front[i].bs[x - front[i].at] == b;
        assert ss[i] == front[i];
      }
    }
  }

  lemma {:induction false} PutAllAppend(mem: Mem, ss: seq<Store>, ts: seq<Store>)
    ensures PutAll(mem, ss + ts) == PutAll(PutAll(mem, ss), ts)
    decreases |ts|
  {
    if ts == [] {
      assert ss + ts == ss;
    } else {
      var n := |ts| - 1;
      assert (ss + ts)[..|ss + ts| - 1] == ss + ts[..n] && (ss + ts)[|ss + ts| - 1] == ts[n];
      PutAllAppend(mem, ss, ts[..n]);
    }
  }

  // ---------------------------------------------------------------- columns

  /** One array as its loop fills it: cells of `width` bytes each. `reserved` bytes are asked of
      the allocator, at a multiple of `alignment`. */
  datatype Column = Column(width: nat, reserved: nat, alignment: u64, cells: seq<bytes>)

  /** The bytes of the cells, laid end to end. */
  function Bytes(cells: seq<bytes>): bytes {
    if cells == [] then [] else Bytes(cells[..|cells| - 1]) + cells[|cells| - 1]
  }

  function Extent(c: Column): nat {
    |Bytes(c.cells)|
  }

  predicate ColumnOk(c: Column) {
    && (forall i :: 0 <= i < |c.cells| ==> |c.cells[i]| == c.width)
    && (if c.reserved == 0 then Extent(c) == 0 else c.alignment == 4 || c.alignment == 8)
  }

  /** Cell i is where its store goes. */
  lemma {:induction false} CellBytes(cells: seq<bytes>, i: nat, w: nat)
    requires i < |cells| && forall k :: 0 <= k < |cells| ==> |cells[k]| == w
    ensures |Bytes(cells)| == Start(|cells|, w)
    ensures Start(i, w) + w <= |Bytes(cells)| && Bytes(cells)[Start(i, w)..Start(i, w) + w] == cells[i]
    decreases |cells|
  {
    var n := |cells| - 1;
    var front := cells[..n];
    BytesOfWidth(front, w);
    if i < n {
      CellBytes(front, i, w);
      assert Bytes(cells)[Start(i, w)..Start(i, w) + w] == Bytes(front)[Start(i, w)..Start(i, w) + w];
    }
  }

  lemma {:induction false} BytesOfWidth(cells: seq<bytes>, w: nat)
    requires forall k :: 0 <= k < |cells| ==> |cells[k]| == w
    ensures |Bytes(cells)| == Start(|cells|, w)
    decreases |cells|
  {
    if cells != [] { BytesOfWidth(cells[..|cells| - 1], w); }
  }

  /** Every byte of a column is in one of its cells. */
  lemma {:induction false} ByteCell(cells: seq<bytes>, w: nat, k: nat) returns (i: nat)
    requires k < |Bytes(cells)| && forall j :: 0 <= j < |cells| ==> |cells[j]| == w
    ensures i < |cells| && Start(i, w) <= k < Start(i, w) + w && Bytes(cells)[k] == cells[i][k - Start(i, w)]
    decreases |cells|
  {
    var n := |cells| - 1;
    BytesOfWidth(cells[..n], w);
    if k < |Bytes(cells[..n])| {
      i := ByteCell(cells[..n], w, k);
    } else {
      i := n;
    }
  }

  // ---------------------------------------------------------------- placed arrays

  datatype Array = Array(at: nat, col: Column)

  predicate InArray(a: Array, x: nat) {
    a.at <= x < a.at + Extent(a.col)
  }

  function ByteOf(a: Array, x: nat): byte
    requires InArray(a, x)
  {
    Bytes(a.col.cells)[x - a.at]
  }

  predicate InReserved(a: Array, x: nat) {
    a.at <= x < a.at + a.col.reserved
  }

  /** Byte x is written by the array's loop and was not reserved for it. */
  predicate Overrun(a: Array, x: nat) {
    InArray(a, x) && !InReserved(a, x)
  }

  /** Memory holds the whole array. */
  ghost predicate Held(mem: Mem, a: Array) {
    forall x: nat :: InArray(a, x) ==> ByteAt(mem, x) == ByteOf(a, x)
  }

  /** Wherever both arrays have a byte, it is the same. */
  ghost predicate Agree(a: Array, b: Array) {
    forall x: nat :: InArray(a, x) && InArray(b, x) ==> ByteOf(a, x) == ByteOf(b, x)
  }

  // ---------------------------------------------------------------- the stores of a loop

  /** The arrays of one property, filled row by row, all with the same number of rows. */
  predicate ItemOk(arrays: seq<Array>) {
    forall c :: 0 <= c < |arrays| ==> ColumnOk(arrays[c].col) && |arrays[c].col.cells| == RowCount(arrays)
  }

  function RowCount(arrays: seq<Array>): nat {
    if arrays == [] then 0 else |arrays[0].col.cells|
  }

  function RowStores(arrays: seq<Array>, i: nat): seq<Store>
    requires forall c :: 0 <= c < |arrays| ==> i < |arrays[c].col.cells|
  {
    if arrays == [] then []
    else [Store(arrays[0].at + Start(i, arrays[0].col.width), arrays[0].col.cells[i])] + RowStores(arrays[1..], i)
  }

  /** The first n rows. */
  function LoopStores(arrays: seq<Array>, n: nat): seq<Store>
    requires forall c :: 0 <= c < |arrays| ==> n <= |arrays[c].col.cells|
  {
    if n == 0 then [] else LoopStores(arrays, n - 1) + RowStores(arrays, n - 1)
  }

  function ItemStores(arrays: seq<Array>): seq<Store>
    requires ItemOk(arrays)
  {
    LoopStores(arrays, RowCount(arrays))
  }

  /** Store s is cell i of array a. */
  predicate IsCell(s: Store, a: Array, i: nat) {
    i < |a.col.cells| && s == Store(a.at + Start(i, a.col.width), a.col.cells[i])
  }

  lemma {:induction false} RowStoresAre(arrays: seq<Array>, i: nat)
    requires forall c :: 0 <= c < |arrays| ==> i < |arrays[c].col.cells|
    ensures |RowStores(arrays, i)| == |arrays|
    ensures forall c :: 0 <= c < |arrays| ==> IsCell(RowStores(arrays, i)[c], arrays[c], i)
    decreases |arrays|
  {
    if arrays != [] {
      RowStoresAre(arrays[1..], i);
      assert forall c :: 0 < c < |arrays| ==> arrays[c] == arrays[1..][c - 1];
    }
  }

  /** The stores of a loop are cells of its arrays ... */
  lemma {:induction false} LoopStoreIsCell(arrays: seq<Array>, n: nat, k: nat) returns (c: nat, i: nat)
    requires (forall c :: 0 <= c < |arrays| ==> n <= |arrays[c].col.cells|) && k < |LoopStores(arrays, n)|
    ensures c < |arrays| && i < n && IsCell(LoopStores(arrays, n)[k], arrays[c], i)
  {
    if k < |LoopStores(arrays, n - 1)| {
      c, i := LoopStoreIsCell(arrays, n - 1, k);
    } else {
      RowStoresAre(arrays, n - 1);
      c, i := k - |LoopStores(arrays, n - 1)|, n - 1;
    }
  }

  /** ... and every cell is stored. */
  lemma {:induction false} CellIsLoopStore(arrays: seq<Array>, n: nat, c: nat, i: nat) returns (k: nat)
    requires (forall c :: 0 <= c < |arrays| ==> n <= |arrays[c].col.cells|) && c < |arrays| && i < n
    ensures k < |LoopStores(arrays, n)| && IsCell(LoopStores(arrays, n)[k], arrays[c], i)
  {
    if i < n - 1 {
      k := CellIsLoopStore(arrays, n - 1, c, i);
    } else {
      RowStoresAre(arrays, n - 1);
      k := |LoopStores(arrays, n - 1)| + c;
    }
  }

  lemma CellCovers(a: Array, s: Store, i: nat, x: nat)
    requires ColumnOk(a.col) && IsCell(s, a, i) && Covers(s, x)
    ensures InArray(a, x) && ByteOf(a, x) == s.bs[x - s.at]
  {
    var w := a.col.width;
    CellBytes(a.col.cells, i, w);
    assert s.bs[x - s.at] == Bytes(a.col.cells)[Start(i, w)..Start(i, w) + w][x - s.at];
  }

  ghost predicate InSome(arrays: seq<Array>, x: nat) {
    exists c :: 0 <= c < |arrays| && InArray(arrays[c], x)
  }

  ghost predicate OneHolds(arrays: seq<Array>, x: nat, b: byte) {
    exists c :: 0 <= c < |arrays| && InArray(arrays[c], x) && ByteOf(arrays[c], x) == b
  }

  /** After the loop every byte of its arrays is that of one of them, and no other byte changes. */
  lemma ItemByte(mem: Mem, arrays: seq<Array>, x: nat)
    requires ItemOk(arrays)
    ensures var b := ByteAt(PutAll(mem, ItemStores(arrays)), x);
            if InSome(arrays, x) then OneHolds(arrays, x, b) else b == ByteAt(mem, x)
  {
    hide Bytes, LoopStores;
    var ss, n := ItemStores(arrays), RowCount(arrays);
    PutAllByte(mem, ss, x);
    var b := ByteAt(PutAll(mem, ss), x);
    forall k | 0 <= k < |ss| && Covers(ss[k], x)
      ensures OneHolds(arrays, x, ss[k].bs[x - ss[k].at])
    {
      var c, i := LoopStoreIsCell(arrays, n, k);
      CellCovers(arrays[c], ss[k], i, x);
    }
    if InSome(arrays, x) {
      var c :| 0 <= c < |arrays| && InArray(arrays[c], x);
      var a := arrays[c];
      var i := ByteCell(a.col.cells, a.col.width, x - a.at);
      var k := CellIsLoopStore(arrays, n, c, i);
      assert Covers(ss[k], x);
    }
  }
}
