/** Cell-encoded property values: `reg`, `ranges` and `compatible` of
    kernel/src/devices/device_tree.cpp. A cell is a big-endian 32-bit word; a `reg` value is rows
    of (address, size), a `ranges` value rows of (child address, parent address, size). */
module DtCells {
  import opened Endian
  import opened DtTokens

  // ---------------------------------------------------------------- rows of numbers

  /** Bytes of one row whose fields are the given numbers of cells wide. */
  function RowBytes(ws: seq<nat>): nat {
    if ws == [] then 0 else 4 * ws[0] + RowBytes(ws[1..])
  }

  function DecodeRow(v: bytes, ws: seq<nat>): (r: seq<nat>)
    requires |v| == RowBytes(ws)
    ensures |r| == |ws|
    decreases |ws|
  {
    if ws == [] then [] else [BigEndian(v[..4 * ws[0]])] + DecodeRow(v[4 * ws[0]..], ws[1..])
  }

  function EncodeRow(r: seq<nat>, ws: seq<nat>): (v: bytes)
    requires |r| == |ws|
    ensures |v| == RowBytes(ws)
    decreases |ws|
  {
    if ws == [] then [] else ToBytes(r[0], 4 * ws[0]) + EncodeRow(r[1..], ws[1..])
  }

  /** Where row i of width w starts. */
  function Start(i: nat, w: nat): nat {
    if i == 0 then 0 else Start(i - 1, w) + w
  }

  /** n rows laid end to end. */
  predicate Rows(v: bytes, ws: seq<nat>, n: nat) {
    |v| == Start(n, RowBytes(ws))
  }

  function DecodeRows(v: bytes, ws: seq<nat>, n: nat): (rows: seq<seq<nat>>)
    requires Rows(v, ws, n)
    ensures |rows| == n && forall i :: 0 <= i < n ==> |rows[i]| == |ws|
    decreases n
  {
    if n == 0 then []
    else
      var at := Start(n - 1, RowBytes(ws));
      DecodeRows(v[..at], ws, n - 1) + [DecodeRow(v[at..], ws)]
  }

  function EncodeRows(rows: seq<seq<nat>>, ws: seq<nat>): (v: bytes)
    requires forall i :: 0 <= i < |rows| ==> |rows[i]| == |ws|
    ensures Rows(v, ws, |rows|)
    decreases |rows|
  {
    if rows == [] then [] else EncodeRows(rows[..|rows| - 1], ws) + EncodeRow(rows[|rows| - 1], ws)
  }

  lemma {:induction false} StartValue(i: nat, w: nat)
    ensures Start(i, w) == i * w
  {
    if i > 0 {
      StartValue(i - 1, w);
      assert i * w == (i - 1) * w + w;
    }
  }

  lemma {:induction false} StartOrder(i: nat, n: nat, w: nat)
    requires i < n
    ensures Start(i, w) + w <= Start(n, w)
    decreases n
  {
    if i + 1 < n { StartOrder(i, n - 1, w); }
  }

  /** A value whose length is a multiple of the row width is whole rows. */
  lemma WholeRows(v: bytes, ws: seq<nat>)
    requires RowBytes(ws) > 0 && |v| % RowBytes(ws) == 0
    ensures Rows(v, ws, |v| / RowBytes(ws))
  {
    StartValue(|v| / RowBytes(ws), RowBytes(ws));
  }

  // ---------------------------------------------------------------- round trips

  lemma {:induction false} RowRoundTrip(v: bytes, ws: seq<nat>)
    requires |v| == RowBytes(ws)
    ensures EncodeRow(DecodeRow(v, ws), ws) == v
    decreases |ws|
  {
    if ws != [] {
      var head, rest := v[..4 * ws[0]], v[4 * ws[0]..];
      ToBytesBig(head);
      RowRoundTrip(rest, ws[1..]);
      var r := DecodeRow(v, ws);
      assert r[1..] == DecodeRow(rest, ws[1..]);
      assert v == head + rest;
    }
  }

  /** Decoding a value into rows and encoding them again gives back the same bytes. */
  lemma {:induction false} RowsRoundTrip(v: bytes, ws: seq<nat>, n: nat)
    requires Rows(v, ws, n)
    ensures EncodeRows(DecodeRows(v, ws, n), ws) == v
    decreases n
  {
    hide DecodeRow, EncodeRow, RowBytes;
    if n > 0 {
      var at := Start(n - 1, RowBytes(ws));
      var front, last := v[..at], v[at..];
      RowRoundTrip(last, ws);
      RowsRoundTrip(front, ws, n - 1);
      EncodeAppend(DecodeRows(front, ws, n - 1), DecodeRow(last, ws), ws);
      assert v == front + last;
    }
  }

  lemma EncodeAppend(rows: seq<seq<nat>>, r: seq<nat>, ws: seq<nat>)
    requires |r| == |ws| && forall i :: 0 <= i < |rows| ==> |rows[i]| == |ws|
    ensures forall i :: 0 <= i < |rows + [r]| ==> |(rows + [r])[i]| == |ws|
    ensures EncodeRows(rows + [r], ws) == EncodeRows(rows, ws) + EncodeRow(r, ws)
  {
    hide EncodeRow, RowBytes;
    var all := rows + [r];
    assert all[..|all| - 1] == rows && all[|all| - 1] == r;
  }

  /** Every field fits its cells. */
  ghost predicate RowFits(r: seq<nat>, ws: seq<nat>) {
    |r| == |ws| && forall i :: 0 <= i < |r| ==> r[i] < P(4 * ws[i])
  }

  /** Decoded fields fit their cells. */
  lemma {:induction false} DecodedFits(v: bytes, ws: seq<nat>)
    requires |v| == RowBytes(ws)
    ensures RowFits(DecodeRow(v, ws), ws)
    decreases |ws|
  {
    if ws != [] {
      hide BigEndian, P;
      BigBound(v[..4 * ws[0]]);
      DecodedFits(v[4 * ws[0]..], ws[1..]);
      assert forall i :: 0 < i < |ws| ==> ws[i] == ws[1..][i - 1];
    }
  }

  lemma {:induction false} DecodedRowsFit(v: bytes, ws: seq<nat>, n: nat)
    requires Rows(v, ws, n)
    ensures forall i :: 0 <= i < n ==> RowFits(DecodeRows(v, ws, n)[i], ws)
    decreases n
  {
    hide DecodeRow, RowFits;
    if n > 0 {
      var at := Start(n - 1, RowBytes(ws));
      DecodedFits(v[at..], ws);
      DecodedRowsFit(v[..at], ws, n - 1);
    }
  }

  lemma {:induction false} RowBack(r: seq<nat>, ws: seq<nat>)
    requires RowFits(r, ws)
    ensures DecodeRow(EncodeRow(r, ws), ws) == r
    decreases |ws|
  {
    if ws != [] {
      hide BigEndian, ToBytes, P;
      BigToBytes(r[0], 4 * ws[0]);
      assert RowFits(r[1..], ws[1..]);
      RowBack(r[1..], ws[1..]);
      var v := EncodeRow(r, ws);
      assert v[..4 * ws[0]] == ToBytes(r[0], 4 * ws[0]) && v[4 * ws[0]..] == EncodeRow(r[1..], ws[1..]);
      assert r == [r[0]] + r[1..];
    }
  }

  /** Numbers that fit their cells are recovered from the encoded value. */
  lemma {:induction false} RowsBack(rows: seq<seq<nat>>, ws: seq<nat>)
    requires forall i :: 0 <= i < |rows| ==> |rows[i]| == |ws| && RowFits(rows[i], ws)
    ensures DecodeRows(EncodeRows(rows, ws), ws, |rows|) == rows
    decreases |rows|
  {
    hide RowFits, DecodeRow, EncodeRow, RowBytes;
    if rows != [] {
      var front, last := rows[..|rows| - 1], rows[|rows| - 1];
      assert rows == front + [last];
      RowsBack(front, ws);
      RowBack(last, ws);
      EncodeAppend(front, last, ws);
      var f, l := EncodeRows(front, ws), EncodeRow(last, ws);
      assert (f + l)[..|f|] == f && (f + l)[|f|..] == l;
    }
  }

  lemma {:induction false} RowAt(v: bytes, ws: seq<nat>, n: nat, i: nat)
    requires Rows(v, ws, n) && i < n
    ensures Start(i, RowBytes(ws)) + RowBytes(ws) <= |v|
    ensures DecodeRows(v, ws, n)[i] == DecodeRow(v[Start(i, RowBytes(ws))..Start(i, RowBytes(ws)) + RowBytes(ws)], ws)
    decreases n
  {
    hide DecodeRow;
    var w := RowBytes(ws);
    StartOrder(i, n, w);
    var at := Start(n - 1, w);
    if i < n - 1 {
      RowAt(v[..at], ws, n - 1, i);
      assert v[..at][Start(i, w)..Start(i, w) + w] == v[Start(i, w)..Start(i, w) + w];
    } else {
      assert v[at..] == v[at..at + w];
    }
  }

  // ---------------------------------------------------------------- the reads of the source

  /** One read by number of cells: u32, u64, and for three cells a whole u128. */
  function ReadWidth(c: nat): nat {
    if c == 3 then 16 else 4 * c
  }

  function ReadCells(v: bytes, at: nat, c: nat): nat
    requires c <= 3 && at + ReadWidth(c) <= |v|
  {
    if c == 0 then 0
    else if c == 1 then ReadU32(v, at)
    else if c == 2 then ReadU64(v, at)
    else ReadU128(v, at)
  }

  lemma ReadCellsValue(v: bytes, at: nat, c: nat)
    requires c <= 2 && at + 4 * c <= |v|
    ensures ReadCells(v, at, c) == BigEndian(v[at..at + 4 * c])
  {
    hide ReadU32, ReadU64;
    if c == 0 {
      assert v[at..at] == [];
    } else {
      hide BigEndian;
      ReadValue(v, at);
    }
  }

  lemma {:induction false} BigConcat(s: bytes, t: bytes)
    ensures BigEndian(s + t) == BigEndian(s) * P(|t|) + BigEndian(t)
  {
    if t == [] {
      assert s + t == s;
    } else {
      var n := |t| - 1;
      BigConcat(s, t[..n]);
      assert (s + t)[..|s + t| - 1] == s + t[..n];
      Assoc(BigEndian(s), P(n));
    }
  }

  /** Three cells are read as 16 bytes instead of 12: the value is right exactly when the three
      cells and the word behind them are all zero. */
  lemma ThreeCellsIff(v: bytes, at: nat)
    requires at + 16 <= |v|
    ensures ReadCells(v, at, 3) == BigEndian(v[at..at + 12]) <==> BigEndian(v[at..at + 12]) == 0 && BigEndian(v[at + 12..at + 16]) == 0
  {
    hide BigEndian, P;
    ThreeCellsValue(v, at);
  }

  /** What the read yields: the word behind the three cells takes the low 32 bits. */
  lemma ThreeCellsValue(v: bytes, at: nat)
    requires at + 16 <= |v|
    ensures ReadCells(v, at, 3) == BigEndian(v[at..at + 12]) * 0x1_0000_0000 + BigEndian(v[at + 12..at + 16])
  {
    hide BigEndian, P, ReadU128;
    var s, t := v[at..at + 12], v[at + 12..at + 16];
    assert v[at..at + 16] == s + t;
    ReadValue(v, at);
    BigConcat(s, t);
    Constants();
  }

  /** A concrete row of three address cells and one size cell: address 1, size 1. The address
      read is 2^32 + 1. */
  lemma ThreeCellsWitness()
    ensures var v: bytes := ToBytes(1, 12) + ToBytes(1, 4);
            BigEndian(v[0..12]) == 1 && ReadCells(v, 0, 3) == 0x1_0000_0001
  {
    hide BigEndian, P, ReadCells, ToBytes;
    var s, t := ToBytes(1, 12), ToBytes(1, 4);
    Constants();
    PositivePower(12);
    BigToBytes(1, 12);
    BigToBytes(1, 4);
    assert (s + t)[0..12] == s && (s + t)[12..16] == t;
    ThreeCellsValue(s + t, 0);
  }

  lemma PositivePower(n: nat)
    requires n > 0
    ensures 1 < P(n)
  {
  }

  /** One row as the loops read it, field by field. */
  function ReadRow(v: bytes, at: nat, ws: seq<nat>): seq<nat>
    requires (forall i :: 0 <= i < |ws| ==> ws[i] <= 2) && at + RowBytes(ws) <= |v|
    decreases |ws|
  {
    if ws == [] then [] else [ReadCells(v, at, ws[0])] + ReadRow(v, at + 4 * ws[0], ws[1..])
  }

  lemma {:induction false} ReadRowValue(v: bytes, at: nat, ws: seq<nat>)
    requires (forall i :: 0 <= i < |ws| ==> ws[i] <= 2) && at + RowBytes(ws) <= |v|
    ensures ReadRow(v, at, ws) == DecodeRow(v[at..at + RowBytes(ws)], ws)
    decreases |ws|
  {
    hide ReadCells, BigEndian;
    if ws != [] {
      ReadRowValue(v, at + 4 * ws[0], ws[1..]);
      ReadRowStep(v, at, ws);
    }
  }

  lemma ReadRowStep(v: bytes, at: nat, ws: seq<nat>)
    requires ws != [] && (forall i :: 0 <= i < |ws| ==> ws[i] <= 2) && at + RowBytes(ws) <= |v|
    requires ReadRow(v, at + 4 * ws[0], ws[1..]) == DecodeRow(v[at + 4 * ws[0]..at + 4 * ws[0] + RowBytes(ws[1..])], ws[1..])
    ensures ReadRow(v, at, ws) == DecodeRow(v[at..at + RowBytes(ws)], ws)
  {
    hide ReadCells, BigEndian;
    var c := 4 * ws[0];
    var r := v[at..at + RowBytes(ws)];
    ReadCellsValue(v, at, ws[0]);
    assert r[..c] == v[at..at + c];
    assert r[c..] == v[at + c..at + c + RowBytes(ws[1..])];
    assert ReadRow(v, at, ws) == [ReadCells(v, at, ws[0])] + ReadRow(v, at + c, ws[1..]);
    assert DecodeRow(r, ws) == [BigEndian(r[..c])] + DecodeRow(r[c..], ws[1..]);
  }

  /** Row i of the value, as the source reads it. */
  lemma RowRead(v: bytes, ws: seq<nat>, n: nat, i: nat)
    requires (forall k :: 0 <= k < |ws| ==> ws[k] <= 2) && Rows(v, ws, n) && i < n
    ensures Start(i, RowBytes(ws)) + RowBytes(ws) <= |v|
    ensures DecodeRows(v, ws, n)[i] == ReadRow(v, Start(i, RowBytes(ws)), ws)
  {
    hide DecodeRow, ReadRow;
    RowAt(v, ws, n, i);
    ReadRowValue(v, Start(i, RowBytes(ws)), ws);
  }

  // ---------------------------------------------------------------- property_rewrite_reg

  predicate RegAsserts(len: nat, a: nat, s: nat) {
    a + s > 0 && len / (4 * a + 4 * s) > 0 && len % (4 * a + 4 * s) == 0 && a <= 3 && s <= 2
  }

  /** The decoded rows of a `reg` value. */
  function RegRows(v: bytes, a: nat, s: nat): (rows: seq<seq<nat>>)
    requires RegAsserts(|v|, a, s)
    ensures |rows| == |v| / (4 * a + 4 * s) && forall i :: 0 <= i < |rows| ==> |rows[i]| == 2
  {
    TwoFields(a, s);
    WholeRows(v, [a, s]);
    DecodeRows(v, [a, s], |v| / (4 * a + 4 * s))
  }

  lemma RegRowsFit(v: bytes, a: nat, s: nat)
    requires RegAsserts(|v|, a, s)
    ensures forall i :: 0 <= i < |RegRows(v, a, s)| ==> RegRows(v, a, s)[i][0] < P(4 * a) && RegRows(v, a, s)[i][1] < P(4 * s)
  {
    hide DecodeRows, P;
    TwoFields(a, s);
    WholeRows(v, [a, s]);
    DecodedRowsFit(v, [a, s], |v| / (4 * a + 4 * s));
    forall i | 0 <= i < |RegRows(v, a, s)|
      ensures RegRows(v, a, s)[i][0] < P(4 * a) && RegRows(v, a, s)[i][1] < P(4 * s)
    {
      assert RowFits(RegRows(v, a, s)[i], [a, s]);
    }
  }

  lemma TwoFields(a: nat, s: nat)
    ensures RowBytes([a, s]) == 4 * a + 4 * s && RowBytes([s]) == 4 * s
    ensures [a, s][1..] == [s] && [s][1..] == []
  {
    assert [a, s][1..] == [s] && [s][1..] == [];
    assert RowBytes([s]) == 4 * s + RowBytes([]);
  }

  lemma RegRow(v: bytes, a: nat, s: nat, i: nat)
    requires a <= 2 && s <= 2 && RegAsserts(|v|, a, s) && i < |v| / (4 * a + 4 * s)
    ensures Start(i, 4 * a + 4 * s) + 4 * a + 4 * s <= |v|
    ensures RegRows(v, a, s)[i] ==
              [ReadCells(v, Start(i, 4 * a + 4 * s), a), ReadCells(v, Start(i, 4 * a + 4 * s) + 4 * a, s)]
  {
    hide ReadCells, DecodeRows;
    TwoFields(a, s);
    WholeRows(v, [a, s]);
    RowRead(v, [a, s], |v| / (4 * a + 4 * s), i);
    var at := Start(i, 4 * a + 4 * s);
    assert ReadRow(v, at + 4 * a, [s]) == [ReadCells(v, at + 4 * a, s)] + ReadRow(v, at + 4 * a + 4 * s, []);
  }

  /** A `reg` value in numbers: whole pairs, at most three address and two size cells. */
  predicate RegShape(len: nat, a: nat, s: nat) {
    a <= 3 && s <= 2 && a + s > 0 && len > 0 && len % (4 * a + 4 * s) == 0
  }

  lemma RegShapeIff(len: nat, a: nat, s: nat)
    ensures RegAsserts(len, a, s) <==> RegShape(len, a, s)
  {
    if a + s > 0 && len % (4 * a + 4 * s) == 0 { WholeIff(len, 4 * a + 4 * s); }
  }

  lemma WholeIff(len: nat, w: nat)
    requires w > 0 && len % w == 0
    ensures len / w > 0 <==> len > 0
  {
    assert len == len / w * w;
  }

  /** The row is the big-endian numbers of the bytes from `at` on. */
  ghost predicate RegRowIs(v: bytes, at: int, a: nat, s: nat, row: seq<nat>) {
    0 <= at && at + 4 * a + 4 * s <= |v| && row == [BigEndian(v[at..at + 4 * a]), BigEndian(v[at + 4 * a..at + 4 * a + 4 * s])]
  }

  /** The rows are those of the whole value, one behind the other. */
  ghost predicate RegRowsAre(v: bytes, a: nat, s: nat, rows: seq<seq<nat>>) {
    |rows| * (4 * a + 4 * s) == |v| && forall i :: 0 <= i < |rows| ==> RegRowIs(v, i * (4 * a + 4 * s), a, s, rows[i])
  }

  lemma RegRowsPlain(v: bytes, a: nat, s: nat)
    requires RegAsserts(|v|, a, s)
    ensures RegRowsAre(v, a, s, RegRows(v, a, s))
  {
    hide RegRowIs, RegRows;
    var w, rows := 4 * a + 4 * s, RegRows(v, a, s);
    forall i | 0 <= i < |rows|
      ensures RegRowIs(v, i * w, a, s, rows[i])
    {
      RegRowPlain(v, a, s, i);
    }
    assert |v| / w * w == |v|;
  }

  lemma RegRowPlain(v: bytes, a: nat, s: nat, i: nat)
    requires RegAsserts(|v|, a, s) && i < |RegRows(v, a, s)|
    ensures RegRowIs(v, i * (4 * a + 4 * s), a, s, RegRows(v, a, s)[i])
  {
    hide DecodeRows, DecodeRow, RegRowIs, RowBytes, Start;
    var w := 4 * a + 4 * s;
    TwoFields(a, s);
    WholeRows(v, [a, s]);
    RowAt(v, [a, s], |v| / w, i);
    StartValue(i, w);
    PairIs(v, i * w, a, s);
  }

  lemma PairIs(v: bytes, at: nat, a: nat, s: nat)
    requires at + 4 * a + 4 * s <= |v|
    ensures RowBytes([a, s]) == 4 * a + 4 * s && RegRowIs(v, at, a, s, DecodeRow(v[at..at + 4 * a + 4 * s], [a, s]))
  {
    hide BigEndian;
    TwoFields(a, s);
    var u := v[at..at + 4 * a + 4 * s];
    assert u[..4 * a] == v[at..at + 4 * a] && u[4 * a..] == v[at + 4 * a..at + 4 * a + 4 * s];
    assert DecodeRow(u, [a, s]) == [BigEndian(u[..4 * a])] + DecodeRow(u[4 * a..], [s]);
    LastField(u[4 * a..], s);
  }

  lemma LastField(u: bytes, s: nat)
    requires |u| == 4 * s
    ensures RowBytes([s]) == 4 * s && DecodeRow(u, [s]) == [BigEndian(u)]
  {
    assert [s][1..] == [] && RowBytes([s]) == 4 * s + RowBytes([]);
    assert u[..4 * s] == u && u[4 * s..] == [];
    assert DecodeRow(u, [s]) == [BigEndian(u[..4 * s])] + DecodeRow(u[4 * s..], [s][1..]);
  }

  /** Decoding a `reg` value and encoding it again gives back the same bytes, for every length
      and every pair of cell counts that passes the assertions. */
  lemma RegRoundTrip(v: bytes, a: nat, s: nat)
    requires RegAsserts(|v|, a, s)
    ensures EncodeRows(RegRows(v, a, s), [a, s]) == v
  {
    hide DecodeRows, EncodeRows;
    TwoFields(a, s);
    WholeRows(v, [a, s]);
    RowsRoundTrip(v, [a, s], |v| / (4 * a + 4 * s));
  }

  // ---------------------------------------------------------------- property_rewrite_ranges

  predicate RangesAsserts(len: nat, a: nat, p: nat, s: nat) {
    a + p + s > 0 && len / (4 * a + 4 * p + 4 * s) > 0 && len % (4 * a + 4 * p + 4 * s) == 0 && a <= 3 && s <= 2
  }

  /** The decoded rows of a `ranges` value. */
  function RangesRows(v: bytes, a: nat, p: nat, s: nat): (rows: seq<seq<nat>>)
    requires RangesAsserts(|v|, a, p, s)
    ensures |rows| == |v| / (4 * a + 4 * p + 4 * s) && forall i :: 0 <= i < |rows| ==> |rows[i]| == 3
  {
    ThreeFields(a, p, s);
    WholeRows(v, [a, p, s]);
    DecodeRows(v, [a, p, s], |v| / (4 * a + 4 * p + 4 * s))
  }

  lemma RangesRowsFit(v: bytes, a: nat, p: nat, s: nat)
    requires RangesAsserts(|v|, a, p, s)
    ensures forall i :: 0 <= i < |RangesRows(v, a, p, s)| ==>
              var r := RangesRows(v, a, p, s)[i]; r[0] < P(4 * a) && r[1] < P(4 * p) && r[2] < P(4 * s)
  {
    hide DecodeRows, P;
    ThreeFields(a, p, s);
    WholeRows(v, [a, p, s]);
    DecodedRowsFit(v, [a, p, s], |v| / (4 * a + 4 * p + 4 * s));
    forall i | 0 <= i < |RangesRows(v, a, p, s)|
      ensures var r := RangesRows(v, a, p, s)[i]; r[0] < P(4 * a) && r[1] < P(4 * p) && r[2] < P(4 * s)
    {
      assert RowFits(RangesRows(v, a, p, s)[i], [a, p, s]);
    }
  }

  lemma ThreeFields(a: nat, p: nat, s: nat)
    ensures RowBytes([a, p, s]) == 4 * a + 4 * p + 4 * s && [a, p, s][1..] == [p, s]
  {
    TwoFields(p, s);
    assert [a, p, s][1..] == [p, s];
  }

  lemma RangesRow(v: bytes, a: nat, p: nat, s: nat, i: nat)
    requires a <= 2 && p <= 2 && s <= 2 && RangesAsserts(|v|, a, p, s) && i < |v| / (4 * a + 4 * p + 4 * s)
    ensures Start(i, 4 * a + 4 * p + 4 * s) + 4 * a + 4 * p + 4 * s <= |v|
    ensures var at := Start(i, 4 * a + 4 * p + 4 * s);
            RangesRows(v, a, p, s)[i] == [ReadCells(v, at, a), ReadCells(v, at + 4 * a, p), ReadCells(v, at + 4 * a + 4 * p, s)]
  {
    hide ReadCells, DecodeRows, RowBytes;
    ThreeFields(a, p, s);
    TwoFields(p, s);
    WholeRows(v, [a, p, s]);
    RowRead(v, [a, p, s], |v| / (4 * a + 4 * p + 4 * s), i);
    var at := Start(i, 4 * a + 4 * p + 4 * s);
    ReadTwo(v, at + 4 * a, p, s);
    assert ReadRow(v, at, [a, p, s]) == [ReadCells(v, at, a)] + ReadRow(v, at + 4 * a, [p, s]);
  }

  lemma ReadTwo(v: bytes, at: nat, p: nat, s: nat)
    requires p <= 2 && s <= 2 && at + 4 * p + 4 * s <= |v|
    ensures RowBytes([p, s]) == 4 * p + 4 * s
    ensures ReadRow(v, at, [p, s]) == [ReadCells(v, at, p), ReadCells(v, at + 4 * p, s)]
  {
    hide ReadCells;
    TwoFields(p, s);
    assert ReadRow(v, at + 4 * p, [s]) == [ReadCells(v, at + 4 * p, s)] + ReadRow(v, at + 4 * p + 4 * s, []);
  }

  /** A `ranges` value in numbers: whole triples. */
  predicate RangesShape(len: nat, a: nat, p: nat, s: nat) {
    a <= 3 && s <= 2 && a + p + s > 0 && len > 0 && len % (4 * a + 4 * p + 4 * s) == 0
  }

  lemma RangesShapeIff(len: nat, a: nat, p: nat, s: nat)
    ensures RangesAsserts(len, a, p, s) <==> RangesShape(len, a, p, s)
  {
    if a + p + s > 0 && len % (4 * a + 4 * p + 4 * s) == 0 { WholeIff(len, 4 * a + 4 * p + 4 * s); }
  }

  ghost predicate RangesRowIs(v: bytes, at: int, a: nat, p: nat, s: nat, row: seq<nat>) {
    && 0 <= at && at + 4 * a + 4 * p + 4 * s <= |v|
    && row == [BigEndian(v[at..at + 4 * a]), BigEndian(v[at + 4 * a..at + 4 * a + 4 * p]),
               BigEndian(v[at + 4 * a + 4 * p..at + 4 * a + 4 * p + 4 * s])]
  }

  ghost predicate RangesRowsAre(v: bytes, a: nat, p: nat, s: nat, rows: seq<seq<nat>>) {
    && |rows| * (4 * a + 4 * p + 4 * s) == |v|
    && forall i :: 0 <= i < |rows| ==> RangesRowIs(v, i * (4 * a + 4 * p + 4 * s), a, p, s, rows[i])
  }

  lemma RangesRowsPlain(v: bytes, a: nat, p: nat, s: nat)
    requires RangesAsserts(|v|, a, p, s)
    ensures RangesRowsAre(v, a, p, s, RangesRows(v, a, p, s))
  {
    hide RangesRowIs, RangesRows;
    var w, rows := 4 * a + 4 * p + 4 * s, RangesRows(v, a, p, s);
    forall i | 0 <= i < |rows|
      ensures RangesRowIs(v, i * w, a, p, s, rows[i])
    {
      RangesRowPlain(v, a, p, s, i);
    }
    assert |v| / w * w == |v|;
  }

  lemma RangesRowPlain(v: bytes, a: nat, p: nat, s: nat, i: nat)
    requires RangesAsserts(|v|, a, p, s) && i < |RangesRows(v, a, p, s)|
    ensures RangesRowIs(v, i * (4 * a + 4 * p + 4 * s), a, p, s, RangesRows(v, a, p, s)[i])
  {
    hide DecodeRows, DecodeRow, RangesRowIs, RowBytes, Start;
    var w := 4 * a + 4 * p + 4 * s;
    ThreeFields(a, p, s);
    WholeRows(v, [a, p, s]);
    RowAt(v, [a, p, s], |v| / w, i);
    StartValue(i, w);
    TripleIs(v, i * w, a, p, s);
  }

  lemma TripleIs(v: bytes, at: nat, a: nat, p: nat, s: nat)
    requires at + 4 * a + 4 * p + 4 * s <= |v|
    ensures RowBytes([a, p, s]) == 4 * a + 4 * p + 4 * s
    ensures RangesRowIs(v, at, a, p, s, DecodeRow(v[at..at + 4 * a + 4 * p + 4 * s], [a, p, s]))
  {
    hide BigEndian;
    ThreeFields(a, p, s);
    TwoFields(p, s);
    var u := v[at..at + 4 * a + 4 * p + 4 * s];
    var rest := u[4 * a..];
    assert u[..4 * a] == v[at..at + 4 * a];
    PairIs(u, 4 * a, p, s);
    assert u[4 * a..4 * a + 4 * p + 4 * s] == rest;
    assert u[4 * a..4 * a + 4 * p] == v[at + 4 * a..at + 4 * a + 4 * p];
    assert u[4 * a + 4 * p..4 * a + 4 * p + 4 * s] == v[at + 4 * a + 4 * p..at + 4 * a + 4 * p + 4 * s];
    assert DecodeRow(u, [a, p, s]) == [BigEndian(u[..4 * a])] + DecodeRow(rest, [p, s]);
  }

  lemma RangesRoundTrip(v: bytes, a: nat, p: nat, s: nat)
    requires RangesAsserts(|v|, a, p, s)
    ensures EncodeRows(RangesRows(v, a, p, s), [a, p, s]) == v
  {
    hide DecodeRows, EncodeRows;
    ThreeFields(a, p, s);
    WholeRows(v, [a, p, s]);
    RowsRoundTrip(v, [a, p, s], |v| / (4 * a + 4 * p + 4 * s));
  }

  // ---------------------------------------------------------------- compatible

  function CountNuls(v: bytes): nat {
    if v == [] then 0 else CountNuls(v[..|v| - 1]) + if v[|v| - 1] == 0 then 1 else 0
  }

  /** The strings from_null_term finds at successive positions of a value. */
  function Strings(v: bytes, i: nat): seq<bytes>
    requires i <= |v|
    decreases |v| - i
  {
    if i == |v| then []
    else
      var e := FindNul(v, i);
      [v[i..e]] + if e == |v| then [] else Strings(v, e + 1)
  }

  function JoinNuls(ss: seq<bytes>): bytes {
    if ss == [] then [] else ss[0] + [0] + JoinNuls(ss[1..])
  }

  predicate NulEnded(v: bytes) {
    v == [] || v[|v| - 1] == 0
  }

  /** The first string from i on, and what follows its NUL. */
  lemma StringsStep(v: bytes, i: nat) returns (e: nat)
    requires NulEnded(v) && i < |v|
    ensures i <= e < |v| && e == FindNul(v, i) && 0 !in v[i..e]
    ensures Strings(v, i) == [v[i..e]] + Strings(v, e + 1)
    ensures v[i..] == v[i..e] + ([0] + v[e + 1..])
  {
    hide Strings;
    e := FindNul(v, i);
    assert v[i..] == v[i..e] + v[e..] && v[e..] == [0] + v[e + 1..];
    StringsUnfold(v, i);
  }

  lemma StringsUnfold(v: bytes, i: nat)
    requires i < |v| && FindNul(v, i) < |v|
    ensures Strings(v, i) == [v[i..FindNul(v, i)]] + Strings(v, FindNul(v, i) + 1)
  {
  }

  lemma JoinCons(s: bytes, ss: seq<bytes>)
    ensures JoinNuls([s] + ss) == s + ([0] + JoinNuls(ss))
  {
    assert ([s] + ss)[1..] == ss;
    assert s + [0] + JoinNuls(ss) == s + ([0] + JoinNuls(ss));
  }

  /** Joining the strings with a NUL after each gives back the value. */
  lemma {:induction false} JoinStrings(v: bytes, i: nat)
    requires NulEnded(v) && i <= |v|
    ensures JoinNuls(Strings(v, i)) == v[i..]
    decreases |v| - i
  {
    hide Strings, JoinNuls, FindNul;
    if i < |v| {
      var e := StringsStep(v, i);
      JoinStrings(v, e + 1);
      JoinCons(v[i..e], Strings(v, e + 1));
    } else {
      StringsEnd(v);
    }
  }

  lemma {:induction false} StringsNoNul(v: bytes, i: nat)
    requires NulEnded(v) && i <= |v|
    ensures forall k :: 0 <= k < |Strings(v, i)| ==> 0 !in Strings(v, i)[k]
    decreases |v| - i
  {
    hide Strings, FindNul;
    if i < |v| {
      var e := StringsStep(v, i);
      StringsNoNul(v, e + 1);
      NoNulCons(v[i..e], Strings(v, e + 1));
    } else {
      StringsEnd(v);
    }
  }

  lemma NoNulCons(s: bytes, ss: seq<bytes>)
    requires 0 !in s && forall k :: 0 <= k < |ss| ==> 0 !in ss[k]
    ensures forall k :: 0 <= k < |[s] + ss| ==> 0 !in ([s] + ss)[k]
  {
    assert forall k :: 0 <= k < |[s] + ss| ==> ([s] + ss)[k] == if k == 0 then s else ss[k - 1];
  }

  lemma {:induction false} CountAppend(v: bytes, w: bytes)
    ensures CountNuls(v + w) == CountNuls(v) + CountNuls(w)
  {
    if w == [] {
      assert v + w == v;
    } else {
      CountAppend(v, w[..|w| - 1]);
      assert (v + w)[..|v + w| - 1] == v + w[..|w| - 1];
    }
  }

  lemma {:induction false} CountNone(v: bytes)
    requires 0 !in v
    ensures CountNuls(v) == 0
  {
    if v != [] { CountNone(v[..|v| - 1]); }
  }

  lemma CountZero()
    ensures CountNuls([0]) == 1
  {
    assert [0][..0] == [];
  }

  /** The counting pass and the filling pass agree. */
  lemma {:induction false} CountStrings(v: bytes, i: nat)
    requires NulEnded(v) && i <= |v|
    ensures |Strings(v, i)| == CountNuls(v[i..])
    decreases |v| - i
  {
    hide Strings, CountNuls, FindNul;
    if i < |v| {
      var e := StringsStep(v, i);
      CountStrings(v, e + 1);
      CountAppend(v[i..e], [0] + v[e + 1..]);
      CountAppend([0], v[e + 1..]);
      CountNone(v[i..e]);
      CountZero();
    } else {
      assert v[i..] == [];
      StringsEnd(v);
    }
  }

  /** The counting pass. */
  method CountPass(v: bytes) returns (count: nat)
    ensures count == CountNuls(v)
  {
    count := 0;
    for i := 0 to |v|
      invariant count == CountNuls(v[..i])
    {
      assert v[..i + 1][..i] == v[..i];
      if v[i] == 0 {
        count := count + 1;
      }
    }
    assert v[..|v|] == v;
  }

  lemma StringsEnd(v: bytes)
    ensures Strings(v, |v|) == [] && JoinNuls([]) == [] && CountNuls([]) == 0
  {
  }
}
