/** The second pass over a parsed devicetree: recursive_property_rewrite. */
module DtRewrite {
  import opened Options
  import opened Endian
  import opened DtTokens
  import opened DtTrees
  import opened DtCells
  import opened DtNames
  import DtStatus

  /** What the pass computes for a property. The strings and rows go into arrays in bump memory,
      and the record keeps pointers to those (see DtMemory). `Wide` stands for
      three-cell addresses, which this model does not follow. */
  datatype Data =
    | Raw | Strings(strings: seq<bytes>) | Text(text: bytes) | Word(word: nat) | Dma(coherent: bool) | Controller
    | RegData(a: nat, s: nat, rows: seq<seq<nat>>) | RangesData(a: nat, p: nat, s: nat, rows: seq<seq<nat>>)
    | Status(status: DtStatus.Status) | Wide

  /** `Stopped`: a null dereference, an assertion, or a read past a property's value. */
  datatype Result<T> = Ok(value: T) | AddressCellsTooLarge | SizeCellsTooLarge | Stopped {
    predicate IsFailure() { !Ok? }
    function PropagateFailure<U>(): Result<U>
      requires IsFailure()
    {
      match this
      case AddressCellsTooLarge => AddressCellsTooLarge
      case SizeCellsTooLarge => SizeCellsTooLarge
      case Stopped => Stopped
    }
    function Extract(): T
      requires !IsFailure()
    {
      value
    }
  }

  datatype Cells = Cells(a: nat, s: nat)

  type Props = seq<(bytes, bytes)>

  // ---------------------------------------------------------------- the pass, as written

  /** One property in the first lap: what it becomes, and the node's cell counts after it. */
  function FirstStep(k: Kind, v: bytes, c: Cells): Result<(Data, Cells)> {
    match k
    case CompatibleProp => if NulEnded(v) then Ok((Strings(DtCells.Strings(v, 0)), c)) else Stopped
    case TextProp => Ok((Text(v), c))
    case WordProp => if |v| < 4 then Stopped else Ok((Word(ReadU32(v, 0)), c))
    case StatusProp => Ok((Status(DtStatus.StatusOf(v)), c))
    case AddressCellsProp =>
      if |v| < 4 then Stopped
      else if ReadU32(v, 0) > 3 then AddressCellsTooLarge
      else Ok((Word(ReadU32(v, 0)), c.(a := ReadU32(v, 0))))
    case SizeCellsProp =>
      if |v| < 4 then Stopped
      else if ReadU32(v, 0) > 2 then SizeCellsTooLarge
      else Ok((Word(ReadU32(v, 0)), c.(s := ReadU32(v, 0))))
    case DmaProp(coherent) => Ok((Dma(coherent), c))
    case ControllerProp => Ok((Controller, c))
    case _ => Ok((Raw, c))
  }

  function FirstLap(ps: Props, c: Cells): (r: Result<(seq<Data>, Cells)>)
    ensures r.Ok? ==> |r.value.0| == |ps|
    decreases |ps|
  {
    if ps == [] then Ok(([], c))
    else
      var (d, c1) :- FirstStep(KindOf(ps[0].0), ps[0].1, c);
      var (ds, c2) :- FirstLap(ps[1..], c1);
      Ok(([d] + ds, c2))
  }

  /** One property in the second lap; c are the node's own cell counts, `parent` the parent's. */
  function SecondStep(k: Kind, v: bytes, c: Cells, parent: Option<Cells>, d: Data): Result<Data> {
    match k
    case RegProp =>
      if parent.None? || !RegAsserts(|v|, parent.value.a, parent.value.s) then Stopped
      else if parent.value.a > 2 then Ok(Wide)
      else Ok(RegData(parent.value.a, parent.value.s, RegRows(v, parent.value.a, parent.value.s)))
    case RangesProp =>
      if v == [] then Ok(RangesData(0, 0, 0, []))
      else if parent.None? || !RangesAsserts(|v|, c.a, parent.value.a, c.s) then Stopped
      else if c.a == 0 || parent.value.a == 0 || parent.value.a > 3 then Stopped
      else if c.a > 2 || parent.value.a > 2 then Ok(Wide)
      else Ok(RangesData(c.a, parent.value.a, c.s, RangesRows(v, c.a, parent.value.a, c.s)))
    case _ => Ok(d)
  }

  function SecondLap(ps: Props, c: Cells, parent: Option<Cells>, ds: seq<Data>): (r: Result<seq<Data>>)
    requires |ds| == |ps|
    ensures r.Ok? ==> |r.value| == |ps|
    decreases |ps|
  {
    if ps == [] then Ok([])
    else
      var d :- SecondStep(KindOf(ps[0].0), ps[0].1, c, parent, ds[0]);
      var rest :- SecondLap(ps[1..], c, parent, ds[1..]);
      Ok([d] + rest)
  }

  /** A tree after the pass: each node with its cell counts and decoded properties. */
  datatype Decoded = Decoded(name: bytes, cells: Cells, data: seq<Data>, children: seq<Decoded>)

  /** parse_from_blob gives the root 2 and 1; parse_node gives every other node 0 and 0. */
  function InitialCells(parent: Option<Cells>): Cells {
    if parent.None? then Cells(2, 1) else Cells(0, 0)
  }

  /** One call of the pass, for a node that starts with cell counts `init` and whose children's
      parent links lead to the node itself or to a record with the cell counts `below`. */
  function RewriteFrom(t: Tree, init: Cells, parent: Option<Cells>, below: Option<Cells>): Result<Decoded>
    decreases t, 1
  {
    var (first, c) :- FirstLap(t.props, init);
    var data :- SecondLap(t.props, c, parent, first);
    var children :- RewriteAll(t.children, if below.Some? then below.value else c);
    Ok(Decoded(t.name, c, data, children))
  }

  /** The pass where every parent link leads to the parent's own record. */
  function Rewrite(t: Tree, parent: Option<Cells>): Result<Decoded>
    decreases t, 2
  {
    RewriteFrom(t, InitialCells(parent), parent, None)
  }

  function RewriteAll(ts: seq<Tree>, c: Cells): (r: Result<seq<Decoded>>)
    ensures r.Ok? ==> |r.value| == |ts|
    decreases ts, 0
  {
    if ts == [] then Ok([])
    else
      var d :- Rewrite(ts[0], Some(c));
      var ds :- RewriteAll(ts[1..], c);
      Ok([d] + ds)
  }

  // ---------------------------------------------------------------- what it should compute

  ghost predicate DistinctNames(ps: Props) {
    forall i, j :: 0 <= i < j < |ps| ==> ps[i].0 != ps[j].0
  }

  ghost predicate WellNamed(t: Tree)
    decreases t, 1
  {
    DistinctNames(t.props) && forall i :: 0 <= i < |t.children| ==> WellNamed(t.children[i])
  }

  /** The first cell of a value. */
  function FirstWord(v: bytes): nat
    requires |v| >= 4
  {
    BigEndian(v[..4])
  }

  lemma WordIs(v: bytes)
    requires |v| >= 4
    ensures ReadU32(v, 0) == FirstWord(v)
  {
    hide ReadU32, BigEndian;
    ReadValue(v, 0);
    assert v[0..4] == v[..4];
  }

  /** The value of the node's property of this name, wherever it stands, or the default. */
  ghost predicate CellIs(ps: Props, name: bytes, default: nat, x: nat) {
    if exists i :: 0 <= i < |ps| && ps[i].0 == name
    then exists i :: 0 <= i < |ps| && ps[i].0 == name && |ps[i].1| >= 4 && x == FirstWord(ps[i].1)
    else x == default
  }

  /** The names whose value is one number. */
  predicate IsWordName(n: bytes) {
    || n == PHANDLE || n == VIRTUAL_REG || n == INTERRUPT_PARENT || n == INTERRUPT_CELLS
    || n == ADDRESS_CELLS || n == SIZE_CELLS
  }

  ghost predicate IsReg(v: bytes, a: nat, s: nat, d: Data) {
    if a > 2 then d == Wide else d.RegData? && d.a == a && d.s == s && RegRowsAre(v, a, s, d.rows)
  }

  ghost predicate IsRanges(v: bytes, a: nat, p: nat, s: nat, d: Data) {
    if a > 2 || p > 2 then d == Wide else d.RangesData? && d.a == a && d.p == p && d.s == s && RangesRowsAre(v, a, p, s, d.rows)
  }

  /** What the chain of comparisons finds; never what a NUL-terminated value means, see DtStatus. */
  predicate StatusIs(v: bytes, s: DtStatus.Status) {
    && (s == DtStatus.Okay <==> v == DtStatus.OKAY) && (s == DtStatus.Disabled <==> v == DtStatus.DISABLED)
    && (s == DtStatus.Reserved <==> v == DtStatus.RESERVED) && (s == DtStatus.Failed <==> v == DtStatus.FAIL)
    && (s == DtStatus.Behind <==> |v| == 5) && !s.FailedFor?
  }

  /** What one property should become, by its name, given the node's and the parent's final cell
      counts. */
  ghost predicate DataIs(p: (bytes, bytes), c: Cells, parent: Option<Cells>, d: Data) {
    var (n, v) := p;
    if n == REG then
      parent.Some? && RegShape(|v|, parent.value.a, parent.value.s) && IsReg(v, parent.value.a, parent.value.s, d)
    else if n == RANGES || n == BUS_RANGES then
      if v == [] then d == RangesData(0, 0, 0, [])
      else parent.Some? && RangesShape(|v|, c.a, parent.value.a, c.s) && IsRanges(v, c.a, parent.value.a, c.s, d)
    else if n == COMPATIBLE then d.Strings? && JoinNuls(d.strings) == v && forall k :: 0 <= k < |d.strings| ==> 0 !in d.strings[k]
    else if IsWordName(n) then |v| >= 4 && d == Word(FirstWord(v))
    else if n == MODEL || n == DEVICE_TYPE then d == Text(v)
    else if n == DMA_COHERENT then d == Dma(true)
    else if n == DMA_NONCOHERENT then d == Dma(false)
    else if n == INTERRUPT_CONTROLLER then d == Controller
    else if n == STATUS then d.Status? && StatusIs(v, d.status)
    else d == Raw
  }

  /** What the pass should compute for tree t: independent of the order of properties. */
  ghost predicate IsComputed(t: Tree, parent: Option<Cells>, d: Decoded)
    decreases t, 1
  {
    && d.name == t.name && |d.data| == |t.props| && |d.children| == |t.children|
    && CellIs(t.props, ADDRESS_CELLS, if parent.None? then 2 else 0, d.cells.a)
    && CellIs(t.props, SIZE_CELLS, if parent.None? then 1 else 0, d.cells.s)
    && (forall i :: 0 <= i < |t.props| ==> DataIs(t.props[i], d.cells, parent, d.data[i]))
    && (forall i :: 0 <= i < |t.children| ==> IsComputed(t.children[i], Some(d.cells), d.children[i]))
  }

  // ---------------------------------------------------------------- the laps

  ghost predicate NoneOf(ps: Props, name: bytes) {
    forall i :: 0 <= i < |ps| ==> ps[i].0 != name
  }

  lemma FirstStepCells(n: bytes, v: bytes, c: Cells)
    requires FirstStep(KindOf(n), v, c).Ok?
    ensures n == ADDRESS_CELLS || n == SIZE_CELLS ==> |v| >= 4
    ensures var (d, c1) := FirstStep(KindOf(n), v, c).value;
            && c1.a == (if n == ADDRESS_CELLS then FirstWord(v) else c.a)
            && c1.s == (if n == SIZE_CELLS then FirstWord(v) else c.s)
  {
    hide ReadU32, NulEnded, DtCells.Strings, KindOf, FirstWord;
    KindNames(n);
    if |v| >= 4 { WordIs(v); }
  }

  lemma {:induction false} FirstLapKeeps(ps: Props, c: Cells)
    requires FirstLap(ps, c).Ok?
    ensures NoneOf(ps, ADDRESS_CELLS) ==> FirstLap(ps, c).value.1.a == c.a
    ensures NoneOf(ps, SIZE_CELLS) ==> FirstLap(ps, c).value.1.s == c.s
    decreases |ps|
  {
    if ps != [] {
      hide FirstStep, KindOf, FirstWord, ADDRESS_CELLS, SIZE_CELLS;
      var c1 := FirstStep(KindOf(ps[0].0), ps[0].1, c).value.1;
      FirstStepCells(ps[0].0, ps[0].1, c);
      assert forall i :: 0 <= i < |ps[1..]| ==> ps[1..][i] == ps[i + 1];
      FirstLapKeeps(ps[1..], c1);
    }
  }

  /** The first lap ends with the cell counts the properties give, in whatever order. */
  lemma {:induction false} FirstLapCells(ps: Props, c: Cells)
    requires DistinctNames(ps) && FirstLap(ps, c).Ok?
    ensures CellIs(ps, ADDRESS_CELLS, c.a, FirstLap(ps, c).value.1.a)
    ensures CellIs(ps, SIZE_CELLS, c.s, FirstLap(ps, c).value.1.s)
    decreases |ps|
  {
    if ps != [] {
      hide FirstStep, KindOf, FirstWord, ADDRESS_CELLS, SIZE_CELLS;
      var n, v, rest := ps[0].0, ps[0].1, ps[1..];
      var c1 := FirstStep(KindOf(n), v, c).value.1;
      FirstStepCells(n, v, c);
      assert forall i :: 0 <= i < |rest| ==> rest[i] == ps[i + 1];
      FirstLapCells(rest, c1);
      FirstLapKeeps(rest, c1);
      CellFromRest(ps, ADDRESS_CELLS, c.a, c1.a, FirstLap(rest, c1).value.1.a);
      CellFromRest(ps, SIZE_CELLS, c.s, c1.s, FirstLap(rest, c1).value.1.s);
    }
  }

  lemma CellFromRest(ps: Props, name: bytes, x: nat, x1: nat, y: nat)
    requires ps != [] && CellIs(ps[1..], name, x1, y)
    requires ps[0].0 == name ==> NoneOf(ps[1..], name) && |ps[0].1| >= 4 && x1 == FirstWord(ps[0].1)
    requires ps[0].0 != name ==> x1 == x
    ensures CellIs(ps, name, x, y)
  {
    hide FirstWord;
    var rest := ps[1..];
    assert forall i :: 0 <= i < |rest| ==> rest[i] == ps[i + 1];
    if ps[0].0 == name {
      assert y == x1;
    } else if i :| 0 <= i < |rest| && rest[i].0 == name {
      assert ps[i + 1].0 == name;
      var j :| 0 <= j < |rest| && rest[j].0 == name && |rest[j].1| >= 4 && y == FirstWord(rest[j].1);
      assert ps[j + 1] == rest[j];
    }
  }

  lemma FirstStepData(p: (bytes, bytes), c: Cells, c': Cells, parent: Option<Cells>)
    requires FirstStep(KindOf(p.0), p.1, c).Ok? && KindOf(p.0) !in {RegProp, RangesProp}
    ensures DataIs(p, c', parent, FirstStep(KindOf(p.0), p.1, c).value.0)
  {
    hide ReadU32, KindOf, JoinNuls, DtCells.Strings, NulEnded, FirstWord, RegShape, RangesShape, IsReg, IsRanges;
    hide StatusIs, DtStatus.StatusOf;
    KindNames(p.0);
    NamesDiffer();
    StatusFound(p.1);
    if |p.1| >= 4 { WordIs(p.1); }
    if p.0 == COMPATIBLE {
      JoinStrings(p.1, 0);
      StringsNoNul(p.1, 0);
      assert p.1[0..] == p.1;
    }
  }

  lemma StatusFound(v: bytes)
    ensures StatusIs(v, DtStatus.StatusOf(v))
  {
    hide DtStatus.StatusOf;
    DtStatus.StatusOfIff(v);
  }

  /** The sixteen names are different. */
  lemma NamesDiffer()
    ensures COMPATIBLE !in {PHANDLE, VIRTUAL_REG, INTERRUPT_PARENT, INTERRUPT_CELLS, ADDRESS_CELLS, SIZE_CELLS, REG, RANGES, BUS_RANGES}
    ensures forall n :: IsWordName(n) ==> n !in {MODEL, DEVICE_TYPE, DMA_COHERENT, DMA_NONCOHERENT, INTERRUPT_CONTROLLER, STATUS}
  {
    Lengths();
    FirstBytes();
  }

  lemma FirstLapOk(ps: Props, c: Cells)
    requires ps != [] && FirstLap(ps, c).Ok?
    ensures FirstStep(KindOf(ps[0].0), ps[0].1, c).Ok?
    ensures var (d, c1) := FirstStep(KindOf(ps[0].0), ps[0].1, c).value;
            FirstLap(ps[1..], c1).Ok? && FirstLap(ps, c).value == ([d] + FirstLap(ps[1..], c1).value.0, FirstLap(ps[1..], c1).value.1)
  {
    hide FirstStep, KindOf;
  }

  lemma SecondLapOk(ps: Props, c: Cells, parent: Option<Cells>, ds: seq<Data>)
    requires ps != [] && |ds| == |ps| && SecondLap(ps, c, parent, ds).Ok?
    ensures SecondStep(KindOf(ps[0].0), ps[0].1, c, parent, ds[0]).Ok? && SecondLap(ps[1..], c, parent, ds[1..]).Ok?
    ensures SecondLap(ps, c, parent, ds).value ==
              [SecondStep(KindOf(ps[0].0), ps[0].1, c, parent, ds[0]).value] + SecondLap(ps[1..], c, parent, ds[1..]).value
  {
    hide SecondStep, KindOf;
  }

  /** After both laps every property holds what it should. */
  lemma {:induction false} LapsData(ps: Props, c0: Cells, c: Cells, parent: Option<Cells>)
    requires FirstLap(ps, c0).Ok? && SecondLap(ps, c, parent, FirstLap(ps, c0).value.0).Ok?
    ensures forall i :: 0 <= i < |ps| ==> DataIs(ps[i], c, parent, SecondLap(ps, c, parent, FirstLap(ps, c0).value.0).value[i])
    decreases |ps|
  {
    hide FirstStep, DataIs, KindOf, SecondStep, FirstLap, SecondLap;
    if ps != [] {
      FirstLapOk(ps, c0);
      var (d, c1) := FirstStep(KindOf(ps[0].0), ps[0].1, c0).value;
      var rest, all := ps[1..], FirstLap(ps, c0).value.0;
      assert all[0] == d && all[1..] == FirstLap(rest, c1).value.0;
      SecondLapOk(ps, c, parent, all);
      LapsData(rest, c1, c, parent);
      SecondStepData(ps[0], c0, c, parent);
      var out, more := SecondLap(ps, c, parent, all).value, SecondLap(rest, c, parent, all[1..]).value;
      forall i | 0 <= i < |ps|
        ensures DataIs(ps[i], c, parent, out[i])
      {
        if i > 0 { assert ps[i] == rest[i - 1] && out[i] == more[i - 1]; }
      }
    }
  }

  lemma SecondStepData(p: (bytes, bytes), c0: Cells, c: Cells, parent: Option<Cells>)
    requires FirstStep(KindOf(p.0), p.1, c0).Ok?
    requires SecondStep(KindOf(p.0), p.1, c, parent, FirstStep(KindOf(p.0), p.1, c0).value.0).Ok?
    ensures DataIs(p, c, parent, SecondStep(KindOf(p.0), p.1, c, parent, FirstStep(KindOf(p.0), p.1, c0).value.0).value)
  {
    hide KindOf, RegRows, RangesRows, RegAsserts, RangesAsserts, RegShape, RangesShape, ReadU32, DtCells.Strings, JoinNuls, NulEnded, RegRowsAre, RangesRowsAre, FirstWord;
    KindNames(p.0);
    if KindOf(p.0) !in {RegProp, RangesProp} {
      FirstStepData(p, c0, c, parent);
    } else if parent.Some? {
      hide REG, RANGES, BUS_RANGES;
      RegRangesDiffer();
      var q, v := parent.value, p.1;
      RegShapeIff(|v|, q.a, q.s);
      RangesShapeIff(|v|, c.a, q.a, c.s);
      if RegAsserts(|v|, q.a, q.s) { RegRowsPlain(v, q.a, q.s); }
      if RangesAsserts(|v|, c.a, q.a, c.s) { RangesRowsPlain(v, c.a, q.a, c.s); }
    }
  }

  lemma RegRangesDiffer()
    ensures REG != RANGES && REG != BUS_RANGES
  {
    Lengths();
  }

  // ---------------------------------------------------------------- the main results

  /** When the pass succeeds, every node's `reg` is decoded with its parent's final cell counts
      and its `ranges` with both, whatever the order of the properties. */
  lemma {:induction false} RewriteComputes(t: Tree, parent: Option<Cells>)
    requires WellNamed(t) && Rewrite(t, parent).Ok?
    ensures IsComputed(t, parent, Rewrite(t, parent).value)
    decreases t, 1
  {
    hide DataIs, CellIs, FirstLap, SecondLap;
    var c := FirstLap(t.props, InitialCells(parent)).value.1;
    FirstLapCells(t.props, InitialCells(parent));
    LapsData(t.props, InitialCells(parent), c, parent);
    RewriteAllComputes(t.children, c);
  }

  lemma {:induction false} RewriteAllComputes(ts: seq<Tree>, c: Cells)
    requires (forall i :: 0 <= i < |ts| ==> WellNamed(ts[i])) && RewriteAll(ts, c).Ok?
    ensures forall i :: 0 <= i < |ts| ==> IsComputed(ts[i], Some(c), RewriteAll(ts, c).value[i])
    decreases ts, 0
  {
    hide Rewrite, IsComputed, WellNamed;
    if ts != [] {
      RewriteComputes(ts[0], Some(c));
      assert forall i :: 0 <= i < |ts[1..]| ==> ts[1..][i] == ts[i + 1];
      RewriteAllComputes(ts[1..], c);
      assert forall i :: 0 < i < |ts| ==> ts[i] == ts[1..][i - 1];
    }
  }

  /** The decoded tree in the order of the original one. */
  function MirrorDecoded(d: Decoded): Decoded
    decreases d, 1
  {
    Decoded(d.name, d.cells, Reverse(d.data), MirrorDecodedAll(d.children))
  }

  function MirrorDecodedAll(ds: seq<Decoded>): (r: seq<Decoded>)
    ensures |r| == |ds|
    decreases ds, 0
  {
    if ds == [] then [] else MirrorDecodedAll(ds[1..]) + [MirrorDecoded(ds[0])]
  }

  lemma {:induction false} ReverseAt<T>(s: seq<T>, i: nat)
    requires i < |s|
    ensures Reverse(s)[i] == s[|s| - 1 - i]
  {
    if i < |s| - 1 { ReverseAt(s[1..], i); }
  }

  lemma {:induction false} MirrorAllAt(ts: seq<Tree>, i: nat)
    requires i < |ts|
    ensures MirrorAll(ts)[i] == Mirror(ts[|ts| - 1 - i])
  {
    hide Mirror;
    if i < |ts| - 1 { MirrorAllAt(ts[1..], i); }
  }

  lemma {:induction false} MirrorDecodedAt(ds: seq<Decoded>, i: nat)
    requires i < |ds|
    ensures MirrorDecodedAll(ds)[i] == MirrorDecoded(ds[|ds| - 1 - i])
  {
    hide MirrorDecoded;
    if i < |ds| - 1 { MirrorDecodedAt(ds[1..], i); }
  }

  lemma CellReverse(ps: Props, name: bytes, default: nat, x: nat)
    requires CellIs(Reverse(ps), name, default, x)
    ensures CellIs(ps, name, default, x)
  {
    hide FirstWord, Reverse;
    var rs := Reverse(ps);
    forall i | 0 <= i < |ps|
      ensures ps[i] == rs[|ps| - 1 - i]
    {
      ReverseAt(ps, |ps| - 1 - i);
    }
    if i :| 0 <= i < |ps| && ps[i].0 == name {
      assert rs[|ps| - 1 - i].0 == name;
      var j :| 0 <= j < |rs| && rs[j].0 == name && |rs[j].1| >= 4 && x == FirstWord(rs[j].1);
      assert ps[|ps| - 1 - j] == rs[j];
    } else if j :| 0 <= j < |rs| && rs[j].0 == name {
      assert ps[|ps| - 1 - j].0 == name;
    }
  }

  /** A decoding of the mirrored tree, which is what the token loop leaves in memory, is the
      mirror image of a decoding of the tree itself. */
  lemma {:induction false} ComputedOfMirror(t: Tree, parent: Option<Cells>, d: Decoded)
    requires IsComputed(Mirror(t), parent, d)
    ensures IsComputed(t, parent, MirrorDecoded(d))
    decreases t
  {
    hide CellIs, DataIs, Reverse, MirrorAll, MirrorDecodedAll;
    var e, m := MirrorDecoded(d), Mirror(t);
    CellReverse(t.props, ADDRESS_CELLS, if parent.None? then 2 else 0, d.cells.a);
    CellReverse(t.props, SIZE_CELLS, if parent.None? then 1 else 0, d.cells.s);
    var n := |t.props|;
    forall i | 0 <= i < n
      ensures DataIs(t.props[i], e.cells, parent, e.data[i])
    {
      ReverseAt(t.props, n - 1 - i);
      ReverseAt(d.data, i);
      assert DataIs(m.props[n - 1 - i], d.cells, parent, d.data[n - 1 - i]);
    }
    var k := |t.children|;
    forall i | 0 <= i < k
      ensures IsComputed(t.children[i], Some(e.cells), e.children[i])
    {
      MirrorAllAt(t.children, k - 1 - i);
      MirrorDecodedAt(d.children, i);
      assert IsComputed(m.children[k - 1 - i], Some(d.cells), d.children[k - 1 - i]);
      ComputedOfMirror(t.children[i], Some(d.cells), d.children[k - 1 - i]);
    }
  }

  // ---------------------------------------------------------------- when the pass succeeds

  predicate IsTooLarge(p: (bytes, bytes)) {
    |p.1| >= 4 && ((p.0 == ADDRESS_CELLS && FirstWord(p.1) > 3) || (p.0 == SIZE_CELLS && FirstWord(p.1) > 2))
  }

  ghost predicate TooLarge(ps: Props) {
    exists i :: 0 <= i < |ps| && IsTooLarge(ps[i])
  }

  /** Some node has more than 3 address cells or more than 2 size cells. */
  ghost predicate Excess(t: Tree)
    decreases t, 1
  {
    TooLarge(t.props) || exists i :: 0 <= i < |t.children| && Excess(t.children[i])
  }

  /** The value is long enough for the first lap to read it. */
  predicate IsReadable(p: (bytes, bytes)) {
    (p.0 == COMPATIBLE ==> p.1 == [] || p.1[|p.1| - 1] == 0) && (IsWordName(p.0) ==> |p.1| >= 4)
  }

  /** `reg` and `ranges` pass the assertions. */
  predicate PassesAsserts(p: (bytes, bytes), c: Cells, parent: Option<Cells>) {
    && (p.0 == REG ==> parent.Some? && RegShape(|p.1|, parent.value.a, parent.value.s))
    && (p.0 == RANGES || p.0 == BUS_RANGES ==>
          p.1 == [] || (parent.Some? && RangesShape(|p.1|, c.a, parent.value.a, c.s) && c.a > 0 && 0 < parent.value.a <= 3))
  }

  /** The cell counts a node's properties give it. */
  function LapCells(ps: Props, c: Cells): Cells
    decreases |ps|
  {
    if ps == [] then c
    else
      var (n, v) := ps[0];
      var c1 := if |v| < 4 then c
                else if n == ADDRESS_CELLS then c.(a := FirstWord(v))
                else if n == SIZE_CELLS then c.(s := FirstWord(v)) else c;
      LapCells(ps[1..], c1)
  }

  /** Every value is readable, and every `reg` and `ranges` that is reached passes. */
  ghost predicate Checked(t: Tree, parent: Option<Cells>)
    decreases t, 1
  {
    var c := LapCells(t.props, if parent.None? then Cells(2, 1) else Cells(0, 0));
    && (forall i :: 0 <= i < |t.props| ==> IsReadable(t.props[i]))
    && (!TooLarge(t.props) ==>
          && (forall i :: 0 <= i < |t.props| ==> PassesAsserts(t.props[i], c, parent))
          && forall i :: 0 <= i < |t.children| ==> Checked(t.children[i], Some(c)))
  }

  predicate TooLargeResult<T>(r: Result<T>) {
    r.AddressCellsTooLarge? || r.SizeCellsTooLarge?
  }

  lemma FirstStepOutcome(p: (bytes, bytes), c: Cells)
    ensures IsReadable(p) ==> (TooLargeResult(FirstStep(KindOf(p.0), p.1, c)) <==> IsTooLarge(p)) && FirstStep(KindOf(p.0), p.1, c) != Stopped
    ensures FirstStep(KindOf(p.0), p.1, c).Ok? ==> IsReadable(p) && !IsTooLarge(p)
  {
    hide KindOf, ReadU32, DtCells.Strings, FirstWord;
    KindNames(p.0);
    AddressIsNotSize();
    if |p.1| >= 4 { WordIs(p.1); }
  }

  lemma AddressIsNotSize()
    ensures ADDRESS_CELLS != SIZE_CELLS && COMPATIBLE != ADDRESS_CELLS && COMPATIBLE != SIZE_CELLS
  {
    Lengths();
  }

  lemma FirstLapSplit(ps: Props, c: Cells)
    requires ps != []
    ensures var first := FirstStep(KindOf(ps[0].0), ps[0].1, c);
            if !first.Ok? then
              FirstLap(ps, c) != Stopped <==> first != Stopped
            else
              var rest := FirstLap(ps[1..], first.value.1);
              && (FirstLap(ps, c).Ok? <==> rest.Ok?) && (FirstLap(ps, c) == Stopped <==> rest == Stopped)
    ensures !FirstStep(KindOf(ps[0].0), ps[0].1, c).Ok? ==> !FirstLap(ps, c).Ok?
  {
    hide FirstStep, KindOf;
  }

  lemma {:induction false} FirstLapOutcome(ps: Props, c: Cells)
    ensures (forall i :: 0 <= i < |ps| ==> IsReadable(ps[i])) ==>
              (TooLargeResult(FirstLap(ps, c)) <==> TooLarge(ps)) && FirstLap(ps, c) != Stopped
    ensures FirstLap(ps, c).Ok? ==> (forall i :: 0 <= i < |ps| ==> IsReadable(ps[i])) && !TooLarge(ps)
    decreases |ps|
  {
    if ps != [] {
      hide FirstLap, FirstStep, KindOf, IsReadable, IsTooLarge, ReadU32;
      FirstStepOutcome(ps[0], c);
      FirstLapSplit(ps, c);
      var rest := ps[1..];
      assert forall i :: 0 <= i < |rest| ==> rest[i] == ps[i + 1];
      assert forall i :: 0 < i < |ps| ==> ps[i] == rest[i - 1];
      if FirstStep(KindOf(ps[0].0), ps[0].1, c).Ok? {
        FirstLapOutcome(rest, FirstStep(KindOf(ps[0].0), ps[0].1, c).value.1);
      }
    } else {
      NoLap(c);
    }
  }

  lemma {:induction false} FirstLapEnds(ps: Props, c: Cells)
    requires FirstLap(ps, c).Ok?
    ensures FirstLap(ps, c).value.1 == LapCells(ps, c)
    decreases |ps|
  {
    hide FirstLap, FirstStep, KindOf, IsReadable, FirstWord, ADDRESS_CELLS, SIZE_CELLS;
    if ps != [] {
      FirstLapOk(ps, c);
      FirstStepOutcome(ps[0], c);
      FirstStepReadable(ps[0]);
      FirstStepCells(ps[0].0, ps[0].1, c);
      AddressIsNotSize();
      FirstLapEnds(ps[1..], FirstStep(KindOf(ps[0].0), ps[0].1, c).value.1);
    } else {
      NoLap(c);
    }
  }

  lemma NoLap(c: Cells)
    ensures FirstLap([], c) == Result.Ok(([], c))
  {
  }

  lemma FirstStepReadable(p: (bytes, bytes))
    ensures IsReadable(p) && (p.0 == ADDRESS_CELLS || p.0 == SIZE_CELLS) ==> |p.1| >= 4
  {
  }

  lemma SecondLapSplit(ps: Props, c: Cells, parent: Option<Cells>, ds: seq<Data>)
    requires ps != [] && |ds| == |ps|
    ensures var d, rest := SecondStep(KindOf(ps[0].0), ps[0].1, c, parent, ds[0]), SecondLap(ps[1..], c, parent, ds[1..]);
            && (SecondLap(ps, c, parent, ds).Ok? <==> d.Ok? && rest.Ok?)
            && (d == Stopped || (d.Ok? && rest == Stopped) ==> SecondLap(ps, c, parent, ds) == Stopped)
  {
    hide SecondStep, KindOf;
  }

  lemma {:induction false} SecondLapOutcome(ps: Props, c: Cells, parent: Option<Cells>, ds: seq<Data>)
    requires |ds| == |ps|
    ensures SecondLap(ps, c, parent, ds).Ok? <==> forall i :: 0 <= i < |ps| ==> PassesAsserts(ps[i], c, parent)
    ensures !SecondLap(ps, c, parent, ds).Ok? ==> SecondLap(ps, c, parent, ds) == Stopped
    decreases |ps|
  {
    if ps != [] {
      hide KindOf, SecondStep, PassesAsserts, SecondLap;
      var rest := ps[1..];
      assert forall i :: 0 <= i < |rest| ==> rest[i] == ps[i + 1];
      assert forall i :: 0 < i < |ps| ==> ps[i] == rest[i - 1];
      SecondStepOutcome(ps[0], c, parent, ds[0]);
      SecondLapOutcome(rest, c, parent, ds[1..]);
      SecondLapSplit(ps, c, parent, ds);
    }
  }

  lemma SecondStepOutcome(p: (bytes, bytes), c: Cells, parent: Option<Cells>, d: Data)
    ensures SecondStep(KindOf(p.0), p.1, c, parent, d).Ok? <==> PassesAsserts(p, c, parent)
    ensures !SecondStep(KindOf(p.0), p.1, c, parent, d).Ok? ==> SecondStep(KindOf(p.0), p.1, c, parent, d) == Stopped
  {
    hide KindOf, RegRows, RangesRows, RegAsserts, RangesAsserts, RegShape, RangesShape, REG, RANGES, BUS_RANGES;
    KindNames(p.0);
    RegRangesDiffer();
    if parent.Some? {
      RegShapeIff(|p.1|, parent.value.a, parent.value.s);
      RangesShapeIff(|p.1|, c.a, parent.value.a, c.s);
    }
  }

  /** The pass succeeds exactly when every value is readable, every `reg` and `ranges` passes
      the assertions and no node has too many cells; and when all values it reaches are in
      order, it reports an error exactly when some node has too many cells. */
  lemma {:induction false} RewriteOutcome(t: Tree, parent: Option<Cells>)
    ensures Rewrite(t, parent).Ok? <==> Checked(t, parent) && !Excess(t)
    ensures Checked(t, parent) ==> (TooLargeResult(Rewrite(t, parent)) <==> Excess(t))
    decreases t, 1
  {
    hide FirstLap, SecondLap, IsReadable, PassesAsserts, LapCells, TooLarge;
    FirstLapOutcome(t.props, InitialCells(parent));
    var first := FirstLap(t.props, InitialCells(parent));
    if first.Ok? {
      FirstLapEnds(t.props, InitialCells(parent));
      var (ds, c) := first.value;
      SecondLapOutcome(t.props, c, parent, ds);
      RewriteAllOutcome(t.children, c);
    }
  }

  lemma {:induction false} RewriteAllOutcome(ts: seq<Tree>, c: Cells)
    ensures RewriteAll(ts, c).Ok? <==> forall i :: 0 <= i < |ts| ==> Checked(ts[i], Some(c)) && !Excess(ts[i])
    ensures (forall i :: 0 <= i < |ts| ==> Checked(ts[i], Some(c))) ==>
              (TooLargeResult(RewriteAll(ts, c)) <==> exists i :: 0 <= i < |ts| && Excess(ts[i]))
    decreases ts, 0
  {
    hide Rewrite, Checked, Excess;
    if ts != [] {
      var rest := ts[1..];
      assert forall i :: 0 <= i < |rest| ==> rest[i] == ts[i + 1];
      assert forall i :: 0 < i < |ts| ==> ts[i] == rest[i - 1];
      RewriteOutcome(ts[0], Some(c));
      RewriteAllOutcome(rest, c);
    }
  }

  lemma {:induction false} MirrorWellNamed(t: Tree)
    requires WellNamed(t)
    ensures WellNamed(Mirror(t))
    decreases t
  {
    hide Reverse, MirrorAll;
    var m := Mirror(t);
    forall i, j | 0 <= i < j < |m.props|
      ensures m.props[i].0 != m.props[j].0
    {
      ReverseAt(t.props, i);
      ReverseAt(t.props, j);
    }
    forall i | 0 <= i < |m.children|
      ensures WellNamed(m.children[i])
    {
      MirrorAllAt(t.children, i);
      MirrorWellNamed(t.children[|t.children| - 1 - i]);
    }
  }

  /** The pass on what the token loop leaves of tree t decodes t itself. */
  lemma ParsedComputes(t: Tree)
    requires WellNamed(t) && Rewrite(Mirror(t), None).Ok?
    ensures IsComputed(t, None, MirrorDecoded(Rewrite(Mirror(t), None).value))
  {
    hide Rewrite, WellNamed, Mirror, MirrorDecoded;
    MirrorWellNamed(t);
    RewriteComputes(Mirror(t), None);
    ComputedOfMirror(t, None, Rewrite(Mirror(t), None).value);
  }
}
