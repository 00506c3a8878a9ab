/** Where bump.alloc_aligned puts the arrays of the rewrite pass, and which of them memory still
    holds when all are written. */
module DtPlace {
  import opened Num
  import opened Endian
  import opened DtArena
  import Bump
  import BumpProofs

  /** The arrays of one property. `Unfollowed` stands for three-cell addresses. */
  datatype Item = Arrays(cols: seq<Column>) | Unfollowed

  /** `Lost`: the allocator fails, or an array does not end inside its region; such a run is not
      followed further. */
  datatype Placement = Lost | Placed(arrays: seq<Array>, bump: Bump.State)

  /** More than this would reach the end of the room above the mapped memory. */
  const LIMIT: nat := BumpProofs.ROOM - 8 * PAGE_SIZE

  function PlaceColumn(b: Bump.State, col: Column): Placement {
    if col.reserved > LIMIT then Lost
    else
      var (res, t) := Bump.AllocAligned(b, col.reserved, col.alignment);
      match res
      case Crash => Lost
      case NullPointer => Placed([Array(0, col)], t)
      case Pointer(at) =>
        if t.regions == [] || at + col.reserved > Bump.Current(t).end || at + Extent(col) > Bump.Current(t).end then Lost
        else Placed([Array(at, col)], t)
  }

  function PlaceAll(b: Bump.State, cols: seq<Column>): Placement
    decreases |cols|
  {
    if cols == [] then Placed([], b)
    else match PlaceColumn(b, cols[0])
      case Lost => Lost
      case Placed(first, t) =>
        match PlaceAll(t, cols[1..])
        case Lost => Lost
        case Placed(rest, u) => Placed(first + rest, u)
  }

  function Place(b: Bump.State, item: Item): Placement {
    match item
    case Unfollowed => Lost
    case Arrays(cols) => PlaceAll(b, cols)
  }

  /** A whole run: the arrays of each property in the order of allocation. */
  datatype Run = LostRun | Run(items: seq<seq<Array>>, bump: Bump.State)

  function Play(b: Bump.State, items: seq<Item>): Run
    decreases |items|
  {
    if items == [] then Run([], b)
    else match Play(b, items[..|items| - 1])
      case LostRun => LostRun
      case Run(done, t) =>
        match Place(t, items[|items| - 1])
        case Lost => LostRun
        case Placed(arrays, u) => Run(done + [arrays], u)
  }

  predicate ItemFits(item: Item) {
    item.Arrays? ==>
      forall c :: 0 <= c < |item.cols| ==> ColumnOk(item.cols[c]) && |item.cols[c].cells| == |item.cols[0].cells|
  }

  function Flat(items: seq<seq<Array>>): seq<Array> {
    if items == [] then [] else Flat(items[..|items| - 1]) + items[|items| - 1]
  }

  ghost predicate AllOk(items: seq<seq<Array>>) {
    forall i :: 0 <= i < |items| ==> ItemOk(items[i])
  }

  /** The stores of the run, one property after the other. */
  ghost function AllStores(items: seq<seq<Array>>): seq<Store>
    requires AllOk(items)
  {
    if items == [] then [] else AllStores(items[..|items| - 1]) + ItemStores(items[|items| - 1])
  }

  // ---------------------------------------------------------------- reservations never overlap

  ghost predicate Within(b: Bump.State, a: Array) {
    forall x: nat :: InReserved(a, x) ==> BumpProofs.Spent(b, x)
  }

  ghost predicate Beyond(b: Bump.State, a: Array) {
    forall x: nat :: InReserved(a, x) || InArray(a, x) ==> !BumpProofs.Spent(b, x)
  }

  ghost predicate Grows(b: Bump.State, t: Bump.State) {
    BumpProofs.Inv(t) && forall x :: BumpProofs.Spent(b, x) ==> BumpProofs.Spent(t, x)
  }

  /** No array has a byte, reserved or written, among those reserved for an earlier one. */
  ghost predicate Apart(arrays: seq<Array>) {
    forall f, g, x: nat :: 0 <= f < g < |arrays| && InReserved(arrays[f], x) ==> !InReserved(arrays[g], x) && !InArray(arrays[g], x)
  }

  lemma PlaceColumnOk(b: Bump.State, col: Column)
    requires BumpProofs.Inv(b) && ColumnOk(col) && PlaceColumn(b, col).Placed?
    ensures var p := PlaceColumn(b, col);
            && |p.arrays| == 1 && p.arrays[0].col == col
            && Grows(b, p.bump) && Within(p.bump, p.arrays[0]) && Beyond(b, p.arrays[0])
  {
    hide BumpProofs.Inv, BumpProofs.Spent, BumpProofs.Acceptable;
    if col.reserved > 0 {
      SmallPowers();
      var (res, t) := Bump.AllocAligned(b, col.reserved, col.alignment);
      assert res.Pointer?;
      BumpProofs.InsideAcceptable(b, col.reserved, col.alignment);
      BumpProofs.AllocAlignedServes(b, col.reserved, col.alignment);
      BumpProofs.TailUnspent(b, col.reserved, col.alignment);
    }
  }

  /** An array of at most a page that keeps to its reservation is followed whenever the allocator
      finds memory for it. */
  lemma SmallPlaced(b: Bump.State, col: Column)
    requires BumpProofs.Inv(b) && ColumnOk(col) && 0 < col.reserved <= 4096 && Extent(col) <= col.reserved
    ensures PlaceColumn(b, col).Placed? <==> Bump.AllocAligned(b, col.reserved, col.alignment).0 != Bump.Crash
  {
    hide BumpProofs.Inv, BumpProofs.Spent, BumpProofs.Enough, Extent, AlignUp;
    SmallPowers();
    if Bump.AllocAligned(b, col.reserved, col.alignment).0 != Bump.Crash {
      var s1 := BumpProofs.Started(b);
      BumpProofs.SmallFits(Bump.Current(s1).end - AlignUp(Bump.Current(s1).curr, col.alignment), col.reserved, col.alignment);
      BumpProofs.AllocAlignedServes(b, col.reserved, col.alignment);
    }
  }

  lemma SmallPowers()
    ensures IsPow2(4) && IsPow2(8)
  {
    assert Pow2(2) == 4 && Pow2(3) == 8;
  }

  lemma {:induction false} PlaceAllOk(b: Bump.State, cols: seq<Column>)
    requires BumpProofs.Inv(b) && (forall c :: 0 <= c < |cols| ==> ColumnOk(cols[c])) && PlaceAll(b, cols).Placed?
    ensures var p := PlaceAll(b, cols);
            && |p.arrays| == |cols| && (forall c :: 0 <= c < |cols| ==> p.arrays[c].col == cols[c])
            && Grows(b, p.bump) && Apart(p.arrays)
            && forall c :: 0 <= c < |cols| ==> Within(p.bump, p.arrays[c]) && Beyond(b, p.arrays[c])
    decreases |cols|
  {
    hide BumpProofs.Inv, BumpProofs.Spent, PlaceColumn, ColumnOk, InReserved, InArray;
    if cols != [] {
      PlaceColumnOk(b, cols[0]);
      var t := PlaceColumn(b, cols[0]).bump;
      var rest := cols[1..];
      assert forall c :: 0 <= c < |rest| ==> rest[c] == cols[c + 1];
      PlaceAllOk(t, rest);
      var first, more := PlaceColumn(b, cols[0]).arrays, PlaceAll(t, rest).arrays;
      var all := first + more;
      assert forall c :: 0 <= c < |all| ==> all[c] == if c == 0 then first[0] else more[c - 1];
      assert PlaceAll(b, cols) == Placed(all, PlaceAll(t, rest).bump);
    }
  }

  lemma {:induction false} FlatAt(items: seq<seq<Array>>, i: nat, c: nat) returns (f: nat)
    requires i < |items| && c < |items[i]|
    ensures f < |Flat(items)| && Flat(items)[f] == items[i][c]
    decreases |items|
  {
    var n := |items| - 1;
    if i < n {
      f := FlatAt(items[..n], i, c);
    } else {
      f := |Flat(items[..n])| + c;
    }
  }

  lemma {:induction false} FlatFrom(items: seq<seq<Array>>, f: nat) returns (i: nat, c: nat)
    requires f < |Flat(items)|
    ensures i < |items| && c < |items[i]| && Flat(items)[f] == items[i][c]
    decreases |items|
  {
    var n := |items| - 1;
    if f < |Flat(items[..n])| {
      i, c := FlatFrom(items[..n], f);
    } else {
      i, c := n, f - |Flat(items[..n])|;
    }
  }

  /** The arrays are those of the items. */
  ghost predicate Fills(items: seq<Item>, arrays: seq<seq<Array>>) {
    |arrays| == |items| && forall i :: 0 <= i < |items| ==> FillsOne(items[i], arrays[i])
  }

  ghost predicate FillsOne(item: Item, arrays: seq<Array>) {
    item.Arrays? && |arrays| == |item.cols| && forall c :: 0 <= c < |arrays| ==> arrays[c].col == item.cols[c]
  }

  /** Over a whole run: the allocator stays sound, and every array keeps off what was reserved
      for the arrays before it. */
  lemma {:induction false} PlayOk(b: Bump.State, items: seq<Item>)
    requires BumpProofs.Inv(b) && (forall i :: 0 <= i < |items| ==> ItemFits(items[i])) && Play(b, items).Run?
    ensures var r := Play(b, items);
            && Fills(items, r.items) && AllOk(r.items) && BumpProofs.Inv(r.bump) && Apart(Flat(r.items))
            && forall f :: 0 <= f < |Flat(r.items)| ==> Within(r.bump, Flat(r.items)[f])
    decreases |items|
  {
    hide BumpProofs.Inv, BumpProofs.Spent, ColumnOk, InReserved, InArray, PlaceAll, ItemFits, FillsOne, ItemOk;
    if items != [] {
      var n := |items| - 1;
      PlayOk(b, items[..n]);
      var r := Play(b, items[..n]);
      PlaceOk(r.bump, items[n]);
      var p := Place(r.bump, items[n]);
      ApartMore(r.bump, Flat(r.items), p.arrays);
      var all := r.items + [p.arrays];
      assert all[..|all| - 1] == r.items && all[|all| - 1] == p.arrays;
    }
  }

  lemma PlaceOk(b: Bump.State, item: Item)
    requires BumpProofs.Inv(b) && ItemFits(item) && Place(b, item).Placed?
    ensures var p := Place(b, item);
            && FillsOne(item, p.arrays) && ItemOk(p.arrays) && Grows(b, p.bump) && Apart(p.arrays)
            && forall c :: 0 <= c < |p.arrays| ==> Within(p.bump, p.arrays[c]) && Beyond(b, p.arrays[c])
  {
    hide BumpProofs.Inv, BumpProofs.Spent, ColumnOk, InReserved, InArray, PlaceAll;
    PlaceAllOk(b, item.cols);
  }

  lemma ApartMore(b: Bump.State, done: seq<Array>, more: seq<Array>)
    requires Apart(done) && Apart(more)
    requires forall f :: 0 <= f < |done| ==> Within(b, done[f])
    requires forall g :: 0 <= g < |more| ==> Beyond(b, more[g])
    ensures Apart(done + more)
  {
    hide BumpProofs.Spent, InReserved, InArray;
    var all := done + more;
    assert forall f :: 0 <= f < |all| ==> all[f] == if f < |done| then done[f] else more[f - |done|];
  }

  // ---------------------------------------------------------------- what memory holds at the end

  /** A byte of the run's memory is that of some array that has it. */
  lemma {:induction false} RunByte(mem: Mem, items: seq<seq<Array>>, x: nat)
    requires AllOk(items)
    ensures var b := ByteAt(PutAll(mem, AllStores(items)), x);
            if InSome(Flat(items), x) then OneHolds(Flat(items), x, b) else b == ByteAt(mem, x)
    decreases |items|
  {
    hide InArray, ByteOf, ItemOk, PutAll, ItemStores, InSome, OneHolds;
    if items != [] {
      var n := |items| - 1;
      var front, last := items[..n], items[n];
      var before := PutAll(mem, AllStores(front));
      RunByte(mem, front, x);
      PutAllAppend(mem, AllStores(front), ItemStores(last));
      ItemByte(before, last, x);
      var b := ByteAt(PutAll(before, ItemStores(last)), x);
      SomeOfBoth(Flat(front), last, x, b);
    } else {
      NoStores(mem, x);
    }
  }

  lemma NoStores(mem: Mem, x: nat)
    ensures PutAll(mem, []) == mem && !InSome([], x)
  {
  }

  lemma SomeOfBoth(front: seq<Array>, last: seq<Array>, x: nat, b: byte)
    ensures InSome(front + last, x) <==> InSome(front, x) || InSome(last, x)
    ensures OneHolds(front, x, b) || OneHolds(last, x, b) ==> OneHolds(front + last, x, b)
  {
    hide InArray, ByteOf;
    var all := front + last;
    forall c | 0 <= c < |front|
      ensures all[c] == front[c]
    {
    }
    forall c | 0 <= c < |last|
      ensures all[|front| + c] == last[c]
    {
    }
    if c :| 0 <= c < |last| && InArray(last[c], x) {
      assert InArray(all[|front| + c], x);
    }
    if c :| 0 <= c < |last| && InArray(last[c], x) && ByteOf(last[c], x) == b {
      assert InArray(all[|front| + c], x) && ByteOf(all[|front| + c], x) == b;
    }
  }

  ghost predicate AllHeld(mem: Mem, items: seq<seq<Array>>) {
    forall f :: 0 <= f < |Flat(items)| ==> Held(mem, Flat(items)[f])
  }

  ghost predicate AllAgree(arrays: seq<Array>) {
    forall f, g :: 0 <= f < |arrays| && 0 <= g < |arrays| ==> Agree(arrays[f], arrays[g])
  }

  /** What an array writes beyond its reservation is what the arrays behind it have there. */
  ghost predicate ClashFree(arrays: seq<Array>) {
    forall f, g, x: nat :: 0 <= f < g < |arrays| && Overrun(arrays[f], x) && InArray(arrays[g], x) ==> ByteOf(arrays[f], x) == ByteOf(arrays[g], x)
  }

  /** After the run memory holds every array exactly when all arrays agree where they meet. */
  lemma HeldIffAgree(mem: Mem, items: seq<seq<Array>>)
    requires AllOk(items)
    ensures AllHeld(PutAll(mem, AllStores(items)), items) <==> AllAgree(Flat(items))
  {
    hide InArray, ByteOf, AllStores, PutAll, AllOk;
    var end, flat := PutAll(mem, AllStores(items)), Flat(items);
    if AllAgree(flat) {
      forall f, x: nat | 0 <= f < |flat| && InArray(flat[f], x)
        ensures ByteAt(end, x) == ByteOf(flat[f], x)
      {
        RunByte(mem, items, x);
        var c :| 0 <= c < |flat| && InArray(flat[c], x) && ByteOf(flat[c], x) == ByteAt(end, x);
        assert Agree(flat[f], flat[c]);
      }
    }
  }

  lemma ClashIffAgree(arrays: seq<Array>)
    requires Apart(arrays)
    ensures ClashFree(arrays) <==> AllAgree(arrays)
  {
    hide InArray, ByteOf, InReserved;
    if ClashFree(arrays) {
      forall f, g | 0 <= f < |arrays| && 0 <= g < |arrays|
        ensures Agree(arrays[f], arrays[g])
      {
      }
    }
  }

  /** After a run of the pass memory holds all of its arrays exactly when none of the written
      but unreserved bytes is also a different byte of a later array. */
  lemma HeldIff(b: Bump.State, items: seq<Item>, mem: Mem)
    requires BumpProofs.Inv(b) && (forall i :: 0 <= i < |items| ==> ItemFits(items[i])) && Play(b, items).Run?
    ensures var r := Play(b, items);
            AllOk(r.items) && (AllHeld(PutAll(mem, AllStores(r.items)), r.items) <==> ClashFree(Flat(r.items)))
  {
    hide BumpProofs.Inv, Play, ItemFits, AllHeld, ClashFree, AllAgree, Apart, AllOk, Fills;
    PlayOk(b, items);
    HeldIffAgree(mem, Play(b, items).items);
    ClashIffAgree(Flat(Play(b, items).items));
  }

  /** Reserved bytes are safe from everything that other properties write, before and after. */
  lemma {:induction false} ReservedSurvives(mem: Mem, items: seq<seq<Array>>, i: nat, c: nat, x: nat)
    requires AllOk(items) && Apart(Flat(items)) && i < |items| && c < |items[i]|
    requires InReserved(items[i][c], x) && InArray(items[i][c], x)
    requires forall d :: 0 <= d < |items[i]| && InArray(items[i][d], x) ==> ByteOf(items[i][d], x) == ByteOf(items[i][c], x)
    ensures ByteAt(PutAll(mem, AllStores(items)), x) == ByteOf(items[i][c], x)
    decreases |items|
  {
    hide InArray, ByteOf, InReserved, ItemOk, PutAll, ItemStores;
    var n := |items| - 1;
    var front, last := items[..n], items[n];
    var before := PutAll(mem, AllStores(front));
    PutAllAppend(mem, AllStores(front), ItemStores(last));
    ItemByte(before, last, x);
    if i < n {
      var f := FlatAt(front, i, c);
      ApartSplit(Flat(front), last);
      assert !InSome(last, x);
      ReservedSurvives(mem, front, i, c, x);
    }
  }

  lemma ApartSplit(front: seq<Array>, last: seq<Array>)
    requires Apart(front + last)
    ensures Apart(front) && Apart(last)
    ensures forall f, d, x: nat :: 0 <= f < |front| && 0 <= d < |last| && InReserved(front[f], x) ==> !InArray(last[d], x)
  {
    hide InArray, InReserved;
    var all := front + last;
    assert forall f :: 0 <= f < |front| ==> all[f] == front[f];
    forall f, d, x: nat | 0 <= f < |front| && 0 <= d < |last| && InReserved(front[f], x)
      ensures !InArray(last[d], x)
    {
      assert all[|front| + d] == last[d];
    }
    forall f, g, x: nat | 0 <= f < g < |last| && InReserved(last[f], x)
      ensures !InReserved(last[g], x) && !InArray(last[g], x)
    {
      assert all[|front| + f] == last[f] && all[|front| + g] == last[g];
    }
  }
}
