/** The views of a `compatible` property are reserved with half their size. Which numbers of
    strings are safe from everything the pass allocates later. */
module DtStrings {
  import opened Num
  import opened Endian
  import opened DtTokens
  import opened DtCells
  import opened DtRewrite
  import opened DtArena
  import opened DtPlace
  import opened DtColumns
  import opened DtMemory
  import Bump
  import BumpProofs
  import DtFill
  import DtOverlap
  import DtStored
  import DtSurvive

  /** After a run over `all`, the strings of its entry k read back. */
  ghost predicate StringsKept(w: World, all: seq<Entry>, k: nat)
    requires k < |all| && all[k].data.Strings?
  {
    var r := RunOf(w, all);
    && r.Run? && k < |r.items| && |r.items[k]| == 1
    && StringsAt(MemoryAfter(w, all), r.items[k][0].at, all[k].data.strings, ValueAt(w.values, all[k].id))
  }

  /** What has been allocated after a first run, and its memory. */
  lemma RunFacts(w: World, log: seq<Entry>)
    requires BumpProofs.Inv(w.bump) && RunOf(w, log).Run?
    ensures var r := RunOf(w, log);
            && |r.items| == |log| && AllOk(r.items) && BumpProofs.Inv(r.bump)
            && MemoryAfter(w, log) == PutAll(w.mem, AllStores(r.items))
            && forall k :: 0 <= k < |log| ==> FillsOne(ItemOf(log[k].data, ValueAt(w.values, log[k].id)), r.items[k])
  {
    hide BumpProofs.Inv, Play, ItemFits, AllOk, Apart, Flat, Items, PutAll, FillsOne, ItemOf;
    ItemsFit(log, w.values);
    PlayOk(w.bump, Items(log, w.values));
  }

  /** One string survives whatever is allocated later. */
  lemma OneStringKept(w: World, log: seq<Entry>, c: Entry, more: seq<Entry>)
    requires BumpProofs.Inv(w.bump) && c.data.Strings? && |c.data.strings| <= 1 && RunOf(w, log + [c] + more).Run?
    ensures StringsKept(w, log + [c] + more, |log|)
  {
    hide BumpProofs.Inv, RunOf, MemoryAfter, ViewHolds, StringStart, AllOk, PutAll, Views, ViewCell;
    var all := log + [c] + more;
    assert all[|log|] == c;
    RunFacts(w, all);
    assert FillsOne(ItemOf(c.data, ValueAt(w.values, c.id)), RunOf(w, all).items[|log|]);
    if |c.data.strings| == 1 { DtSurvive.StringsSurvive(w, all, |log|, 0); }
  }

  // ---------------------------------------------------------------- two strings are not safe

  /** The view, and the byte in it, that the byte behind the reservation belongs to. */
  function LostView(n: nat): nat {
    (n + 1) / 2
  }

  function LostByte(n: nat): nat {
    if n % 2 == 0 then 8 else 0
  }

  lemma LostPlace(n: nat)
    requires n >= 2
    ensures LostView(n) < n && Start(LostView(n), 16) + LostByte(n) == Start(n + 1, 8) == 8 * (n + 1)
    ensures Start(n + 1, 16) == 16 * (n + 1)
  {
    StartValue(LostView(n), 16);
    StartValue(n + 1, 8);
    StartValue(n + 1, 16);
  }

  /** The byte that the views have there. */
  function ByteBehind(strings: seq<bytes>, p: nat): byte
    requires |strings| >= 2
  {
    LostPlace(|strings|);
    var j := LostView(|strings|);
    ViewCell(StringStart(strings, p, j), |strings[j]|)[LostByte(|strings|)]
  }

  /** A `reg` of one address and no size whose first byte is another one. */
  function Spoiler(strings: seq<bytes>, p: nat): Data
    requires |strings| >= 2
  {
    RegData(2, 0, [[if ByteBehind(strings, p) == 0 then 1 else 0, 0]])
  }

  /** Once the views are placed, the pointer stands behind their reservation and there is room
      for eight more bytes in the same region. */
  lemma ViewsPlaced(b: Bump.State, col: Column)
    requires BumpProofs.Inv(b) && ColumnOk(col) && PlaceColumn(b, col).Placed?
    requires col.alignment == 8 && col.reserved > 0 && col.reserved % 8 == 0 && Extent(col) >= col.reserved + 8
    ensures var p := PlaceColumn(b, col);
            && |p.arrays| == 1 && p.arrays[0].col == col && BumpProofs.Inv(p.bump) && p.bump.regions != []
            && Bump.Current(p.bump).curr == p.arrays[0].at + col.reserved && Bump.Current(p.bump).curr % 8 == 0
            && Bump.Current(p.bump).curr + 8 <= Bump.Current(p.bump).end
  {
    hide BumpProofs.Inv, AlignUp, ColumnOk, Extent, Bump.Reserve, Bump.AddRegion;
    PlaceColumnOk(b, col);
    SmallPowers();
    var (res, t) := Bump.AllocAligned(b, col.reserved, col.alignment);
    AlignedPointer(b, col.reserved);
    NoWrap(res.at + col.reserved);
  }

  lemma AlignedPointer(b: Bump.State, size: u64)
    requires Bump.AllocAligned(b, size, 8).0.Pointer?
    ensures var (res, t) := Bump.AllocAligned(b, size, 8);
            res.at % 8 == 0 && t.regions != [] && Bump.Current(t).curr == Wrap(res.at + size)
  {
    hide AlignUp, Bump.Reserve, Bump.AddRegion, Wrap;
    SmallPowers();
    var (grown, s1) := if b.regions == [] then Bump.AddRegion(b, PAGE_SIZE) else (true, b);
    var (ok, t) := Bump.Reserve(s1, AlignUp(Bump.Current(s1).curr, 8), size);
    AlignUpValue(Bump.Current(t).curr, 8);
  }

  /** One 64-bit number goes exactly there. */
  lemma NumberBehind(b: Bump.State, v: nat)
    requires BumpProofs.Inv(b) && b.regions != [] && Bump.Current(b).curr % 8 == 0 && Bump.Current(b).curr + 8 <= Bump.Current(b).end
    ensures var col := NumberColumn([v], 2, 2);
            PlaceColumn(b, col).Placed? && PlaceColumn(b, col).arrays == [Array(Bump.Current(b).curr, col)]
  {
    hide BumpProofs.Inv, NumberColumn, Extent, ColumnOk, Bump.AllocAligned;
    OneNumber(v, 2, 2);
    EightBytes(b);
  }

  lemma EightBytes(b: Bump.State)
    requires BumpProofs.Inv(b) && b.regions != [] && Bump.Current(b).curr % 8 == 0 && Bump.Current(b).curr + 8 <= Bump.Current(b).end
    ensures var (res, t) := Bump.AllocAligned(b, 8, 8);
            res == Bump.Pointer(Bump.Current(b).curr) && t.regions != [] && Bump.Current(t).end == Bump.Current(b).end
  {
    hide BumpProofs.Inv, AlignUp, Bump.AddRegion, Bump.NewSize, Wrap;
    var c := Bump.Current(b);
    DtOverlap.CurrRoom(b);
    DtOverlap.AlignWords(c.curr);
    NoWrap(c.curr + 8);
    assert Bump.Reserve(b, c.curr, 8) == (true, b);
  }

  /** The spoiler's arrays: the address behind the views' reservation, and no sizes. */
  lemma SpoilerPlaced(b: Bump.State, v: nat, p: nat)
    requires BumpProofs.Inv(b) && b.regions != [] && Bump.Current(b).curr % 8 == 0 && Bump.Current(b).curr + 8 <= Bump.Current(b).end
    requires v < 2
    ensures var q := Place(b, ItemOf(RegData(2, 0, [[v, 0]]), p));
            q.Placed? && q.arrays == [Array(Bump.Current(b).curr, NumberColumn([v], 2, 2)), Array(0, NumberColumn([0], 0, 0))]
  {
    hide BumpProofs.Inv, NumberColumn, PlaceColumn, PlaceAll, Bump.Current;
    var d := RegData(2, 0, [[v, 0]]);
    Constants();
    assert DataOk(d);
    OneField(v);
    var x, y := NumberColumn([v], 2, 2), NumberColumn([0], 0, 0);
    assert ItemOf(d, p) == Arrays([x, y]);
    NumberBehind(b, v);
    NoSizes();
    DtOverlap.NullColumn(PlaceColumn(b, x).bump, y);
    DtStored.PlaceTwo(b, x, y);
  }

  lemma OneField(v: nat)
    ensures Field([[v, 0]], 0) == [v] && Field([[v, 0]], 1) == [0]
  {
  }

  lemma NoSizes()
    ensures NumberColumn([0], 0, 0).reserved == 0 && Extent(NumberColumn([0], 0, 0)) == 0
  {
    hide Extent, Numbers;
    NumberColumnOk([0], 0, 0);
    StartZero(1);
  }

  /** Where the views of two or more strings go. */
  lemma PlacedViews(b: Bump.State, strings: seq<bytes>, p: nat) returns (a: Array)
    requires BumpProofs.Inv(b) && |strings| >= 2 && Place(b, ItemOf(Data.Strings(strings), p)).Placed?
    ensures var q := Place(b, ItemOf(Data.Strings(strings), p));
            && q.arrays == [a] && BumpProofs.Inv(q.bump) && q.bump.regions != []
            && Bump.Current(q.bump).curr == a.at + Start(|strings| + 1, 8) && Bump.Current(q.bump).curr % 8 == 0
            && Bump.Current(q.bump).curr + 8 <= Bump.Current(q.bump).end
  {
    hide BumpProofs.Inv, PlaceColumn, PlaceAll, Views, ViewCell, ColumnOk, Extent, Start, Bump.Current;
    var col := DtFill.ViewArray(strings, p, 0).col;
    ViewColumnOk(strings, p);
    LostPlace(|strings|);
    assert ItemOf(Data.Strings(strings), p) == Arrays([col]);
    DtStored.PlaceOne(b, col);
    ViewsPlaced(b, col);
    a := PlaceColumn(b, col).arrays[0];
  }

  /** A run whose last entry is a `compatible`: where its views are. */
  lemma LastViews(w: World, log: seq<Entry>, c: Entry) returns (a: Array)
    requires BumpProofs.Inv(w.bump) && c.data.Strings? && |c.data.strings| >= 2 && RunOf(w, log + [c]).Run?
    ensures var r := RunOf(w, log + [c]);
            && |r.items| == |log| + 1 && r.items[|log|] == [a] && BumpProofs.Inv(r.bump) && r.bump.regions != []
            && Bump.Current(r.bump).curr == a.at + Start(|c.data.strings| + 1, 8) && Bump.Current(r.bump).curr % 8 == 0
            && Bump.Current(r.bump).curr + 8 <= Bump.Current(r.bump).end
  {
    hide BumpProofs.Inv, RunOf, Place, ItemOf, Start, Bump.Current, AllOk, AllStores, FillsOne, PutAll, MemoryAfter;
    if RunOf(w, log).LostRun? {
      DtStored.LostOne(w, log, c);
    }
    DtStored.RunMore(w, log, c);
    RunFacts(w, log);
    a := PlacedViews(RunOf(w, log).bump, c.data.strings, ValueAt(w.values, c.id));
  }

  /** Two or more strings: the spoiler, allocated next, takes their place. */
  lemma TwoStringsLost(w: World, log: seq<Entry>, c: Entry)
    requires BumpProofs.Inv(w.bump) && c.data.Strings? && |c.data.strings| >= 2 && RunOf(w, log + [c]).Run?
    ensures var e := Entry(0, Spoiler(c.data.strings, ValueAt(w.values, c.id)));
            RunOf(w, log + [c] + [e]).Run? && !StringsKept(w, log + [c] + [e], |log|)
  {
    hide BumpProofs.Inv, RunOf, MemoryAfter, StringsAt, Place, NumberColumn, ItemOf, ByteBehind, Bump.Current, Start;
    var strings, p := c.data.strings, ValueAt(w.values, c.id);
    var e := Entry(0, Spoiler(strings, p));
    var v := if ByteBehind(strings, p) == 0 then 1 else 0;
    var a := LastViews(w, log, c);
    var r := RunOf(w, log + [c]);
    SpoilerPlaced(r.bump, v, ValueAt(w.values, 0));
    DtStored.RunMore(w, log + [c], e);
    var all := log + [c] + [e];
    var address := Array(a.at + Start(|strings| + 1, 8), NumberColumn([v], 2, 2));
    assert RunOf(w, all).items == r.items + [[address, Array(0, NumberColumn([0], 0, 0))]];
    assert RunOf(w, all).items[|log|] == [a];
    RunFacts(w, all);
    AddressThere(w.mem, r.items, address, v);
    ViewLost(MemoryAfter(w, all), a.at, strings, p);
  }

  /** The address is in memory after the run. */
  lemma AddressThere(mem: Mem, items: seq<seq<Array>>, address: Array, v: nat)
    requires AllOk(items + [[address, Array(0, NumberColumn([0], 0, 0))]]) && v < 2 && address.col == NumberColumn([v], 2, 2)
    ensures ByteAt(PutAll(mem, AllStores(items + [[address, Array(0, NumberColumn([0], 0, 0))]])), address.at) == v
  {
    hide NumberColumn, ItemStores, PutAll, Bytes;
    OneNumber(v, 2, 2);
    assert Native(v, 8)[0] == v % 256;
    NoSizes();
    var last := [address, Array(0, NumberColumn([0], 0, 0))];
    var all := items + [last];
    assert all[..|all| - 1] == items && all[|all| - 1] == last;
    assert ItemOk(last);
    PutAllAppend(mem, AllStores(items), ItemStores(last));
    ItemByte(PutAll(mem, AllStores(items)), last, address.at);
    assert last[0] == address && InArray(last[0], address.at);
  }

  /** With another byte there the strings do not read back. */
  lemma ViewLost(mem: Mem, at: nat, strings: seq<bytes>, p: nat)
    requires |strings| >= 2 && ByteAt(mem, at + Start(|strings| + 1, 8)) != ByteBehind(strings, p)
    ensures !StringsAt(mem, at, strings, p)
  {
    hide ViewCell, Get, StringStart, ViewHolds, Start;
    LostPlace(|strings|);
    var j, k := LostView(|strings|), LostByte(|strings|);
    ViewCellHolds(mem, at, j, StringStart(strings, p, j), |strings[j]|);
    GetByte(mem, at + Start(j, 16), 16, k);
  }

  lemma GetByte(mem: Mem, x: nat, n: nat, k: nat)
    requires k < n
    ensures Get(mem, x, n)[k] == ByteAt(mem, x + k)
  {
  }

  /** The strings of a `compatible` property survive whatever the pass allocates later exactly
      when there is at most one. */
  lemma StringsSafeIff(w: World, log: seq<Entry>, c: Entry)
    requires BumpProofs.Inv(w.bump) && c.data.Strings? && RunOf(w, log + [c]).Run?
    ensures |c.data.strings| <= 1 <==>
              forall more: seq<Entry> :: RunOf(w, log + [c] + more).Run? ==> StringsKept(w, log + [c] + more, |log|)
  {
    hide BumpProofs.Inv, RunOf, StringsKept;
    if |c.data.strings| <= 1 {
      forall more: seq<Entry> | RunOf(w, log + [c] + more).Run?
        ensures StringsKept(w, log + [c] + more, |log|)
      {
        OneStringKept(w, log, c, more);
      }
    } else {
      TwoStringsLost(w, log, c);
    }
  }
}
