/** The state of the rewrite pass in bump memory: what has been allocated and written so far. */
module DtStored {
  import opened DtRewrite
  import opened DtArena
  import opened DtPlace
  import opened DtColumns
  import opened DtMemory
  import Bump

  /** A property record after the pass: data kept in the record, or the number of rows and the
      pointers to the arrays. The array of `compatible` has no count; an empty view ends it. */
  datatype Record = Plain(data: Data) | InBump(count: nat, ats: seq<nat>)

  function RecordOf(d: Data, ats: seq<nat>): Record {
    if d.RegData? || d.RangesData? then InBump(|d.rows|, ats) else if InArrays(d) then InBump(0, ats) else Plain(d)
  }

  /** The allocator and memory are what the log says. */
  ghost predicate AsLogged(w: World, log: seq<Entry>, items: seq<seq<Array>>, bump: Bump.State, mem: Mem) {
    RunOf(w, log) == Run(items, bump) && AllOk(items) && mem == PutAll(w.mem, AllStores(items))
  }

  /** The records point to the arrays of the log, and hold all other data themselves. */
  ghost predicate Recorded(records: seq<Record>, data: seq<Data>, log: seq<Entry>, items: seq<seq<Array>>) {
    && |records| == |data| && |items| == |log|
    && (forall k :: 0 <= k < |log| ==> log[k].id < |data| && data[log[k].id] == log[k].data && InArrays(log[k].data)
                                       && records[log[k].id] == RecordOf(log[k].data, Ats(items[k])))
    && forall i :: 0 <= i < |data| && !InArrays(data[i]) ==> records[i] == Plain(data[i])
  }

  lemma ItemsMore(log: seq<Entry>, e: Entry, values: seq<nat>)
    ensures Items(log + [e], values) == Items(log, values) + [ItemOf(e.data, ValueAt(values, e.id))]
  {
    hide ItemOf;
    assert (log + [e])[..|log|] == log;
  }

  /** One more property: the run goes on exactly when its arrays find room. */
  lemma RunMore(w: World, log: seq<Entry>, e: Entry)
    requires RunOf(w, log).Run?
    ensures var r := RunOf(w, log); var p := Place(r.bump, ItemOf(e.data, ValueAt(w.values, e.id)));
            RunOf(w, log + [e]) == if p.Placed? then Run(r.items + [p.arrays], p.bump) else LostRun
  {
    hide ItemOf, Place, Items;
    ItemsMore(log, e, w.values);
    var items := Items(log, w.values) + [ItemOf(e.data, ValueAt(w.values, e.id))];
    assert items[..|items| - 1] == Items(log, w.values);
  }

  /** A lost run stays lost. */
  lemma {:induction false} LostStays(w: World, log: seq<Entry>, more: seq<Entry>)
    requires RunOf(w, log).LostRun?
    ensures RunOf(w, log + more).LostRun?
    decreases |more|
  {
    hide RunOf;
    if more == [] {
      assert log + more == log;
    } else {
      var n := |more| - 1;
      LostStays(w, log, more[..n]);
      assert log + more == (log + more[..n]) + [more[n]];
      LostOne(w, log + more[..n], more[n]);
    }
  }

  lemma LostOne(w: World, log: seq<Entry>, e: Entry)
    requires RunOf(w, log).LostRun?
    ensures RunOf(w, log + [e]).LostRun?
  {
    hide ItemOf, Place, Items;
    ItemsMore(log, e, w.values);
    var items := Items(log, w.values) + [ItemOf(e.data, ValueAt(w.values, e.id))];
    assert items[..|items| - 1] == Items(log, w.values);
  }

  lemma AsLoggedMore(w: World, log: seq<Entry>, items: seq<seq<Array>>, bump: Bump.State, mem: Mem, e: Entry, arrays: seq<Array>, bump': Bump.State)
    requires AsLogged(w, log, items, bump, mem) && ItemOk(arrays)
    requires Place(bump, ItemOf(e.data, ValueAt(w.values, e.id))) == Placed(arrays, bump')
    ensures AsLogged(w, log + [e], items + [arrays], bump', PutAll(mem, ItemStores(arrays)))
  {
    hide ItemOf, Place, PutAll, ItemStores, ItemOk, RunOf;
    RunMore(w, log, e);
    var all := items + [arrays];
    assert all[..|all| - 1] == items && all[|all| - 1] == arrays;
    PutAllAppend(w.mem, AllStores(items), ItemStores(arrays));
  }

  lemma RecordedMore(records: seq<Record>, data: seq<Data>, log: seq<Entry>, items: seq<seq<Array>>, i: nat, d: Data, arrays: seq<Array>)
    requires Recorded(records, data, log, items) && i < |data| && data[i] == Raw && InArrays(d)
    ensures Recorded(records[i := RecordOf(d, Ats(arrays))], data[i := d], log + [Entry(i, d)], items + [arrays])
  {
    hide RecordOf, Ats;
    var all, its := log + [Entry(i, d)], items + [arrays];
    forall k | 0 <= k < |all|
      ensures all[k] == if k < |log| then log[k] else Entry(i, d)
      ensures its[k] == if k < |log| then items[k] else arrays
      ensures k < |log| ==> all[k].id != i
    {
    }
  }

  lemma RecordedPlain(records: seq<Record>, data: seq<Data>, log: seq<Entry>, items: seq<seq<Array>>, i: nat, d: Data)
    requires Recorded(records, data, log, items) && i < |data| && data[i] == Raw && !InArrays(d)
    ensures Recorded(records[i := Plain(d)], data[i := d], log, items)
  {
    hide RecordOf, Ats;
  }

  lemma PlaceTwo(b: Bump.State, x: Column, y: Column)
    ensures PlaceAll(b, [x, y]) ==
              match PlaceColumn(b, x)
              case Lost => Lost
              case Placed(f, t) => (match PlaceColumn(t, y) case Lost => Lost case Placed(g, u) => Placed(f + g, u))
  {
    hide PlaceColumn;
    PlaceOne(b, y);
    assert [x, y][1..] == [y];
    match PlaceColumn(b, x) {
      case Placed(f, t) => PlaceOne(t, y);
      case _ =>
    }
  }

  lemma PlaceOne(b: Bump.State, y: Column)
    ensures PlaceAll(b, [y]) == PlaceColumn(b, y)
  {
    hide PlaceColumn;
    assert [y][1..] == [];
    match PlaceColumn(b, y) {
      case Placed(g, u) => assert PlaceAll(u, []) == Placed([], u) && g + [] == g;
      case _ =>
    }
  }

  lemma PlaceThree(b: Bump.State, x: Column, y: Column, z: Column)
    ensures PlaceAll(b, [x, y, z]) ==
              match PlaceColumn(b, x)
              case Lost => Lost
              case Placed(f, t) => (match PlaceAll(t, [y, z]) case Lost => Lost case Placed(g, u) => Placed(f + g, u))
  {
    hide PlaceColumn;
    assert [x, y, z][1..] == [y, z];
  }
}
