/** First fit as kernel/src/pmm.cpp is meant to do it: a block that does not fit is skipped,
    and both pieces left of a block that is cut stay on the list. Proved for every alignment,
    and compared with the written allocator on the page-aligned requests it serves. */
module PmmMeant {
  import opened Num
  import PmmProofs

  /** One free block; a list of them stands for a region's chain. */
  datatype Chunk = Chunk(base: nat, length: nat) {
    function End(): nat { base + length }
  }

  datatype Region = Region(base: nat, length: nat, freeBytes: nat, chunks: seq<Chunk>)

  predicate Fits(c: Chunk, size: nat, a: nat)
    requires a > 0
  {
    RoundUp(c.base, a) + size <= c.End()
  }

  /** The first block, from k on, that holds an aligned range of the size, or |cs|. */
  function FindFit(cs: seq<Chunk>, k: nat, size: nat, a: nat): (j: nat)
    requires a > 0 && k <= |cs|
    ensures k <= j <= |cs|
    ensures forall i :: k <= i < j ==> !Fits(cs[i], size, a)
    ensures j < |cs| ==> Fits(cs[j], size, a)
    decreases |cs| - k
  {
    if k == |cs| || Fits(cs[k], size, a) then k else FindFit(cs, k + 1, size, a)
  }

  /** Cuts [ab, ab + size) out of block k; what is left on either side stays on the list. */
  function Cut(cs: seq<Chunk>, k: nat, ab: nat, size: nat): seq<Chunk>
    requires k < |cs| && cs[k].base <= ab && ab + size <= cs[k].End()
  {
    cs[..k] + Pieces(cs[k], ab, size) + cs[k + 1..]
  }

  function Pieces(c: Chunk, ab: nat, size: nat): seq<Chunk>
    requires c.base <= ab && ab + size <= c.End()
  {
    (if c.base < ab then [Chunk(c.base, ab - c.base)] else []) +
    (if ab + size < c.End() then [Chunk(ab + size, c.End() - (ab + size))] else [])
  }

  /** The first region, from i on, that has enough free bytes and a fitting block, or |rs|. */
  function FindRegion(rs: seq<Region>, i: nat, size: nat, a: nat): (k: nat)
    requires a > 0 && i <= |rs|
    ensures i <= k <= |rs|
    ensures forall j :: i <= j < k ==> rs[j].freeBytes < size || FindFit(rs[j].chunks, 0, size, a) == |rs[j].chunks|
    ensures k < |rs| ==> rs[k].freeBytes >= size && FindFit(rs[k].chunks, 0, size, a) < |rs[k].chunks|
    decreases |rs| - i
  {
    if i == |rs| || (rs[i].freeBytes >= size && FindFit(rs[i].chunks, 0, size, a) < |rs[i].chunks|) then i
    else FindRegion(rs, i + 1, size, a)
  }

  datatype Result = Granted(base: nat) | OutOfMem

  function Alloc(rs: seq<Region>, size: nat, a: nat): (Result, seq<Region>)
    requires a > 0
  {
    var i := FindRegion(rs, 0, size, a);
    if i == |rs| then (OutOfMem, rs)
    else
      var r := rs[i];
      var k := FindFit(r.chunks, 0, size, a);
      RoundUpLeast(r.chunks[k].base, a);
      var ab := RoundUp(r.chunks[k].base, a);
      (Granted(ab), rs[i := r.(freeBytes := r.freeBytes - size, chunks := Cut(r.chunks, k, ab, size))])
  }

  // ---------------------------------------------------------------- invariant

  ghost function Sum(cs: seq<Chunk>): nat {
    if cs == [] then 0 else cs[0].length + Sum(cs[1..])
  }

  ghost predicate ChunkOk(c: Chunk, lo: nat, hi: nat) {
    lo <= c.base && 0 < c.length && c.End() <= hi && c.base % PAGE_SIZE == 0 && c.length % PAGE_SIZE == 0
  }

  /** Page-aligned, non-empty, inside [lo, hi), in address order and disjoint. */
  ghost predicate ListOk(cs: seq<Chunk>, lo: nat, hi: nat) {
    && (forall i :: 0 <= i < |cs| ==> ChunkOk(cs[i], lo, hi))
    && (forall i, j :: 0 <= i < j < |cs| ==> cs[i].End() <= cs[j].base)
  }

  ghost predicate RegionOk(r: Region) {
    ListOk(r.chunks, r.base, r.base + r.length) && r.freeBytes == Sum(r.chunks)
  }

  ghost predicate Inv(rs: seq<Region>) {
    && (forall i :: 0 <= i < |rs| ==> RegionOk(rs[i]))
    && (forall i, j :: 0 <= i < j < |rs| ==> rs[i].base + rs[i].length <= rs[j].base || rs[j].base + rs[j].length <= rs[i].base)
  }

  ghost predicate InChunk(c: Chunk, x: int) {
    c.base <= x < c.End()
  }

  ghost predicate InList(cs: seq<Chunk>, x: int) {
    exists i :: 0 <= i < |cs| && InChunk(cs[i], x)
  }

  ghost predicate Free(rs: seq<Region>, x: int) {
    exists i :: 0 <= i < |rs| && InList(rs[i].chunks, x)
  }

  // ---------------------------------------------------------------- rounding

  lemma RoundUpPage(x: nat, a: nat)
    requires a > 0 && a % PAGE_SIZE == 0
    ensures RoundUp(x, a) % PAGE_SIZE == 0
  {
    RoundUpLeast(x, a);
    PmmProofs.MultipleOfMultiple(RoundUp(x, a), PAGE_SIZE, a / PAGE_SIZE);
  }

  /** A block fits exactly when some aligned range of the size lies inside it. */
  lemma FitsIff(c: Chunk, size: nat, a: nat)
    requires a > 0
    ensures Fits(c, size, a) <==> exists y: nat :: y % a == 0 && c.base <= y && y + size <= c.End()
  {
    RoundUpLeast(c.base, a);
  }

  // ---------------------------------------------------------------- cutting one list

  lemma {:induction false} SumSplit(xs: seq<Chunk>, ys: seq<Chunk>)
    ensures Sum(xs + ys) == Sum(xs) + Sum(ys)
  {
    if xs == [] {
      assert xs + ys == ys;
    } else {
      SumSplit(xs[1..], ys);
      assert (xs + ys)[1..] == xs[1..] + ys;
    }
  }

  lemma CutSum(cs: seq<Chunk>, k: nat, ab: nat, size: nat)
    requires k < |cs| && cs[k].base <= ab && ab + size <= cs[k].End()
    ensures Sum(Cut(cs, k, ab, size)) == Sum(cs) - size && Sum(cs) >= size
  {
    var p := Pieces(cs[k], ab, size);
    SumSplit(cs[..k] + p, cs[k + 1..]);
    SumSplit(cs[..k], p);
    assert cs == cs[..k] + [cs[k]] + cs[k + 1..];
    SumSplit(cs[..k] + [cs[k]], cs[k + 1..]);
    SumSplit(cs[..k], [cs[k]]);
    PiecesSum(cs[k], ab, size);
  }

  lemma PiecesSum(c: Chunk, ab: nat, size: nat)
    requires c.base <= ab && ab + size <= c.End()
    ensures Sum(Pieces(c, ab, size)) == c.length - size && Sum([c]) == c.length
  {
    var front := if c.base < ab then [Chunk(c.base, ab - c.base)] else [];
    var back := if ab + size < c.End() then [Chunk(ab + size, c.End() - (ab + size))] else [];
    SumSplit(front, back);
    assert Sum([c]) == c.length + Sum([]) by { assert [c][1..] == []; }
    if c.base < ab { assert front[1..] == []; }
    if ab + size < c.End() { assert back[1..] == []; }
  }

  /** The pieces lie inside the block, in order, and are page-aligned. */
  lemma PiecesOk(c: Chunk, ab: nat, size: nat)
    requires c.base <= ab && ab + size <= c.End() && ChunkOk(c, c.base, c.End())
    requires ab % PAGE_SIZE == 0 && size % PAGE_SIZE == 0
    ensures ListOk(Pieces(c, ab, size), c.base, c.End())
  {
    assert c.base < ab ==> ChunkOk(Chunk(c.base, ab - c.base), c.base, c.End());
    assert ab + size < c.End() ==> ChunkOk(Chunk(ab + size, c.End() - (ab + size)), c.base, c.End());
  }

  lemma InListJoin(xs: seq<Chunk>, ys: seq<Chunk>, x: int)
    ensures InList(xs + ys, x) <==> InList(xs, x) || InList(ys, x)
  {
    if i :| 0 <= i < |xs| && InChunk(xs[i], x) { assert InChunk((xs + ys)[i], x); }
    if i :| 0 <= i < |ys| && InChunk(ys[i], x) { assert InChunk((xs + ys)[|xs| + i], x); }
  }

  lemma InListOne(c: Chunk, x: int)
    ensures InList([c], x) <==> InChunk(c, x)
  {
    assert [c][0] == c;
  }

  lemma PiecesFree(c: Chunk, ab: nat, size: nat, x: int)
    requires c.base <= ab && ab + size <= c.End()
    ensures InList(Pieces(c, ab, size), x) <==> InChunk(c, x) && !(ab <= x < ab + size)
  {
    hide InList;
    var front := if c.base < ab then [Chunk(c.base, ab - c.base)] else [];
    var back := if ab + size < c.End() then [Chunk(ab + size, c.End() - (ab + size))] else [];
    InListJoin(front, back, x);
    InListOne(Chunk(c.base, ab - c.base), x);
    InListOne(Chunk(ab + size, c.End() - (ab + size)), x);
    assert !InList([], x) by { InListNone(x); }
  }

  lemma InListNone(x: int)
    ensures !InList([], x)
  {
  }

  lemma CutListOk(cs: seq<Chunk>, k: nat, ab: nat, size: nat, lo: nat, hi: nat)
    requires k < |cs| && cs[k].base <= ab && ab + size <= cs[k].End() && ListOk(cs, lo, hi)
    requires ab % PAGE_SIZE == 0 && size % PAGE_SIZE == 0
    ensures ListOk(Cut(cs, k, ab, size), lo, hi)
  {
    hide Pieces;
    assert ChunkOk(cs[k], lo, hi);
    PiecesOk(cs[k], ab, size);
    var p := Pieces(cs[k], ab, size);
    var t := Cut(cs, k, ab, size);
    assert forall i :: 0 <= i < |t| ==>
        t[i] == if i < k then cs[i] else if i < k + |p| then p[i - k] else cs[i - |p| + 1];
    forall i | 0 <= i < |t|
      ensures ChunkOk(t[i], lo, hi)
    {
      if k <= i < k + |p| { assert ChunkOk(p[i - k], cs[k].base, cs[k].End()); }
    }
    forall i, j | 0 <= i < j < |t|
      ensures t[i].End() <= t[j].base
    {
      if k <= i < k + |p| { assert ChunkOk(p[i - k], cs[k].base, cs[k].End()); }
      if k <= j < k + |p| { assert ChunkOk(p[j - k], cs[k].base, cs[k].End()); }
    }
  }

  lemma CutFree(cs: seq<Chunk>, k: nat, ab: nat, size: nat, lo: nat, hi: nat, x: int)
    requires k < |cs| && cs[k].base <= ab && ab + size <= cs[k].End() && ListOk(cs, lo, hi)
    ensures InList(Cut(cs, k, ab, size), x) <==> InList(cs, x) && !(ab <= x < ab + size)
  {
    hide Pieces, InList, ChunkOk;
    var p := Pieces(cs[k], ab, size);
    assert cs == cs[..k] + [cs[k]] + cs[k + 1..];
    InListJoin(cs[..k] + [cs[k]], cs[k + 1..], x);
    InListJoin(cs[..k], [cs[k]], x);
    InListOne(cs[k], x);
    InListJoin(cs[..k] + p, cs[k + 1..], x);
    InListJoin(cs[..k], p, x);
    PiecesFree(cs[k], ab, size, x);
    if InChunk(cs[k], x) {
      OthersApart(cs, k, lo, hi, x);
    }
  }

  lemma OthersApart(cs: seq<Chunk>, k: nat, lo: nat, hi: nat, x: int)
    requires k < |cs| && ListOk(cs, lo, hi) && InChunk(cs[k], x)
    ensures !InList(cs[..k], x) && !InList(cs[k + 1..], x)
  {
    var rest := cs[k + 1..];
    assert forall i :: 0 <= i < |rest| ==> rest[i] == cs[k + 1 + i];
  }

  // ---------------------------------------------------------------- the whole manager

  /** Where a granted range comes from. */
  ghost predicate TakenFrom(rs: seq<Region>, i: nat, k: nat, ab: nat, size: nat) {
    && i < |rs| && k < |rs[i].chunks|
    && rs[i].chunks[k].base <= ab && ab + size <= rs[i].chunks[k].End()
  }

  /** The range is the lowest aligned one of the first block that holds one, in the first
      region that has such a block. */
  ghost predicate FirstTaken(rs: seq<Region>, i: nat, k: nat, ab: nat, size: nat, a: nat)
    requires a > 0
  {
    && TakenFrom(rs, i, k, ab, size) && ab % a == 0
    && (forall y: nat :: y % a == 0 && TakenFrom(rs, i, k, y, size) ==> ab <= y)
    && (forall j: nat, m: nat, y: nat :: (j < i || (j == i && m < k)) && y % a == 0 ==> !TakenFrom(rs, j, m, y, size))
  }

  lemma {:induction false} SomeChunkCovers(cs: seq<Chunk>, k: nat)
    requires k < |cs|
    ensures cs[k].length <= Sum(cs)
  {
    if k > 0 { SomeChunkCovers(cs[1..], k - 1); }
  }

  /** For every alignment of at least a page: a request fails exactly when no free block holds
      an aligned range of the size; otherwise the lowest aligned range is cut from the first
      free block that holds one, in the first region that has such a block, the lists stay in
      order, and exactly that range stops being free. */
  lemma MeantAlloc(rs: seq<Region>, size: nat, a: nat)
    requires Inv(rs) && size > 0 && size % PAGE_SIZE == 0 && a > 0 && a % PAGE_SIZE == 0
    ensures var (res, t) := Alloc(rs, size, a);
            && Inv(t)
            && (res.OutOfMem? <==> forall i: nat, k: nat, y: nat :: y % a == 0 ==> !TakenFrom(rs, i, k, y, size))
            && (res.OutOfMem? ==> t == rs)
            && (res.Granted? ==>
                  && (exists i: nat, k: nat :: FirstTaken(rs, i, k, res.base, size, a))
                  && (forall x :: Free(t, x) <==> Free(rs, x) && !(res.base <= x < res.base + size)))
  {
    hide Inv, ListOk, Cut;
    var i := FindRegion(rs, 0, size, a);
    if i == |rs| {
      NothingFits(rs, size, a);
    } else {
      var r := rs[i];
      var k := FindFit(r.chunks, 0, size, a);
      var ab := RoundUp(r.chunks[k].base, a);
      RoundUpLeast(r.chunks[k].base, a);
      RoundUpPage(r.chunks[k].base, a);
      FirstFound(rs, size, a, i, k, ab);
      var t := rs[i := r.(freeBytes := r.freeBytes - size, chunks := Cut(r.chunks, k, ab, size))];
      assert Alloc(rs, size, a) == (Granted(ab), t);
      CutRegion(rs, i, k, ab, size, t);
    }
  }

  lemma FirstFound(rs: seq<Region>, size: nat, a: nat, i: nat, k: nat, ab: nat)
    requires Inv(rs) && a > 0 && i == FindRegion(rs, 0, size, a) && i < |rs|
    requires k == FindFit(rs[i].chunks, 0, size, a) && ab == RoundUp(rs[i].chunks[k].base, a)
    ensures FirstTaken(rs, i, k, ab, size, a)
  {
    hide ListOk, RoundUp;
    RoundUpLeast(rs[i].chunks[k].base, a);
    forall j: nat, m: nat, y: nat | (j < i || (j == i && m < k)) && y % a == 0 && TakenFrom(rs, j, m, y, size)
      ensures false
    {
      FitsIff(rs[j].chunks[m], size, a);
      assert RegionOk(rs[j]);
      SomeChunkCovers(rs[j].chunks, m);
    }
  }

  lemma NothingFits(rs: seq<Region>, size: nat, a: nat)
    requires Inv(rs) && a > 0 && FindRegion(rs, 0, size, a) == |rs|
    ensures forall i: nat, k: nat, y: nat :: y % a == 0 ==> !TakenFrom(rs, i, k, y, size)
  {
    hide ListOk;
    forall i: nat, k: nat, y: nat | y % a == 0 && TakenFrom(rs, i, k, y, size)
      ensures false
    {
      var r := rs[i];
      assert RegionOk(r);
      SomeChunkCovers(r.chunks, k);
      FitsIff(r.chunks[k], size, a);
    }
  }

  lemma CutRegion(rs: seq<Region>, i: nat, k: nat, ab: nat, size: nat, t: seq<Region>)
    requires Inv(rs) && TakenFrom(rs, i, k, ab, size) && ab % PAGE_SIZE == 0 && size % PAGE_SIZE == 0
    requires rs[i].freeBytes >= size
    requires t == rs[i := rs[i].(freeBytes := rs[i].freeBytes - size, chunks := Cut(rs[i].chunks, k, ab, size))]
    ensures Inv(t)
    ensures forall x :: Free(t, x) <==> Free(rs, x) && !(ab <= x < ab + size)
  {
    hide Cut;
    var r := rs[i];
    assert RegionOk(r);
    CutSum(r.chunks, k, ab, size);
    CutListOk(r.chunks, k, ab, size, r.base, r.base + r.length);
    forall x
      ensures Free(t, x) <==> Free(rs, x) && !(ab <= x < ab + size)
    {
      CutFree(r.chunks, k, ab, size, r.base, r.base + r.length, x);
      forall j | 0 <= j < |rs| && j != i && InList(rs[j].chunks, x)
        ensures !(ab <= x < ab + size)
      {
        assert RegionOk(rs[j]);
        var c :| 0 <= c < |rs[j].chunks| && InChunk(rs[j].chunks[c], x);
        assert ChunkOk(rs[j].chunks[c], rs[j].base, rs[j].base + rs[j].length);
        assert ChunkOk(r.chunks[k], r.base, r.base + r.length);
      }
      if j :| 0 <= j < |rs| && InList(rs[j].chunks, x) { assert t[j].chunks == rs[j].chunks || j == i; }
      if j :| 0 <= j < |t| && InList(t[j].chunks, x) { assert t[j].chunks == rs[j].chunks || j == i; }
    }
  }
}
