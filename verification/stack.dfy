/** The growable stack of kernel/include/types/stack.h: whole-page buffers that grow by 3/2. */
module Stack {
  import opened Num
  import Pmm

  /** align_up to a page, on sizes far below 2^64. */
  function Pages(n: nat): nat {
    RoundUp(n, PAGE_SIZE)
  }

  lemma PagesIsAlignUp(n: u64)
    requires n + PAGE_SIZE - 1 < WORD
    ensures AlignUp(n, PAGE_SIZE) == Pages(n)
  {
    hide AlignUp;
    PageIsPow2();
    AlignUpValue(n, PAGE_SIZE);
    RoundUpLeast(n, PAGE_SIZE);
    SameMultiple(n, PAGE_SIZE, AlignUp(n, PAGE_SIZE), Pages(n));
  }

  /** The byte size of the next buffer: 3/2 of the current one, at least one byte more, in pages.
      The current size is recomputed from the capacity. */
  function NextBytes(capacity: nat, elem: nat): nat {
    Pages(1 + Pages(capacity * elem) * 3 / 2)
  }

  function NextCapacity(capacity: nat, elem: nat): nat
    requires elem > 0
  {
    NextBytes(capacity, elem) / elem
  }

  /** A capacity that came from a buffer of `buffer` bytes. */
  ghost predicate Sized(capacity: nat, elem: nat, buffer: nat)
    requires elem > 0
  {
    buffer % PAGE_SIZE == 0 && capacity == buffer / elem
  }

  /** For elements of at most a page, rounding capacity times element size up to a page gives
      back the size of the buffer. */
  lemma RecoverBuffer(capacity: nat, elem: nat, buffer: nat)
    requires 0 < elem <= PAGE_SIZE && Sized(capacity, elem, buffer)
    ensures Pages(capacity * elem) == buffer
    ensures buffer - elem < capacity * elem <= buffer
  {
    assert buffer == capacity * elem + buffer % elem;
    RoundUpLeast(capacity * elem, PAGE_SIZE);
    SameMultiple(capacity * elem, PAGE_SIZE, Pages(capacity * elem), buffer);
  }

  /** Each growth makes the buffer at least a page larger, and hence the capacity strictly so; it
      adds at most half the buffer and a page. */
  lemma GrowIncreases(capacity: nat, elem: nat, buffer: nat)
    requires 0 < elem <= PAGE_SIZE && Sized(capacity, elem, buffer)
    ensures Sized(NextCapacity(capacity, elem), elem, NextBytes(capacity, elem))
    ensures NextBytes(capacity, elem) >= buffer + 4096 && 2 * NextBytes(capacity, elem) > 3 * buffer
    ensures NextBytes(capacity, elem) % 4096 == 0 && NextBytes(capacity, elem) <= buffer * 3 / 2 + 4096
    ensures NextCapacity(capacity, elem) == NextBytes(capacity, elem) / elem
    ensures NextCapacity(capacity, elem) > capacity
  {
    RecoverBuffer(capacity, elem, buffer);
    var n := NextBytes(capacity, elem);
    RoundUpLeast(1 + buffer * 3 / 2, PAGE_SIZE);
    PageGap(buffer, n);
    DivMore(buffer, n, elem);
  }

  lemma PageGap(b: nat, n: nat)
    requires b % PAGE_SIZE == 0 && n % PAGE_SIZE == 0 && n >= 1 + b * 3 / 2
    ensures n >= b + PAGE_SIZE
  {
  }

  lemma DivMore(b: nat, n: nat, e: nat)
    requires e > 0 && n >= b + e
    ensures n / e > b / e
  {
    var p, q := b / e, n / e;
    assert b == p * e + b % e && n == q * e + n % e;
    if q <= p {
      MulOrder(q, p, e);
    }
  }

  /** Elements larger than a page can leave the first buffer without room for even one. */
  lemma FirstGrowthIff(elem: nat)
    requires elem > 0
    ensures NextCapacity(0, elem) > 0 <==> elem <= PAGE_SIZE
  {
    assert NextBytes(0, elem) == PAGE_SIZE;
    if elem <= PAGE_SIZE {
      DivMore(0, PAGE_SIZE, elem);
      SmallMod(0, elem);
    } else {
      SmallMod(PAGE_SIZE, elem);
    }
  }

  // ---------------------------------------------------------------- cost of n pushes

  /** Sizes of a stack after n pushes from empty, and the bytes copied by all growths so far. */
  datatype Shape = Shape(size: nat, capacity: nat, buffer: nat, copied: nat)

  function Push(h: Shape, elem: nat): Shape
    requires elem > 0
  {
    if h.size == h.capacity then
      Shape(h.size + 1, NextCapacity(h.capacity, elem), NextBytes(h.capacity, elem), h.copied + h.capacity * elem)
    else h.(size := h.size + 1)
  }

  function Pushes(n: nat, elem: nat): Shape
    requires elem > 0
  {
    if n == 0 then Shape(0, 0, 0, 0) else Push(Pushes(n - 1, elem), elem)
  }

  /** n elements fit, and the growths so far copied less than 3 bytes per byte pushed. */
  ghost predicate Cheap(h: Shape, n: nat, elem: nat)
    requires elem > 0
  {
    && h.size == n <= h.capacity && Sized(h.capacity, elem, h.buffer)
    && h.copied <= 2 * h.buffer
    && if n == 0 then h.copied == 0 else h.copied < 3 * (n * elem)
  }

  lemma GrowCost(h: Shape, n: nat, elem: nat)
    requires 0 < elem <= PAGE_SIZE && Cheap(h, n, elem) && h.capacity == n
    ensures Cheap(Push(h, elem), n + 1, elem)
  {
    hide NextBytes, NextCapacity;
    RecoverBuffer(h.capacity, elem, h.buffer);
    GrowIncreases(h.capacity, elem, h.buffer);
    assert (n + 1) * elem == n * elem + elem;
  }

  /** Amortised cost: n pushes from empty copy fewer than 3 * n * elem bytes in all, and every
      element always has room. */
  lemma {:induction false} PushCost(n: nat, elem: nat)
    requires 0 < elem <= PAGE_SIZE
    ensures Cheap(Pushes(n, elem), n, elem)
  {
    if n == 0 {
      SmallMod(0, elem);
    } else {
      PushCost(n - 1, elem);
      hide Push, Sized;
      var h := Pushes(n - 1, elem);
      if h.capacity == n - 1 {
        GrowCost(h, n - 1, elem);
      } else {
        RoomCost(h, n - 1, elem);
      }
    }
  }

  lemma RoomCost(h: Shape, n: nat, elem: nat)
    requires 0 < elem && Cheap(h, n, elem) && h.capacity > n
    ensures Cheap(Push(h, elem), n + 1, elem)
  {
    assert (n + 1) * elem == n * elem + elem;
  }

  // ---------------------------------------------------------------- the stack object

  class Stack<T(0)> {
    const elem: nat
    var size: nat
    var capacity: nat
    var buffer: array<T>
    // The physical address of the buffer, and the memory manager it comes from.
    var base: nat
    var pmm: Pmm.State
    ghost var bytes: nat

    ghost predicate Valid()
      reads this
    {
      && 0 < elem <= PAGE_SIZE && size <= capacity == buffer.Length && Sized(capacity, elem, bytes)
    }

    ghost function Contents(): seq<T>
      reads this, buffer
      requires Valid()
    {
      buffer[..size]
    }

    constructor (elementSize: nat, manager: Pmm.State)
      requires 0 < elementSize <= PAGE_SIZE
      ensures Valid() && Contents() == [] && elem == elementSize && fresh(buffer) && pmm == manager
    {
      elem, pmm := elementSize, manager;
      size, capacity, base := 0, 0, 0;
      buffer := new T[0];
      bytes := 0;
      SmallMod(0, elementSize);
    }

    /** What growing asks of the memory manager. */
    ghost function Request(): (Pmm.AllocResult, Pmm.State)
      reads this
    {
      Pmm.Alloc(pmm, Wrap(NextBytes(capacity, elem)))
    }

    /** Does nothing unless the stack is full; then the elements move to a larger buffer, and the
        old one keeps its contents. False when there is no memory for it, which stops the kernel. */
    method Grow() returns (ok: bool)
      requires Valid()
      modifies this
      ensures Valid() && Contents() == old(Contents()) && size == old(size)
      ensures ok <==> old(size) < old(capacity) || (old(Request()).0.Granted? && old(Request()).0.base != 0)
      ensures pmm == if old(size) < old(capacity) then old(pmm) else old(Request()).1
      ensures !ok || old(size) < old(capacity) ==> buffer == old(buffer) && capacity == old(capacity) && base == old(base)
      ensures ok ==> size < capacity
      ensures ok && old(size) == old(capacity) ==>
                && fresh(buffer) && capacity == NextCapacity(old(capacity), elem) && bytes == NextBytes(old(capacity), elem)
                && base == old(Request()).0.base
    {
      hide NextBytes, Sized, Pmm.Alloc;
      ok := true;
      if size == capacity {
        GrowIncreases(capacity, elem, bytes);
        var newCapacity := NextBytes(capacity, elem) / elem;
        var (res, manager) := Pmm.Alloc(pmm, Wrap(NextBytes(capacity, elem)));
        pmm := manager;
        if !res.Granted? || res.base == 0 {
          return false;
        }
        bytes := NextBytes(capacity, elem);
        base := res.base;
        buffer := CopyTo(newCapacity);
        capacity := newCapacity;
      }
    }

    /** The copy of a full buffer into a larger one. */
    method CopyTo(n: nat) returns (target: array<T>)
      requires n > buffer.Length
      ensures fresh(target) && target.Length == n && target[..buffer.Length] == buffer[..]
    {
      target := new T[n];
      for i := 0 to buffer.Length
        invariant forall k :: 0 <= k < i ==> target[k] == buffer[k]
      {
        target[i] := buffer[i];
      }
    }

    /** Returns the index of the pushed element. */
    method PushBack(value: T) returns (ok: bool, at: nat)
      requires Valid()
      modifies this, buffer
      ensures Valid() && (ok <==> old(size) < old(capacity) || (old(Request()).0.Granted? && old(Request()).0.base != 0))
      ensures Contents() == if ok then old(Contents()) + [value] else old(Contents())
      ensures ok ==> at == old(size)
      ensures buffer == old(buffer) || fresh(buffer)
    {
      ok := Grow();
      at := size;
      if !ok {
        return;
      }
      buffer[size] := value;
      size := size + 1;
    }
  }
}
