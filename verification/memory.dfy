/** Physical memory as 64-bit words at addresses that are multiples of 8, and the zero fill
    of kernel/src/memory.cpp. Words never written hold an arbitrary value of the initial map. */
module Memory {
  import opened Num

  const WORD_BYTES: nat := 8

  type Words = map<nat, u64>

  function Load(m: Words, a: nat): u64 {
    if a in m then m[a] else 0
  }

  function ZeroWords(m: Words, base: nat, n: nat): Words {
    if n == 0 then m else ZeroWords(m, base, n - 1)[base + WORD_BYTES * (n - 1) := 0]
  }

  /** mem::fill(base, 0, size) for whole words. */
  function ZeroFill(m: Words, base: nat, size: nat): Words {
    ZeroWords(m, base, size / WORD_BYTES)
  }

  lemma {:induction false} ZeroWordsLoad(m: Words, base: nat, n: nat, a: nat)
    ensures Load(ZeroWords(m, base, n), a) == if base <= a < base + WORD_BYTES * n && (a - base) % WORD_BYTES == 0 then 0 else Load(m, a)
  {
    if n > 0 { ZeroWordsLoad(m, base, n - 1, a); }
  }

  /** After mem::fill every word of the range loads 0, and every other word is what it was. */
  lemma ZeroFillLoad(m: Words, base: nat, size: nat, a: nat)
    requires size % WORD_BYTES == 0
    ensures Load(ZeroFill(m, base, size), a) == if base <= a < base + size && (a - base) % 8 == 0 then 0 else Load(m, a)
  {
    ZeroWordsLoad(m, base, size / WORD_BYTES, a);
  }

  /** The words of m' are those of m, but 0 in the n bytes from b on. */
  ghost predicate Zeroed(m: Words, m': Words, b: nat, n: nat) {
    forall x: nat :: Load(m', x) == if b <= x < b + n && (x - b) % 8 == 0 then 0 else Load(m, x)
  }

  class PhysicalMemory {
    var words: Words

    constructor (initial: Words)
      ensures words == initial
    {
      words := initial;
    }

    method Fill(base: nat, size: nat)
      modifies this
      ensures words == ZeroFill(old(words), base, size)
    {
      var n := size / WORD_BYTES;
      for i := 0 to n
        invariant words == ZeroWords(old(words), base, i)
      {
        words := words[base + WORD_BYTES * i := 0];
      }
    }
  }
}
