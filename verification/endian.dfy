/** Byte order: kernel/include/types/number.h, flip_endianness and read_big_endian.
    The machine is little-endian: a pointer read assembles bytes from the low end up. */
module Endian {
  import opened Num

  type byte = x: int | 0 <= x < 256
  type u32 = x: int | 0 <= x < 0x1_0000_0000

  type u128 = x: int | 0 <= x < 0x1_0000_0000_0000_0000_0000_0000_0000_0000

  const WORD32: nat := 0x1_0000_0000

  /** The value of a byte string in big-endian order. */
  function BigEndian(s: seq<byte>): nat {
    if s == [] then 0 else 256 * BigEndian(s[..|s| - 1]) + s[|s| - 1]
  }

  /** The value of a byte string in little-endian order, as a pointer read sees it. */
  function LittleEndian(s: seq<byte>): nat {
    if s == [] then 0 else s[0] + 256 * LittleEndian(s[1..])
  }

  /** The big-endian bytes of v, n of them. */
  function ToBytes(v: nat, n: nat): (s: seq<byte>)
    ensures |s| == n
  {
    if n == 0 then [] else ToBytes(v / 256, n - 1) + [v % 256]
  }

  // ---------------------------------------------------------------- the written flips

  function Shl32(x: u32, k: nat): u32 {
    x * Pow2(k) % WORD32
  }

  function Shl64(x: u64, k: nat): u64 {
    Wrap(x * Pow2(k))
  }

  /** The 32-bit flip; its four terms are or-ed from the left. */
  function Flip32(x: u32): nat {
    Or(Or(Or(And(x / 0x100_0000, 0xFF), And(x / 0x100, 0xFF00)), And(Shl32(x, 8), 0xFF_0000)), And(Shl32(x, 24), 0xFF00_0000))
  }

  /** The 64-bit flip. */
  function Flip64(x: u64): nat {
    Or(Or(Or(Or(Or(Or(Or(
      And(x / 0x100_0000_0000_0000, 0xFF),
      And(x / 0x100_0000_0000, 0xFF00)),
      And(x / 0x100_0000, 0xFF_0000)),
      And(x / 0x100, 0xFF00_0000)),
      And(Shl64(x, 8), 0xFF_0000_0000)),
      And(Shl64(x, 24), 0xFF00_0000_0000)),
      And(Shl64(x, 40), 0xFF_0000_0000_0000)),
      And(Shl64(x, 56), 0xFF00_0000_0000_0000))
  }

  // ---------------------------------------------------------------- bytes of a word

  /** 256^k. */
  function P(k: nat): (p: nat)
    ensures p > 0
  {
    if k == 0 then 1 else 256 * P(k - 1)
  }

  function Byte(x: nat, k: nat): nat {
    if k == 0 then x % 256 else Byte(x / 256, k - 1)
  }

  function ShrBytes(x: nat, k: nat): nat {
    if k == 0 then x else ShrBytes(x / 256, k - 1)
  }

  function Zeros(k: nat): (s: seq<byte>)
    ensures |s| == k && forall i :: 0 <= i < k ==> s[i] == 0
  {
    seq(k, _ => 0)
  }

  function ReverseBytes(s: seq<byte>): (r: seq<byte>)
    ensures |r| == |s| && forall i :: 0 <= i < |s| ==> r[i] == s[|s| - 1 - i]
  {
    if s == [] then [] else [s[|s| - 1]] + ReverseBytes(s[..|s| - 1])
  }

  lemma {:induction false} LittleBound(s: seq<byte>)
    ensures LittleEndian(s) < P(|s|)
  {
    if s != [] { LittleBound(s[1..]); }
  }

  lemma {:induction false} LittleAppend(s: seq<byte>, b: byte)
    ensures LittleEndian(s + [b]) == LittleEndian(s) + b * P(|s|)
  {
    if s == [] {
      assert ([b])[1..] == [];
      assert s + [b] == [b];
    } else {
      LittleAppend(s[1..], b);
      assert (s + [b])[1..] == s[1..] + [b];
      Assoc(b, P(|s| - 1));
    }
  }

  lemma Assoc(b: int, p: int)
    ensures 256 * (b * p) == b * (256 * p)
  {
  }

  lemma Cons(b: nat, r: nat)
    requires b < 256
    ensures (b + 256 * r) / 256 == r && (b + 256 * r) % 256 == b
  {
  }

  lemma LittleHalves(s: seq<byte>)
    requires s != []
    ensures LittleEndian(s) / 256 == LittleEndian(s[1..]) && LittleEndian(s) % 256 == s[0]
  {
    Cons(s[0], LittleEndian(s[1..]));
  }

  lemma {:induction false} LittleByte(s: seq<byte>, k: nat)
    requires k < |s|
    ensures Byte(LittleEndian(s), k) == s[k]
  {
    Cons(s[0], LittleEndian(s[1..]));
    if k > 0 { LittleByte(s[1..], k - 1); }
  }

  lemma {:induction false} LittleShr(s: seq<byte>, k: nat)
    requires k <= |s|
    ensures ShrBytes(LittleEndian(s), k) == LittleEndian(s[k..])
  {
    if k == 0 {
      assert s[0..] == s;
    } else {
      LittleHalves(s);
      hide LittleEndian;
      LittleShr(s[1..], k - 1);
      assert s[1..][k - 1..] == s[k..];
    }
  }

  /** Shifting left by k bytes and truncating to |s| bytes. */
  lemma {:induction false} LittleShl(s: seq<byte>, k: nat)
    requires k <= |s|
    ensures (LittleEndian(s) * P(k)) % P(|s|) == LittleEndian(Zeros(k) + s[..|s| - k])
  {
    hide LittleEndian;
    if k == 0 {
      LittleBound(s);
      SmallMod(LittleEndian(s), P(|s|));
      assert Zeros(0) + s[..|s|] == s;
    } else {
      LittleShl(s[..|s| - 1], k - 1);
      ShlStep(s, k);
    }
  }

  lemma ShlStep(s: seq<byte>, k: nat)
    requires 0 < k <= |s|
    requires (LittleEndian(s[..|s| - 1]) * P(k - 1)) % P(|s| - 1) == LittleEndian(Zeros(k - 1) + s[..|s| - 1][..|s| - k])
    ensures (LittleEndian(s) * P(k)) % P(|s|) == LittleEndian(Zeros(k) + s[..|s| - k])
  {
    hide LittleEndian;
    var n, front, last := |s|, s[..|s| - 1], s[|s| - 1];
    assert s == front + [last];
    LittleAppend(front, last);
    var t := Zeros(k - 1) + front[..n - k];
    assert Zeros(k) + s[..n - k] == [0] + t;
    LittleZero(t);
    ShiftStep(LittleEndian(front), last, P(n - 1), P(k - 1), LittleEndian(t));
  }

  lemma LittleZero(t: seq<byte>)
    ensures LittleEndian([0] + t) == 256 * LittleEndian(t)
  {
    assert ([0] + t)[1..] == t;
  }

  lemma ShiftStep(x: nat, b: nat, pn: nat, pk: nat, t: nat)
    requires pn > 0 && (x * pk) % pn == t
    ensures ((x + b * pn) * (256 * pk)) % (256 * pn) == 256 * t
  {
    var q := x * pk / pn;
    assert x * pk == q * pn + t;
    assert (x + b * pn) * (256 * pk) == 256 * (x * pk) + (b * pk) * (256 * pn);
    assert 256 * (q * pn) == q * (256 * pn);
    assert (x + b * pn) * (256 * pk) == (q + b * pk) * (256 * pn) + 256 * t;
    ModUnique((x + b * pn) * (256 * pk), 256 * pn, q + b * pk, 256 * t);
  }

  // ---------------------------------------------------------------- picking and placing bytes

  lemma {:induction false} PickByte(x: nat, k: nat)
    ensures And(x, 0xFF * P(k)) == Byte(x, k) * P(k)
  {
    hide And;
    if k == 0 {
      PowWord();
      AndLowMask(x, 8);
    } else {
      PickByte(x / 256, k - 1);
      Assoc(0xFF, P(k - 1));
      AndByteUp(x, 0xFF * P(k - 1));
      Assoc(Byte(x, k), P(k - 1));
    }
  }

  lemma {:induction false} OrComm(x: nat, y: nat)
    ensures Or(x, y) == Or(y, x)
  {
    if x > 0 && y > 0 { OrComm(x / 2, y / 2); }
  }

  lemma {:induction false} PowBytes(k: nat)
    ensures P(k) == Pow2(8 * k)
  {
    if k > 0 {
      PowBytes(k - 1);
      PowWord();
      PowAdd(8, 8 * k - 8);
    }
  }

  /** Or-ing byte j of the reversed string above the j bytes already placed. */
  lemma PlaceByte(r: seq<byte>, j: nat, acc: nat, term: nat)
    requires j < |r| && acc == LittleEndian(r[..j]) && term == r[j] * P(j)
    ensures Or(acc, term) == LittleEndian(r[..j + 1])
  {
    hide Or;
    LittleBound(r[..j]);
    PowBytes(j);
    OrDisjoint(r[j], acc, 8 * j);
    OrComm(acc, term);
    LittleAppend(r[..j], r[j]);
    assert r[..j + 1] == r[..j] + [r[j]];
  }

  /** A term of the flip that shifts right by k bytes and keeps byte j. */
  lemma RightTerm(s: seq<byte>, k: nat, j: nat)
    requires k + j < |s|
    ensures And(ShrBytes(LittleEndian(s), k), 0xFF * P(j)) == s[k + j] * P(j)
  {
    hide And;
    LittleShr(s, k);
    PickByte(LittleEndian(s[k..]), j);
    LittleByte(s[k..], j);
  }

  /** A term of the flip that shifts left by k bytes and keeps byte j. */
  lemma LeftTerm(s: seq<byte>, k: nat, j: nat)
    requires k <= j < |s|
    ensures And((LittleEndian(s) * P(k)) % P(|s|), 0xFF * P(j)) == s[j - k] * P(j)
  {
    hide And;
    LittleShl(s, k);
    var t := Zeros(k) + s[..|s| - k];
    PickByte(LittleEndian(t), j);
    LittleByte(t, j);
  }

  /** Bytes whose little-endian value is 0 have the big-endian value 0. */
  lemma {:induction false} LittleZeros(s: seq<byte>)
    requires LittleEndian(s) == 0
    ensures forall i :: 0 <= i < |s| ==> s[i] == 0
    ensures BigEndian(s) == 0
    decreases |s|
  {
    if s != [] {
      LittleZeros(s[1..]);
      assert forall i :: 1 <= i < |s| ==> s[i] == s[1..][i - 1];
      BigZeros(s);
    }
  }

  lemma {:induction false} BigZeros(s: seq<byte>)
    requires forall i :: 0 <= i < |s| ==> s[i] == 0
    ensures BigEndian(s) == 0
  {
    if s != [] { BigZeros(s[..|s| - 1]); }
  }

  // ---------------------------------------------------------------- the flips reverse the bytes

  lemma Constants()
    ensures P(0) == 1 && P(1) == 0x100 && P(2) == 0x1_0000 && P(3) == 0x100_0000 && P(4) == 0x1_0000_0000
    ensures P(5) == 0x100_0000_0000 && P(6) == 0x1_0000_0000_0000 && P(7) == 0x100_0000_0000_0000 && P(8) == WORD
  {
  }

  lemma ShrOne(x: nat)
    ensures ShrBytes(x, 1) == x / 256
  {
    assert ShrBytes(x / 256, 0) == x / 256;
  }

  lemma ShrTwo(x: nat)
    ensures ShrBytes(x, 2) == x / 0x1_0000
  {
    ShrSplit(x, 1, 1);
    ShrOne(x);
    ShrOne(x / 256);
  }

  /** The byte shifts the flips use, as the divisions they are. */
  lemma ShrConstants(x: nat)
    ensures ShrBytes(x, 1) == x / 0x100 && ShrBytes(x, 3) == x / 0x100_0000
    ensures ShrBytes(x, 5) == x / 0x100_0000_0000 && ShrBytes(x, 7) == x / 0x100_0000_0000_0000
  {
    hide ShrBytes;
    ShrOne(x);
    ShrSplit(x, 1, 2);
    ShrTwo(x / 0x100);
    ShrSplit(x, 3, 2);
    ShrTwo(x / 0x100_0000);
    ShrSplit(x, 5, 2);
    ShrTwo(x / 0x100_0000_0000);
  }

  lemma {:induction false} ShrSplit(x: nat, i: nat, j: nat)
    ensures ShrBytes(x, i + j) == ShrBytes(ShrBytes(x, i), j)
  {
    if i > 0 { ShrSplit(x / 256, i - 1, j); }
  }

  lemma {:induction false} LittleReverse(s: seq<byte>)
    ensures LittleEndian(ReverseBytes(s)) == BigEndian(s)
  {
    if s != [] {
      var front := s[..|s| - 1];
      LittleReverse(front);
      assert ReverseBytes(s)[1..] == ReverseBytes(front);
    }
  }

  /** flip_endianness on 32 bits turns what a little-endian read sees into the big-endian value. */
  lemma Flip32Reverses(s: seq<byte>)
    requires |s| == 4
    ensures LittleEndian(s) < WORD32 && Flip32(LittleEndian(s)) == BigEndian(s)
  {
    hide And, Or, LittleEndian, P, ReverseBytes, ShrBytes, Pow2;
    var r, x := ReverseBytes(s), LittleEndian(s);
    Constants();
    PowWord();
    LittleBound(s);
    ShrConstants(x);
    RightTerm(s, 3, 0);
    RightTerm(s, 1, 1);
    LeftTerm(s, 1, 2);
    LeftTerm(s, 3, 3);
    Pow24();
    LittleNil(r);
    PlaceByte(r, 0, 0, r[0] * P(0));
    PlaceByte(r, 1, LittleEndian(r[..1]), r[1] * P(1));
    PlaceByte(r, 2, LittleEndian(r[..2]), r[2] * P(2));
    PlaceByte(r, 3, LittleEndian(r[..3]), r[3] * P(3));
    assert r[..4] == r;
    OrZero(r[0]);
    LittleReverse(s);
  }

  lemma LittleNil(r: seq<byte>)
    ensures LittleEndian(r[..0]) == 0
  {
  }

  lemma Pow24()
    ensures Pow2(8) == P(1) && Pow2(24) == P(3) && Pow2(40) == P(5) && Pow2(56) == P(7)
  {
    PowBytes(1);
    PowBytes(3);
    PowBytes(5);
    PowBytes(7);
  }

  lemma Flip64Reverses(s: seq<byte>)
    requires |s| == 8
    ensures LittleEndian(s) < WORD && Flip64(LittleEndian(s)) == BigEndian(s)
  {
    hide And, Or, LittleEndian, P, ReverseBytes, ShrBytes, Pow2;
    var r, x := ReverseBytes(s), LittleEndian(s);
    Constants();
    PowWord();
    LittleBound(s);
    ShrConstants(x);
    RightTerm(s, 7, 0);
    RightTerm(s, 5, 1);
    RightTerm(s, 3, 2);
    RightTerm(s, 1, 3);
    LeftTerm(s, 1, 4);
    LeftTerm(s, 3, 5);
    LeftTerm(s, 5, 6);
    LeftTerm(s, 7, 7);
    Pow24();
    LittleNil(r);
    PlaceByte(r, 0, 0, r[0] * P(0));
    PlaceByte(r, 1, LittleEndian(r[..1]), r[1] * P(1));
    PlaceByte(r, 2, LittleEndian(r[..2]), r[2] * P(2));
    PlaceByte(r, 3, LittleEndian(r[..3]), r[3] * P(3));
    PlaceByte(r, 4, LittleEndian(r[..4]), r[4] * P(4));
    PlaceByte(r, 5, LittleEndian(r[..5]), r[5] * P(5));
    PlaceByte(r, 6, LittleEndian(r[..6]), r[6] * P(6));
    PlaceByte(r, 7, LittleEndian(r[..7]), r[7] * P(7));
    assert r[..8] == r;
    OrZero(r[0]);
    LittleReverse(s);
  }

  // ---------------------------------------------------------------- the 128-bit flip, a loop over bytes

  /** The n bytes that a store of number v writes, low end first. */
  function Native(v: nat, n: nat): (bs: seq<byte>)
    ensures |bs| == n
  {
    ReverseBytes(ToBytes(v, n))
  }

  lemma NativeValue(v: nat, n: nat)
    requires v < P(n)
    ensures LittleEndian(Native(v, n)) == v
  {
    LittleReverse(ToBytes(v, n));
    BigToBytes(v, n);
  }

  lemma NativeBack(bs: seq<byte>)
    ensures Native(LittleEndian(bs), |bs|) == bs
  {
    hide LittleEndian, BigEndian, ToBytes, ReverseBytes;
    LittleReverse(ReverseBytes(bs));
    ReverseBytesTwice(bs);
    ToBytesBig(ReverseBytes(bs));
  }

  /** The value whose bytes in memory are those of x in reverse. */
  function Flip128(x: u128): nat {
    LittleEndian(ReverseBytes(Native(x, 16)))
  }

  /** The union's two byte arrays and the loop between them. */
  method FlipBytes(x: u128) returns (r: nat)
    ensures r == Flip128(x)
  {
    hide LittleEndian, Native;
    var bytes := Native(x, 16);
    var src := new byte[16](i requires 0 <= i < 16 => bytes[i]);
    var dst := new byte[16];
    var i := 0;
    while i < 16
      invariant 0 <= i <= 16
      invariant forall k :: 0 <= k < 16 ==> src[k] == bytes[k]
      invariant forall k :: 0 <= k < i ==> dst[k] == bytes[15 - k]
    {
      dst[i] := src[15 - i];
      i := i + 1;
    }
    assert dst[..] == ReverseBytes(bytes);
    r := LittleEndian(dst[..]);
  }

  lemma Constant16()
    ensures P(16) == 0x1_0000_0000_0000_0000_0000_0000_0000_0000
  {
    Constants();
    assert P(12) == 0x1_0000_0000_0000_0000_0000_0000;
  }

  /** flip_endianness on 128 bits does to a little-endian read what the shorter ones do. */
  lemma Flip128Reverses(s: seq<byte>)
    requires |s| == 16
    ensures LittleEndian(s) <= 0xFFFF_FFFF_FFFF_FFFF_FFFF_FFFF_FFFF_FFFF && Flip128(LittleEndian(s)) == BigEndian(s)
  {
    hide LittleEndian, Native, ReverseBytes, P;
    Constant16();
    LittleBound(s);
    NativeBack(s);
    LittleReverse(s);
  }

  // ---------------------------------------------------------------- reads and round trips

  /** read_big_endian: a pointer read, then the flip. */
  function ReadU32(mem: seq<byte>, at: nat): (v: nat)
    requires at + 4 <= |mem|
  {
    LittleBound(mem[at..at + 4]);
    Constants();
    Flip32(LittleEndian(mem[at..at + 4]))
  }

  function ReadU64(mem: seq<byte>, at: nat): (v: nat)
    requires at + 8 <= |mem|
  {
    LittleBound(mem[at..at + 8]);
    Constants();
    Flip64(LittleEndian(mem[at..at + 8]))
  }

  function ReadU128(mem: seq<byte>, at: nat): (v: nat)
    requires at + 16 <= |mem|
  {
    Flip128Reverses(mem[at..at + 16]);
    Flip128(LittleEndian(mem[at..at + 16]))
  }

  /** A big-endian read yields the big-endian value of the bytes it covers. */
  lemma ReadValue(mem: seq<byte>, at: nat)
    ensures at + 4 <= |mem| ==> ReadU32(mem, at) == BigEndian(mem[at..at + 4])
    ensures at + 8 <= |mem| ==> ReadU64(mem, at) == BigEndian(mem[at..at + 8])
    ensures at + 16 <= |mem| ==> ReadU128(mem, at) == BigEndian(mem[at..at + 16])
  {
    hide Flip32, Flip64, Flip128, LittleEndian, BigEndian;
    if at + 4 <= |mem| { Flip32Reverses(mem[at..at + 4]); }
    if at + 8 <= |mem| { Flip64Reverses(mem[at..at + 8]); }
    if at + 16 <= |mem| { Flip128Reverses(mem[at..at + 16]); }
  }

  lemma {:induction false} BigBound(s: seq<byte>)
    ensures BigEndian(s) < P(|s|)
  {
    if s != [] { BigBound(s[..|s| - 1]); }
  }

  /** Encoding the value of a byte string gives the string back. */
  lemma {:induction false} ToBytesBig(s: seq<byte>)
    ensures ToBytes(BigEndian(s), |s|) == s
  {
    if s != [] {
      ToBytesBig(s[..|s| - 1]);
      Cons(s[|s| - 1], BigEndian(s[..|s| - 1]));
    }
  }

  /** A number that fits is recovered from its bytes. */
  lemma {:induction false} BigToBytes(v: nat, n: nat)
    requires v < P(n)
    ensures BigEndian(ToBytes(v, n)) == v
  {
    if n > 0 {
      BigToBytes(v / 256, n - 1);
      var s := ToBytes(v, n);
      assert s[..n - 1] == ToBytes(v / 256, n - 1);
    }
  }

  lemma {:induction false} ReverseBytesTwice(s: seq<byte>)
    ensures ReverseBytes(ReverseBytes(s)) == s
  {
  }

  lemma Flip128Twice(z: u128)
    ensures Flip128(z) <= 0xFFFF_FFFF_FFFF_FFFF_FFFF_FFFF_FFFF_FFFF && Flip128(Flip128(z)) == z
  {
    hide LittleEndian, Native, ReverseBytes, P;
    Constant16();
    var s := Native(z, 16);
    LittleBound(ReverseBytes(s));
    NativeValue(z, 16);
    NativeBack(ReverseBytes(s));
    ReverseBytesTwice(s);
  }

  /** Flipping twice is the identity. */
  lemma FlipInvolution(x: u32, y: u64, z: u128)
    ensures Flip32(x) < WORD32 && Flip32(Flip32(x)) == x
    ensures Flip64(y) < WORD && Flip64(Flip64(y)) == y
    ensures Flip128(z) <= 0xFFFF_FFFF_FFFF_FFFF_FFFF_FFFF_FFFF_FFFF && Flip128(Flip128(z)) == z
  {
    hide Flip32, Flip64, Flip128, LittleEndian, BigEndian, ToBytes, ReverseBytes, P;
    Flip128Twice(z);
    Constants();
    var s, t := ToBytes(x, 4), ToBytes(y, 8);
    BigToBytes(x, 4);
    BigToBytes(y, 8);
    LittleReverse(s);
    LittleReverse(t);
    Flip32Reverses(ReverseBytes(s));
    Flip64Reverses(ReverseBytes(t));
    LittleReverse(ReverseBytes(s));
    LittleReverse(ReverseBytes(t));
    ReverseBytesTwice(s);
    ReverseBytesTwice(t);
    Flip32Reverses(s);
    Flip64Reverses(t);
  }
}
