/** The structure block of a flattened devicetree: tokens, how section 5.4 of the Devicetree
    Specification v0.4 lays them out, and how kernel/src/devices/device_tree.cpp reads them. */
module DtTokens {
  import opened Num
  import opened Endian

  type bytes = seq<byte>

  const BEGIN_NODE: nat := 1
  const END_NODE: nat := 2
  const PROP: nat := 3
  const NOP: nat := 4
  const END: nat := 9

  datatype Token = BeginNode(name: bytes) | EndNode | Property(name: bytes, value: bytes) | Nop | End

  /** `OutOfBounds`: the source would read past the blob. */
  datatype Lexed = Tok(token: Token, next: nat) | Unknown | OutOfBounds

  function Pad4(n: nat): nat {
    (n + 3) / 4 * 4
  }

  lemma Pad4IsAlignUp(n: u64)
    requires n + 3 < WORD
    ensures AlignUp(n, 4) == Pad4(n)
  {
    hide AlignUp;
    var a: u64 := 4;
    assert a == Pow2(2);
    AlignUpValue(n, a);
    SameMultiple(n, a, AlignUp(n, a), Pad4(n));
  }

  // ---------------------------------------------------------------- reading a token

  /** strlen: the index of the first NUL from i on, or |mem|. */
  function FindNul(mem: bytes, i: nat): (e: nat)
    requires i <= |mem|
    ensures i <= e <= |mem|
    ensures forall k :: i <= k < e ==> mem[k] != 0
    ensures e < |mem| ==> mem[e] == 0
    decreases |mem| - i
  {
    if i == |mem| || mem[i] == 0 then i else FindNul(mem, i + 1)
  }

  function LexBegin(mem: bytes, structs: nat, offset: nat): Lexed
    requires structs + offset <= |mem|
  {
    var e := FindNul(mem, structs + offset);
    if e == |mem| then OutOfBounds
    else Tok(BeginNode(mem[structs + offset..e]), offset + Pad4(e - (structs + offset) + 1))
  }

  function LexProperty(mem: bytes, structs: nat, strings: nat, offset: nat): Lexed {
    var at := structs + offset;
    if at + 8 > |mem| then OutOfBounds
    else
      var len, nameOffset := ReadU32(mem, at), ReadU32(mem, at + 4);
      if strings + nameOffset > |mem| || at + 8 + len > |mem| then OutOfBounds
      else
        var e := FindNul(mem, strings + nameOffset);
        if e == |mem| then OutOfBounds
        else Tok(Property(mem[strings + nameOffset..e], mem[at + 8..at + 8 + len]), offset + 8 + Pad4(len))
  }

  /** One turn of the token switch: what is read at `offset`, and the offset after it. */
  function Lex(mem: bytes, structs: nat, strings: nat, offset: nat): Lexed {
    if structs + offset + 4 > |mem| then OutOfBounds
    else
      var t := ReadU32(mem, structs + offset);
      if t == BEGIN_NODE then LexBegin(mem, structs, offset + 4)
      else if t == END_NODE then Tok(EndNode, offset + 4)
      else if t == PROP then LexProperty(mem, structs, strings, offset + 4)
      else if t == NOP then Tok(Nop, offset + 4)
      else if t == END then Tok(End, offset + 4)
      else Unknown
  }

  /** Every token read moves the offset forward by a positive multiple of 4. */
  lemma LexAdvances(mem: bytes, structs: nat, strings: nat, offset: nat)
    ensures var l := Lex(mem, structs, strings, offset);
            l.Tok? ==> l.next >= offset + 4 && (offset % 4 == 0 ==> l.next % 4 == 0) && structs + offset + 4 <= |mem|
  {
    hide ReadU32;
  }

  /** The token at an offset by its first word, in numbers. */
  lemma LexWords(mem: bytes, structs: nat, strings: nat, offset: nat)
    requires structs + offset + 4 <= |mem|
    ensures var at := structs + offset; var w := BigEndian(mem[at..at + 4]);
            Lex(mem, structs, strings, offset) ==
              if w == 1 then NodeAt(mem, at + 4, offset + 4)
              else if w == 2 then Tok(EndNode, offset + 4)
              else if w == 3 then PropertyAt(mem, at + 4, strings, offset + 4)
              else if w == 4 then Tok(Nop, offset + 4)
              else if w == 9 then Tok(End, offset + 4)
              else Unknown
  {
    hide ReadU32, BigEndian, LexBegin, LexProperty, NodeAt, PropertyAt;
    ReadWord(mem, structs + offset);
    NodeAtIs(mem, structs, offset + 4);
    PropertyAtIs(mem, structs, strings, offset + 4);
  }

  /** The start of a node: its name up to the first NUL, and the next multiple of 4. */
  function NodeAt(mem: bytes, at: nat, offset: nat): Lexed {
    if at > |mem| || 0 !in mem[at..] then OutOfBounds
    else Tok(BeginNode(NulTerminated(mem[at..])), offset + (|NulTerminated(mem[at..])| + 4) / 4 * 4)
  }

  /** A property: the length of its value, the offset of its name, and the value, padded to a
      multiple of 4. */
  function PropertyAt(mem: bytes, at: nat, strings: nat, offset: nat): Lexed {
    if at + 8 > |mem| then OutOfBounds
    else
      var len, name := BigEndian(mem[at..at + 4]), strings + BigEndian(mem[at + 4..at + 8]);
      if name > |mem| || at + 8 + len > |mem| || 0 !in mem[name..] then OutOfBounds
      else Tok(Property(NulTerminated(mem[name..]), mem[at + 8..at + 8 + len]), offset + 8 + (len + 3) / 4 * 4)
  }

  lemma ReadWord(mem: bytes, at: nat)
    requires at + 4 <= |mem|
    ensures ReadU32(mem, at) == BigEndian(mem[at..at + 4])
  {
    hide ReadU32, BigEndian;
    ReadValue(mem, at);
  }

  /** The bytes before the first NUL. */
  function NulTerminated(s: bytes): (r: bytes)
    requires 0 in s
    ensures r < s && 0 !in r && s[|r|] == 0
  {
    if s[0] == 0 then [] else [s[0]] + NulTerminated(s[1..])
  }

  lemma {:induction false} FindNulIs(mem: bytes, i: nat)
    requires i <= |mem|
    ensures 0 in mem[i..] <==> FindNul(mem, i) < |mem|
    ensures 0 in mem[i..] ==> mem[i..FindNul(mem, i)] == NulTerminated(mem[i..])
  {
    hide NulTerminated;
    var e := FindNul(mem, i);
    if e < |mem| {
      assert mem[i..][e - i] == 0;
      var r := NulTerminated(mem[i..]);
      assert mem[i + |r|] == 0;
      assert forall k :: 0 <= k < |r| ==> mem[i + k] == r[k] && r[k] != 0;
      assert mem[i..e] == r;
    }
  }

  lemma NodeAtIs(mem: bytes, structs: nat, offset: nat)
    requires structs + offset <= |mem|
    ensures LexBegin(mem, structs, offset) == NodeAt(mem, structs + offset, offset)
  {
    hide NulTerminated, FindNul;
    FindNulIs(mem, structs + offset);
  }

  lemma PropertyAtIs(mem: bytes, structs: nat, strings: nat, offset: nat)
    ensures LexProperty(mem, structs, strings, offset) == PropertyAt(mem, structs + offset, strings, offset)
  {
    hide ReadU32, BigEndian, NulTerminated, FindNul, Pad4;
    var at := structs + offset;
    if at + 8 <= |mem| {
      ReadWord(mem, at);
      ReadWord(mem, at + 4);
      NamedProperty(mem, at, strings + ReadU32(mem, at + 4), ReadU32(mem, at), offset);
    }
  }

  lemma NamedProperty(mem: bytes, at: nat, name: nat, len: nat, offset: nat)
    requires at + 8 <= |mem|
    ensures Pad4(len) == (len + 3) / 4 * 4
    ensures name <= |mem| ==> (FindNul(mem, name) == |mem| <==> 0 !in mem[name..])
    ensures name <= |mem| && 0 in mem[name..] ==> mem[name..FindNul(mem, name)] == NulTerminated(mem[name..])
  {
    hide NulTerminated, FindNul;
    if name <= |mem| { FindNulIs(mem, name); }
  }

  // ---------------------------------------------------------------- laying out a token

  function U32(v: nat): bytes {
    ToBytes(v, 4)
  }

  function Padding(n: nat): bytes {
    Zeros(Pad4(n) - n)
  }

  /** Section 5.4.1: names are NUL-terminated, names and values are padded to 4 bytes, and
      property names are offsets into the strings block. */
  function Encode(t: Token, dict: map<bytes, nat>): bytes {
    match t
    case BeginNode(name) => U32(BEGIN_NODE) + name + [0] + Padding(|name| + 1)
    case EndNode => U32(END_NODE)
    case Property(name, value) =>
      U32(PROP) + U32(|value|) + U32(if name in dict then dict[name] else 0) + value + Padding(|value|)
    case Nop => U32(NOP)
    case End => U32(END)
  }

  function EncodeAll(ts: seq<Token>, dict: map<bytes, nat>): bytes {
    if ts == [] then [] else Encode(ts[0], dict) + EncodeAll(ts[1..], dict)
  }

  /** `name`, with no NUL inside, stands NUL-terminated at mem[at..]. */
  predicate NameAt(mem: bytes, at: nat, name: bytes) {
    at + |name| < |mem| && mem[at..at + |name|] == name && mem[at + |name|] == 0 && 0 !in name
  }

  /** The token can be laid out: its names hold no NUL, its length and offset fit 32 bits, and
      the strings block has its property name at the offset the dictionary says. */
  predicate Encodable(t: Token, mem: bytes, strings: nat, dict: map<bytes, nat>) {
    match t
    case BeginNode(name) => 0 !in name
    case Property(name, value) =>
      |value| < WORD32 && name in dict && dict[name] < WORD32 && NameAt(mem, strings + dict[name], name)
    case _ => true
  }

  predicate SliceIs(mem: bytes, at: nat, s: bytes) {
    at + |s| <= |mem| && mem[at..at + |s|] == s
  }

  // ---------------------------------------------------------------- reading undoes laying out

  lemma SliceSplit(mem: bytes, at: nat, s: bytes, t: bytes)
    requires SliceIs(mem, at, s + t)
    ensures SliceIs(mem, at, s) && SliceIs(mem, at + |s|, t)
  {
    var u := mem[at..at + |s + t|];
    assert u[..|s|] == s && u[|s|..] == t;
    assert mem[at..at + |s|] == u[..|s|];
    assert mem[at + |s|..at + |s| + |t|] == u[|s|..];
  }

  lemma ReadBack(mem: bytes, at: nat, v: nat)
    requires v < WORD32 && SliceIs(mem, at, U32(v))
    ensures ReadU32(mem, at) == v
  {
    hide ToBytes, BigEndian, ReadU32, P;
    Constants();
    BigToBytes(v, 4);
    ReadValue(mem, at);
  }

  lemma FindNulAt(mem: bytes, at: nat, name: bytes)
    requires NameAt(mem, at, name)
    ensures FindNul(mem, at) == at + |name|
  {
    forall k | at <= k < at + |name|
      ensures mem[k] != 0
    {
      assert mem[k] == name[k - at];
    }
  }

  lemma LexBeginBack(mem: bytes, structs: nat, offset: nat, name: bytes)
    requires 0 !in name && SliceIs(mem, structs + offset, name + [0] + Padding(|name| + 1))
    ensures LexBegin(mem, structs, offset) == Tok(BeginNode(name), offset + |name + [0] + Padding(|name| + 1)|)
  {
    var at := structs + offset;
    SliceSplit(mem, at, name + [0], Padding(|name| + 1));
    SliceSplit(mem, at, name, [0]);
    assert mem[at + |name|..at + |name| + 1][0] == 0;
    FindNulAt(mem, at, name);
  }

  lemma LexPropertyBack(mem: bytes, structs: nat, strings: nat, offset: nat, name: bytes, value: bytes, dict: map<bytes, nat>)
    requires Encodable(Property(name, value), mem, strings, dict)
    requires SliceIs(mem, structs + offset, U32(|value|) + U32(dict[name]) + value + Padding(|value|))
    ensures LexProperty(mem, structs, strings, offset) ==
              Tok(Property(name, value), offset + |U32(|value|) + U32(dict[name]) + value + Padding(|value|)|)
  {
    hide ReadU32, ToBytes;
    var at := structs + offset;
    SliceSplit(mem, at, U32(|value|) + U32(dict[name]) + value, Padding(|value|));
    SliceSplit(mem, at, U32(|value|) + U32(dict[name]), value);
    SliceSplit(mem, at, U32(|value|), U32(dict[name]));
    ReadBack(mem, at, |value|);
    ReadBack(mem, at + 4, dict[name]);
    FindNulAt(mem, strings + dict[name], name);
  }

  lemma EncodeParts(t: Token, dict: map<bytes, nat>)
    ensures t.BeginNode? ==> Encode(t, dict) == U32(BEGIN_NODE) + (t.name + [0] + Padding(|t.name| + 1))
    ensures t.Property? && t.name in dict ==>
              Encode(t, dict) == U32(PROP) + (U32(|t.value|) + U32(dict[t.name]) + t.value + Padding(|t.value|))
  {
    hide ToBytes, Zeros;
  }

  /** The first word tells the token. */
  lemma LexWord(mem: bytes, structs: nat, strings: nat, offset: nat, v: nat)
    requires v < WORD32 && SliceIs(mem, structs + offset, U32(v))
    ensures structs + offset + 4 <= |mem| && ReadU32(mem, structs + offset) == v
  {
    hide ReadU32, ToBytes;
    ReadBack(mem, structs + offset, v);
  }

  /** Reading a token that was laid out gives it back and stops right behind it. */
  lemma LexEncode(mem: bytes, structs: nat, strings: nat, offset: nat, t: Token, dict: map<bytes, nat>)
    requires Encodable(t, mem, strings, dict) && SliceIs(mem, structs + offset, Encode(t, dict))
    ensures Lex(mem, structs, strings, offset) == Tok(t, offset + |Encode(t, dict)|)
  {
    hide ReadU32, ToBytes, LexBegin, LexProperty, Padding, SliceIs, NameAt;
    var at := structs + offset;
    EncodeParts(t, dict);
    match t {
      case BeginNode(name) =>
        SliceSplit(mem, at, U32(BEGIN_NODE), name + [0] + Padding(|name| + 1));
        LexWord(mem, structs, strings, offset, BEGIN_NODE);
        LexBeginBack(mem, structs, offset + 4, name);
      case Property(name, value) =>
        SliceSplit(mem, at, U32(PROP), U32(|value|) + U32(dict[name]) + value + Padding(|value|));
        LexWord(mem, structs, strings, offset, PROP);
        LexPropertyBack(mem, structs, strings, offset + 4, name, value, dict);
      case EndNode => LexWord(mem, structs, strings, offset, END_NODE);
      case Nop => LexWord(mem, structs, strings, offset, NOP);
      case End => LexWord(mem, structs, strings, offset, END);
    }
  }
}
