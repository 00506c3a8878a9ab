/** A whole blob in literal bytes and what the parser makes of it. */
module DtSample {
  import opened Endian
  import opened DtTokens
  import opened DtBuild
  import opened DtBlob

  /** Magic number, offsets and sizes; one empty memory reservation; a root with a NOP, property
      "p" of five bytes and empty property "q", and a child "cd" with property "q"; the names. */
  const OFFSETS: bytes := [208, 13, 254, 237, 0, 0, 0, 140, 0, 0, 0, 56, 0, 0, 0, 136, 0, 0, 0, 40]
  const SIZES: bytes := [0, 0, 0, 17, 0, 0, 0, 16, 0, 0, 0, 0, 0, 0, 0, 4, 0, 0, 0, 80]
  const RESERVED: bytes := [0, 0, 0, 0, 0, 0, 0, 0, 0, 0, 0, 0, 0, 0, 0, 0]
  const ROOT: bytes := [0, 0, 0, 1, 0, 0, 0, 0, 0, 0, 0, 4]
  const P_PROPERTY: bytes := [0, 0, 0, 3, 0, 0, 0, 5, 0, 0, 0, 0, 1, 2, 3, 4, 5, 0, 0, 0]
  const Q_PROPERTY: bytes := [0, 0, 0, 3, 0, 0, 0, 0, 0, 0, 0, 2]
  const CHILD: bytes := [0, 0, 0, 1, 99, 100, 0, 0]
  const CHILD_PROPERTY: bytes := [0, 0, 0, 3, 0, 0, 0, 1, 0, 0, 0, 2, 7, 0, 0, 0]
  const ENDS: bytes := [0, 0, 0, 2, 0, 0, 0, 2, 0, 0, 0, 9]
  const NAMES: bytes := [112, 0, 113, 0]

  const BLOB: bytes := OFFSETS + SIZES + RESERVED + ROOT + P_PROPERTY + Q_PROPERTY + CHILD + CHILD_PROPERTY + ENDS + NAMES

  // Where the parts lie.

  lemma OffsetsPart()
    ensures |BLOB| == 140 && BLOB[0..20] == OFFSETS
  {
  }

  lemma ReservedPart()
    ensures |BLOB| == 140 && BLOB[40..56] == RESERVED
  {
  }

  lemma RootPart()
    ensures |BLOB| == 140 && BLOB[56..68] == ROOT
  {
  }

  lemma PPropertyPart()
    ensures |BLOB| == 140 && BLOB[68..88] == P_PROPERTY
  {
  }

  lemma QPropertyPart()
    ensures |BLOB| == 140 && BLOB[88..100] == Q_PROPERTY
  {
  }

  lemma ChildPart()
    ensures |BLOB| == 140 && BLOB[100..108] == CHILD
  {
  }

  lemma ChildPropertyPart()
    ensures |BLOB| == 140 && BLOB[108..124] == CHILD_PROPERTY
  {
  }

  lemma EndsPart()
    ensures |BLOB| == 140 && BLOB[124..136] == ENDS
  {
  }

  lemma NamesPart()
    ensures |BLOB| == 140 && BLOB[136..140] == NAMES
  {
  }



  lemma OffsetsWords()
    ensures |BLOB| == 140
    ensures BigEndian(BLOB[0..4]) == 0xd00dfeed
    ensures BigEndian(BLOB[8..12]) == 0x38
    ensures BigEndian(BLOB[12..16]) == 0x88
    ensures BigEndian(BLOB[16..20]) == 0x28
  {
    hide BigEndian;
    OffsetsPart();
    hide BLOB;
    WordAt(BLOB, 0, OFFSETS, 0, 208, 13, 254, 237);
    WordAt(BLOB, 8, OFFSETS, 8, 0, 0, 0, 56);
    WordAt(BLOB, 12, OFFSETS, 12, 0, 0, 0, 136);
    WordAt(BLOB, 16, OFFSETS, 16, 0, 0, 0, 40);
  }

  lemma RootWords()
    ensures |BLOB| == 140
    ensures BigEndian(BLOB[56..60]) == 0x1
    ensures BigEndian(BLOB[64..68]) == 0x4
  {
    hide BigEndian;
    RootPart();
    hide BLOB;
    WordAt(BLOB, 56, ROOT, 0, 0, 0, 0, 1);
    WordAt(BLOB, 64, ROOT, 8, 0, 0, 0, 4);
  }

  lemma PPropertyWords()
    ensures |BLOB| == 140
    ensures BigEndian(BLOB[68..72]) == 0x3
    ensures BigEndian(BLOB[72..76]) == 0x5
    ensures BigEndian(BLOB[76..80]) == 0x0
  {
    hide BigEndian;
    PPropertyPart();
    hide BLOB;
    WordAt(BLOB, 68, P_PROPERTY, 0, 0, 0, 0, 3);
    WordAt(BLOB, 72, P_PROPERTY, 4, 0, 0, 0, 5);
    WordAt(BLOB, 76, P_PROPERTY, 8, 0, 0, 0, 0);
  }

  lemma QPropertyWords()
    ensures |BLOB| == 140
    ensures BigEndian(BLOB[88..92]) == 0x3
    ensures BigEndian(BLOB[92..96]) == 0x0
    ensures BigEndian(BLOB[96..100]) == 0x2
  {
    hide BigEndian;
    QPropertyPart();
    hide BLOB;
    WordAt(BLOB, 88, Q_PROPERTY, 0, 0, 0, 0, 3);
    WordAt(BLOB, 92, Q_PROPERTY, 4, 0, 0, 0, 0);
    WordAt(BLOB, 96, Q_PROPERTY, 8, 0, 0, 0, 2);
  }

  lemma ChildWords()
    ensures |BLOB| == 140
    ensures BigEndian(BLOB[100..104]) == 0x1
  {
    hide BigEndian;
    ChildPart();
    hide BLOB;
    WordAt(BLOB, 100, CHILD, 0, 0, 0, 0, 1);
  }

  lemma ChildPropertyWords()
    ensures |BLOB| == 140
    ensures BigEndian(BLOB[108..112]) == 0x3
    ensures BigEndian(BLOB[112..116]) == 0x1
    ensures BigEndian(BLOB[116..120]) == 0x2
  {
    hide BigEndian;
    ChildPropertyPart();
    hide BLOB;
    WordAt(BLOB, 108, CHILD_PROPERTY, 0, 0, 0, 0, 3);
    WordAt(BLOB, 112, CHILD_PROPERTY, 4, 0, 0, 0, 1);
    WordAt(BLOB, 116, CHILD_PROPERTY, 8, 0, 0, 0, 2);
  }

  lemma EndsWords()
    ensures |BLOB| == 140
    ensures BigEndian(BLOB[124..128]) == 0x2
    ensures BigEndian(BLOB[128..132]) == 0x2
    ensures BigEndian(BLOB[132..136]) == 0x9
  {
    hide BigEndian;
    EndsPart();
    hide BLOB;
    WordAt(BLOB, 124, ENDS, 0, 0, 0, 0, 2);
    WordAt(BLOB, 128, ENDS, 4, 0, 0, 0, 2);
    WordAt(BLOB, 132, ENDS, 8, 0, 0, 0, 9);
  }

  lemma WordAt(mem: bytes, k: nat, part: bytes, j: nat, a: byte, b: byte, c: byte, d: byte)
    requires j <= k && k - j + |part| <= |mem| && mem[k - j..k - j + |part|] == part && j + 4 <= |part|
    requires part[j] == a && part[j + 1] == b && part[j + 2] == c && part[j + 3] == d
    ensures BigEndian(mem[k..k + 4]) == 0x100_0000 * a + 0x1_0000 * b + 0x100 * c + d
  {
    hide BigEndian;
    SubPart(mem, k - j, |part|, j, j + 4);
    assert part[j..j + 4] == [a, b, c, d];
    FourBytes(a, b, c, d);
  }

  lemma NoBytes()
    ensures BigEndian([]) == 0
  {
  }

  lemma LastByte(s: bytes, x: byte)
    ensures BigEndian(s + [x]) == 256 * BigEndian(s) + x
  {
    assert (s + [x])[..|s|] == s;
  }

  lemma FourBytes(a: byte, b: byte, c: byte, d: byte)
    ensures BigEndian([a, b, c, d]) == 0x100_0000 * a + 0x1_0000 * b + 0x100 * c + d
  {
    hide BigEndian;
    LastByte([], a);
    LastByte([a], b);
    LastByte([a, b], c);
    LastByte([a, b, c], d);
    assert BigEndian([]) == 0 by { NoBytes(); }
    assert [a] + [b] == [a, b] && [a, b] + [c] == [a, b, c] && [a, b, c] + [d] == [a, b, c, d] && [] + [a] == [a];
  }

  // ---------------------------------------------------------------- names and values

  lemma {:induction false} NameEnds(s: bytes, n: nat)
    requires n < |s| && s[n] == 0 && 0 !in s[..n]
    ensures 0 in s && NulTerminated(s) == s[..n]
    decreases n
  {
    if n > 0 {
      assert s[0] == s[..n][0] && s[1..][..n - 1] == s[..n][1..];
      NameEnds(s[1..], n - 1);
      assert s[..n] == [s[0]] + s[1..][..n - 1];
    }
  }

  lemma SubPart(mem: bytes, at: nat, n: nat, i: nat, j: nat)
    requires at + n <= |mem| && i <= j <= n
    ensures mem[at..at + n][i..j] == mem[at + i..at + j]
  {
    var part := mem[at..at + n];
    forall k | 0 <= k < j - i
      ensures part[i..j][k] == mem[at + i..at + j][k]
    {
      assert part[i + k] == mem[at + i + k];
    }
  }

  /** A name of n bytes at position j of a part that lies at offset at. */
  lemma NameIn(part: bytes, at: nat, j: nat, n: nat)
    requires at + |part| <= |BLOB| && BLOB[at..at + |part|] == part && j + n < |part| && part[j + n] == 0 && 0 !in part[j..j + n]
    ensures 0 in BLOB[at + j..] && NulTerminated(BLOB[at + j..]) == part[j..j + n]
  {
    hide NulTerminated, BLOB;
    SubPart(BLOB, at, |part|, j, j + n);
    assert BLOB[at + j..][..n] == BLOB[at + j..at + j + n];
    assert BLOB[at + j..][n] == BLOB[at..at + |part|][j + n];
    NameEnds(BLOB[at + j..], n);
  }

  /** The names and values in the blob. */
  lemma Texts()
    ensures 0 in BLOB[60..] && NulTerminated(BLOB[60..]) == []
    ensures 0 in BLOB[104..] && NulTerminated(BLOB[104..]) == [99, 100]
    ensures 0 in BLOB[136..] && NulTerminated(BLOB[136..]) == [112]
    ensures 0 in BLOB[138..] && NulTerminated(BLOB[138..]) == [113]
    ensures BLOB[80..85] == [1, 2, 3, 4, 5] && BLOB[100..100] == [] && BLOB[120..121] == [7]
  {
    hide NulTerminated;
    RootPart();
    PPropertyPart();
    ChildPart();
    ChildPropertyPart();
    NamesPart();
    hide BLOB;
    NameIn(ROOT, 56, 4, 0);
    NameIn(CHILD, 100, 4, 2);
    NameIn(NAMES, 136, 0, 1);
    NameIn(NAMES, 136, 2, 1);
    SubPart(BLOB, 68, 20, 12, 17);
    SubPart(BLOB, 108, 16, 12, 13);
    assert ROOT[4..4] == [] && CHILD[4..6] == [99, 100] && NAMES[0..1] == [112] && NAMES[2..3] == [113];
    assert P_PROPERTY[12..17] == [1, 2, 3, 4, 5] && CHILD_PROPERTY[12..13] == [7];
  }

  // ---------------------------------------------------------------- the token loop

  // The tokens of the blob and where each starts.

  lemma RootTokens()
    ensures Lex(BLOB, 56, 136, 0) == Tok(BeginNode([]), 8)
    ensures Lex(BLOB, 56, 136, 8) == Tok(Nop, 12)
    ensures Lex(BLOB, 56, 136, 12) == Tok(Property([112], [1, 2, 3, 4, 5]), 32)
    ensures Lex(BLOB, 56, 136, 32) == Tok(Property([113], []), 44)
  {
    hide Lex, BigEndian, NulTerminated, BLOB;
    RootWords();
    PPropertyWords();
    QPropertyWords();
    Texts();
    PlainToken(0);
    PlainToken(8);
    PropertyToken(12);
    PropertyToken(32);
  }

  lemma ChildTokens()
    ensures Lex(BLOB, 56, 136, 44) == Tok(BeginNode([99, 100]), 52)
    ensures Lex(BLOB, 56, 136, 52) == Tok(Property([113], [7]), 68)
    ensures Lex(BLOB, 56, 136, 68) == Tok(EndNode, 72)
    ensures Lex(BLOB, 56, 136, 72) == Tok(EndNode, 76)
    ensures Lex(BLOB, 56, 136, 76) == Tok(End, 80)
  {
    hide Lex, BigEndian, NulTerminated, BLOB;
    ChildWords();
    ChildPropertyWords();
    EndsWords();
    Texts();
    PlainToken(44);
    PropertyToken(52);
    PlainToken(68);
    PlainToken(72);
    PlainToken(76);
  }

  lemma PlainToken(offset: nat)
    requires offset + 60 <= |BLOB|
    ensures var w, l := BigEndian(BLOB[56 + offset..60 + offset]), Lex(BLOB, 56, 136, offset);
            && (w == 1 ==> l == NodeAt(BLOB, 60 + offset, offset + 4))
            && (w == 2 ==> l == Tok(EndNode, offset + 4)) && (w == 4 ==> l == Tok(Nop, offset + 4)) && (w == 9 ==> l == Tok(End, offset + 4))
  {
    hide Lex, BigEndian, NodeAt, PropertyAt, BLOB;
    LexWords(BLOB, 56, 136, offset);
  }


  lemma PropertyToken(offset: nat)
    requires offset + 60 <= |BLOB| && BigEndian(BLOB[56 + offset..60 + offset]) == 3
    ensures Lex(BLOB, 56, 136, offset) == PropertyAt(BLOB, 60 + offset, 136, offset + 4)
  {
    hide Lex, BigEndian, NodeAt, PropertyAt, BLOB;
    LexWords(BLOB, 56, 136, offset);
  }

  /** The tables after the loop: the root with its newest property and its child, the child, and
      the three properties. */
  function Tables(): State {
    State([Node([], 0, 0, At(1), Null, At(1), Null), Node([99, 100], 0, 0, At(2), At(0), Null, Null)],
          [Prop([112], Null, [1, 2, 3, 4, 5]), Prop([113], At(0), []), Prop([113], Null, [7])],
          Null, 0, Live)
  }

  lemma LoopStep(offset: nat, s: State, t: Token, next: nat, u: State)
    requires offset % 4 == 0 && Lex(BLOB, 56, 136, offset) == Tok(t, next) && t != End && Apply(s, t) == Running(u)
    ensures ParseLoop(BLOB, 56, 136, offset, s) == ParseLoop(BLOB, 56, 136, next, u)
  {
    hide Lex, Apply, BLOB;
    LexAdvances(BLOB, 56, 136, offset);
  }

  lemma LoopEnd(offset: nat, s: State, next: nat)
    requires offset % 4 == 0 && Lex(BLOB, 56, 136, offset) == Tok(End, next) && s.current == Null
    ensures ParseLoop(BLOB, 56, 136, offset, s) == Parsed(s)
  {
    hide Lex, Apply, BLOB;
    LexAdvances(BLOB, 56, 136, offset);
  }

  // The tables after each token.
  const P := Prop([112], Null, [1, 2, 3, 4, 5])
  const Q := Prop([113], At(0), [])
  const S1 := State([Node([], 0, 0, Null, Null, Null, Null)], [], At(0), 1, Live)
  const S2 := State([Node([], 0, 0, At(0), Null, Null, Null)], [P], At(0), 1, Live)
  const S3 := State([Node([], 0, 0, At(1), Null, Null, Null)], [P, Q], At(0), 1, Live)
  const S4 := State([Node([], 0, 0, At(1), Null, At(1), Null), Node([99, 100], 0, 0, Null, At(0), Null, Null)], [P, Q], At(1), 2, Live)
  const S5 := State(Tables().nodes, Tables().props, At(1), 2, Live)
  const S6 := State(Tables().nodes, Tables().props, At(0), 1, Live)

  lemma RootSteps()
    ensures Apply(START, BeginNode([])) == Running(S1) && Apply(S1, Nop) == Running(S1)
    ensures Apply(S1, Property([112], [1, 2, 3, 4, 5])) == Running(S2) && Apply(S2, Property([113], [])) == Running(S3)
  {
  }

  lemma ChildSteps()
    ensures Apply(S3, BeginNode([99, 100])) == Running(S4) && Apply(S4, Property([113], [7])) == Running(S5)
    ensures Apply(S5, EndNode) == Running(S6) && Apply(S6, EndNode) == Running(Tables())
  {
  }

  lemma Loop()
    ensures ParseLoop(BLOB, 56, 136, 0, START) == Parsed(Tables())
  {
    hide Lex, ParseLoop, BLOB, Apply, S1, S2, S3, S4, S5, S6;
    RootTokens();
    ChildTokens();
    RootSteps();
    ChildSteps();
    LoopStep(0, START, BeginNode([]), 8, S1);
    LoopStep(8, S1, Nop, 12, S1);
    LoopStep(12, S1, Property([112], [1, 2, 3, 4, 5]), 32, S2);
    LoopStep(32, S2, Property([113], []), 44, S3);
    LoopStep(44, S3, BeginNode([99, 100]), 52, S4);
    LoopStep(52, S4, Property([113], [7]), 68, S5);
    LoopStep(68, S5, EndNode, 72, S6);
    LoopStep(72, S6, EndNode, 76, Tables());
    LoopEnd(76, Tables(), 80);
  }

  /** The parser builds these tables from these bytes. */
  lemma Parses()
    ensures ParseBlob(BLOB) == Built(Tables())
  {
    hide ParseLoop, BLOB, ReadU32, Reserves, BigEndian;
    OffsetsWords();
    ReadWord(BLOB, 0);
    ReadWord(BLOB, 8);
    ReadWord(BLOB, 12);
    ReadWord(BLOB, 16);
    NothingReserved();
    Loop();
  }

  lemma NothingReserved()
    ensures !Reserves(BLOB, 40)
  {
    hide BigEndian, Reserves;
    ReservedPart();
    hide BLOB;
    SubPart(BLOB, 40, 16, 0, 8);
    assert forall k :: 0 <= k < 8 ==> BLOB[40..48][k] == RESERVED[k] == 0;
    BigZeros(BLOB[40..48]);
    ReservesIff(BLOB, 40);
  }
}
