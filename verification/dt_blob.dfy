/** parse_from_blob up to the rewrite pass: the header, the reservation loop and the token loop. */
module DtBlob {
  import opened Options
  import opened Endian
  import opened DtTokens
  import opened DtBuild
  import opened DtTrees
  import DtRoot

  const MAGIC: nat := 0xD00D_FEED
  const HEADER_SIZE: nat := 40

  /** `Panicked` and `AssertFailed` stop the kernel. */
  datatype Parse = Parsed(s: State) | AssertFailed | Panicked | Crashed | OutOfBoundsRead

  /** The token loop from an offset on. */
  function ParseLoop(mem: bytes, structs: nat, strings: nat, offset: nat, s: State): Parse
    decreases |mem| - (structs + offset)
  {
    LexAdvances(mem, structs, strings, offset);
    if offset % 4 != 0 then AssertFailed
    else match Lex(mem, structs, strings, offset)
      case OutOfBounds => OutOfBoundsRead
      case Unknown => Panicked
      case Tok(t, next) =>
        if t == End then if s.current != Null then Panicked else Parsed(s)
        else match Apply(s, t)
          case NullDeref => Crashed
          case Running(u) => ParseLoop(mem, structs, strings, next, u)
  }

  /** Where the token loop is: the offset it reads next and the tables so far. */
  datatype Point = Point(offset: nat, s: State)

  /** One turn of the loop that does not leave it. */
  function Turn(mem: bytes, structs: nat, strings: nat, p: Point): Option<Point> {
    match Lex(mem, structs, strings, p.offset)
    case Tok(t, next) =>
      if t == End then None
      else (match Apply(p.s, t)
            case Running(u) => Some(Point(next, u))
            case NullDeref => None)
    case _ => None
  }

  /** The loop gets from one point to the other in n turns. */
  ghost predicate Reaches(mem: bytes, structs: nat, strings: nat, p: Point, n: nat, q: Point)
    decreases n
  {
    hide Turn;
    if n == 0 then p == q
    else
      match Turn(mem, structs, strings, p)
      case Some(r) => Reaches(mem, structs, strings, r, n - 1, q)
      case None => false
  }

  /** On arbitrary bytes: at every point the loop reaches, the offset is a multiple of 4, the
      state has the shape of a forest, and what follows decides the result of the loop. */
  lemma {:induction false} EveryState(mem: bytes, structs: nat, strings: nat, p: Point, n: nat, q: Point)
    requires Shape(p.s) && p.offset % 4 == 0 && Reaches(mem, structs, strings, p, n, q)
    ensures Shape(q.s) && q.offset % 4 == 0
    ensures ParseLoop(mem, structs, strings, p.offset, p.s) == ParseLoop(mem, structs, strings, q.offset, q.s)
    decreases n
  {
    hide Lex, Shape, Apply;
    LexAdvances(mem, structs, strings, p.offset);
    if n > 0 {
      ApplyKeepsShape(p.s, Lex(mem, structs, strings, p.offset).token);
      EveryState(mem, structs, strings, Turn(mem, structs, strings, p).value, n - 1, q);
    }
  }

  /** On arbitrary bytes the alignment assertion never fails, and the loop is left normally only
      with a forest and all nodes closed. */
  lemma {:induction false} LoopKeepsShape(mem: bytes, structs: nat, strings: nat, offset: nat, s: State)
    requires Shape(s) && offset % 4 == 0
    ensures ParseLoop(mem, structs, strings, offset, s) != AssertFailed
    ensures var r := ParseLoop(mem, structs, strings, offset, s);
            r.Parsed? ==> Shape(r.s) && r.s.current == Null && r.s.depth == 0
    decreases |mem| - (structs + offset)
  {
    hide Lex, Shape, Apply;
    LexAdvances(mem, structs, strings, offset);
    NullIff(s);
    var l := Lex(mem, structs, strings, offset);
    if l.Tok? && l.token != End {
      ApplyKeepsShape(s, l.token);
      if Apply(s, l.token).Running? {
        LoopKeepsShape(mem, structs, strings, l.next, Apply(s, l.token).s);
      }
    }
  }

  /** The memory at the offset holds the tokens, laid out with this dictionary of names. */
  ghost predicate Laid(mem: bytes, structs: nat, strings: nat, offset: nat, ts: seq<Token>, dict: map<bytes, nat>) {
    && (forall i :: 0 <= i < |ts| ==> Encodable(ts[i], mem, strings, dict))
    && SliceIs(mem, structs + offset, EncodeAll(ts, dict))
  }

  lemma LaidStep(mem: bytes, structs: nat, strings: nat, offset: nat, ts: seq<Token>, dict: map<bytes, nat>)
    requires Laid(mem, structs, strings, offset, ts, dict) && ts != []
    ensures Lex(mem, structs, strings, offset) == Tok(ts[0], offset + |Encode(ts[0], dict)|)
    ensures Laid(mem, structs, strings, offset + |Encode(ts[0], dict)|, ts[1..], dict)
  {
    hide Encode, Encodable, Lex;
    SliceSplit(mem, structs + offset, Encode(ts[0], dict), EncodeAll(ts[1..], dict));
    LexEncode(mem, structs, strings, offset, ts[0], dict);
    assert Encodable(ts[0], mem, strings, dict);
  }

  /** The loop on laid-out tokens does what the tokens say, up to END. */
  lemma {:induction false} LoopRuns(mem: bytes, structs: nat, strings: nat, offset: nat, ts: seq<Token>, dict: map<bytes, nat>, s: State)
    requires offset % 4 == 0 && End !in ts && Laid(mem, structs, strings, offset, ts + [End], dict)
    ensures ParseLoop(mem, structs, strings, offset, s) ==
              match Exec(s, ts)
              case NullDeref => Crashed
              case Running(u) => if u.current == Null then Parsed(u) else Panicked
    decreases |ts|
  {
    hide Lex, Apply, Laid;
    var all := ts + [End];
    LaidStep(mem, structs, strings, offset, all, dict);
    LexAdvances(mem, structs, strings, offset);
    if ts != [] {
      assert all[0] == ts[0] && all[1..] == ts[1..] + [End];
      if Apply(s, ts[0]).Running? {
        LoopRuns(mem, structs, strings, offset + |Encode(ts[0], dict)|, ts[1..], dict, Apply(s, ts[0]).s);
      }
    }
  }

  // ---------------------------------------------------------------- the reservation loop

  function NonZero(mem: bytes, at: nat, n: nat): bool
    requires at + n <= |mem|
  {
    LittleEndian(mem[at..at + n]) != 0
  }

  /** The loop's test on the reservation entry at an address. */
  predicate Reserves(mem: bytes, at: nat)
    requires at + 16 <= |mem|
  {
    NonZero(mem, at, 8) && NonZero(mem, at + 8, 8)
  }

  /** The regions pushed in at most this many turns, and whether the loop was left. */
  datatype Reservation = Left(regions: seq<(nat, nat)>) | Pushing(regions: seq<(nat, nat)>)

  /** The loop as written: it pushes the entry and looks at the same entry again. */
  function ReserveLoop(mem: bytes, at: nat, regions: seq<(nat, nat)>, turns: nat): Reservation
    requires at + 16 <= |mem|
    decreases turns
  {
    if !Reserves(mem, at) then Left(regions)
    else if turns == 0 then Pushing(regions)
    else ReserveLoop(mem, at, regions + [(ReadU64(mem, at), ReadU64(mem, at + 8))], turns - 1)
  }

  /** The entries in front of the first one with a zero address or size, or None when the
      memory ends before one. */
  function Entries(mem: bytes, at: nat): Option<seq<(nat, nat)>>
    decreases |mem| - at
  {
    if at + 16 > |mem| then None
    else
      var address, size := BigEndian(mem[at..at + 8]), BigEndian(mem[at + 8..at + 16]);
      if address == 0 || size == 0 then Some([])
      else match Entries(mem, at + 16)
        case None => None
        case Some(rest) => Some([(address, size)] + rest)
  }

  lemma ReservesIff(mem: bytes, at: nat)
    requires at + 16 <= |mem|
    ensures Reserves(mem, at) <==> BigEndian(mem[at..at + 8]) != 0 && BigEndian(mem[at + 8..at + 16]) != 0
    ensures ReadU64(mem, at) == BigEndian(mem[at..at + 8]) && ReadU64(mem, at + 8) == BigEndian(mem[at + 8..at + 16])
  {
    hide ReadU64, BigEndian, LittleEndian;
    ReadValue(mem, at);
    ReadValue(mem, at + 8);
    ZeroEitherWay(mem[at..at + 8]);
    ZeroEitherWay(mem[at + 8..at + 16]);
  }

  /** A number is 0 in one byte order exactly when it is in the other. */
  lemma ZeroEitherWay(s: seq<byte>)
    ensures LittleEndian(s) == 0 <==> BigEndian(s) == 0
  {
    hide LittleEndian, BigEndian;
    if LittleEndian(s) == 0 {
      LittleZeros(s);
    }
    if BigEndian(s) == 0 {
      ReverseBytesTwice(s);
      LittleReverse(s);
      LittleZeros(ReverseBytes(s));
      LittleReverse(ReverseBytes(s));
    }
  }


  /** The loop is left within this many turns. */
  predicate Leaves(mem: bytes, at: nat, turns: nat)
    requires at + 16 <= |mem|
  {
    ReserveLoop(mem, at, [], turns).Left?
  }

  function Copies(entry: (nat, nat), n: nat): (r: seq<(nat, nat)>)
    ensures |r| == n && forall i :: 0 <= i < n ==> r[i] == entry
  {
    if n == 0 then [] else [entry] + Copies(entry, n - 1)
  }

  /** The loop is left after some number of turns exactly when the list has no entry, and then
      it has read the list; otherwise every turn pushes the first entry once more. */
  lemma ReserveIff(mem: bytes, at: nat)
    requires at + 16 <= |mem|
    ensures (exists turns: nat :: Leaves(mem, at, turns)) <==> Entries(mem, at) == Some([])
    ensures forall turns: nat :: Entries(mem, at) != Some([]) ==>
              ReserveLoop(mem, at, [], turns) == Pushing(Copies((BigEndian(mem[at..at + 8]), BigEndian(mem[at + 8..at + 16])), turns))
  {
    hide Reserves, ReadU64, BigEndian;
    ReservesIff(mem, at);
    if Reserves(mem, at) {
      EntryThere(mem, at);
      forall turns: nat
        ensures ReserveLoop(mem, at, [], turns) == Pushing(Copies((BigEndian(mem[at..at + 8]), BigEndian(mem[at + 8..at + 16])), turns))
        ensures !Leaves(mem, at, turns)
      {
        ReserveTurns(mem, at, [], turns);
      }
      assert Entries(mem, at) != Some([]);
    } else {
      assert Leaves(mem, at, 0);
      assert Entries(mem, at) == Some([]);
    }
  }

  lemma {:induction false} ReserveTurns(mem: bytes, at: nat, regions: seq<(nat, nat)>, turns: nat)
    requires at + 16 <= |mem| && Reserves(mem, at)
    ensures ReserveLoop(mem, at, regions, turns) == Pushing(regions + Copies((ReadU64(mem, at), ReadU64(mem, at + 8)), turns))
    ensures regions == [] ==> ReserveLoop(mem, at, regions, turns) == Pushing(Copies((ReadU64(mem, at), ReadU64(mem, at + 8)), turns))
    decreases turns
  {
    hide ReadU64, Reserves;
    var e := (ReadU64(mem, at), ReadU64(mem, at + 8));
    assert [] + Copies(e, turns) == Copies(e, turns);
    if turns == 0 {
      assert regions + [] == regions;
    } else {
      ReserveTurns(mem, at, regions + [e], turns - 1);
      assert regions + [e] + Copies(e, turns - 1) == regions + ([e] + Copies(e, turns - 1));
    }
  }

  // ---------------------------------------------------------------- the whole blob

  /** `Stuck`: the reservation loop is never left. */
  datatype Blob = Built(s: State) | BadMagic | Stuck | NoNodes | Failed(how: Parse)

  function ParseBlob(mem: bytes): Blob {
    if |mem| < HEADER_SIZE then Failed(OutOfBoundsRead)
    else if ReadU32(mem, 0) != MAGIC then BadMagic
    else
      var structs, strings, rsvmap := ReadU32(mem, 8), ReadU32(mem, 12), ReadU32(mem, 16);
      if rsvmap + 16 > |mem| then Failed(OutOfBoundsRead)
      else if Reserves(mem, rsvmap) then Stuck
      else match ParseLoop(mem, structs, strings, 0, START)
        case Parsed(s) => if |s.nodes| == 0 then NoNodes else Built(s)
        case other => Failed(other)
  }

  /** A blob that holds tree t, with NOPs anywhere in its structure block, and whose first
      memory reservation entry has a zero address or size. */
  ghost predicate Holds(mem: bytes, t: Tree, ts: seq<Token>, dict: map<bytes, nat>) {
    && |mem| >= HEADER_SIZE && ReadU32(mem, 0) == MAGIC
    && ReadU32(mem, 16) + 16 <= |mem|
    && !Reserves(mem, ReadU32(mem, 16))
    && StripNops(ts) == Flatten(t)
    && Laid(mem, ReadU32(mem, 8), ReadU32(mem, 12), 0, ts + [End], dict)
  }

  /** Concrete blobs the parser never leaves: one reservation, of any nonzero address and size,
      and any bytes behind it. */
  lemma StuckWitness(address: nat, size: nat, rest: bytes)
    requires 0 < address < 0x1_0000_0000_0000_0000 && 0 < size < 0x1_0000_0000_0000_0000
    ensures var mem := ToBytes(0xD00D_FEED, 4) + Zeros(12) + ToBytes(40, 4) + Zeros(20) + (ToBytes(address, 8) + ToBytes(size, 8)) + rest;
            ParseBlob(mem) == Stuck && forall turns: nat :: !Leaves(mem, 40, turns)
  {
    hide ReadU32, ToBytes, P, ParseBlob, Reserves, ReserveLoop, Entries, Leaves;
    Constants();
    var front := ToBytes(0xD00D_FEED, 4) + Zeros(12) + ToBytes(40, 4) + Zeros(20);
    var mem := front + (ToBytes(address, 8) + ToBytes(size, 8)) + rest;
    assert mem[0..4] == ToBytes(0xD00D_FEED, 4);
    assert mem[16..20] == ToBytes(40, 4);
    assert mem[40..48] == ToBytes(address, 8);
    assert mem[48..56] == ToBytes(size, 8);
    StuckBlob(mem, address, size);
    ReserveIff(mem, 40);
    EntryThere(mem, 40);
  }

  /** What the parser makes of the blocks the header names. */
  function TreeAtBlocks(mem: bytes, structs: nat, strings: nat): Blob {
    match ParseLoop(mem, structs, strings, 0, START)
    case Parsed(s) => if s.nodes == [] then NoNodes else Built(s)
    case other => Failed(other)
  }

  /** What decides the parser's result before the tokens, in numbers: the magic number and the
      first reservation; behind them the token loop runs on the blocks the header names. */
  lemma BlobResults(mem: bytes)
    requires |mem| >= 40
    ensures var rsvmap := BigEndian(mem[16..20]);
            ParseBlob(mem) ==
              if BigEndian(mem[0..4]) != 0xD00D_FEED then BadMagic
              else if rsvmap + 16 > |mem| then Failed(OutOfBoundsRead)
              else if BigEndian(mem[rsvmap..rsvmap + 8]) != 0 && BigEndian(mem[rsvmap + 8..rsvmap + 16]) != 0 then Stuck
              else TreeAtBlocks(mem, BigEndian(mem[8..12]), BigEndian(mem[12..16]))
  {
    hide ReadU32, ReadU64, ParseBlob, BigEndian, Reserves, TreeAtBlocks;
    ReadWord(mem, 0);
    ReadWord(mem, 8);
    ReadWord(mem, 12);
    ReadWord(mem, 16);
    BlobBranches(mem);
    var rsvmap := ReadU32(mem, 16);
    if rsvmap + 16 <= |mem| { ReservesIff(mem, rsvmap); }
  }

  lemma BlobBranches(mem: bytes)
    requires |mem| >= 40
    ensures ParseBlob(mem) ==
              if ReadU32(mem, 0) != 0xD00D_FEED then BadMagic
              else if ReadU32(mem, 16) + 16 > |mem| then Failed(OutOfBoundsRead)
              else if Reserves(mem, ReadU32(mem, 16)) then Stuck
              else TreeAtBlocks(mem, ReadU32(mem, 8), ReadU32(mem, 12))
  {
    hide ReadU32, Reserves, ParseLoop;
  }

  lemma StuckBlob(mem: bytes, address: nat, size: nat)
    requires 0 < address < P(8) && 0 < size < P(8) && |mem| >= 56
    requires mem[0..4] == ToBytes(MAGIC, 4) && mem[16..20] == ToBytes(HEADER_SIZE, 4)
    requires mem[40..48] == ToBytes(address, 8) && mem[48..56] == ToBytes(size, 8)
    ensures ParseBlob(mem) == Stuck && Reserves(mem, HEADER_SIZE)
  {
    hide ReadU32, ToBytes, P, ParseLoop, LittleEndian;
    StoredWord(mem, 0, MAGIC);
    StoredWord(mem, 16, HEADER_SIZE);
    BytesNonZero(address, 8);
    BytesNonZero(size, 8);
  }

  lemma StoredWord(mem: bytes, at: nat, v: nat)
    requires at + 4 <= |mem| && mem[at..at + 4] == ToBytes(v, 4) && v < WORD32
    ensures ReadU32(mem, at) == v
  {
    hide ReadU32, ToBytes, P, BigEndian;
    Constants();
    BigToBytes(v, 4);
    ReadValue(mem, at);
  }

  lemma EntryThere(mem: bytes, at: nat)
    requires at + 16 <= |mem| && Reserves(mem, at)
    ensures Entries(mem, at) != Some([])
  {
    hide Reserves, BigEndian;
    ReservesIff(mem, at);
  }

  /** Stored big-endian and read the other way round, a number other than 0 is still not 0. */
  lemma BytesNonZero(v: nat, n: nat)
    requires 0 < v < P(n)
    ensures LittleEndian(ToBytes(v, n)) != 0
  {
    hide P, ToBytes;
    BigToBytes(v, n);
    if LittleEndian(ToBytes(v, n)) == 0 {
      LittleZeros(ToBytes(v, n));
    }
  }

  lemma {:induction false} NoEnd(t: Tree)
    ensures End !in Flatten(t)
    decreases t, 1
  {
    NoEndProps(t.props);
    NoEndAll(t.children);
  }

  lemma {:induction false} NoEndAll(ts: seq<Tree>)
    ensures End !in FlattenAll(ts)
    decreases ts, 0
  {
    if ts != [] {
      NoEnd(ts[0]);
      NoEndAll(ts[1..]);
    }
  }

  lemma {:induction false} NoEndProps(ps: seq<(bytes, bytes)>)
    ensures End !in FlattenProps(ps)
  {
    if ps != [] { NoEndProps(ps[1..]); }
  }

  lemma {:induction false} StripEnd(ts: seq<Token>)
    ensures End in ts ==> End in StripNops(ts)
  {
    if ts != [] { StripEnd(ts[1..]); }
  }

  /** Parsing a flattened tree: every node and property is read back, in mirrored order, the
      link structure is that of one tree, and the record the parser goes on with is the whole
      tree exactly when the root's last child is among the first 73 nodes. */
  lemma ParseFlattened(mem: bytes, t: Tree, ts: seq<Token>, dict: map<bytes, nat>)
    requires Holds(mem, t, ts, dict)
    ensures ParseBlob(mem).Built?
    ensures var u := ParseBlob(mem).s;
            && Shape(u) && |u.nodes| == Size(t) && TreeAt(u, 0, Mirror(t))
            && (RecordIs(u.nodes, u.props, DtRoot.RootRecord(u), 1, Mirror(t)) <==>
                  t.children == [] || DtRoot.LastChildId(t) < FIRST_CAPACITY)
  {
    hide Exec, Flatten, RecordIs, Shape, Laid, ReadU32, StripNops, Size, Mirror;
    NoEnd(t);
    StripEnd(ts);
    BuildFlattened(t, ts);
    LoopRuns(mem, ReadU32(mem, 8), ReadU32(mem, 12), 0, ts, dict, START);
    assert InRange(START) && Shape(START) by { StartShape(); }
    NopsIgnored(START, ts);
    DtRoot.RootCompleteIff(t);
  }

  lemma StartShape()
    ensures InRange(START) && Shape(START)
  {
  }

  // ---------------------------------------------------------------- the parser object

  class DeviceTree {
    var nodes: seq<Node>
    var props: seq<Prop>
    var rootCopy: RootCopy

    constructor ()
      ensures nodes == [] && props == [] && rootCopy == Live
    {
      nodes, props, rootCopy := [], [], Live;
    }

    function St(current: Ptr, depth: nat): State
      reads this
    {
      State(nodes, props, current, depth, rootCopy)
    }

    method ParseNode(name: bytes, current: Ptr, ghost depth: nat) returns (now: Ptr)
      requires InRange(St(current, depth))
      modifies this
      ensures St(now, depth + 1) == Begin(old(St(current, depth)), name)
    {
      var n := |nodes|;
      if n == FIRST_CAPACITY {
        rootCopy := Frozen(nodes[0]);
      }
      nodes := nodes + [Node(name, 0, 0, Null, current, Null, Null)];
      now := At(n);
      if current == Null {
        return;
      }
      var c := current.i;
      nodes := nodes[n := nodes[n].(nextSibling := nodes[c].children)];
      nodes := nodes[c := nodes[c].(children := At(n))];
      assert nodes[..n] == old(nodes)[c := old(nodes)[c].(children := At(n))];
      assert nodes == nodes[..n] + [nodes[n]];
    }

    method PreParseProperty(c: nat, name: bytes, value: bytes, ghost depth: nat)
      requires c < |nodes|
      modifies this
      ensures St(At(c), depth) == AddProperty(old(St(At(c), depth)), c, name, value)
    {
      props := props + [Prop(name, nodes[c].properties, value)];
      nodes := nodes[c := nodes[c].(properties := At(|props| - 1))];
    }

    /** The token switch, for all tokens but END; false where `current` is null and needed. */
    method Switch(token: Token, current: Ptr, depth: nat) returns (now: Ptr, depth': nat, ok: bool)
      requires Shape(St(current, depth)) && token != End
      modifies this
      ensures ok <==> Apply(old(St(current, depth)), token).Running?
      ensures ok ==> St(now, depth') == Apply(old(St(current, depth)), token).s
    {
      hide Shape, Apply, Begin, AddProperty;
      TokenEffect(St(current, depth), token);
      now, depth', ok := current, depth, true;
      match token
      case BeginNode(name) =>
        now := ParseNode(name, current, depth);
        depth' := depth + 1;
      case EndNode =>
        if current == Null {
          return now, depth', false;
        }
        assert InRange(St(current, depth));
        now := nodes[current.i].parent;
        depth' := depth - 1;
      case Property(name, value) =>
        if current == Null {
          return now, depth', false;
        }
        PreParseProperty(current.i, name, value, depth);
      case Nop =>
      case End =>
    }

    /** The token loop. A failure leaves the tables in an unspecified state. */
    method ParseTokens(mem: bytes, structs: nat, strings: nat) returns (result: Parse)
      requires St(Null, 0) == START
      modifies this
      ensures result == ParseLoop(mem, structs, strings, 0, START)
      ensures result.Parsed? ==> St(Null, 0) == result.s
    {
      hide Lex, Apply, Shape;
      var offset: nat, depth: nat, current := 0, 0, Null;
      StartShape();
      while true
        invariant Shape(St(current, depth)) && offset % 4 == 0
        invariant ParseLoop(mem, structs, strings, offset, St(current, depth)) == ParseLoop(mem, structs, strings, 0, START)
        decreases |mem| - (structs + offset)
      {
        ghost var s := St(current, depth);
        LexAdvances(mem, structs, strings, offset);
        var l := Lex(mem, structs, strings, offset);
        if l == OutOfBounds {
          return OutOfBoundsRead;
        }
        if l == Unknown {
          return Panicked;
        }
        if l.token == End {
          NullIff(s);
          return if current != Null then Panicked else Parsed(St(Null, 0));
        }
        ApplyKeepsShape(s, l.token);
        var ok;
        current, depth, ok := Switch(l.token, current, depth);
        if !ok {
          return Crashed;
        }
        offset := l.next;
      }
    }
  }

  /** The cases of the token switch, for a state of the right shape. */
  lemma TokenEffect(s: State, t: Token)
    requires Shape(s)
    ensures InRange(s)
    ensures match t
            case BeginNode(name) => Apply(s, t) == Running(Begin(s, name))
            case EndNode =>
              if s.current == Null then Apply(s, t) == NullDeref
              else s.depth > 0 && Apply(s, t) == Running(s.(current := s.nodes[s.current.i].parent, depth := s.depth - 1))
            case Property(name, value) =>
              if s.current == Null then Apply(s, t) == NullDeref
              else Apply(s, t) == Running(AddProperty(s, s.current.i, name, value))
            case _ => Apply(s, t) == Running(s)
  {
  }
}
