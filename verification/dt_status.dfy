/** The `status` property: what the rewrite pass makes of its value, and what section 2.3.4 of the
    Devicetree Specification v0.4 gives it for a meaning. */
module DtStatus {
  import opened Endian
  import opened DtTokens
  import opened DtNames

  /** `Unset`: no branch is taken, and the record's status field keeps whatever lay in it.
      `Behind`: five bytes that are none of the names, so that the bytes behind the value decide. */
  datatype Status = Okay | Disabled | Reserved | Failed | FailedFor(reason: bytes) | Unset | Behind

  /** The chain of comparisons on a value and the bytes that follow it in memory; `advance` moves
      the start of a view and keeps its length. */
  function StatusRead(v: bytes, behind: bytes): Status
    requires |behind| >= 5
  {
    var advanced := (v + behind)[5..5 + |v|];
    if Is(v, "okay") then Okay
    else if Is(v, "disabled") then Disabled
    else if Is(v, "reserved") then Reserved
    else if Is(v, "fail") then Failed
    else if Is(advanced, "fail-") then FailedFor(advanced)
    else Unset
  }

  /** The same as far as the value alone decides it. */
  function StatusOf(v: bytes): Status {
    if Is(v, "okay") then Okay
    else if Is(v, "disabled") then Disabled
    else if Is(v, "reserved") then Reserved
    else if Is(v, "fail") then Failed
    else if |v| == 5 then Behind
    else Unset
  }

  const OKAY: bytes := [111, 107, 97, 121]
  const DISABLED: bytes := [100, 105, 115, 97, 98, 108, 101, 100]
  const RESERVED: bytes := [114, 101, 115, 101, 114, 118, 101, 100]
  const FAIL: bytes := [102, 97, 105, 108]
  const FAIL_DASH: bytes := [102, 97, 105, 108, 45]

  /** What a value means: one of the names with its final NUL, or a failure with a reason. */
  function Meaning(v: bytes): Status {
    if v == OKAY + [0] then Okay
    else if v == DISABLED + [0] then Disabled
    else if v == RESERVED + [0] then Reserved
    else if v == FAIL + [0] then Failed
    else if FAIL_DASH <= v && |v| > 5 && v[|v| - 1] == 0 then FailedFor(v[5..|v| - 1])
    else Unset
  }

  lemma Spell()
    ensures Ascii("okay") == OKAY && Ascii("disabled") == DISABLED && Ascii("reserved") == RESERVED
    ensures Ascii("fail") == FAIL && Ascii("fail-") == FAIL_DASH
  {
    SpellOkay();
    SpellDisabled();
    SpellReserved();
    SpellFail();
  }

  lemma SpellOkay()
    ensures Ascii("okay") == OKAY
  {
    var s := "okay";
    assert |s| == 4;
    assert s[0] == 'o' && Ascii(s)[0] == 111;
    assert s[1] == 'k' && Ascii(s)[1] == 107;
    assert s[2] == 'a' && Ascii(s)[2] == 97;
    assert s[3] == 'y' && Ascii(s)[3] == 121;
  }

  lemma SpellDisabled()
    ensures Ascii("disabled") == DISABLED
  {
    var s := "disabled";
    assert |s| == 8;
    assert s[0] == 'd' && Ascii(s)[0] == 100;
    assert s[1] == 'i' && Ascii(s)[1] == 105;
    assert s[2] == 's' && Ascii(s)[2] == 115;
    assert s[3] == 'a' && Ascii(s)[3] == 97;
    assert s[4] == 'b' && Ascii(s)[4] == 98;
    assert s[5] == 'l' && Ascii(s)[5] == 108;
    assert s[6] == 'e' && Ascii(s)[6] == 101;
    assert s[7] == 'd' && Ascii(s)[7] == 100;
  }

  lemma SpellReserved()
    ensures Ascii("reserved") == RESERVED
  {
    var s := "reserved";
    assert |s| == 8;
    assert s[0] == 'r' && Ascii(s)[0] == 114;
    assert s[1] == 'e' && Ascii(s)[1] == 101;
    assert s[2] == 's' && Ascii(s)[2] == 115;
    assert s[3] == 'e' && Ascii(s)[3] == 101;
    assert s[4] == 'r' && Ascii(s)[4] == 114;
    assert s[5] == 'v' && Ascii(s)[5] == 118;
    assert s[6] == 'e' && Ascii(s)[6] == 101;
    assert s[7] == 'd' && Ascii(s)[7] == 100;
  }

  lemma SpellFail()
    ensures Ascii("fail") == FAIL && Ascii("fail-") == FAIL_DASH
  {
    var s, t := "fail", "fail-";
    assert |s| == 4 && |t| == 5;
    assert s[0] == t[0] == 'f' && Ascii(s)[0] == Ascii(t)[0] == 102;
    assert s[1] == t[1] == 'a' && Ascii(s)[1] == Ascii(t)[1] == 97;
    assert s[2] == t[2] == 'i' && Ascii(s)[2] == Ascii(t)[2] == 105;
    assert s[3] == t[3] == 'l' && Ascii(s)[3] == Ascii(t)[3] == 108;
    assert t[4] == '-' && Ascii(t)[4] == 45;
  }

  /** Each result by the bytes of the value, and of those behind it. */
  lemma StatusIff(v: bytes, behind: bytes)
    requires |behind| >= 5
    ensures StatusRead(v, behind) == Okay <==> v == OKAY
    ensures StatusRead(v, behind) == Disabled <==> v == DISABLED
    ensures StatusRead(v, behind) == Reserved <==> v == RESERVED
    ensures StatusRead(v, behind) == Failed <==> v == FAIL
    ensures StatusRead(v, behind).FailedFor? <==> |v| == 5 && behind[..5] == FAIL_DASH
    ensures StatusRead(v, behind).FailedFor? ==> StatusRead(v, behind).reason == FAIL_DASH
    ensures StatusRead(v, behind) != Behind
  {
    hide Ascii, Is;
    Spell();
    if |v| == 5 { assert (v + behind)[5..5 + |v|] == behind[..5]; }
  }

  lemma StatusOfIff(v: bytes)
    ensures StatusOf(v) == Okay <==> v == OKAY
    ensures StatusOf(v) == Disabled <==> v == DISABLED
    ensures StatusOf(v) == Reserved <==> v == RESERVED
    ensures StatusOf(v) == Failed <==> v == FAIL
    ensures StatusOf(v) == Behind <==> |v| == 5
    ensures !StatusOf(v).FailedFor?
  {
    hide Ascii, Is;
    Spell();
  }

  /** The bytes behind a value decide nothing else. */
  lemma BehindDecides(v: bytes, behind: bytes)
    requires |behind| >= 5
    ensures StatusRead(v, behind) ==
              if StatusOf(v) != Behind then StatusOf(v)
              else if behind[..5] == FAIL_DASH then FailedFor(FAIL_DASH)
              else Unset
  {
    hide StatusRead, StatusOf, Is;
    StatusIff(v, behind);
    StatusOfIff(v);
  }

  /** The meaning of a value is found exactly when it has none and nothing else is found: never
      for a value that means something. */
  lemma StatusMeantIff(v: bytes, behind: bytes)
    requires |behind| >= 5
    ensures StatusRead(v, behind) == Meaning(v) <==>
              && Meaning(v) == Unset && v !in {OKAY, DISABLED, RESERVED, FAIL}
              && !(|v| == 5 && behind[..5] == FAIL_DASH)
  {
    hide StatusRead, Is;
    StatusIff(v, behind);
    if Meaning(v) != Unset { NulIsLast(v); }
  }

  /** A value that means something is none of those that are found. */
  lemma NulIsLast(v: bytes)
    requires Meaning(v) != Unset
    ensures v !in {OKAY, DISABLED, RESERVED, FAIL}
    ensures Meaning(v).FailedFor? ==> |v| > 5
    ensures Meaning(v) != Behind
  {
    assert v != [] && v[|v| - 1] == 0;
  }

  /** In a blob as the specification lays it out the three bytes behind a value of five are zero,
      so that `status` is never set for a value that means something. */
  lemma NeverSet(mem: bytes, at: nat, v: bytes, dict: map<bytes, nat>)
    requires SliceIs(mem, at, Encode(Property(STATUS, v), dict)) && at + 17 + |v| <= |mem|
    requires Meaning(v) != Unset
    ensures StatusRead(v, mem[at + 12 + |v|..]) == Unset
  {
    hide Meaning, StatusRead, ToBytes;
    NulIsLast(v);
    StatusIff(v, mem[at + 12 + |v|..]);
    if |v| == 5 {
      var t := Encode(Property(STATUS, v), dict);
      assert t[17] == 0;
      assert mem[at..at + |t|][17] == 0;
      assert mem[at + 17..][..5][0] == 0;
    }
  }

  /** `okay` as qemu_virt.dts:45 has it, with its NUL and the padding behind it. */
  lemma OkayWitness()
    ensures Meaning([111, 107, 97, 121, 0]) == Okay
    ensures StatusRead([111, 107, 97, 121, 0], [0, 0, 0, 0, 0]) == Unset
  {
    var v, behind: bytes := [111, 107, 97, 121, 0], [0, 0, 0, 0, 0];
    assert v == OKAY + [0];
    StatusIff(v, behind);
    assert behind[..5][0] == 0;
  }
}
