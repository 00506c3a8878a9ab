/** str_view::compare, find and substr of kernel/include/types/str_view.h. */
module StrView {
  import opened Endian

  type bytes = seq<byte>

  /** The three-way comparison: the first difference, else the difference in length. */
  function Compare(s: bytes, t: bytes): int {
    if s == [] || t == [] then |s| - |t|
    else if s[0] != t[0] then s[0] - t[0]
    else Compare(s[1..], t[1..])
  }

  /** Dictionary order on byte strings, defined without reference to the comparison. */
  ghost predicate Before(s: bytes, t: bytes) {
    (s <= t && s != t) || exists i :: FirstDifference(s, t, i) && s[i] < t[i]
  }

  ghost predicate FirstDifference(s: bytes, t: bytes, i: int) {
    0 <= i < |s| && i < |t| && s[..i] == t[..i] && s[i] != t[i]
  }

  /** The loop of compare, with its index. */
  method CompareLoop(s: bytes, t: bytes) returns (r: int)
    ensures r == Compare(s, t)
    ensures r == 0 <==> s == t
    ensures r < 0 <==> Before(s, t)
    ensures r > 0 <==> Before(t, s)
  {
    CompareIsOrder(s, t);
    CompareIsOrder(t, s);
    Antisymmetric(s, t);
    var i := 0;
    while i < |s| && i < |t|
      invariant 0 <= i <= |s| && i <= |t|
      invariant Compare(s[i..], t[i..]) == Compare(s, t)
    {
      if s[i] != t[i] {
        return s[i] as int - t[i] as int;
      }
      assert s[i..][1..] == s[i + 1..] && t[i..][1..] == t[i + 1..];
      i := i + 1;
    }
    return |s| - |t|;
  }

  /** The sign of the comparison is dictionary order, and zero means equal. */
  lemma {:induction false} CompareIsOrder(s: bytes, t: bytes)
    ensures Compare(s, t) < 0 <==> Before(s, t)
    ensures Compare(s, t) == 0 <==> s == t
    decreases |s|
  {
    if s == [] || t == [] {
    } else if s[0] != t[0] {
      if s[0] < t[0] { assert FirstDifference(s, t, 0); }
      forall i | FirstDifference(s, t, i)
        ensures i == 0
      {
        if i > 0 { DifferenceLater(s, t, i); }
      }
    } else {
      CompareIsOrder(s[1..], t[1..]);
      assert s == [s[0]] + s[1..] && t == [t[0]] + t[1..];
      BeforeTail(s, t);
    }
  }

  lemma DifferenceLater(s: bytes, t: bytes, i: int)
    requires FirstDifference(s, t, i) && i > 0
    ensures s[0] == t[0]
  {
    assert s[0] == s[..i][0] && t[0] == t[..i][0];
  }

  lemma BeforeTail(s: bytes, t: bytes)
    requires s != [] && t != [] && s[0] == t[0]
    ensures Before(s, t) <==> Before(s[1..], t[1..])
  {
    assert s == [s[0]] + s[1..] && t == [t[0]] + t[1..];
    if i :| FirstDifference(s, t, i) && s[i] < t[i] {
      assert s[1..][..i - 1] == s[..i][1..] && t[1..][..i - 1] == t[..i][1..];
      assert FirstDifference(s[1..], t[1..], i - 1);
    }
    if i :| FirstDifference(s[1..], t[1..], i) && s[1..][i] < t[1..][i] {
      assert s[..i + 1] == [s[0]] + s[1..][..i] && t[..i + 1] == [t[0]] + t[1..][..i];
      assert FirstDifference(s, t, i + 1);
    }
  }

  lemma {:induction false} Antisymmetric(s: bytes, t: bytes)
    ensures Compare(s, t) == -Compare(t, s)
    decreases |s|
  {
    if s != [] && t != [] && s[0] == t[0] { Antisymmetric(s[1..], t[1..]); }
  }

  lemma {:induction false} Transitive(s: bytes, t: bytes, u: bytes)
    requires Compare(s, t) <= 0 && Compare(t, u) <= 0
    ensures Compare(s, u) <= 0
    decreases |s|
  {
    if s != [] && t != [] && u != [] && s[0] == t[0] == u[0] { Transitive(s[1..], t[1..], u[1..]); }
  }

  // ---------------------------------------------------------------- find and substr

  const SENTINEL: int := 0x1_0000_0000_0000_0000 - 1

  /** The first occurrence at or after `start`, or the sentinel. */
  method Find(s: bytes, c: byte, start: nat) returns (r: int)
    ensures r == 0xFFFF_FFFF_FFFF_FFFF || (start <= r < |s| && s[r] == c && c !in s[start..r])
    ensures r == 0xFFFF_FFFF_FFFF_FFFF && |s| < 0xFFFF_FFFF_FFFF_FFFF ==> start > |s| || c !in s[start..]
  {
    var i := start;
    while i < |s|
      invariant start <= i && (i <= |s| || i == start)
      invariant i <= |s| ==> c !in s[start..i]
    {
      if s[i] == c {
        return i;
      }
      i := i + 1;
    }
    return SENTINEL;
  }
}
