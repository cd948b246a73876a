/**
 * Framing of simulator messages (`hasData`, src/main.cpp:26-40).
 *
 * A message is kept only when it mentions no "null"; the kept part starts at
 * the first '[' and has length `b2 - b1 + 2`, where b1 and b2 are the first
 * '[' and the first '}'. The length is computed in `size_t`, so it wraps
 * modulo 2^64 when '}' comes before '[', and `substr` clamps it at the end.
 *
 * The source's `std::string` holds bytes, and its indices and lengths count
 * bytes; here one `char` of a `string` stands for one byte of the message.
 */
module Framing {
  import opened Wrappers

  /** `std::size_t` on the 64-bit platforms the controller runs on. */
  const SizeTModulus: int := 0x1_0000_0000_0000_0000

  function SizeT(v: int): (r: nat)
    ensures r < SizeTModulus
    ensures 0 <= v < SizeTModulus ==> r == v
    ensures -SizeTModulus <= v < 0 ==> r == v + SizeTModulus
  {
    v % SizeTModulus
  }

  function Min(a: int, b: int): int { if a <= b then a else b }

  /** `pat` occurs in `s` starting at index `i`. */
  predicate OccursAt(s: string, pat: string, i: nat)
  {
    i + |pat| <= |s| && s[i..i + |pat|] == pat
  }

  ghost predicate ContainsNull(s: string)
  {
    exists i: nat :: OccursAt(s, "null", i)
  }

  /** `std::string::find(pat)`: the first index where `pat` occurs, `None` for `npos`. */
  function Find(s: string, pat: string): (r: Option<nat>)
    ensures r.Some? ==> OccursAt(s, pat, r.value)
    ensures r.Some? ==> forall j: nat :: j < r.value ==> !OccursAt(s, pat, j)
    ensures r.None? ==> forall j: nat :: !OccursAt(s, pat, j)
    decreases |s|
  {
    if |s| < |pat| then None
    else if s[..|pat|] == pat then Some(0)
    else
      var rest := Find(s[1..], pat);
      ShiftOccurrence(s, pat);
      match rest
      case None => None
      case Some(i) => Some(i + 1)
  }

  /** An occurrence at `j` > 0 in `s` is an occurrence at `j - 1` in `s[1..]`. */
  lemma ShiftOccurrence(s: string, pat: string)
    requires |s| > 0
    ensures forall j: nat :: 0 < j ==> (OccursAt(s, pat, j) <==> OccursAt(s[1..], pat, j - 1))
  {
    forall j: nat | 0 < j
      ensures OccursAt(s, pat, j) <==> OccursAt(s[1..], pat, j - 1)
    {
      if j + |pat| <= |s| {
        assert s[1..][j - 1..j - 1 + |pat|] == s[j..j + |pat|];
      }
    }
  }

  /** `std::string::find_first_of` with a one-character set. */
  function FindFirst(s: string, c: char): (r: Option<nat>)
    ensures r.Some? ==> r.value < |s| && s[r.value] == c && c !in s[..r.value]
    ensures r.None? ==> c !in s
  {
    if |s| == 0 then None
    else if s[0] == c then Some(0)
    else
      match FindFirst(s[1..], c)
      case None => None
      case Some(i) =>
        assert s[..i + 1] == [s[0]] + s[1..][..i];
        Some(i + 1)
  }

  /** `std::string::substr(pos, count)`: at most `count` characters from `pos`. */
  function Substr(s: string, pos: nat, count: nat): (r: string)
    requires pos <= |s|
    ensures |r| <= count && |r| <= |s| - pos
    ensures |r| == count || pos + |r| == |s|
    ensures forall i :: 0 <= i < |r| ==> r[i] == s[pos + i]
  {
    s[pos..pos + Min(count, |s| - pos)]
  }

  /** The JSON part of a message, or "" when there is none. */
  function HasData(s: string): (r: string)
    ensures |r| <= |s|
    ensures r != "" ==> r[0] == '['
  {
    var foundNull := Find(s, "null");
    var b1 := FindFirst(s, '[');
    var b2 := FindFirst(s, '}');
    if foundNull.Some? then ""
    else if b1.Some? && b2.Some? then Substr(s, b1.value, SizeT(b2.value - b1.value + 2))
    else ""
  }

  /** A message that mentions "null" anywhere is dropped, whatever brackets it has. */
  lemma HasDataDropsNull(s: string)
    requires ContainsNull(s)
    ensures HasData(s) == ""
  {
    var i: nat :| OccursAt(s, "null", i);
    assert Find(s, "null").Some?;
  }

  /** Without "null", a message lacking '[' or '}' is dropped too. */
  lemma HasDataNeedsBrackets(s: string)
    requires !ContainsNull(s)
    requires '[' !in s || '}' !in s
    ensures HasData(s) == ""
  {
  }

  /**
   * Without "null", and with b1 the first '[' and b2 the first '}', the result
   * runs from b1 through the character after b2 (clamped at the end of `s`);
   * when '}' comes first the wrapped `size_t` length gives the three cases below.
   */
  lemma HasDataSlice(s: string, b1: nat, b2: nat)
    requires !ContainsNull(s) && |s| + 1 < SizeTModulus
    requires b1 < |s| && s[b1] == '[' && '[' !in s[..b1]
    requires b2 < |s| && s[b2] == '}' && '}' !in s[..b2]
    ensures b1 < b2 ==> HasData(s) == s[b1..Min(b2 + 2, |s|)]
    ensures b2 + 1 == b1 ==> HasData(s) == "["
    ensures b2 + 2 == b1 ==> HasData(s) == ""
    ensures b2 + 2 < b1 ==> HasData(s) == s[b1..]
  {
    FirstIsUnique(s, '[', b1);
    FirstIsUnique(s, '}', b2);
    assert Find(s, "null") == None;
    var count := SizeT(b2 - b1 + 2);
    assert HasData(s) == s[b1..b1 + Min(count, |s| - b1)];
  }

  /** The first occurrence of `c` is the one `FindFirst` reports. */
  lemma FirstIsUnique(s: string, c: char, b: nat)
    requires b < |s| && s[b] == c && c !in s[..b]
    ensures FindFirst(s, c) == Some(b)
  {
    assert s[..b + 1][b] == c;
  }

  /** Every occurrence of "null" starts with an 'n'. */
  lemma NoNullWithoutN(s: string)
    requires 'n' !in s
    ensures !ContainsNull(s)
  {
    forall i: nat | i + 4 <= |s|
      ensures !OccursAt(s, "null", i)
    {
      assert s[i..i + 4][0] == s[i] && s[i] != 'n';
    }
  }

  /** A simulator telemetry frame: the trailing ']' after the first '}' is kept. */
  lemma HasDataTelemetryFrame()
    ensures HasData("42[\"e\",{}]") == "[\"e\",{}]"
  {
    var s := "42[\"e\",{}]";
    assert 'n' !in s;
    NoNullWithoutN(s);
    assert s[2] == '[' && '[' !in s[..2];
    assert s[8] == '}' && '}' !in s[..8];
    HasDataSlice(s, 2, 8);
  }
}
