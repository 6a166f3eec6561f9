/** String primitives the overview table relies on: lower-casing
    (`toLocaleLowerCase`), a three-way comparison standing in for
    `localeCompare('en', {sensitivity: 'base'})`, and `indexOf`.
    Locale rules are not modelled: lower-casing folds the ASCII letters
    and comparison is lexicographic on character codes. */
module Strings {

  function LowerChar(c: char): (d: char)
    ensures !('A' <= d <= 'Z')
  {
    if 'A' <= c <= 'Z' then (c as int + 32) as char else c
  }

  function UpperChar(c: char): (d: char)
    ensures !('a' <= d <= 'z')
  {
    if 'a' <= c <= 'z' then (c as int - 32) as char else c
  }

  /** `s.toLocaleLowerCase()`: every character lower-cased, nothing else changed. */
  function Lower(s: string): (r: string)
    ensures |r| == |s|
    ensures forall i :: 0 <= i < |s| ==> r[i] == LowerChar(s[i])
  {
    seq(|s|, i requires 0 <= i < |s| => LowerChar(s[i]))
  }

  /** `s.toUpperCase()`, used only to state case-insensitivity. */
  function Upper(s: string): (r: string)
    ensures |r| == |s|
    ensures forall i :: 0 <= i < |s| ==> r[i] == UpperChar(s[i])
  {
    seq(|s|, i requires 0 <= i < |s| => UpperChar(s[i]))
  }

  /** Lower-casing forgets the case a string was written in. */
  lemma LowerOfUpper(s: string)
    ensures Lower(Upper(s)) == Lower(s)
    ensures Lower(Lower(s)) == Lower(s)
  {
    forall i | 0 <= i < |s|
      ensures Lower(Upper(s))[i] == Lower(s)[i]
    {
      assert Upper(s)[i] == UpperChar(s[i]);
    }
  }

  /** Three-way lexicographic comparison on character codes:
      negative, zero or positive as `s` sorts before, with or after `t`. */
  function LexCompare(s: string, t: string): (r: int)
    ensures -1 <= r <= 1
    ensures r == 0 <==> s == t
  {
    if s == [] && t == [] then 0
    else if s == [] then -1
    else if t == [] then 1
    else if s[0] < t[0] then -1
    else if s[0] > t[0] then 1
    else
      var r := LexCompare(s[1..], t[1..]);
      assert r == 0 ==> s == [s[0]] + s[1..] && t == [t[0]] + t[1..];
      r
  }

  lemma {:induction false} LexCompareAntisymmetric(s: string, t: string)
    ensures LexCompare(s, t) == -LexCompare(t, s)
  {
    if s != [] && t != [] && s[0] == t[0] {
      LexCompareAntisymmetric(s[1..], t[1..]);
    }
  }

  lemma {:induction false} LexCompareTransitive(s: string, t: string, u: string)
    requires LexCompare(s, t) <= 0 && LexCompare(t, u) <= 0
    ensures LexCompare(s, u) <= 0
  {
    if s != [] && t != [] && u != [] && s[0] == t[0] == u[0] {
      LexCompareTransitive(s[1..], t[1..], u[1..]);
    }
  }

  /** The comparison `localeCompare('en', {sensitivity: 'base'})` stands for:
      case-insensitive, three-way. */
  function CompareIgnoringCase(s: string, t: string): (r: int)
    ensures -1 <= r <= 1
    ensures r == 0 <==> Lower(s) == Lower(t)
  {
    LexCompare(Lower(s), Lower(t))
  }

  /** Swapping the operands negates the comparison. */
  lemma CompareIgnoringCaseSwap(s: string, t: string)
    ensures CompareIgnoringCase(s, t) == -CompareIgnoringCase(t, s)
  {
    LexCompareAntisymmetric(Lower(s), Lower(t));
  }

  /** `needle` occurs in `hay` starting at position `i`. */
  predicate OccursAt(needle: string, hay: string, i: int)
  {
    0 <= i <= |hay| - |needle| && hay[i..i + |needle|] == needle
  }

  ghost predicate Occurs(needle: string, hay: string)
  {
    exists i :: OccursAt(needle, hay, i)
  }

  function IndexOfFrom(hay: string, needle: string, from: nat): (r: int)
    requires from <= |hay| + 1
    ensures r == -1 || (from <= r && OccursAt(needle, hay, r))
    ensures r == -1 ==> forall j :: from <= j ==> !OccursAt(needle, hay, j)
    ensures r != -1 ==> forall j :: from <= j < r ==> !OccursAt(needle, hay, j)
    decreases |hay| + 1 - from
  {
    if from + |needle| > |hay| then -1
    else if hay[from..from + |needle|] == needle then from
    else IndexOfFrom(hay, needle, from + 1)
  }

  /** `hay.indexOf(needle)`: the first position where `needle` occurs, or -1. */
  function IndexOf(hay: string, needle: string): (r: int)
    ensures r == -1 <==> !Occurs(needle, hay)
    ensures r != -1 ==> OccursAt(needle, hay, r) && forall j :: 0 <= j < r ==> !OccursAt(needle, hay, j)
  {
    IndexOfFrom(hay, needle, 0)
  }

  /** The empty string occurs at position 0 of every string. */
  lemma IndexOfEmpty(hay: string)
    ensures IndexOf(hay, "") == 0
  {
    assert OccursAt("", hay, 0);
  }
}
