/** The string built-ins the checklist script relies on: `toLowerCase`,
    `trim`, `indexOf` and `includes`. Strings are sequences of characters.
    Lower-casing covers ASCII letters only, so it never changes a length and
    positions found in the lower-cased text are positions in the original. */
module Text {

  predicate IsUpper(c: char) {
    'A' <= c <= 'Z'
  }

  /** A capital letter becomes the small letter 32 code points above it;
      every other character is kept. */
  function LowerChar(c: char): (r: char)
    ensures !IsUpper(r)
    ensures IsUpper(c) ==> r as int == c as int + 32 && 'a' <= r <= 'z'
    ensures !IsUpper(c) ==> r == c
  {
    if IsUpper(c) then (c as int + 32) as char else c
  }

  /** `toLowerCase`, restricted to ASCII letters. */
  function Lower(s: string): (r: string)
    ensures |r| == |s|
    ensures forall i :: 0 <= i < |r| ==> !IsUpper(r[i])
    ensures forall i :: 0 <= i < |s| && !IsUpper(s[i]) ==> r[i] == s[i]
    ensures forall i :: 0 <= i < |s| && IsUpper(s[i]) ==> r[i] as int == s[i] as int + 32
  {
    seq(|s|, i requires 0 <= i < |s| => LowerChar(s[i]))
  }

  /** Lower-casing commutes with slicing: a piece of the lower-cased text is
      the lower-cased piece of the text. */
  lemma LowerSlice(s: string, a: int, b: int)
    requires 0 <= a <= b <= |s|
    ensures Lower(s[a..b]) == Lower(s)[a..b]
  {
  }

  /** Lower-casing a lower-cased string changes nothing. */
  lemma LowerIdempotent(s: string)
    ensures Lower(Lower(s)) == Lower(s)
  {
  }

  /** The code points JavaScript's `trim` removes: the white space and line
      terminators of sections 12.2 and 12.3 of ECMA-262. */
  const JsSpaceCodes: set<int> := {
    0x09, 0x0A, 0x0B, 0x0C, 0x0D, 0x20, 0xA0, 0x1680,
    0x2000, 0x2001, 0x2002, 0x2003, 0x2004, 0x2005, 0x2006, 0x2007, 0x2008, 0x2009, 0x200A,
    0x2028, 0x2029, 0x202F, 0x205F, 0x3000, 0xFEFF
  }

  predicate IsJsSpace(c: char) {
    c as int in JsSpaceCodes
  }

  predicate AllSpace(s: string) {
    forall i :: 0 <= i < |s| ==> IsJsSpace(s[i])
  }

  /** The number of white-space characters `s` starts with. */
  function LeadingSpaces(s: string): (k: nat)
    ensures k <= |s|
    ensures AllSpace(s[..k])
    ensures k < |s| ==> !IsJsSpace(s[k])
    decreases |s|
  {
    if |s| > 0 && IsJsSpace(s[0]) then
      var k := 1 + LeadingSpaces(s[1..]);
      assert s[..k] == [s[0]] + s[1..][..k - 1];
      k
    else 0
  }

  /** The number of white-space characters `s` ends with. */
  function TrailingSpaces(s: string): (k: nat)
    ensures k <= |s|
    ensures AllSpace(s[|s| - k..])
    ensures k < |s| ==> !IsJsSpace(s[|s| - 1 - k])
    decreases |s|
  {
    if |s| > 0 && IsJsSpace(s[|s| - 1]) then
      var k := 1 + TrailingSpaces(s[..|s| - 1]);
      SpaceSuffix(s, k);
      k
    else 0
  }

  /** Growing a white-space suffix by one white-space character. */
  lemma SpaceSuffix(s: string, k: nat)
    requires 0 < k <= |s|
    requires AllSpace(s[..|s| - 1][|s| - k..])
    requires IsJsSpace(s[|s| - 1])
    ensures AllSpace(s[|s| - k..])
  {
    forall j | |s| - k <= j < |s|
      ensures IsJsSpace(s[j])
    {
      if j < |s| - 1 {
        assert s[j] == s[..|s| - 1][|s| - k..][j - (|s| - k)];
      }
    }
  }

  /** `trim`: the result starts at the first character that is not white
      space, is a contiguous piece of `s`, everything after it is white space,
      and it neither starts nor ends with white space. */
  function Trim(s: string): (r: string)
    ensures LeadingSpaces(s) + |r| <= |s|
    ensures r == s[LeadingSpaces(s)..LeadingSpaces(s) + |r|]
    ensures AllSpace(s[LeadingSpaces(s) + |r|..])
    ensures r == [] || (!IsJsSpace(r[0]) && !IsJsSpace(r[|r| - 1]))
  {
    var k := LeadingSpaces(s);
    var m := TrailingSpaces(s[k..]);
    TrimCut(s, k, m);
    s[k..|s| - m]
  }

  /** Cutting `k` leading and `m` trailing white-space characters, where the
      counts stop at characters that are not white space. */
  lemma TrimCut(s: string, k: nat, m: nat)
    requires k <= |s|
    requires k < |s| ==> !IsJsSpace(s[k])
    requires m <= |s| - k && AllSpace(s[k..][|s| - k - m..])
    requires m < |s| - k ==> !IsJsSpace(s[k..][|s| - k - 1 - m])
    ensures AllSpace(s[|s| - m..])
    ensures k < |s| - m ==> !IsJsSpace(s[k]) && !IsJsSpace(s[|s| - m - 1])
  {
    assert s[k..][|s| - k - m..] == s[|s| - m..];
    if m < |s| - k {
      assert s[k..][|s| - k - 1 - m] == s[|s| - m - 1];
    }
  }

  /** A string with no white space at either end is left alone by `trim`. */
  lemma TrimUnpadded(s: string)
    requires s == [] || (!IsJsSpace(s[0]) && !IsJsSpace(s[|s| - 1]))
    ensures Trim(s) == s
  {
  }

  /** Trimming a trimmed string changes nothing. */
  lemma TrimIdempotent(s: string)
    ensures Trim(Trim(s)) == Trim(s)
  {
    TrimUnpadded(Trim(s));
  }

  // Facts about positions, stated as implications so that they can be used
  // to rule out a case without being checked inside it.

  lemma SpaceInSlice(s: string, a: int, b: int)
    ensures 0 <= a <= b <= |s| && AllSpace(s) ==> AllSpace(s[a..b])
  {
  }

  lemma SpaceInPrefix(s: string, k: int, i: int)
    ensures 0 <= i < k <= |s| && AllSpace(s[..k]) ==> IsJsSpace(s[i])
  {
    if 0 <= i < k <= |s| && AllSpace(s[..k]) {
      assert s[..k][i] == s[i];
    }
  }

  lemma SpaceInSuffix(s: string, e: int, i: int)
    ensures 0 <= e <= i < |s| && AllSpace(s[e..]) ==> IsJsSpace(s[i])
  {
    if 0 <= e <= i < |s| && AllSpace(s[e..]) {
      assert s[e..][i - e] == s[i];
    }
  }

  lemma SpaceInLeft(a: string, b: string, i: int)
    ensures 0 <= i < |a| && AllSpace(a) ==> IsJsSpace((a + b)[i])
  {
  }

  lemma SpaceInRight(a: string, b: string, i: int)
    ensures |a| <= i < |a| + |b| && AllSpace(b) ==> IsJsSpace((a + b)[i])
  {
    if |a| <= i < |a| + |b| && AllSpace(b) {
      assert (a + b)[i] == b[i - |a|];
    }
  }

  lemma SliceLast(s: string, a: int, b: int)
    ensures 0 <= a < b <= |s| ==> s[a..b][b - a - 1] == s[b - 1]
  {
  }

  /** A string made only of white space trims to the empty string. */
  lemma TrimAllSpace(s: string)
    requires AllSpace(s)
    ensures Trim(s) == []
  {
    var k := LeadingSpaces(s);
    SpaceInSlice(s, k, k + |Trim(s)|);
  }

  /** White space followed by a string that does not start with white space
      has exactly the white space as its leading run. */
  lemma LeadingSpacesPadded(pre: string, rest: string)
    requires AllSpace(pre)
    requires rest == [] || !IsJsSpace(rest[0])
    ensures LeadingSpaces(pre + rest) == |pre|
  {
    var s := pre + rest;
    var k := LeadingSpaces(s);
    SpaceInLeft(pre, rest, k);
    SpaceInPrefix(s, k, |pre|);
    assert rest != [] ==> s[|pre|] == rest[0];
  }

  /** The inverse view of `trim`: padding a string that neither starts nor
      ends with white space by white space on both sides, and trimming,
      gives the string back. */
  lemma TrimPadded(pre: string, core: string, post: string)
    requires AllSpace(pre) && AllSpace(post)
    requires core == [] || (!IsJsSpace(core[0]) && !IsJsSpace(core[|core| - 1]))
    ensures Trim(pre + core + post) == core
  {
    var s := pre + core + post;
    if core == [] {
      assert s == pre + post;
      TrimAllSpace(s);
    } else {
      assert s == pre + (core + post);
      LeadingSpacesPadded(pre, core + post);
      TrimPaddedCore(pre, core, post);
    }
  }

  /** The length step of TrimPadded: with the leading run known, the trimmed
      piece ends exactly where `core` ends. */
  lemma TrimPaddedCore(pre: string, core: string, post: string)
    requires AllSpace(post) && core != []
    requires !IsJsSpace(core[|core| - 1])
    requires LeadingSpaces(pre + core + post) == |pre|
    ensures Trim(pre + core + post) == core
  {
    var s := pre + core + post;
    var r := Trim(s);
    var e := |pre| + |r|;
    var last := |pre| + |core| - 1;
    assert s[last] == core[|core| - 1];
    SpaceInSuffix(s, e, last);
    SliceLast(s, |pre|, e);
    SpaceInRight(pre + core, post, e - 1);
    assert e == |pre| + |core|;
    assert s[|pre|..|pre| + |core|] == core;
  }

  /** `pat` occurs in `hay` starting at position `j`. */
  predicate OccursAt(hay: string, pat: string, j: int) {
    0 <= j && j + |pat| <= |hay| && hay[j..j + |pat|] == pat
  }

  /** `includes`. */
  predicate Includes(hay: string, pat: string) {
    exists j | 0 <= j <= |hay| - |pat| :: OccursAt(hay, pat, j)
  }

  /** `indexOf(pat, from)`: the first occurrence at or after `from`, or -1. */
  function IndexOfFrom(hay: string, pat: string, from: nat): (r: int)
    ensures r == -1 || (from <= r && OccursAt(hay, pat, r))
    ensures r >= 0 ==> forall j :: from <= j < r ==> !OccursAt(hay, pat, j)
    ensures r == -1 ==> forall j :: from <= j ==> !OccursAt(hay, pat, j)
    decreases |hay| - from
  {
    if from + |pat| > |hay| then -1
    else if OccursAt(hay, pat, from) then from
    else IndexOfFrom(hay, pat, from + 1)
  }

  /** `indexOf(pat)`: -1 exactly when `pat` is not included, and otherwise the
      first position where it occurs. */
  function IndexOf(hay: string, pat: string): (r: int)
    ensures r == -1 <==> !Includes(hay, pat)
    ensures r >= 0 ==> OccursAt(hay, pat, r)
    ensures r >= 0 ==> forall j :: 0 <= j < r ==> !OccursAt(hay, pat, j)
  {
    IndexOfFrom(hay, pat, 0)
  }
}
