/** Python's `str.strip()`: removes the leading and trailing characters that
    `str.isspace()` accepts. The slicing is stated once for any class of
    characters `p` (as `str.strip(chars)` does) and instantiated with
    whitespace. */
module Text {

  /** The code points Python 3 treats as whitespace (`str.isspace()`). */
  predicate IsSpace(c: char) {
    var n := c as int;
    (0x09 <= n <= 0x0D) || (0x1C <= n <= 0x20) || n == 0x85 || n == 0xA0 ||
    n == 0x1680 || (0x2000 <= n <= 0x200A) || n == 0x2028 || n == 0x2029 ||
    n == 0x202F || n == 0x205F || n == 0x3000
  }

  /** Every character of `s` is in the class `p`. */
  predicate All(s: string, p: char -> bool) {
    forall k :: 0 <= k < |s| ==> p(s[k])
  }

  /** Neither end of `s` is in the class `p`. */
  predicate StrippedBy(s: string, p: char -> bool) {
    s == [] || (!p(s[0]) && !p(s[|s| - 1]))
  }

  /** Length of the longest prefix of `s` inside the class `p`. */
  function Leading(s: string, p: char -> bool): (n: nat)
    ensures n <= |s| && All(s[..n], p)
    ensures n < |s| ==> !p(s[n])
  {
    if s != [] && p(s[0]) then
      var m := Leading(s[1..], p);
      assert s[..m + 1] == [s[0]] + s[1..][..m];
      m + 1
    else 0
  }

  /** Length of the longest suffix of `s` inside the class `p`. */
  function Trailing(s: string, p: char -> bool): (n: nat)
    ensures n <= |s| && All(s[|s| - n..], p)
    ensures n < |s| ==> !p(s[|s| - 1 - n])
  {
    if s != [] && p(s[|s| - 1]) then
      var m := Trailing(s[..|s| - 1], p);
      SuffixGrows(s, m, p);
      m + 1
    else 0
  }

  /** One more character of the class in front of a suffix inside the class. */
  lemma SuffixGrows(s: string, m: nat, p: char -> bool)
    requires m < |s| && p(s[|s| - 1])
    requires All(s[..|s| - 1][|s| - 1 - m..], p)
    ensures All(s[|s| - (m + 1)..], p)
  {
    var grown, known := s[|s| - (m + 1)..], s[..|s| - 1][|s| - 1 - m..];
    forall k | 0 <= k < m + 1 ensures p(grown[k]) {
      if k < m {
        assert grown[k] == known[k];
      }
    }
  }

  /** `s.strip(chars)`: the slice of `s` between its longest prefix and its
      longest suffix inside the class `p`. */
  function StripBy(s: string, p: char -> bool): string {
    var t := s[Leading(s, p)..];
    t[..|t| - Trailing(t, p)]
  }

  lemma SliceOfSuffix(s: string, i: nat, m: nat)
    requires i + m <= |s|
    ensures s[i..][..|s| - i - m] == s[i..|s| - m]
    ensures s[i..][|s| - i - m..] == s[|s| - m..]
  {
  }

  /** The result is the middle slice `s[i..j]` of `s` once a prefix `s[..i]`
      and a suffix `s[j..]` inside the class are cut off. */
  lemma StripByIsCore(s: string, p: char -> bool)
    ensures exists i, j :: 0 <= i <= j <= |s| && StripBy(s, p) == s[i..j] &&
                           All(s[..i], p) && All(s[j..], p)
  {
    var i := Leading(s, p);
    var m := Trailing(s[i..], p);
    SliceOfSuffix(s, i, m);
    var j := |s| - m;
    assert StripBy(s, p) == s[i..j] && All(s[..i], p) && All(s[j..], p);
  }

  /** The result has no character of the class at either end. */
  lemma StripByIsStripped(s: string, p: char -> bool)
    ensures StrippedBy(StripBy(s, p), p)
  {
    var i := Leading(s, p);
    var t := s[i..];
    var m := Trailing(t, p);
    var r := t[..|t| - m];
    if r != [] {
      assert r[0] == s[i];
      assert r[|r| - 1] == t[|t| - 1 - m];
    }
  }

  /** The result is empty exactly when every character is in the class. */
  lemma StripByEmptyIffAll(s: string, p: char -> bool)
    ensures StripBy(s, p) == [] <==> All(s, p)
  {
    var i := Leading(s, p);
    var t := s[i..];
    var m := Trailing(t, p);
    if StripBy(s, p) == [] {
      assert m == |t|;
      assert s[..i] == s;
    }
  }

  /** A string with no character of the class at its ends is left alone. */
  lemma StrippedByIsFixed(s: string, p: char -> bool)
    requires StrippedBy(s, p)
    ensures StripBy(s, p) == s
  {
  }

  // ------------------------------------------------------------ whitespace

  function Strip(s: string): string {
    StripBy(s, IsSpace)
  }

  predicate AllSpace(s: string) {
    All(s, IsSpace)
  }

  predicate Stripped(s: string) {
    StrippedBy(s, IsSpace)
  }

  /** `s.strip()` is `s` with a whitespace prefix and suffix cut off. */
  lemma StripIsCore(s: string)
    ensures exists i, j :: 0 <= i <= j <= |s| && Strip(s) == s[i..j] &&
                           AllSpace(s[..i]) && AllSpace(s[j..])
  {
    StripByIsCore(s, IsSpace);
  }

  /** `s.strip()` starts and ends with a non-whitespace character, if any. */
  lemma StripIsStripped(s: string)
    ensures Stripped(Strip(s))
  {
    StripByIsStripped(s, IsSpace);
  }

  /** `s.strip()` is empty exactly when `s` is all whitespace (or empty). */
  lemma StripEmptyIffAllSpace(s: string)
    ensures Strip(s) == [] <==> AllSpace(s)
  {
    StripByEmptyIffAll(s, IsSpace);
  }

  lemma StripIdempotent(s: string)
    ensures Strip(Strip(s)) == Strip(s)
  {
    StripByIsStripped(s, IsSpace);
    StrippedByIsFixed(Strip(s), IsSpace);
  }
}
