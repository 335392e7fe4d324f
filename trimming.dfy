/**
 * Cutting a run of characters of one class off either end of a string: the shape
 * shared by JavaScript's `trim`, Python's `str.strip` and the leading `[^a-z]*`
 * group of a regular expression.
 */
module Trimming {

  /** Every character of `s` is in the class. */
  predicate All(s: string, inClass: char -> bool)
  {
    forall k :: 0 <= k < |s| ==> inClass(s[k])
  }

  /** The length of the longest prefix of `s` inside the class. */
  function Leading(s: string, inClass: char -> bool): (n: nat)
    ensures n <= |s| && All(s[..n], inClass)
    ensures n < |s| ==> !inClass(s[n])
  {
    if s != [] && inClass(s[0]) then
      var n := 1 + Leading(s[1..], inClass);
      assert s[..n] == [s[0]] + s[1..][..n - 1];
      n
    else 0
  }

  /** The length of the longest suffix of `s` inside the class. */
  function Trailing(s: string, inClass: char -> bool): (n: nat)
    ensures n <= |s| && All(s[|s| - n..], inClass)
    ensures n < |s| ==> !inClass(s[|s| - n - 1])
  {
    if s != [] && inClass(s[|s| - 1]) then
      var p := s[..|s| - 1];
      var n := 1 + Trailing(p, inClass);
      assert s[|s| - n..] == p[|p| - (n - 1)..] + [s[|s| - 1]];
      n
    else 0
  }

  /**
   * `s` without the characters of the class at either end: what is removed is in the
   * class, and what is left neither starts nor ends with such a character.
   */
  function TrimWhere(s: string, inClass: char -> bool): (r: string)
    ensures |r| <= |s|
    ensures r == [] || (!inClass(r[0]) && !inClass(r[|r| - 1]))
    ensures exists i :: (0 <= i <= |s| - |r| && s[i..i + |r|] == r &&
      All(s[..i], inClass) && All(s[i + |r|..], inClass))
  {
    var i := Leading(s, inClass);
    var t := s[i..];
    var j := |t| - Trailing(t, inClass);
    TrimWhereSlices(s, i, j);
    t[..j]
  }

  lemma TrimWhereSlices(s: string, i: nat, j: nat)
    requires i <= |s| && j <= |s| - i
    ensures s[i..][..j] == s[i..i + j] && s[i..][j..] == s[i + j..]
  {
  }

  /** A string that neither starts nor ends with a character of the class is left as it is. */
  lemma TrimWhereUnchanged(s: string, inClass: char -> bool)
    requires s == [] || (!inClass(s[0]) && !inClass(s[|s| - 1]))
    ensures TrimWhere(s, inClass) == s
  {
    if s != [] {
      assert Leading(s, inClass) == 0;
      assert Trailing(s, inClass) == 0;
      assert s[0..] == s;
    }
  }
}
