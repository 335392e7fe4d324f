/**
 * `to_snowflake_column_name`: a free-form label (a CSV header, say) turned into a
 * Snowflake column name. The model covers ASCII input, on which `unidecode` changes
 * nothing and Python's `\s`, `\w` and `lower` have their ASCII meanings.
 */
module ColumnName {
  import Trimming

  predicate IsAscii(s: string)
  {
    forall k :: 0 <= k < |s| ==> s[k] as int < 0x80
  }

  /** Python's `\s` and `str.isspace` on ASCII: tab to carriage return, the separators 0x1C-0x1F and space. */
  predicate IsSpace(c: char)
  {
    9 <= c as int <= 13 || 0x1C <= c as int <= 0x20
  }

  predicate IsLetter(c: char) { 'a' <= c <= 'z' }
  predicate IsUpper(c: char) { 'A' <= c <= 'Z' }
  predicate IsDigit(c: char) { '0' <= c <= '9' }

  /** Python's `\w` on ASCII. */
  predicate IsWord(c: char)
  {
    IsLetter(c) || IsUpper(c) || IsDigit(c) || c == '_'
  }

  /** What a column name is made of: lower-case letters, digits and underscores. */
  predicate IsNameChar(c: char)
  {
    IsLetter(c) || IsDigit(c) || c == '_'
  }

  predicate NoUpper(s: string) { forall k :: 0 <= k < |s| ==> !IsUpper(s[k]) }
  predicate NoSpace(s: string) { forall k :: 0 <= k < |s| ==> !IsSpace(s[k]) }
  predicate AllWord(s: string) { forall k :: 0 <= k < |s| ==> IsWord(s[k]) }
  predicate AllNameChars(s: string) { forall k :: 0 <= k < |s| ==> IsNameChar(s[k]) }
  predicate HasLetter(s: string) { exists k :: 0 <= k < |s| && IsLetter(s[k]) }

  function LowerChar(c: char): char
  {
    if IsUpper(c) then (c as int - 'A' as int + 'a' as int) as char else c
  }

  /** `s.lower()`: upper-case letters become lower-case, every other character stays. */
  function Lower(s: string): (r: string)
    ensures |r| == |s|
    ensures forall k :: 0 <= k < |s| ==> r[k] == LowerChar(s[k])
    ensures NoUpper(r)
  {
    seq(|s|, k requires 0 <= k < |s| => LowerChar(s[k]))
  }

  /** Lower-casing a string without upper-case letters changes nothing. */
  lemma LowerUnchanged(s: string)
    requires NoUpper(s)
    ensures Lower(s) == s
  {
  }

  /** `s.strip()`. */
  function Strip(s: string): (r: string)
    ensures r == [] || (!IsSpace(r[0]) && !IsSpace(r[|r| - 1]))
    ensures exists i :: (0 <= i <= |s| - |r| && s[i..i + |r|] == r &&
      Trimming.All(s[..i], IsSpace) && Trimming.All(s[i + |r|..], IsSpace))
  {
    Trimming.TrimWhere(s, IsSpace)
  }

  /** Stripping keeps a piece of the string, so it brings in no upper-case letter. */
  lemma StripKeepsNoUpper(s: string)
    requires NoUpper(s)
    ensures NoUpper(Strip(s))
  {
    var r := Strip(s);
    var i :| 0 <= i <= |s| - |r| && s[i..i + |r|] == r;
    forall k | 0 <= k < |r| ensures !IsUpper(r[k]) {
      assert r[k] == s[i + k];
    }
  }

  /**
   * `re.sub(r'\s+', '_', s)`: each maximal run of white space becomes one underscore,
   * so no white space is left and no upper-case letter is brought in.
   */
  function CollapseSpace(s: string): (r: string)
    ensures |r| <= |s|
    ensures NoSpace(r)
    ensures NoUpper(s) ==> NoUpper(r)
    decreases |s|
  {
    if s == [] then []
    else if IsSpace(s[0]) then
      var rest := s[Trimming.Leading(s, IsSpace)..];
      assert NoUpper(s) ==> NoUpper(rest);
      "_" + CollapseSpace(rest)
    else [s[0]] + CollapseSpace(s[1..])
  }

  /** `re.sub(r'\W', '', s)`: only the word characters are kept. */
  function KeepWordChars(s: string): (r: string)
    ensures |r| <= |s|
    ensures AllWord(r)
    ensures NoUpper(s) ==> NoUpper(r)
  {
    if s == [] then []
    else (if IsWord(s[0]) then [s[0]] else []) + KeepWordChars(s[1..])
  }

  /** Each word character is kept as often as it occurs, and nothing else is. */
  lemma {:induction false} KeepWordCharsCounts(s: string, c: char)
    ensures multiset(KeepWordChars(s))[c] == if IsWord(c) then multiset(s)[c] else 0
  {
    if s != [] {
      KeepWordCharsCounts(s[1..], c);
      assert s == [s[0]] + s[1..];
    }
  }

  /** Deletion distributes over concatenation, so the kept characters stay in order. */
  lemma {:induction false} KeepWordCharsConcat(a: string, b: string)
    ensures KeepWordChars(a + b) == KeepWordChars(a) + KeepWordChars(b)
  {
    if a == [] {
      assert a + b == b;
    } else {
      assert (a + b)[0] == a[0] && (a + b)[1..] == a[1..] + b;
      KeepWordCharsConcat(a[1..], b);
    }
  }

  /** A single character is kept exactly when it is a word character. */
  lemma KeepWordCharsSingle(c: char)
    ensures KeepWordChars([c]) == if IsWord(c) then [c] else []
  {
    assert [c][1..] == [];
  }

  predicate NotLetter(c: char) { !IsLetter(c) }

  /**
   * `m = re.match(r'^([^a-z]*)(.*)', s); s = m.group(2) + m.group(1)`. The pattern
   * always matches. The first group is the longest prefix without a lower-case letter;
   * the second runs from there up to the next line feed, which `.` does not match,
   * so whatever follows that line feed is dropped.
   */
  function MoveLeadingNonLetters(s: string): string
  {
    var n := Trimming.Leading(s, NotLetter);
    var m := Trimming.Leading(s[n..], c => c != '\n');
    s[n..n + m] + s[..n]
  }

  /** Without a line feed the second group reaches the end of the string. */
  lemma MoveShape(s: string)
    requires '\n' !in s
    ensures var n := Trimming.Leading(s, NotLetter);
      MoveLeadingNonLetters(s) == s[n..] + s[..n]
  {
    var n := Trimming.Leading(s, NotLetter);
    var t := s[n..];
    var m := Trimming.Leading(t, c => c != '\n');
    assert t[..m] == t;
  }

  /**
   * On a string without line feeds the leading non-letters are rotated to the end:
   * the result is a rotation of `s`, it begins with a letter if `s` has one, and it is
   * `s` itself if `s` has none.
   */
  lemma MoveIsRotation(s: string)
    requires '\n' !in s
    ensures var n := Trimming.Leading(s, NotLetter);
      MoveLeadingNonLetters(s) == s[n..] + s[..n]
    ensures multiset(MoveLeadingNonLetters(s)) == multiset(s)
    ensures HasLetter(s) ==> IsLetter(MoveLeadingNonLetters(s)[0])
    ensures !HasLetter(s) ==> MoveLeadingNonLetters(s) == s
  {
    MoveShape(s);
    var n := Trimming.Leading(s, NotLetter);
    assert s == s[..n] + s[n..];
    if !HasLetter(s) {
      assert n == |s|;
    }
  }

  /** Where each character of a rotation comes from. */
  lemma RotatedAt(s: string, n: nat, k: nat)
    requires n <= |s| && k < |s|
    ensures (s[n..] + s[..n])[k] == if k < |s| - n then s[n + k] else s[k - (|s| - n)]
  {
  }

  /** A rotation of a string of name characters is one too, and has a letter only if the string has. */
  lemma RotationKeepsChars(s: string, n: nat)
    requires AllNameChars(s) && n <= |s|
    ensures AllNameChars(s[n..] + s[..n])
    ensures HasLetter(s[n..] + s[..n]) ==> HasLetter(s)
  {
    var r := s[n..] + s[..n];
    forall k | 0 <= k < |r| ensures IsNameChar(r[k]) {
      RotatedAt(s, n, k);
    }
    if HasLetter(r) {
      var k :| 0 <= k < |r| && IsLetter(r[k]);
      RotatedAt(s, n, k);
    }
  }

  lemma NameCharsHaveNoLineFeed(s: string)
    requires AllNameChars(s)
    ensures '\n' !in s
  {
  }

  /** What is left after the sanitising steps, before the rotation. */
  function Sanitised(s: string): string
  {
    KeepWordChars(CollapseSpace(Strip(Lower(s))))
  }

  /** The conversion, with `str(s)` and `unidecode` the identity on ASCII strings. */
  function ToColumnName(s: string): string
    requires IsAscii(s)
  {
    MoveLeadingNonLetters(Sanitised(s))
  }

  /** The sanitised string holds only lower-case letters, digits and underscores. */
  lemma SanitisedChars(s: string)
    ensures AllNameChars(Sanitised(s))
    ensures |Sanitised(s)| <= |Strip(Lower(s))|
  {
    StripKeepsNoUpper(Lower(s));
    var t := Sanitised(s);
    assert AllWord(t) && NoUpper(t);
  }

  /**
   * A column name is made of lower-case letters, digits and underscores (so it holds
   * no white space), is a rearrangement of the sanitised string, so no longer than the
   * stripped input, and starts with a letter whenever it has one.
   */
  lemma ColumnNameShape(s: string)
    requires IsAscii(s)
    ensures AllNameChars(ToColumnName(s)) && NoSpace(ToColumnName(s))
    ensures multiset(ToColumnName(s)) == multiset(Sanitised(s))
    ensures |ToColumnName(s)| <= |Strip(Lower(s))|
    ensures HasLetter(ToColumnName(s)) <==> HasLetter(Sanitised(s))
    ensures HasLetter(ToColumnName(s)) ==> IsLetter(ToColumnName(s)[0])
  {
    var t := Sanitised(s);
    SanitisedChars(s);
    NameCharsHaveNoLineFeed(t);
    MoveIsRotation(t);
    RotationKeepsChars(t, Trimming.Leading(t, NotLetter));
    var r := ToColumnName(s);
    assert forall k :: 0 <= k < |r| ==> IsNameChar(r[k]) ==> !IsSpace(r[k]);
  }

  /**
   * The docstring's promise that the name does not start with a non-letter holds only
   * when a letter survives: a name with no letter is returned as sanitised, so "123"
   * stays "123" and "" stays "".
   */
  lemma NoLetterKeepsOrder(s: string)
    requires IsAscii(s)
    requires !HasLetter(Sanitised(s))
    ensures ToColumnName(s) == Sanitised(s)
  {
    SanitisedChars(s);
    NameCharsHaveNoLineFeed(Sanitised(s));
    MoveIsRotation(Sanitised(s));
  }

  /** A run of white space between two other characters becomes exactly one underscore. */
  lemma {:induction false} CollapseRun(w: string, run: string, t: string)
    requires run != [] && Trimming.All(run, IsSpace)
    requires w == [] || !IsSpace(w[|w| - 1])
    requires t == [] || !IsSpace(t[0])
    ensures CollapseSpace(w + (run + t)) == CollapseSpace(w) + ("_" + CollapseSpace(t))
    decreases |w|
  {
    if w == [] {
      assert w + (run + t) == run + t;
      CollapseRunAtStart(run, t);
    } else if IsSpace(w[0]) {
      var n := Trimming.Leading(w, IsSpace);
      CollapseRun(w[n..], run, t);
      CollapseSkipsSpace(w, run + t);
      Regroup("_", CollapseSpace(w[n..]), "_" + CollapseSpace(t));
    } else {
      CollapseRun(w[1..], run, t);
      CollapseKeeps(w, run + t);
      Regroup([w[0]], CollapseSpace(w[1..]), "_" + CollapseSpace(t));
    }
  }

  lemma Regroup(a: string, b: string, c: string)
    ensures a + (b + c) == (a + b) + c
  {
  }

  lemma CollapseRunAtStart(run: string, t: string)
    requires run != [] && Trimming.All(run, IsSpace)
    requires t == [] || !IsSpace(t[0])
    ensures CollapseSpace(run + t) == "_" + CollapseSpace(t)
  {
    LeadingOfRun(run, t);
    assert (run + t)[|run|..] == t;
  }

  lemma CollapseSkipsSpace(w: string, u: string)
    requires w != [] && IsSpace(w[0]) && Trimming.Leading(w, IsSpace) < |w|
    ensures var n := Trimming.Leading(w, IsSpace);
      CollapseSpace(w + u) == "_" + CollapseSpace(w[n..] + u) &&
      CollapseSpace(w) == "_" + CollapseSpace(w[n..])
  {
    var n := Trimming.Leading(w, IsSpace);
    LeadingOfPrefix(w, u, IsSpace);
    assert (w + u)[n..] == w[n..] + u;
  }

  lemma CollapseKeeps(w: string, u: string)
    requires w != [] && !IsSpace(w[0])
    ensures CollapseSpace(w + u) == [w[0]] + CollapseSpace(w[1..] + u)
    ensures CollapseSpace(w) == [w[0]] + CollapseSpace(w[1..])
  {
    assert (w + u)[1..] == w[1..] + u;
  }

  lemma {:induction false} LeadingOfRun(run: string, t: string)
    requires Trimming.All(run, IsSpace)
    requires t == [] || !IsSpace(t[0])
    ensures Trimming.Leading(run + t, IsSpace) == |run|
  {
    if run != [] {
      assert (run + t)[1..] == run[1..] + t;
      LeadingOfRun(run[1..], t);
    } else {
      assert run + t == t;
    }
  }

  lemma {:induction false} LeadingOfPrefix(w: string, u: string, inClass: char -> bool)
    requires Trimming.Leading(w, inClass) < |w|
    ensures Trimming.Leading(w + u, inClass) == Trimming.Leading(w, inClass)
  {
    if inClass(w[0]) {
      assert (w + u)[1..] == w[1..] + u;
      LeadingOfPrefix(w[1..], u, inClass);
    }
  }

  /** On a string without white space the substitution changes nothing. */
  lemma {:induction false} CollapseNoSpace(s: string)
    requires NoSpace(s)
    ensures CollapseSpace(s) == s
  {
    if s != [] {
      CollapseNoSpace(s[1..]);
      assert s == [s[0]] + s[1..];
    }
  }

  /** On a string of word characters the deletion changes nothing. */
  lemma {:induction false} KeepAllWordChars(s: string)
    requires AllWord(s)
    ensures KeepWordChars(s) == s
  {
    if s != [] {
      KeepAllWordChars(s[1..]);
      assert s == [s[0]] + s[1..];
    }
  }

  /** The sanitising steps leave a string of name characters as it is. */
  lemma SanitisedUnchanged(r: string)
    requires AllNameChars(r)
    ensures Sanitised(r) == r
  {
    assert NoUpper(r) && NoSpace(r) && AllWord(r);
    LowerUnchanged(r);
    Trimming.TrimWhereUnchanged(r, IsSpace);
    CollapseNoSpace(r);
    KeepAllWordChars(r);
  }

  /** A string of name characters that starts with a letter, or has none, is not moved. */
  lemma MoveUnchanged(r: string)
    requires AllNameChars(r)
    requires HasLetter(r) ==> IsLetter(r[0])
    ensures MoveLeadingNonLetters(r) == r
  {
    NameCharsHaveNoLineFeed(r);
    MoveIsRotation(r);
    if HasLetter(r) {
      assert Trimming.Leading(r, NotLetter) == 0;
      assert r[0..] == r;
    }
  }

  /** A column name is a fixed point: converting it again gives it back. */
  lemma ColumnNameIdempotent(s: string)
    requires IsAscii(s)
    ensures IsAscii(ToColumnName(s))
    ensures ToColumnName(ToColumnName(s)) == ToColumnName(s)
  {
    var r := ToColumnName(s);
    ColumnNameShape(s);
    SanitisedUnchanged(r);
    MoveUnchanged(r);
  }
}
