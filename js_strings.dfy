/**
 * The JavaScript string built-ins that the CSV ingestion of
 * 3dviz/src/DataVisualization.js relies on: `split` with a one-character
 * separator, `trim`, `toUpperCase` and `Array.prototype.indexOf`.
 */
module JsStrings {
  import Trimming

  /** The pieces joined back with the separator between them. */
  function Join(parts: seq<string>, sep: char): string
    requires |parts| >= 1
  {
    if |parts| == 1 then parts[0] else parts[0] + ([sep] + Join(parts[1..], sep))
  }

  /** No piece contains the separator. */
  predicate SepFree(parts: seq<string>, sep: char)
  {
    forall k :: 0 <= k < |parts| ==> sep !in parts[k]
  }

  /**
   * `s.split(sep)`: the maximal separator-free pieces of `s`, in order; there is
   * always at least one piece, and joining them with `sep` gives `s` back.
   */
  function Split(s: string, sep: char): (parts: seq<string>)
    ensures |parts| >= 1
    ensures SepFree(parts, sep)
    ensures Join(parts, sep) == s
  {
    if s == [] then [""]
    else
      var rest := Split(s[1..], sep);
      if s[0] == sep then
        assert s == [sep] + s[1..];
        [""] + rest
      else
        var parts := [[s[0]] + rest[0]] + rest[1..];
        assert parts[1..] == rest[1..];
        parts
  }

  /** Splitting a separator-free word followed by more text extends the first piece. */
  lemma {:induction false} SplitAfterWord(w: string, t: string, sep: char)
    requires sep !in w
    ensures Split(w + t, sep) == [w + Split(t, sep)[0]] + Split(t, sep)[1..]
  {
    var st := Split(t, sep);
    if w == [] {
      assert w + t == t && w + st[0] == st[0] && [st[0]] + st[1..] == st;
    } else {
      assert (w + t)[0] == w[0] != sep;
      assert (w + t)[1..] == w[1..] + t;
      SplitAfterWord(w[1..], t, sep);
      var rest := Split(w[1..] + t, sep);
      assert rest == [w[1..] + st[0]] + st[1..];
      assert rest[1..] == st[1..];
      assert [w[0]] + rest[0] == w + st[0];
    }
  }

  /** Splitting is the inverse of joining separator-free pieces. */
  lemma {:induction false} SplitJoin(parts: seq<string>, sep: char)
    requires |parts| >= 1
    requires SepFree(parts, sep)
    ensures Split(Join(parts, sep), sep) == parts
  {
    if |parts| == 1 {
      SplitAfterWord(parts[0], [], sep);
      assert parts[0] + [] == parts[0];
    } else {
      var tail := Join(parts[1..], sep);
      SplitJoin(parts[1..], sep);
      var u := [sep] + tail;
      assert Split(u, sep) == [""] + parts[1..] by {
        assert u[0] == sep && u[1..] == tail;
      }
      SplitAfterWord(parts[0], u, sep);
      assert parts[0] + "" == parts[0];
      assert ([""] + parts[1..])[1..] == parts[1..];
      assert parts == [parts[0]] + parts[1..];
    }
  }

  /** The characters `String.prototype.trim` removes: white space and line terminators. */
  predicate IsJsWhitespace(c: char)
  {
    var n := c as int;
    n == 0x09 || n == 0x0A || n == 0x0B || n == 0x0C || n == 0x0D || n == 0x20 || n == 0xA0 ||
    n == 0x1680 || 0x2000 <= n <= 0x200A || n == 0x2028 || n == 0x2029 || n == 0x202F ||
    n == 0x205F || n == 0x3000 || n == 0xFEFF
  }

  /**
   * `s.trim()`: `s` without its leading and trailing white space; what is removed is
   * white space, and what is left neither starts nor ends with it.
   */
  function Trim(s: string): (r: string)
    ensures r == [] || (!IsJsWhitespace(r[0]) && !IsJsWhitespace(r[|r| - 1]))
    ensures exists i :: (0 <= i <= |s| - |r| && s[i..i + |r|] == r &&
      Trimming.All(s[..i], IsJsWhitespace) && Trimming.All(s[i + |r|..], IsJsWhitespace))
  {
    Trimming.TrimWhere(s, IsJsWhitespace)
  }

  /** `toUpperCase` on one character, for the ASCII letters. */
  function UpperChar(c: char): char
  {
    if 'a' <= c <= 'z' then (c as int - 'a' as int + 'A' as int) as char else c
  }

  /** `s.toUpperCase()`, restricted to the ASCII letters. */
  function ToUpper(s: string): (r: string)
    ensures |r| == |s| && forall k :: 0 <= k < |s| ==> r[k] == UpperChar(s[k])
  {
    if s == [] then [] else [UpperChar(s[0])] + ToUpper(s[1..])
  }

  /** `r` is the first position holding `x`, or -1 when no token equals `x`. */
  predicate FirstMatch(tokens: seq<string>, x: string, r: int)
  {
    (r == -1 && x !in tokens) ||
    (0 <= r < |tokens| && tokens[r] == x && forall j :: 0 <= j < r ==> tokens[j] != x)
  }

  /** `tokens.indexOf(x)`. */
  function IndexOf(tokens: seq<string>, x: string): (r: int)
    ensures FirstMatch(tokens, x, r)
  {
    if tokens == [] then -1
    else if tokens[0] == x then 0
    else
      var k := IndexOf(tokens[1..], x);
      assert x in tokens ==> x in tokens[1..];
      if k == -1 then -1 else k + 1
  }
}
