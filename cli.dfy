/**
 * Two helpers of the command line front end (src/pysource_minimize/__main__.py):
 * num_equal_lines, which counts how many lines two sources share at their
 * start and at their end (to show only the part that changed), and
 * escape_markdown, which escapes underscores in file names.
 */
module Cli {

  function Min(a: int, b: int): int { if a <= b then a else b }

  // ---------------------------------------------------------------------
  // str.splitlines
  // ---------------------------------------------------------------------

  /**
   * The line boundaries of Python's str.splitlines: line feed, carriage
   * return, line and form feed, the file, group and record separators,
   * next line, and the Unicode line and paragraph separators.
   */
  predicate IsBreak(c: char)
  {
    c == '\n' || c == '\r' || c as int in {0x0b, 0x0c, 0x1c, 0x1d, 0x1e, 0x85, 0x2028, 0x2029}
  }

  predicate NoBreak(s: string)
  {
    forall i :: 0 <= i < |s| ==> !IsBreak(s[i])
  }

  /** The position of the first line boundary in `s`, or `|s|` when there is none. */
  function FirstBreak(s: string): (j: nat)
    ensures j <= |s| && NoBreak(s[..j])
    ensures j < |s| ==> IsBreak(s[j])
  {
    if s == [] then 0
    else if IsBreak(s[0]) then 0
    else
      var j := 1 + FirstBreak(s[1..]);
      assert forall i :: 1 <= i < j ==> s[..j][i] == s[1..][..j - 1][i - 1];
      j
  }

  /** The boundary at `j` is two characters long when it is `\r\n`. */
  function BreakLen(s: string, j: nat): nat
    requires j < |s|
  {
    if s[j] == '\r' && j + 1 < |s| && s[j + 1] == '\n' then 2 else 1
  }

  /**
   * str.splitlines(): the text between boundaries, without the boundaries,
   * and with no empty last line after a final boundary.
   */
  function SplitLines(s: string): (lines: seq<string>)
    ensures forall k :: 0 <= k < |lines| ==> NoBreak(lines[k])
    ensures s == [] <==> lines == []
    decreases |s|
  {
    if s == [] then []
    else
      var j := FirstBreak(s);
      if j == |s| then [s]
      else [s[..j]] + SplitLines(s[j + BreakLen(s, j)..])
  }

  /** Lines each followed by a line feed, as a file is written out. */
  function Terminated(lines: seq<string>): string
  {
    if lines == [] then "" else lines[0] + "\n" + Terminated(lines[1..])
  }

  lemma FirstBreakAt(p: string, rest: string)
    requires NoBreak(p) && rest != [] && IsBreak(rest[0])
    ensures FirstBreak(p + rest) == |p|
    decreases |p|
  {
    if p != [] {
      assert (p + rest)[1..] == p[1..] + rest;
      FirstBreakAt(p[1..], rest);
    }
  }

  /** Splitting lines written out one per line gives those lines back. */
  lemma {:induction false} SplitTerminated(lines: seq<string>)
    requires forall k :: 0 <= k < |lines| ==> NoBreak(lines[k])
    ensures SplitLines(Terminated(lines)) == lines
    decreases |lines|
  {
    if lines != [] {
      var l := lines[0];
      var s := Terminated(lines);
      var rest := Terminated(lines[1..]);
      assert s == l + ("\n" + rest);
      FirstBreakAt(l, "\n" + rest);
      assert s[..|l|] == l;
      assert s[|l| + 1..] == rest;
      SplitTerminated(lines[1..]);
    }
  }

  // ---------------------------------------------------------------------
  // num_equal_lines
  // ---------------------------------------------------------------------

  /** The `k`-th line counted from the end. */
  function Back(lines: seq<string>, k: nat): string
    requires k < |lines|
  {
    lines[|lines| - 1 - k]
  }

  /** `n` is the length of the longest common prefix of `xs` and `ys`. */
  predicate SharedLeading(xs: seq<string>, ys: seq<string>, n: nat)
  {
    n <= Min(|xs|, |ys|) &&
    (forall i :: 0 <= i < n ==> xs[i] == ys[i]) &&
    (n < Min(|xs|, |ys|) ==> xs[n] != ys[n])
  }

  /** `n` is the length of the longest common suffix of `xs` and `ys`. */
  predicate SharedTrailing(xs: seq<string>, ys: seq<string>, n: nat)
  {
    n <= Min(|xs|, |ys|) &&
    (forall i :: 0 <= i < n ==> Back(xs, i) == Back(ys, i)) &&
    (n < Min(|xs|, |ys|) ==> Back(xs, n) != Back(ys, n))
  }

  /**
   * num_equal_lines: `start` is the number of leading lines the two sources
   * share and `end` the number of trailing lines they share; both stop at
   * the first difference and at the shorter source, and a source compared
   * with itself shares all its lines at both ends.
   */
  method NumEqualLines(a: string, b: string) returns (start: nat, end: nat)
    ensures SharedLeading(SplitLines(a), SplitLines(b), start)
    ensures SharedTrailing(SplitLines(a), SplitLines(b), end)
    ensures a == b ==> start == |SplitLines(a)| && end == |SplitLines(a)|
  {
    var linesA := SplitLines(a);
    var linesB := SplitLines(b);
    var n := Min(|linesA|, |linesB|);
    start := 0;
    for i := 0 to n
      invariant start == i
      invariant forall k :: 0 <= k < i ==> linesA[k] == linesB[k]
    {
      if linesA[i] != linesB[i] {
        break;
      }
      start := start + 1;
    }
    end := 0;
    for i := 0 to n
      invariant end == i
      invariant forall k :: 0 <= k < i ==> Back(linesA, k) == Back(linesB, k)
    {
      if Back(linesA, i) != Back(linesB, i) {
        break;
      }
      end := end + 1;
    }
  }

  // ---------------------------------------------------------------------
  // escape_markdown
  // ---------------------------------------------------------------------

  /** The escaped form of one character. */
  function EscapeChar(c: char): string
  {
    if c == '_' then "\\_" else [c]
  }

  /** escape_markdown: every `_` becomes `\_`; nothing else changes. */
  function EscapeMarkdown(s: string): (r: string)
    ensures |r| == |s| + Underscores(s)
    ensures r != [] ==> r[0] != '_'
    decreases |s|
  {
    if s == [] then "" else EscapeChar(s[0]) + EscapeMarkdown(s[1..])
  }

  /** How many `_` there are in `s`. */
  function Underscores(s: string): nat
    decreases |s|
  {
    if s == [] then 0 else (if s[0] == '_' then 1 else 0) + Underscores(s[1..])
  }

  /**
   * The inverse reading: `\_` stands for `_`, and every other character for
   * itself.
   */
  function Unescape(r: string): (s: string)
    decreases |r|
  {
    if r == [] then ""
    else if |r| >= 2 && r[0] == '\\' && r[1] == '_' then "_" + Unescape(r[2..])
    else [r[0]] + Unescape(r[1..])
  }

  /** Escaping loses nothing: reading the escapes back gives the original name. */
  lemma {:induction false} UnescapeEscape(s: string)
    ensures Unescape(EscapeMarkdown(s)) == s
    decreases |s|
  {
    if s != [] {
      var r := EscapeMarkdown(s);
      var rest := EscapeMarkdown(s[1..]);
      UnescapeEscape(s[1..]);
      if s[0] == '_' {
        assert r == "\\_" + rest;
        assert r[2..] == rest;
      } else {
        assert r == [s[0]] + rest;
        assert r[1..] == rest;
        assert s == [s[0]] + s[1..];
      }
    }
  }

  /** Hence two names with the same escaped form are the same name. */
  lemma EscapeInjective(s: string, t: string)
    requires EscapeMarkdown(s) == EscapeMarkdown(t)
    ensures s == t
  {
    UnescapeEscape(s);
    UnescapeEscape(t);
  }

  /** Every `_` of the result is escaped: a backslash stands right before it. */
  lemma {:induction false} EscapedUnderscores(s: string)
    ensures forall i :: 0 <= i < |EscapeMarkdown(s)| && EscapeMarkdown(s)[i] == '_' ==>
              i > 0 && EscapeMarkdown(s)[i - 1] == '\\'
    decreases |s|
  {
    if s != [] {
      EscapedUnderscores(s[1..]);
      var c := EscapeChar(s[0]);
      var rest := EscapeMarkdown(s[1..]);
      assert EscapeMarkdown(s) == c + rest;
      forall i | 0 <= i < |c + rest| && (c + rest)[i] == '_'
        ensures i > 0 && (c + rest)[i - 1] == '\\'
      {
        if i >= |c| {
          assert (c + rest)[i] == rest[i - |c|];
          if i - |c| > 0 {
            assert (c + rest)[i - 1] == rest[i - |c| - 1];
          }
        }
      }
    }
  }
}
