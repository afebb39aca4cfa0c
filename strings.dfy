/**
 * Python `str` operations the language server relies on, stated over
 * `seq<char>` (one `char` per code point).
 */
module Strings {
  import opened Wrappers

  /** The characters Python's `\s` matches in a `str` pattern (those for which `str.isspace()` holds). */
  predicate IsSpace(c: char)
  {
    c == ' ' || ('\t' <= c <= '\r') || ('\U{1c}' <= c <= '\U{1f}') || c == '\U{85}' || c == '\U{a0}'
    || c == '\U{1680}' || ('\U{2000}' <= c <= '\U{200a}') || c == '\U{2028}' || c == '\U{2029}'
    || c == '\U{202f}' || c == '\U{205f}' || c == '\U{3000}'
  }

  /** The characters at which `str.splitlines()` ends a line. */
  predicate IsLineBoundary(c: char)
  {
    ('\n' <= c <= '\r') || ('\U{1c}' <= c <= '\U{1e}') || c == '\U{85}' || c == '\U{2028}' || c == '\U{2029}'
  }

  predicate NotLineBoundary(c: char) { !IsLineBoundary(c) }

  predicate IsQuote(c: char) { c == '\'' || c == '"' }

  /** The regex class `[^'"]`. */
  predicate NotQuote(c: char) { !IsQuote(c) }

  /** The regex class `[a-zA-Z_]`. */
  predicate IsNameStart(c: char) { ('a' <= c <= 'z') || ('A' <= c <= 'Z') || c == '_' }

  /** The regex class `[a-zA-Z0-9_.]`. */
  predicate IsDottedNameChar(c: char) { IsNameStart(c) || ('0' <= c <= '9') || c == '.' }

  /** The character classes whose runs the scanners skip. */
  datatype CharClass = Space | NonQuote | DottedNameChar | NonLineBoundary

  predicate InClass(c: char, cls: CharClass)
  {
    match cls
    case Space => IsSpace(c)
    case NonQuote => NotQuote(c)
    case DottedNameChar => IsDottedNameChar(c)
    case NonLineBoundary => NotLineBoundary(c)
  }

  /** The end of the longest run of characters of class `cls` that starts at `i`. */
  function SkipWhile(s: string, i: nat, cls: CharClass): (j: nat)
    requires i <= |s|
    ensures i <= j <= |s|
    ensures forall k :: i <= k < j ==> InClass(s[k], cls)
    ensures j == |s| || !InClass(s[j], cls)
    decreases |s| - i
  {
    if i < |s| && InClass(s[i], cls) then SkipWhile(s, i + 1, cls) else i
  }

  /** Every character of `s[i..j]` is of class `cls`. */
  predicate AllIn(s: string, i: nat, j: nat, cls: CharClass)
  {
    i <= j <= |s| && forall k :: i <= k < j ==> InClass(s[k], cls)
  }

  /** A run that cannot be extended to the right is the one `SkipWhile` finds. */
  lemma SkipWhileUnique(s: string, i: nat, j: nat, cls: CharClass)
    requires AllIn(s, i, j, cls)
    requires j == |s| || !InClass(s[j], cls)
    ensures SkipWhile(s, i, cls) == j
  {
  }

  /** `sub` occurs in `s` starting at index `i`. */
  predicate OccursAt(s: string, sub: string, i: nat)
  {
    i + |sub| <= |s| && s[i..i + |sub|] == sub
  }

  /** `s.find(sub, start)`, with `None` for Python's `-1`. */
  function Find(s: string, sub: string, start: nat): (r: Option<nat>)
    ensures r.Some? ==> start <= r.value && OccursAt(s, sub, r.value)
    ensures r.Some? ==> forall k :: start <= k < r.value ==> !OccursAt(s, sub, k)
    ensures r.None? ==> forall k :: start <= k ==> !OccursAt(s, sub, k)
    decreases |s| - start
  {
    if start + |sub| > |s| then None
    else if s[start..start + |sub|] == sub then Some(start)
    else Find(s, sub, start + 1)
  }

  predicate StartsWith(s: string, prefix: string) { OccursAt(s, prefix, 0) }

  predicate EndsWith(s: string, suffix: string)
  {
    |suffix| <= |s| && s[|s| - |suffix|..] == suffix
  }

  /** Python's `sub in s`. */
  function Contains(s: string, sub: string): (r: bool)
    ensures r <==> exists k :: OccursAt(s, sub, k)
  {
    Find(s, sub, 0).Some?
  }

  /**
   * `s.splitlines()`: a line ends at any line boundary, `\r\n` counts as
   * one boundary, and a boundary at the very end opens no further line.
   */
  function SplitLines(s: string): (lines: seq<string>)
    ensures forall i, k :: 0 <= i < |lines| && 0 <= k < |lines[i]| ==> !IsLineBoundary(lines[i][k])
    ensures s == [] ==> lines == []
    decreases |s|
  {
    if s == [] then []
    else
      var k := SkipWhile(s, 0, NonLineBoundary);
      if k == |s| then [s]
      else
        var next := if s[k] == '\r' && k + 1 < |s| && s[k + 1] == '\n' then k + 2 else k + 1;
        [s[..k]] + SplitLines(s[next..])
  }

  /** A non-empty string without line boundaries is a single line. */
  lemma SplitLinesOfLine(s: string)
    requires s != []
    requires forall k :: 0 <= k < |s| ==> !IsLineBoundary(s[k])
    ensures SplitLines(s) == [s]
  {
    var k := SkipWhile(s, 0, NonLineBoundary);
    assert k == |s|;
  }

  /** The first index at or after `i` holding `c`, or `|s|` when there is none. */
  function IndexOf(s: string, c: char, i: nat): (j: nat)
    requires i <= |s|
    ensures i <= j <= |s|
    ensures forall k :: i <= k < j ==> s[k] != c
    ensures j < |s| ==> s[j] == c
    decreases |s| - i
  {
    if i == |s| || s[i] == c then i else IndexOf(s, c, i + 1)
  }

  /** `s.split(sep)` for a one-character separator; empty parts are kept. */
  function Split(s: string, sep: char): (parts: seq<string>)
    ensures |parts| >= 1
    ensures forall i :: 0 <= i < |parts| ==> sep !in parts[i]
    decreases |s|
  {
    var k := IndexOf(s, sep, 0);
    if k == |s| then [s] else [s[..k]] + Split(s[k + 1..], sep)
  }

  /** `sep.join(parts)`. */
  function Join(parts: seq<string>, sep: string): string
  {
    if |parts| == 0 then ""
    else if |parts| == 1 then parts[0]
    else parts[0] + sep + Join(parts[1..], sep)
  }

  lemma {:induction false} JoinSplit(s: string, sep: char)
    ensures Join(Split(s, sep), [sep]) == s
    decreases |s|
  {
    var k := IndexOf(s, sep, 0);
    if k < |s| {
      var rest := s[k + 1..];
      JoinSplit(rest, sep);
      assert s == s[..k] + [sep] + rest;
    }
  }

  lemma {:induction false} SplitJoin(parts: seq<string>, sep: char)
    requires |parts| >= 1
    requires forall i :: 0 <= i < |parts| ==> sep !in parts[i]
    ensures Split(Join(parts, [sep]), sep) == parts
    decreases |parts|
  {
    if |parts| > 1 {
      var s := Join(parts, [sep]);
      var rest := Join(parts[1..], [sep]);
      assert s == parts[0] + [sep] + rest;
      var k := IndexOf(s, sep, 0);
      assert s[|parts[0]|] == sep;
      forall i | 0 <= i < |parts[0]| ensures s[i] != sep {
        assert s[i] == parts[0][i];
      }
      assert k == |parts[0]|;
      assert s[..k] == parts[0];
      assert s[k + 1..] == rest;
      SplitJoin(parts[1..], sep);
    }
  }

  /** Joining all but the last part and then appending the last part gives the same string. */
  lemma {:induction false} JoinLast(parts: seq<string>, sep: string)
    requires |parts| >= 2
    ensures Join(parts[..|parts| - 1], sep) + sep + parts[|parts| - 1] == Join(parts, sep)
    decreases |parts|
  {
    if |parts| > 2 {
      JoinLast(parts[1..], sep);
      assert parts[1..][..|parts| - 2] == parts[..|parts| - 1][1..];
    }
  }

  /** Python's `a < b` on `str`: lexicographic by code point. */
  predicate Less(a: string, b: string)
    decreases |a|
  {
    if a == [] then b != []
    else b != [] && (a[0] < b[0] || (a[0] == b[0] && Less(a[1..], b[1..])))
  }

  lemma {:induction false} LessIrreflexive(a: string)
    ensures !Less(a, a)
    decreases |a|
  {
    if a != [] { LessIrreflexive(a[1..]); }
  }

  lemma {:induction false} LessTransitive(a: string, b: string, c: string)
    requires Less(a, b) && Less(b, c)
    ensures Less(a, c)
    decreases |a|
  {
    if a != [] && a[0] == b[0] && b[0] == c[0] {
      LessTransitive(a[1..], b[1..], c[1..]);
    }
  }

  lemma {:induction false} LessTotal(a: string, b: string)
    ensures a == b || Less(a, b) || Less(b, a)
    decreases |a|
  {
    if a != [] && b != [] && a[0] == b[0] {
      LessTotal(a[1..], b[1..]);
      if a[1..] == b[1..] { assert a == [a[0]] + a[1..] && b == [b[0]] + b[1..]; }
    }
  }
}
