/**
 * The pure helpers of the language server: the name under the cursor on a
 * Python line, whether the text before the cursor in a template asks for
 * an hx-request name, and the "unknown hx_request" diagnostics of a
 * template.
 *
 * Each regular expression is matched by hand, scanning deterministically;
 * next to each matcher stands a declarative description of the strings the
 * pattern accepts, and a lemma proves the two agree.
 */
module Server {
  import opened Wrappers
  import opened Strings
  import opened PythonParser
  import opened TemplateParser
  import opened IndexModel
  import opened Index

  /** The start of the longest run of characters of class `cls` that ends at `j`. */
  function RunBack(s: string, j: nat, cls: CharClass): (k: nat)
    requires j <= |s|
    ensures k <= j && AllIn(s, k, j, cls)
    ensures k == 0 || !InClass(s[k - 1], cls)
    decreases j
  {
    if j > 0 && InClass(s[j - 1], cls) then RunBack(s, j - 1, cls) else j
  }

  /** A run that cannot be extended to the left is the one `RunBack` finds. */
  lemma RunBackUnique(s: string, k: nat, j: nat, cls: CharClass)
    requires AllIn(s, k, j, cls)
    requires k == 0 || !InClass(s[k - 1], cls)
    ensures RunBack(s, j, cls) == k
  {
  }

  // ---------------------------------------------------------------------
  // The hx-request name on a Python line
  // ---------------------------------------------------------------------

  /** A half-open range of character indices. */
  datatype Span = Span(start: nat, end: nat)

  /** A match of the name pattern: where it starts, and the span of its capture group. */
  datatype NameMatch = NameMatch(at: nat, capture: Span)

  /**
   * The pattern `name\s*=\s*['"]([^'"]+)['"]` anchored at `i`. Each
   * repetition is followed by a character it cannot consume, so the
   * greedy runs never give anything back and the match is unique.
   */
  function NameAssignAt(line: string, i: nat): (r: Option<Span>)
    ensures r.Some? ==> i + 4 <= |line| && 1 <= r.value.start < r.value.end < |line|
  {
    if !OccursAt(line, "name", i) then None
    else
      var a := SkipWhile(line, i + 4, Space);
      if a >= |line| || line[a] != '=' then None
      else
        var b := SkipWhile(line, a + 1, Space);
        if b >= |line| || !IsQuote(line[b]) then None
        else
          var c := SkipWhile(line, b + 1, NonQuote);
          if c == b + 1 || c >= |line| then None else Some(Span(b + 1, c))
  }

  /**
   * `line[i..]` starts with a string the name pattern accepts, with the
   * `=` at `a` and the capture group covering `start..end`.
   */
  predicate NameAssignSplit(line: string, i: nat, a: nat, start: nat, end: nat)
  {
    && OccursAt(line, "name", i)
    && AllIn(line, i + 4, a, Space) && a < |line| && line[a] == '='
    && 1 <= start < end < |line| && AllIn(line, a + 1, start - 1, Space) && IsQuote(line[start - 1])
    && AllIn(line, start, end, NonQuote) && IsQuote(line[end])
  }

  /** The matcher finds a capture exactly when the pattern accepts, and then the only capture the pattern allows. */
  lemma NameAssignAtIff(line: string, i: nat, start: nat, end: nat)
    ensures NameAssignAt(line, i) == Some(Span(start, end)) <==> exists a :: NameAssignSplit(line, i, a, start, end)
  {
    if NameAssignAt(line, i) == Some(Span(start, end)) {
      NameAssignSound(line, i, start, end);
    }
    if a: nat :| NameAssignSplit(line, i, a, start, end) {
      NameAssignComplete(line, i, a, start, end);
    }
  }

  lemma NameAssignSound(line: string, i: nat, start: nat, end: nat)
    requires NameAssignAt(line, i) == Some(Span(start, end))
    ensures NameAssignSplit(line, i, SkipWhile(line, i + 4, Space), start, end)
  {
  }

  lemma NameAssignComplete(line: string, i: nat, a: nat, start: nat, end: nat)
    requires NameAssignSplit(line, i, a, start, end)
    ensures NameAssignAt(line, i) == Some(Span(start, end))
  {
    SkipWhileUnique(line, i + 4, a, Space);
    SkipWhileUnique(line, a + 1, start - 1, Space);
    SkipWhileUnique(line, start, end, NonQuote);
  }

  /** `re.search`: the leftmost position at or after `i` where the name pattern matches. */
  function FirstNameAssign(line: string, i: nat): (r: Option<NameMatch>)
    ensures r.Some? ==> i <= r.value.at && NameAssignAt(line, r.value.at) == Some(r.value.capture)
    ensures r.Some? ==> forall k :: i <= k < r.value.at ==> NameAssignAt(line, k).None?
    ensures r.None? ==> forall k :: i <= k ==> NameAssignAt(line, k).None?
    decreases |line| - i
  {
    hide *;
    if i + 4 > |line| then None
    else
      var here := NameAssignAt(line, i);
      if here.Some? then Some(NameMatch(i, here.value)) else FirstNameAssign(line, i + 1)
  }

  /**
   * `_get_hx_name_from_python_line`: the capture of the first match on the
   * line, provided the cursor column lies inside it or on either end.
   */
  function HxNameFromPythonLine(line: string, column: int): (r: Option<string>)
    ensures r.Some? ==> r.value != [] && forall k :: 0 <= k < |r.value| ==> NotQuote(r.value[k])
    ensures r.Some? <==> FirstNameAssign(line, 0).Some? &&
                         FirstNameAssign(line, 0).value.capture.start <= column <= FirstNameAssign(line, 0).value.capture.end
  {
    match FirstNameAssign(line, 0)
    case None => None
    case Some(m) =>
      if m.capture.start <= column <= m.capture.end then Some(line[m.capture.start..m.capture.end]) else None
  }

  /**
   * Only the first match counts: a cursor on a later `name = '...'` of
   * the same line gets nothing unless it also touches the first capture.
   */
  lemma HxNameUsesFirstMatch(line: string, column: int, i: nat, start: nat, end: nat)
    requires NameAssignAt(line, i) == Some(Span(start, end))
    requires forall k :: 0 <= k < i ==> NameAssignAt(line, k).None?
    ensures HxNameFromPythonLine(line, column) == if start <= column <= end then Some(line[start..end]) else None
  {
    var m := FirstNameAssign(line, 0);
    assert m.Some? && m.value.at == i;
  }

  /** Both ends of the capture count as inside it; one step beyond either does not. */
  lemma HxNameInclusiveEnds(line: string, start: nat, end: nat)
    requires FirstNameAssign(line, 0).Some? && FirstNameAssign(line, 0).value.capture == Span(start, end)
    ensures HxNameFromPythonLine(line, start) == Some(line[start..end])
    ensures HxNameFromPythonLine(line, end) == Some(line[start..end])
    ensures HxNameFromPythonLine(line, start - 1) == None
    ensures HxNameFromPythonLine(line, end + 1) == None
  {
  }

  // ---------------------------------------------------------------------
  // Completion context in a template
  // ---------------------------------------------------------------------

  /** Python's `line[:column]`, a negative column counting from the end. */
  function PrefixTo(line: string, column: int): (p: string)
    ensures |p| <= |line| && p == line[..|p|]
    ensures 0 <= column <= |line| ==> |p| == column
  {
    if column >= |line| then line
    else if column >= 0 then line[..column]
    else if |line| + column > 0 then line[..|line| + column]
    else ""
  }

  ghost predicate HeadSpan(s: string, i: nat, h: nat)
  {
    (exists m, k :: DirectHeadSplit(s, i, m, k, h)) || (exists e :: KwargHeadSplit(s, i, e, h))
  }

  /** `s[h..j]` is empty, or an opening quote followed only by non-quote characters. */
  predicate TailSpan(s: string, h: nat, j: nat)
  {
    h <= j <= |s| && (h == j || (IsQuote(s[h]) && AllIn(s, h + 1, j, NonQuote)))
  }

  /**
   * `s[i..j]` is accepted by one of the four completion patterns without
   * their `$`: a head, then nothing, an optional quote, or a quote and a
   * partial name.
   */
  ghost predicate ContextMatch(s: string, i: nat, j: nat)
  {
    exists h :: HeadSpan(s, i, h) && TailSpan(s, h, j)
  }

  /** Where Python's `$` can match: at the end, or just before a final newline. */
  predicate DollarEnd(s: string, j: nat)
  {
    j == |s| || (j + 1 == |s| && s[j] == '\n')
  }

  /** `re.search` of any of the four patterns succeeds on `s`. */
  ghost predicate ContextSearch(s: string)
  {
    exists i, j :: DollarEnd(s, j) && ContextMatch(s, i, j)
  }

  /** The keyword `w` ends at `k` and is preceded by `{%` and optional whitespace. */
  predicate KeywordAfterOpen(s: string, k: nat, w: string)
    requires k <= |s|
  {
    |w| <= k && s[k - |w|..k] == w &&
    var m := RunBack(s, k - |w|, Space);
    m >= 2 && s[m - 2..m] == "{%"
  }

  /** Scanning back from `h`: whitespace (at least one), a tag keyword, whitespace, `{%`. */
  predicate DirectHeadEndsAt(s: string, h: nat)
    requires h <= |s|
  {
    var k := RunBack(s, h, Space);
    k < h && (KeywordAfterOpen(s, k, "hx_post") || KeywordAfterOpen(s, k, "hx_get") || KeywordAfterOpen(s, k, "hx_request"))
  }

  /** Scanning back from `h`: whitespace, `=`, whitespace, `hx_request_name`. */
  predicate KwargHeadEndsAt(s: string, h: nat)
    requires h <= |s|
  {
    var k := RunBack(s, h, Space);
    k >= 1 && s[k - 1] == '=' &&
    var m := RunBack(s, k - 1, Space);
    m >= 15 && s[m - 15..m] == "hx_request_name"
  }

  predicate HeadEndsAt(s: string, h: nat)
    requires h <= |s|
  {
    DirectHeadEndsAt(s, h) || KwargHeadEndsAt(s, h)
  }

  /** A head ends at `j`, or a head ends just before the quote that opens the trailing run of non-quotes. */
  predicate ContextEndsAt(s: string, j: nat)
    requires j <= |s|
  {
    HeadEndsAt(s, j) || (var q := RunBack(s, j, NonQuote); q >= 1 && HeadEndsAt(s, q - 1))
  }

  /** `_is_in_hx_request_context`: the text before the cursor ends in a place that asks for a name. */
  function IsInHxRequestContext(line: string, column: int): bool
  {
    var p := PrefixTo(line, column);
    ContextEndsAt(p, |p|) || (|p| >= 1 && p[|p| - 1] == '\n' && ContextEndsAt(p, |p| - 1))
  }

  /** What the backward scan finds is a string the direct-tag head accepts. */
  lemma KeywordHeadSound(s: string, h: nat, k: nat, w: string)
    requires k < h <= |s| && AllIn(s, k, h, Space) && IsTagKeyword(w) && |w| >= 1
    requires |w| <= k && s[k - |w|..k] == w
    requires RunBack(s, k - |w|, Space) >= 2 && s[RunBack(s, k - |w|, Space) - 2..RunBack(s, k - |w|, Space)] == "{%"
    ensures exists i, m, k' :: DirectHeadSplit(s, i, m, k', h)
  {
    var m := RunBack(s, k - |w|, Space);
    DirectHeadOf(s, m - 2, k - |w|, k, h, w);
  }

  lemma OpenBeforeKeyword(s: string, k: nat, w: string)
    requires k <= |s| && KeywordAfterOpen(s, k, w)
    ensures |w| <= k && s[k - |w|..k] == w
    ensures RunBack(s, k - |w|, Space) >= 2 && s[RunBack(s, k - |w|, Space) - 2..RunBack(s, k - |w|, Space)] == "{%"
  {
  }

  lemma DirectHeadOf(s: string, i: nat, n: nat, k: nat, h: nat, w: string)
    requires i + 2 <= n && n + |w| == k && |w| >= 1 && k < h <= |s|
    requires s[i..i + 2] == "{%" && AllIn(s, i + 2, n, Space) && s[n..k] == w && IsTagKeyword(w) && AllIn(s, k, h, Space)
    ensures DirectHeadSplit(s, i, n, k, h)
  {
  }

  /** A direct-tag head ending at `h` is what the backward scan finds. */
  lemma KeywordHeadComplete(s: string, i: nat, m: nat, k: nat, h: nat)
    requires DirectHeadSplit(s, i, m, k, h)
    ensures DirectHeadEndsAt(s, h)
  {
    var w := s[m..k];
    assert s[k - 1] == w[|w| - 1];
    RunBackUnique(s, k, h, Space);
    assert s[i + 1] == s[i..i + 2][1];
    RunBackUnique(s, i + 2, m, Space);
    assert s[k - |w|..k] == w;
    assert KeywordAfterOpen(s, k, w);
  }

  lemma DirectHeadIff(s: string, h: nat)
    requires h <= |s|
    ensures DirectHeadEndsAt(s, h) <==> exists i, m, k :: DirectHeadSplit(s, i, m, k, h)
  {
    if DirectHeadEndsAt(s, h) {
      var k := RunBack(s, h, Space);
      hide *;
      var w := if KeywordAfterOpen(s, k, "hx_post") then "hx_post"
               else if KeywordAfterOpen(s, k, "hx_get") then "hx_get" else "hx_request";
      assert IsTagKeyword(w) && |w| >= 1 && KeywordAfterOpen(s, k, w);
      OpenBeforeKeyword(s, k, w);
      KeywordHeadSound(s, h, k, w);
    }
    if i: nat, m: nat, k: nat :| DirectHeadSplit(s, i, m, k, h) {
      KeywordHeadComplete(s, i, m, k, h);
    }
  }

  lemma KwargHeadIff(s: string, h: nat)
    requires h <= |s|
    ensures KwargHeadEndsAt(s, h) <==> exists i, e :: KwargHeadSplit(s, i, e, h)
  {
    hide KwargHeadSplit;
    if KwargHeadEndsAt(s, h) {
      var k := RunBack(s, h, Space);
      var m := RunBack(s, k - 1, Space);
      assert m >= 15 && s[m - 15..m] == "hx_request_name" && s[k - 1] == '=';
      KwargHeadOf(s, m - 15, k - 1, h);
    }
    if i: nat, e: nat :| KwargHeadSplit(s, i, e, h) {
      KwargHeadComplete(s, i, e, h);
    }
  }

  lemma KwargHeadOf(s: string, i: nat, e: nat, h: nat)
    requires i + 15 <= e < h <= |s| && s[i..i + 15] == "hx_request_name" && AllIn(s, i + 15, e, Space)
    requires s[e] == '=' && AllIn(s, e + 1, h, Space)
    ensures KwargHeadSplit(s, i, e, h)
  {
  }

  lemma KwargHeadComplete(s: string, i: nat, e: nat, h: nat)
    requires KwargHeadSplit(s, i, e, h)
    ensures KwargHeadEndsAt(s, h)
  {
    RunBackUnique(s, e + 1, h, Space);
    assert s[i + 14] == s[i..i + 15][14];
    RunBackUnique(s, i + 15, e, Space);
  }

  /** The scan back from `h` finds a head exactly when some head ends at `h`. */
  lemma HeadEndsAtIff(s: string, h: nat)
    requires h <= |s|
    ensures HeadEndsAt(s, h) <==> exists i :: HeadSpan(s, i, h)
  {
    hide DirectHeadEndsAt, KwargHeadEndsAt, DirectHeadSplit, KwargHeadSplit;
    DirectHeadIff(s, h);
    KwargHeadIff(s, h);
    if DirectHeadEndsAt(s, h) {
      var i: nat, m: nat, k: nat :| DirectHeadSplit(s, i, m, k, h);
      assert HeadSpan(s, i, h);
    } else if KwargHeadEndsAt(s, h) {
      var i: nat, e: nat :| KwargHeadSplit(s, i, e, h);
      assert HeadSpan(s, i, h);
    }
    if i: nat :| HeadSpan(s, i, h) {
      if exists m, k :: DirectHeadSplit(s, i, m, k, h) {
        assert DirectHeadEndsAt(s, h);
      } else {
        assert KwargHeadEndsAt(s, h);
      }
    }
  }

  /** The scan back from `j` succeeds exactly when one of the patterns accepts some `s[i..j]`. */
  lemma ContextEndsAtIff(s: string, j: nat)
    requires j <= |s|
    ensures ContextEndsAt(s, j) <==> exists i :: ContextMatch(s, i, j)
  {
    hide HeadEndsAt, HeadSpan;
    HeadEndsAtIff(s, j);
    var q := RunBack(s, j, NonQuote);
    if q >= 1 {
      HeadEndsAtIff(s, q - 1);
      if HeadEndsAt(s, q - 1) {
        var i: nat :| HeadSpan(s, i, q - 1);
        assert TailSpan(s, q - 1, j);
        assert ContextMatch(s, i, j);
      }
    }
    if HeadEndsAt(s, j) {
      var i: nat :| HeadSpan(s, i, j);
      assert TailSpan(s, j, j);
      assert ContextMatch(s, i, j);
    }
    if i: nat :| ContextMatch(s, i, j) {
      var h: nat :| HeadSpan(s, i, h) && TailSpan(s, h, j);
      if h < j {
        RunBackUnique(s, h + 1, j, NonQuote);
        HeadEndsAtIff(s, h);
        assert HeadEndsAt(s, h);
      } else {
        assert HeadSpan(s, i, j);
        assert HeadEndsAt(s, j);
      }
    }
  }

  /** The completion context holds exactly when one of the four patterns matches the text before the cursor. */
  lemma IsInHxRequestContextSpec(line: string, column: int)
    ensures IsInHxRequestContext(line, column) <==> ContextSearch(PrefixTo(line, column))
  {
    hide ContextEndsAt, ContextMatch, PrefixTo;
    var p := PrefixTo(line, column);
    ContextEndsAtIff(p, |p|);
    if |p| >= 1 {
      ContextEndsAtIff(p, |p| - 1);
    }
    if ContextSearch(p) {
      var i: nat, j: nat :| DollarEnd(p, j) && ContextMatch(p, i, j);
    }
  }

  /** Only the text before the cursor matters. */
  lemma ContextIgnoresRest(line: string, rest: string, column: int)
    requires 0 <= column <= |line|
    ensures IsInHxRequestContext(line + rest, column) == IsInHxRequestContext(line, column)
  {
    assert PrefixTo(line + rest, column) == PrefixTo(line, column);
  }

  // ---------------------------------------------------------------------
  // Diagnostics
  // ---------------------------------------------------------------------

  datatype Severity = Error | Warning | Information | Hint

  /** A zero-based LSP position. */
  datatype Position = Position(line: int, character: int)

  datatype Diagnostic = Diagnostic(start: Position, end: Position, message: string, severity: Severity,
                                   source: string, code: string)

  /** The warning for one usage whose name has no definition. */
  function UnknownWarning(u: Usage): Diagnostic
  {
    Diagnostic(Position(u.lineNumber - 1, u.column), Position(u.lineNumber - 1, u.endColumn),
               "Unknown hx_request: '" + u.name + "'", Warning, "hx-requests-lsp", "unknown-hx-request")
  }

  /** One warning per usage whose name is not defined, in the order of the usages. */
  function UnknownWarnings(us: seq<Usage>, defined: set<string>): (r: seq<Diagnostic>)
    ensures |r| <= |us|
    ensures forall dg :: dg in r ==> dg.severity == Warning && dg.source == "hx-requests-lsp" && dg.code == "unknown-hx-request"
    decreases |us|
  {
    if us == [] then []
    else
      var u := us[|us| - 1];
      UnknownWarnings(us[..|us| - 1], defined) + (if u.name in defined then [] else [UnknownWarning(u)])
  }

  /** `_compute_diagnostics`, given the file's usages and the defined names. */
  function Diagnostics(filePath: string, us: seq<Usage>, defined: set<string>): (r: seq<Diagnostic>)
    ensures r != [] ==> EndsWith(filePath, ".html")
    ensures |r| <= |us|
    ensures forall dg :: dg in r ==> dg.severity == Warning && dg.code == "unknown-hx-request"
  {
    if EndsWith(filePath, ".html") then UnknownWarnings(us, defined) else []
  }

  /** Warnings of consecutive usages are the warnings of each part, in order. */
  lemma {:induction false} UnknownWarningsAppend(a: seq<Usage>, b: seq<Usage>, defined: set<string>)
    ensures UnknownWarnings(a + b, defined) == UnknownWarnings(a, defined) + UnknownWarnings(b, defined)
    decreases |b|
  {
    if b == [] {
      assert a + b == a;
    } else {
      var b' := b[..|b| - 1];
      assert (a + b)[..|a + b| - 1] == a + b';
      assert (a + b)[|a + b| - 1] == b[|b| - 1];
      UnknownWarningsAppend(a, b', defined);
    }
  }

  /** A warning is issued for a usage exactly when its name is undefined, and says where and what. */
  lemma {:induction false} UnknownWarningsMembers(us: seq<Usage>, defined: set<string>)
    ensures forall dg :: dg in UnknownWarnings(us, defined) <==>
                         exists u :: u in us && u.name !in defined && dg == UnknownWarning(u)
    ensures |UnknownWarnings(us, defined)| <= |us|
    decreases |us|
  {
    if us != [] {
      var init := us[..|us| - 1];
      UnknownWarningsMembers(init, defined);
      assert us == init + [us[|us| - 1]];
      forall u | u in us ensures u in init || u == us[|us| - 1] { }
    }
  }

  /** No warnings exactly when every usage is defined; none at all for a file that is not a template. */
  lemma DiagnosticsEmpty(filePath: string, us: seq<Usage>, defined: set<string>)
    ensures !EndsWith(filePath, ".html") ==> Diagnostics(filePath, us, defined) == []
    ensures EndsWith(filePath, ".html") ==>
              (Diagnostics(filePath, us, defined) == [] <==> forall u :: u in us ==> u.name in defined)
  {
    UnknownWarningsMembers(us, defined);
    var ws := UnknownWarnings(us, defined);
    if ws != [] {
      assert ws[0] in ws;
    }
    if EndsWith(filePath, ".html") && exists u :: u in us && u.name !in defined {
      var u :| u in us && u.name !in defined;
      assert UnknownWarning(u) in UnknownWarnings(us, defined);
    }
  }

  /**
   * `_compute_diagnostics` against the live index: the usages indexed
   * for the file, each checked with `get_definition`.
   */
  method ComputeDiagnostics(index: HxRequestIndex, filePath: string) returns (ds: seq<Diagnostic>)
    requires index.Valid()
    ensures ds == Diagnostics(filePath, ListOf(index.usagesByFile, index.env.resolve(filePath)),
                              index.definitions.entries.Keys)
  {
    ds := [];
    if !EndsWith(filePath, ".html") {
      return;
    }
    var us := index.GetUsagesInFile(filePath);
    for i := 0 to |us|
      invariant ds == UnknownWarnings(us[..i], index.definitions.entries.Keys)
    {
      assert us[..i + 1][..i] == us[..i];
      var d := index.GetDefinition(us[i].name);
      if d.None? {
        ds := ds + [UnknownWarning(us[i])];
      }
    }
    assert us[..|us|] == us;
  }

  /**
   * The usages a template's diagnostics report are exactly that file's
   * share of `find_undefined_usages`.
   */
  lemma DiagnosticsAreUndefinedUsages(s: IndexState, key: string)
    requires Inv(s)
    ensures forall u :: u in ListOf(s.usagesByFile, key) && u.name !in s.definitions.entries <==>
                        u in UndefinedFrom(s.usages, s.usages.keys, s.definitions.entries) && u.filePath == key
  {
    UndefinedUsagesSpec(s);
  }
}
