/**
 * Finding hx-request usages in a Django template, line by line, with the
 * two tag grammars the parser recognises:
 *   direct tags  `{% hx_post|hx_get|hx_request NAME`
 *   keyword form `{% hx_vals ... hx_request_name=NAME`
 * where NAME is a quoted name (`'...'` or `"..."`, at least one character,
 * no quote inside, closed by either quote) or a bare `[A-Za-z_][A-Za-z0-9_.]*`.
 * Each grammar is recognised by hand, with the regex engine's semantics:
 * whitespace runs are taken whole, and in the keyword form the lazy `.*?`
 * stops at the first position where the whole tail matches.
 */
module TemplateParser {
  import opened Wrappers
  import opened Strings

  datatype Usage = Usage(name: string, filePath: string, lineNumber: nat, column: nat, endColumn: nat,
                         tagType: string, fullMatch: string)

  /** The source's `__eq__`: name, file, line and column. */
  predicate SameUsage(a: Usage, b: Usage)
  {
    a.name == b.name && a.filePath == b.filePath && a.lineNumber == b.lineNumber && a.column == b.column
  }

  /** The tuple the source's `__hash__` hashes. */
  function UsageHashKey(u: Usage): (string, string, nat, nat)
  {
    (u.name, u.filePath, u.lineNumber, u.column)
  }

  /** `__eq__` and `__hash__` agree: equal usages hash alike, and equal keys mean equal usages. */
  lemma UsageEqHash(a: Usage, b: Usage)
    ensures SameUsage(a, b) <==> UsageHashKey(a) == UsageHashKey(b)
  {
  }

  datatype Grammar = DirectTag | ValsTag

  /** A match of a tag grammar: its span, the keyword of a direct tag, the captured name and where it starts. */
  datatype Tag = Tag(start: nat, end: nat, keyword: string, name: string, nameStart: nat)

  /** A name argument at some position: the captured span and where the match ends. */
  datatype NameArg = NameArg(start: nat, end: nat, matchEnd: nat)

  /** A quoted name opened at `j` is closed at `e`. */
  predicate QuotedNameEndsAt(line: string, j: nat, e: nat)
  {
    j + 1 < e < |line| && IsQuote(line[j]) && IsQuote(line[e]) && forall k :: j < k < e ==> NotQuote(line[k])
  }

  /** The name alternative `['"]([^'"]+)['"] | ([a-zA-Z_][a-zA-Z0-9_.]*)` at `j`. */
  function NameArgAt(line: string, j: nat): (r: Option<NameArg>)
    requires j <= |line|
    ensures r.Some? ==> j <= r.value.start < r.value.end <= r.value.matchEnd <= |line|
    ensures r.Some? ==> forall k :: r.value.start <= k < r.value.end ==> NotQuote(line[k])
    ensures r.Some? && IsQuote(line[j]) ==>
              r.value.start == j + 1 && r.value.matchEnd == r.value.end + 1 && QuotedNameEndsAt(line, j, r.value.end)
    ensures r.Some? && !IsQuote(line[j]) ==>
              && r.value.start == j && r.value.matchEnd == r.value.end && IsNameStart(line[j])
              && (forall k :: j < k < r.value.end ==> IsDottedNameChar(line[k]))
              && (r.value.end == |line| || !IsDottedNameChar(line[r.value.end]))
    ensures r.None? <==> j == |line| || (!IsQuote(line[j]) && !IsNameStart(line[j]))
                         || (IsQuote(line[j]) && forall e :: !QuotedNameEndsAt(line, j, e))
  {
    if j == |line| then None
    else if IsQuote(line[j]) then
      var e := SkipWhile(line, j + 1, NonQuote);
      if e > j + 1 && e < |line| then Some(NameArg(j + 1, e, e + 1))
      else
        assert forall e' :: !QuotedNameEndsAt(line, j, e');
        None
    else if IsNameStart(line[j]) then
      var e := SkipWhile(line, j + 1, DottedNameChar);
      Some(NameArg(j, e, e))
    else None
  }

  predicate IsTagKeyword(w: string)
  {
    w == "hx_post" || w == "hx_get" || w == "hx_request"
  }

  /** `s[i..h]` is accepted by `\{%\s*(hx_post|hx_get|hx_request)\s+`, with the keyword at `m..k`. */
  predicate DirectHeadSplit(s: string, i: nat, m: nat, k: nat, h: nat)
  {
    && i + 2 <= m < k < h <= |s| && s[i..i + 2] == "{%" && AllIn(s, i + 2, m, Space)
    && IsTagKeyword(s[m..k]) && AllIn(s, k, h, Space)
  }

  /** `s[i..h]` is accepted by `hx_request_name\s*=\s*`, with the `=` at `e`. */
  predicate KwargHeadSplit(s: string, i: nat, e: nat, h: nat)
  {
    && i + 15 <= e < h <= |s| && s[i..i + 15] == "hx_request_name" && AllIn(s, i + 15, e, Space)
    && s[e] == '=' && AllIn(s, e + 1, h, Space)
  }

  /** The keyword of `(hx_post|hx_get|hx_request)` at `i`, tried in that order. */
  function KeywordAt(line: string, i: nat): (r: Option<string>)
    ensures r.Some? ==> r.value in ["hx_post", "hx_get", "hx_request"] && OccursAt(line, r.value, i)
  {
    if OccursAt(line, "hx_post", i) then Some("hx_post")
    else if OccursAt(line, "hx_get", i) then Some("hx_get")
    else if OccursAt(line, "hx_request", i) then Some("hx_request")
    else None
  }

  /** `\{%\s*KEYWORD\s+` at `s`: the keyword and the position after the whitespace. */
  function TagHeadAt(line: string, s: nat, keyword: Option<string>): (r: Option<(string, nat)>)
    requires s <= |line|
    ensures r.Some? ==> s + 2 <= r.value.1 <= |line|
  {
    if !OccursAt(line, "{%", s) then None
    else
      var j1 := SkipWhile(line, s + 2, Space);
      var kw := if keyword.Some? then (if OccursAt(line, keyword.value, j1) then keyword else None) else KeywordAt(line, j1);
      if kw.None? then None
      else
        var k2 := j1 + |kw.value|;
        assert k2 <= |line|;
        var j2 := SkipWhile(line, k2, Space);
        if j2 == k2 then None else Some((kw.value, j2))
  }

  /** `hx_request_name\s*=\s*NAME` at `j`. */
  function KeywordArgAt(line: string, j: nat): (r: Option<NameArg>)
    requires j <= |line|
    ensures r.Some? ==> j < r.value.start < r.value.end <= r.value.matchEnd <= |line|
    ensures r.Some? ==> OccursAt(line, "hx_request_name", j)
    ensures r.Some? ==> forall k :: r.value.start <= k < r.value.end ==> NotQuote(line[k])
  {
    if !OccursAt(line, "hx_request_name", j) then None
    else
      var a := SkipWhile(line, j + 15, Space);
      if a == |line| || line[a] != '=' then None
      else NameArgAt(line, SkipWhile(line, a + 1, Space))
  }

  /** No keyword argument matches at any position in `a..b`. */
  predicate NoKeywordArgBetween(line: string, a: nat, b: nat)
    requires b <= |line| + 1
    decreases b - a
  {
    a >= b || (KeywordArgAt(line, a).None? && NoKeywordArgBetween(line, a + 1, b))
  }

  lemma {:induction false} NoKeywordArgBetweenAt(line: string, a: nat, b: nat, k: nat)
    requires b <= |line| + 1 && NoKeywordArgBetween(line, a, b) && a <= k < b
    ensures KeywordArgAt(line, k).None?
    decreases b - a
  {
    hide KeywordArgAt;
    if a < k {
      NoKeywordArgBetweenAt(line, a + 1, b, k);
    }
  }

  /** The lazy `.*?`: the first position at or after `j` where the keyword argument matches. */
  function FirstKeywordArg(line: string, j: nat): (r: Option<(nat, NameArg)>)
    requires j <= |line|
    ensures r.Some? ==> j <= r.value.0 <= |line| && KeywordArgAt(line, r.value.0) == Some(r.value.1)
    ensures r.Some? ==> NoKeywordArgBetween(line, j, r.value.0)
    ensures r.None? ==> NoKeywordArgBetween(line, j, |line| + 1)
    decreases |line| - j
  {
    match KeywordArgAt(line, j)
    case Some(arg) => Some((j, arg))
    case None => if j == |line| then None else FirstKeywordArg(line, j + 1)
  }

  /** The captured name `line[arg.start..arg.end]`. */
  function CapturedName(line: string, arg: NameArg): (name: string)
    requires arg.start < arg.end <= |line|
    requires forall k :: arg.start <= k < arg.end ==> NotQuote(line[k])
    ensures name != [] && OccursAt(line, name, arg.start)
    ensures forall k :: 0 <= k < |name| ==> NotQuote(name[k])
  {
    var name := line[arg.start..arg.end];
    assert forall k :: 0 <= k < |name| ==> name[k] == line[arg.start + k];
    name
  }

  /** A match of grammar `g` starting exactly at `s`. */
  function TagAt(line: string, s: nat, g: Grammar): (r: Option<Tag>)
    requires s <= |line|
    ensures r.Some? ==> r.value.start == s && s < r.value.end <= |line| && s <= r.value.nameStart
    ensures r.Some? ==> r.value.name != [] && OccursAt(line, r.value.name, r.value.nameStart)
    ensures r.Some? && g == DirectTag ==> r.value.keyword in ["hx_post", "hx_get", "hx_request"]
    ensures r.Some? ==> (forall k :: 0 <= k < |r.value.name| ==> NotQuote(r.value.name[k]))
  {
    match g
    case DirectTag => DirectTagAt(line, s)
    case ValsTag => ValsTagAt(line, s)
  }

  function DirectTagAt(line: string, s: nat): (r: Option<Tag>)
    requires s <= |line|
    ensures r.Some? ==> r.value.start == s && s < r.value.end <= |line| && s <= r.value.nameStart
    ensures r.Some? ==> r.value.name != [] && OccursAt(line, r.value.name, r.value.nameStart)
    ensures r.Some? ==> r.value.keyword in ["hx_post", "hx_get", "hx_request"]
    ensures r.Some? ==> (forall k :: 0 <= k < |r.value.name| ==> NotQuote(r.value.name[k]))
  {
    var head := TagHeadAt(line, s, None);
    if head.None? then None
    else
      var arg := NameArgAt(line, head.value.1);
      if arg.None? then None
      else
        Some(Tag(s, arg.value.matchEnd, head.value.0, CapturedName(line, arg.value), arg.value.start))
  }

  function ValsTagAt(line: string, s: nat): (r: Option<Tag>)
    requires s <= |line|
    ensures r.Some? ==> r.value.start == s && s < r.value.end <= |line| && s <= r.value.nameStart
    ensures r.Some? ==> r.value.name != [] && OccursAt(line, r.value.name, r.value.nameStart)
    ensures r.Some? ==> (forall k :: 0 <= k < |r.value.name| ==> NotQuote(r.value.name[k]))
  {
    var head := TagHeadAt(line, s, Some("hx_vals"));
    if head.None? then None
    else
      var found := FirstKeywordArg(line, head.value.1);
      if found.None? then None
      else
        var arg := found.value.1;
        Some(Tag(s, arg.matchEnd, "hx_vals", CapturedName(line, arg), arg.start))
  }

  /** A name argument starts with a quote or a name character, never with whitespace. */
  lemma NameArgNotSpace(line: string, h: nat)
    requires h <= |line| && NameArgAt(line, h).Some?
    ensures h < |line| && !IsSpace(line[h])
  {
  }

  /** A keyword argument starts with the `h` of `hx_request_name`. */
  lemma KeywordArgStartsWithH(line: string, p: nat)
    requires p <= |line| && KeywordArgAt(line, p).Some?
    ensures p < |line| && line[p] == 'h'
  {
    assert line[p..p + 15][0] == line[p];
  }

  /** None of the three keywords is a prefix of another, so trying them in order finds the one present. */
  lemma KeywordAtFinds(line: string, m: nat, k: nat)
    requires m <= k <= |line| && IsTagKeyword(line[m..k])
    ensures KeywordAt(line, m) == Some(line[m..k])
  {
    var w := line[m..k];
    assert line[m + 3] == w[3];
    if OccursAt(line, "hx_post", m) {
      assert line[m + 3] == line[m..m + 7][3] == 'p';
    }
    if OccursAt(line, "hx_get", m) {
      assert line[m + 3] == line[m..m + 6][3] == 'g';
    }
  }

  /**
   * `hx_request_name\s*=\s*NAME` read declaratively: the keyword argument
   * matches at `j` iff some split into the head and a name argument exists, and
   * any such split determines what is captured.
   */
  lemma KeywordArgOfSplit(line: string, j: nat, e: nat, h: nat)
    requires KwargHeadSplit(line, j, e, h) && NameArgAt(line, h).Some?
    ensures KeywordArgAt(line, j) == NameArgAt(line, h)
  {
    hide NameArgAt, SkipWhile;
    assert OccursAt(line, "hx_request_name", j);
    SkipWhileUnique(line, j + 15, e, Space);
    NameArgNotSpace(line, h);
    SkipWhileUnique(line, e + 1, h, Space);
  }

  lemma KeywordArgHasSplit(line: string, j: nat)
    requires j <= |line| && KeywordArgAt(line, j).Some?
    ensures exists e: nat, h: nat :: KwargHeadSplit(line, j, e, h) && NameArgAt(line, h).Some?
  {
    hide NameArgAt, SkipWhile;
    var e := SkipWhile(line, j + 15, Space);
    var h := SkipWhile(line, e + 1, Space);
    assert KwargHeadSplit(line, j, e, h);
  }

  /**
   * `hx_request_name\s*=\s*NAME` read declaratively: the keyword argument
   * matches at `j` iff some split into the head and a name argument exists, and
   * any such split determines what is captured.
   */
  lemma KeywordArgIff(line: string, j: nat)
    requires j <= |line|
    ensures KeywordArgAt(line, j).Some? <==> exists e: nat, h: nat :: KwargHeadSplit(line, j, e, h) && NameArgAt(line, h).Some?
    ensures forall e: nat, h: nat :: KwargHeadSplit(line, j, e, h) && NameArgAt(line, h).Some? ==>
              KeywordArgAt(line, j) == NameArgAt(line, h)
  {
    hide KeywordArgAt, NameArgAt;
    if KeywordArgAt(line, j).Some? {
      KeywordArgHasSplit(line, j);
    }
    forall e: nat, h: nat | KwargHeadSplit(line, j, e, h) && NameArgAt(line, h).Some?
      ensures KeywordArgAt(line, j) == NameArgAt(line, h)
    {
      KeywordArgOfSplit(line, j, e, h);
    }
  }

  /** `line[s..]` starts with `\{%\s*(hx_post|hx_get|hx_request)\s+NAME`: head over `s..h`, keyword at `m..k`, name argument at `h`. */
  predicate DirectTagSplit(line: string, s: nat, m: nat, k: nat, h: nat)
  {
    DirectHeadSplit(line, s, m, k, h) && NameArgAt(line, h).Some?
  }

  /**
   * `line[s..]` starts with `\{%\s*hx_vals\s+.*?hx_request_name\s*=\s*NAME`,
   * `hx_vals` at `m` and the keyword argument at `p`; `\s+.*?` accepts exactly
   * one whitespace character followed by anything.
   */
  predicate ValsTagSplit(line: string, s: nat, m: nat, p: nat)
  {
    && s + 2 <= m && m + 8 <= p <= |line| && line[s..s + 2] == "{%" && AllIn(line, s + 2, m, Space)
    && line[m..m + 7] == "hx_vals" && IsSpace(line[m + 7]) && KeywordArgAt(line, p).Some?
  }

  lemma DirectTagOfSplit(line: string, s: nat, m: nat, k: nat, h: nat)
    requires DirectTagSplit(line, s, m, k, h)
    ensures var a := NameArgAt(line, h).value;
            DirectTagAt(line, s) == Some(Tag(s, a.matchEnd, line[m..k], line[a.start..a.end], a.start))
  {
    hide NameArgAt, KeywordAt, SkipWhile;
    assert OccursAt(line, "{%", s);
    assert line[m] == line[m..k][0] == 'h';
    SkipWhileUnique(line, s + 2, m, Space);
    KeywordAtFinds(line, m, k);
    NameArgNotSpace(line, h);
    SkipWhileUnique(line, k, h, Space);
    assert TagHeadAt(line, s, None) == Some((line[m..k], h));
  }

  /**
   * The direct-tag grammar read declaratively: a match starts at `s` iff the
   * line splits there into `{%`, whitespace, a keyword, whitespace and a name
   * argument; the match's keyword is the one at the split and its name is the
   * one captured there.
   */
  lemma DirectTagHasSplit(line: string, s: nat)
    requires s <= |line| && DirectTagAt(line, s).Some?
    ensures exists m: nat, k: nat, h: nat :: DirectTagSplit(line, s, m, k, h)
  {
    hide NameArgAt, KeywordAt, SkipWhile;
    var m := SkipWhile(line, s + 2, Space);
    var kw := KeywordAt(line, m).value;
    var k := m + |kw|;
    var h := SkipWhile(line, k, Space);
    assert line[s..s + 2] == "{%";
    assert line[m..k] == kw;
    assert DirectTagSplit(line, s, m, k, h);
  }

  /**
   * The direct-tag grammar read declaratively: a match starts at `s` iff the
   * line splits there into `{%`, whitespace, a keyword, whitespace and a name
   * argument; the match's keyword is the one at the split and its name is the
   * one captured there.
   */
  lemma DirectTagIff(line: string, s: nat)
    requires s <= |line|
    ensures TagAt(line, s, DirectTag).Some? <==> exists m: nat, k: nat, h: nat :: DirectTagSplit(line, s, m, k, h)
    ensures forall m: nat, k: nat, h: nat :: DirectTagSplit(line, s, m, k, h) ==>
              var a := NameArgAt(line, h).value;
              TagAt(line, s, DirectTag) == Some(Tag(s, a.matchEnd, line[m..k], line[a.start..a.end], a.start))
  {
    hide DirectTagAt, NameArgAt;
    if DirectTagAt(line, s).Some? {
      DirectTagHasSplit(line, s);
    }
    forall m: nat, k: nat, h: nat | DirectTagSplit(line, s, m, k, h)
      ensures var a := NameArgAt(line, h).value;
              TagAt(line, s, DirectTag) == Some(Tag(s, a.matchEnd, line[m..k], line[a.start..a.end], a.start))
    {
      DirectTagOfSplit(line, s, m, k, h);
    }
  }

  /** The head of a split `hx_vals` tag is the one `TagHeadAt` finds; it ends where the whitespace after `hx_vals` does. */
  lemma ValsHeadOfSplit(line: string, s: nat, m: nat, p: nat)
    requires ValsTagSplit(line, s, m, p)
    ensures TagHeadAt(line, s, Some("hx_vals")) == Some(("hx_vals", SkipWhile(line, m + 7, Space)))
    ensures m + 8 <= SkipWhile(line, m + 7, Space) <= p
  {
    hide KeywordArgAt, NameArgAt, SkipWhile;
    assert OccursAt(line, "{%", s);
    assert line[m] == line[m..m + 7][0] == 'h';
    SkipWhileUnique(line, s + 2, m, Space);
    assert OccursAt(line, "hx_vals", m);
    KeywordArgStartsWithH(line, p);
  }

  lemma ValsTagOfSplit(line: string, s: nat, m: nat, p: nat)
    requires ValsTagSplit(line, s, m, p)
    ensures ValsTagAt(line, s).Some?
    ensures NoKeywordArgBetween(line, m + 8, p) ==>
              var a := KeywordArgAt(line, p).value;
              ValsTagAt(line, s) == Some(Tag(s, a.matchEnd, "hx_vals", line[a.start..a.end], a.start))
  {
    hide KeywordArgAt, NameArgAt, SkipWhile, FirstKeywordArg, NoKeywordArgBetween, TagHeadAt;
    ValsHeadOfSplit(line, s, m, p);
    var j2 := SkipWhile(line, m + 7, Space);
    var found := FirstKeywordArg(line, j2);
    if found.None? {
      NoKeywordArgBetweenAt(line, j2, |line| + 1, p);
    } else {
      var q := found.value.0;
      if q > p {
        NoKeywordArgBetweenAt(line, j2, q, p);
      }
      if NoKeywordArgBetween(line, m + 8, p) && q < p {
        NoKeywordArgBetweenAt(line, m + 8, p, q);
      }
    }
  }

  lemma ValsTagHasSplit(line: string, s: nat)
    requires s <= |line| && ValsTagAt(line, s).Some?
    ensures exists m: nat, p: nat :: ValsTagSplit(line, s, m, p)
  {
    hide KeywordArgAt, NameArgAt, SkipWhile, FirstKeywordArg, NoKeywordArgBetween;
    var m := SkipWhile(line, s + 2, Space);
    var j2 := TagHeadAt(line, s, Some("hx_vals")).value.1;
    var p := FirstKeywordArg(line, j2).value.0;
    assert line[s..s + 2] == "{%";
    assert line[m..m + 7] == "hx_vals";
    assert ValsTagSplit(line, s, m, p);
  }

  /**
   * The `hx_vals` grammar read declaratively: a match starts at `s` iff the
   * line splits there into `{%`, whitespace, `hx_vals`, a whitespace character,
   * anything, and a keyword argument; the lazy `.*?` makes the match the one
   * whose keyword argument is the first after `hx_vals` and that character.
   */
  lemma ValsTagIff(line: string, s: nat)
    requires s <= |line|
    ensures TagAt(line, s, ValsTag).Some? <==> exists m: nat, p: nat :: ValsTagSplit(line, s, m, p)
    ensures forall m: nat, p: nat :: ValsTagSplit(line, s, m, p) && NoKeywordArgBetween(line, m + 8, p) ==>
              var a := KeywordArgAt(line, p).value;
              TagAt(line, s, ValsTag) == Some(Tag(s, a.matchEnd, "hx_vals", line[a.start..a.end], a.start))
  {
    hide ValsTagAt, KeywordArgAt, NoKeywordArgBetween;
    if ValsTagAt(line, s).Some? {
      ValsTagHasSplit(line, s);
    }
    forall m: nat, p: nat | ValsTagSplit(line, s, m, p)
      ensures ValsTagAt(line, s).Some?
      ensures NoKeywordArgBetween(line, m + 8, p) ==>
                var a := KeywordArgAt(line, p).value;
                ValsTagAt(line, s) == Some(Tag(s, a.matchEnd, "hx_vals", line[a.start..a.end], a.start))
    {
      ValsTagOfSplit(line, s, m, p);
    }
  }

  /** No match of `g` starts at any position in `a..b`. */
  predicate NoTagBetween(line: string, a: nat, b: nat, g: Grammar)
    requires b <= |line| + 1
    decreases b - a
  {
    a >= b || (TagAt(line, a, g).None? && NoTagBetween(line, a + 1, b, g))
  }

  lemma {:induction false} NoTagBetweenAt(line: string, a: nat, b: nat, g: Grammar, s: nat)
    requires b <= |line| + 1 && NoTagBetween(line, a, b, g) && a <= s < b
    ensures TagAt(line, s, g).None?
    decreases b - a
  {
    hide TagAt;
    if a < s {
      NoTagBetweenAt(line, a + 1, b, g, s);
    }
  }

  /** `pattern.search(line, p)`: the match of `g` that starts first at or after `p`. */
  function NextTag(line: string, p: nat, g: Grammar): (r: Option<Tag>)
    requires p <= |line|
    ensures r.Some? ==> p <= r.value.start <= |line| && TagAt(line, r.value.start, g) == r
    ensures r.Some? ==> NoTagBetween(line, p, r.value.start, g)
    ensures r.None? ==> NoTagBetween(line, p, |line| + 1, g)
    decreases |line| - p
  {
    match TagAt(line, p, g)
    case Some(t) => Some(t)
    case None => if p == |line| then None else NextTag(line, p + 1, g)
  }

  /** `pattern.finditer(line)` from `p`: each search resumes where the previous match ended, so matches come left to right and never overlap. */
  function Tags(line: string, p: nat, g: Grammar): seq<Tag>
    requires p <= |line|
    decreases |line| - p
  {
    match NextTag(line, p, g)
    case None => []
    case Some(t) => [t] + Tags(line, t.end, g)
  }

  /** `t` is the match of `g` that starts at `t.start`. */
  predicate IsTag(line: string, t: Tag, g: Grammar)
  {
    t.start <= |line| && TagAt(line, t.start, g) == Some(t)
  }

  /**
   * `ts` is what `finditer` yields from `p`: every match in `ts` starts at or
   * after `p` and is the match of `g` at its start, the matches come left to
   * right, and no match of `g` starts before the first one, between one match's
   * end and the next one's start, or after the last one.
   */
  predicate TagsFrom(line: string, p: nat, g: Grammar, ts: seq<Tag>)
  {
    && (forall i :: 0 <= i < |ts| ==> p <= ts[i].start && IsTag(line, ts[i], g))
    && LeftToRight(ts)
    && (ts == [] ==> NoTagBetween(line, p, |line| + 1, g))
    && (ts != [] ==> NoTagBetween(line, p, ts[0].start, g) && NoTagBetween(line, ts[|ts| - 1].end, |line| + 1, g))
    && (forall i :: 0 <= i < |ts| - 1 ==> NoTagBetween(line, ts[i].end, ts[i + 1].start, g))
  }

  lemma TagsFromCons(line: string, p: nat, g: Grammar, t: Tag, rest: seq<Tag>)
    requires p <= t.start && IsTag(line, t, g) && t.start < t.end && TagsFrom(line, t.end, g, rest)
    requires NoTagBetween(line, p, t.start, g)
    ensures TagsFrom(line, p, g, [t] + rest)
  {
    hide TagAt, NoTagBetween;
    LeftToRightCons(t, rest);
    var r := [t] + rest;
    forall i | 0 <= i < |r| ensures p <= r[i].start && IsTag(line, r[i], g) {
      if i > 0 { assert r[i] == rest[i - 1]; }
    }
    if rest != [] {
      assert r[|r| - 1] == rest[|rest| - 1];
    }
    forall i | 0 <= i < |r| - 1 ensures NoTagBetween(line, r[i].end, r[i + 1].start, g) {
      if i > 0 { assert r[i] == rest[i - 1] && r[i + 1] == rest[i]; }
    }
  }

  lemma {:induction false} TagsSpec(line: string, p: nat, g: Grammar)
    requires p <= |line|
    ensures TagsFrom(line, p, g, Tags(line, p, g))
    decreases |line| - p
  {
    hide TagAt, NoTagBetween;
    var n := NextTag(line, p, g);
    if n.Some? {
      var t := n.value;
      TagsStep(line, p, g);
      TagsSpec(line, t.end, g);
      TagsFromCons(line, p, g, t, Tags(line, t.end, g));
    } else {
      TagsStop(line, p, g);
    }
  }

  /** Whatever `ts` satisfies `TagsFrom`, every position where `g` matches lies inside one of its matches. */
  lemma CoveredByTags(line: string, p: nat, g: Grammar, ts: seq<Tag>, s: nat)
    requires TagsFrom(line, p, g, ts) && p <= s <= |line| && TagAt(line, s, g).Some?
    ensures exists i :: 0 <= i < |ts| && ts[i].start <= s < ts[i].end
  {
    hide TagAt, NoTagBetween;
    if ts == [] {
      NoTagBetweenAt(line, p, |line| + 1, g, s);
      assert false;
    }
    if s < ts[0].start {
      NoTagBetweenAt(line, p, ts[0].start, g, s);
      assert false;
    }
    var i := 0;
    while i + 1 < |ts| && ts[i + 1].start <= s
      invariant 0 <= i < |ts| && ts[i].start <= s
      decreases |ts| - i
    {
      i := i + 1;
    }
    if s >= ts[i].end {
      if i + 1 < |ts| {
        NoTagBetweenAt(line, ts[i].end, ts[i + 1].start, g, s);
      } else {
        NoTagBetweenAt(line, ts[i].end, |line| + 1, g, s);
      }
      assert false;
    }
    assert ts[i].start <= s < ts[i].end;
  }

  /** `finditer` misses no match: every position at or after `p` where `g` matches lies inside a reported match. */
  lemma TagsComplete(line: string, p: nat, g: Grammar, s: nat)
    requires p <= s <= |line| && TagAt(line, s, g).Some?
    ensures exists i :: 0 <= i < |Tags(line, p, g)| && Tags(line, p, g)[i].start <= s < Tags(line, p, g)[i].end
  {
    TagsSpec(line, p, g);
    CoveredByTags(line, p, g, Tags(line, p, g), s);
  }

  predicate LeftToRight(ts: seq<Tag>)
  {
    forall i, j :: 0 <= i < j < |ts| ==> ts[i].end <= ts[j].start
  }

  lemma LeftToRightCons(t: Tag, rest: seq<Tag>)
    requires LeftToRight(rest) && forall j :: 0 <= j < |rest| ==> t.end <= rest[j].start
    ensures LeftToRight([t] + rest)
  {
    var r := [t] + rest;
    forall i, j | 0 <= i < j < |r| ensures r[i].end <= r[j].start {
      assert r[j] == rest[j - 1];
      if i > 0 { assert r[i] == rest[i - 1]; }
    }
  }

  /** One step of `finditer`. */
  lemma TagsStep(line: string, p: nat, g: Grammar)
    requires p <= |line| && NextTag(line, p, g).Some?
    ensures NextTag(line, p, g).value.end <= |line|
    ensures Tags(line, p, g) == [NextTag(line, p, g).value] + Tags(line, NextTag(line, p, g).value.end, g)
  {
  }

  /** `finditer` stops when the search finds nothing. */
  lemma TagsStop(line: string, p: nat, g: Grammar)
    requires p <= |line| && NextTag(line, p, g).None?
    ensures Tags(line, p, g) == []
  {
  }

  lemma OccursInside(s: string, sub: string, i: nat, a: nat, b: nat)
    requires OccursAt(s, sub, i) && a <= b <= |sub|
    ensures s[i + a..i + b] == sub[a..b]
  {
    forall k | a <= k < b ensures s[i + k] == sub[k] {
      assert s[i..i + |sub|][k] == s[i + k];
    }
  }

  /** A quoted occurrence `q name q` at `pos` spells `name` at `pos + 1`. */
  lemma QuotedOccurrence(line: string, q: char, name: string, pos: nat)
    requires OccursAt(line, [q] + name + [q], pos)
    ensures OccursAt(line, name, pos + 1)
  {
    var quoted := [q] + name + [q];
    OccursInside(line, quoted, pos, 1, |name| + 1);
    assert quoted[1..|name| + 1] == name;
  }

  /**
   * `_find_name_position`: the column just inside `'name'`, else inside
   * `"name"`, else of a bare `name`, searching from `searchStart`; as a last
   * resort `searchStart` itself.
   */
  function FindNamePosition(line: string, searchStart: nat, name: string): (r: nat)
    ensures r >= searchStart
    ensures Find(line, "'" + name + "'", searchStart).Some? ==>
              r >= 1 && Find(line, "'" + name + "'", searchStart) == Some(r - 1)
    ensures Find(line, "'" + name + "'", searchStart).None? && Find(line, "\"" + name + "\"", searchStart).Some? ==>
              r >= 1 && Find(line, "\"" + name + "\"", searchStart) == Some(r - 1)
    ensures (exists k :: searchStart <= k && OccursAt(line, name, k)) ==> OccursAt(line, name, r)
    ensures Find(line, "'" + name + "'", searchStart).None? && Find(line, "\"" + name + "\"", searchStart).None? ==>
              r == (if Find(line, name, searchStart).Some? then Find(line, name, searchStart).value else searchStart)
  {
    match Find(line, "'" + name + "'", searchStart)
    case Some(pos) =>
      QuotedOccurrence(line, '\'', name, pos);
      pos + 1
    case None =>
      match Find(line, "\"" + name + "\"", searchStart)
      case Some(pos) =>
        QuotedOccurrence(line, '"', name, pos);
        pos + 1
      case None =>
        match Find(line, name, searchStart)
        case Some(pos) => pos
        case None => searchStart
  }

  /** The usage a match yields on line `lineNumber`; a dotted name (`view.` ones included) yields none. */
  function TagUsage(line: string, lineNumber: nat, path: string, t: Tag, g: Grammar): (r: Option<Usage>)
    ensures r.Some? <==> '.' !in t.name
    ensures r.Some? ==> && r.value.name == t.name && r.value.lineNumber == lineNumber && r.value.filePath == path
                        && r.value.column >= t.start && r.value.endColumn == r.value.column + |t.name|
  {
    if '.' in t.name then None
    else
      var column := FindNamePosition(line, t.start, t.name);
      var tagType := if g == DirectTag then t.keyword else "hx_vals";
      var fullMatch := if t.start <= t.end <= |line| then line[t.start..t.end] else "";
      Some(Usage(t.name, path, lineNumber, column, column + |t.name|, tagType, fullMatch))
  }

  function AsSeq<T>(o: Option<T>): seq<T>
  {
    if o.Some? then [o.value] else []
  }

  function TagUsages(line: string, lineNumber: nat, path: string, tags: seq<Tag>, g: Grammar): seq<Usage>
  {
    if tags == [] then []
    else
      AsSeq(TagUsage(line, lineNumber, path, tags[0], g)) + TagUsages(line, lineNumber, path, tags[1..], g)
  }

  /** The usages of one line: all direct tags, then all keyword forms. */
  function LineUsages(line: string, lineNumber: nat, path: string): seq<Usage>
  {
    TagUsages(line, lineNumber, path, Tags(line, 0, DirectTag), DirectTag)
    + TagUsages(line, lineNumber, path, Tags(line, 0, ValsTag), ValsTag)
  }

  /** The usages of each line, line `i` numbered `i + 1` as `enumerate(lines, start=1)` does. */
  function PerLine(lines: seq<string>, path: string): (r: seq<seq<Usage>>)
    ensures |r| == |lines|
    ensures forall i :: 0 <= i < |lines| ==> r[i] == LineUsages(lines[i], i + 1, path)
  {
    seq(|lines|, i requires 0 <= i < |lines| => LineUsages(lines[i], i + 1, path))
  }

  /** The lists one after another. */
  function Flatten(ls: seq<seq<Usage>>): seq<Usage>
  {
    if ls == [] then [] else Flatten(ls[..|ls| - 1]) + ls[|ls| - 1]
  }

  lemma FlattenSnoc(ls: seq<seq<Usage>>, i: nat)
    requires i < |ls|
    ensures Flatten(ls[..i + 1]) == Flatten(ls[..i]) + ls[i]
  {
    assert ls[..i + 1][..i] == ls[..i];
  }

  /** `parse_template_for_hx_requests`. */
  function TemplateUsages(content: string, path: string): seq<Usage>
  {
    Flatten(PerLine(SplitLines(content), path))
  }

  lemma {:induction false} TagUsagesSnoc(line: string, lineNumber: nat, path: string, ts: seq<Tag>, t: Tag, g: Grammar)
    ensures TagUsages(line, lineNumber, path, ts + [t], g)
            == TagUsages(line, lineNumber, path, ts, g) + AsSeq(TagUsage(line, lineNumber, path, t, g))
  {
    if ts == [] {
      assert ([] + [t])[1..] == [];
    } else {
      assert (ts + [t])[1..] == ts[1..] + [t];
      TagUsagesSnoc(line, lineNumber, path, ts[1..], t, g);
    }
  }

  /** The loop over the lines and, per line, over both grammars' matches. */
  method ParseTemplateForHxRequests(content: string, path: string) returns (usages: seq<Usage>)
    ensures usages == TemplateUsages(content, path)
  {
    hide TagAt;
    usages := [];
    var lines := SplitLines(content);
    ghost var perLine := PerLine(lines, path);
    for i := 0 to |lines|
      invariant usages == Flatten(perLine[..i])
    {
      var found := ParseLine(lines[i], i + 1, path);
      FlattenSnoc(perLine, i);
      usages := usages + found;
    }
    assert perLine[..|lines|] == perLine;
  }

  /** One line: the direct tags' matches first, then the keyword forms'. */
  method ParseLine(line: string, lineNumber: nat, path: string) returns (usages: seq<Usage>)
    ensures usages == LineUsages(line, lineNumber, path)
  {
    hide TagAt;
    usages := CollectUsages([], line, lineNumber, path, DirectTag);
    usages := CollectUsages(usages, line, lineNumber, path, ValsTag);
  }

  lemma ShiftOne<T>(a: seq<T>, t: T, r: seq<T>, b: seq<T>)
    requires a + ([t] + r) == b
    ensures (a + [t]) + r == b
  {
    assert (a + [t]) + r == a + ([t] + r);
  }

  /** The matches found so far and those `finditer` still yields make up all of them. */
  lemma FindIterStep(line: string, p: nat, g: Grammar, matches: seq<Tag>)
    requires p <= |line| && NextTag(line, p, g).Some?
    requires matches + Tags(line, p, g) == Tags(line, 0, g)
    ensures NextTag(line, p, g).value.end <= |line|
    ensures (matches + [NextTag(line, p, g).value]) + Tags(line, NextTag(line, p, g).value.end, g) == Tags(line, 0, g)
  {
    hide TagAt;
    TagsStep(line, p, g);
    ShiftOne(matches, NextTag(line, p, g).value, Tags(line, NextTag(line, p, g).value.end, g), Tags(line, 0, g));
  }

  lemma FindIterStop(line: string, p: nat, g: Grammar, matches: seq<Tag>)
    requires p <= |line| && NextTag(line, p, g).None?
    requires matches + Tags(line, p, g) == Tags(line, 0, g)
    ensures matches == Tags(line, 0, g)
  {
    hide TagAt;
    TagsStop(line, p, g);
    assert matches + [] == matches;
  }

  /** `pattern.finditer(line)`: each search resumes where the previous match ended. */
  method FindIter(line: string, g: Grammar) returns (matches: seq<Tag>)
    ensures matches == Tags(line, 0, g)
  {
    hide TagAt;
    matches := [];
    var p := 0;
    while true
      invariant p <= |line|
      invariant matches + Tags(line, p, g) == Tags(line, 0, g)
      decreases |line| - p
    {
      var m := NextTag(line, p, g);
      if m.None? {
        FindIterStop(line, p, g, matches);
        return;
      }
      FindIterStep(line, p, g, matches);
      matches := matches + [m.value];
      p := m.value.end;
    }
  }

  lemma CollectStep(acc: seq<Usage>, usages: seq<Usage>, line: string, lineNumber: nat, path: string,
                    matches: seq<Tag>, i: nat, g: Grammar)
    requires i < |matches|
    requires usages == acc + TagUsages(line, lineNumber, path, matches[..i], g)
    ensures usages + AsSeq(TagUsage(line, lineNumber, path, matches[i], g))
            == acc + TagUsages(line, lineNumber, path, matches[..i + 1], g)
  {
    hide TagAt;
    assert matches[..i + 1] == matches[..i] + [matches[i]];
    TagUsagesSnoc(line, lineNumber, path, matches[..i], matches[i], g);
  }

  /** Appends the usages of every match of `g` on `line`, match by match. */
  method CollectUsages(acc: seq<Usage>, line: string, lineNumber: nat, path: string, g: Grammar)
    returns (usages: seq<Usage>)
    ensures usages == acc + TagUsages(line, lineNumber, path, Tags(line, 0, g), g)
  {
    hide TagAt;
    var matches := FindIter(line, g);
    usages := acc;
    for i := 0 to |matches|
      invariant usages == acc + TagUsages(line, lineNumber, path, matches[..i], g)
    {
      var u := TagUsage(line, lineNumber, path, matches[i], g);
      CollectStep(acc, usages, line, lineNumber, path, matches, i, g);
      if u.Some? {
        usages := usages + [u.value];
      }
    }
    assert matches[..|matches|] == matches;
  }

  /** What every usage found on line `line` (number `n`) of file `path` satisfies. */
  predicate UsageOnLine(u: Usage, line: string, n: nat, path: string)
  {
    && u.lineNumber == n && u.filePath == path
    && u.name != [] && '.' !in u.name
    && (forall k :: 0 <= k < |u.name| ==> NotQuote(u.name[k]))
    && u.endColumn == u.column + |u.name|
    && OccursAt(line, u.name, u.column)
  }

  /** The tag type a grammar gives. */
  predicate TypedBy(u: Usage, g: Grammar)
  {
    match g
    case DirectTag => u.tagType in ["hx_post", "hx_get", "hx_request"]
    case ValsTag => u.tagType == "hx_vals"
  }

  /** A match yields a usage iff its name is undotted; the usage spells the name where its columns say. */
  lemma TagUsageWellFormed(line: string, n: nat, path: string, t: Tag, g: Grammar)
    requires IsTag(line, t, g)
    ensures TagUsage(line, n, path, t, g).Some? <==> '.' !in t.name
    ensures TagUsage(line, n, path, t, g).Some? ==>
              && TagUsage(line, n, path, t, g).value.name == t.name
              && TagUsage(line, n, path, t, g).value.column >= t.start
              && UsageOnLine(TagUsage(line, n, path, t, g).value, line, n, path)
              && TypedBy(TagUsage(line, n, path, t, g).value, g)
              && TagUsage(line, n, path, t, g).value.tagType == (if g == DirectTag then t.keyword else "hx_vals")
              && TagUsage(line, n, path, t, g).value.fullMatch == line[t.start..t.end]
  {
    hide TagAt;
    assert t.start <= t.nameStart && OccursAt(line, t.name, t.nameStart);
  }

  lemma PastMatchTag()
    ensures IsTag("{% hx_get foo %} 'foo'", Tag(0, 13, "hx_get", "foo", 10), DirectTag)
  {
    var line := "{% hx_get foo %} 'foo'";
    hide SkipWhile, DirectTagAt;
    assert line[10..13] == "foo";
    SkipWhileUnique(line, 11, 13, DottedNameChar);
    assert NameArgAt(line, 10) == Some(NameArg(10, 13, 13));
    hide NameArgAt;
    assert line[0..2] == "{%" && line[3..9] == "hx_get";
    assert AllIn(line, 2, 3, Space) && AllIn(line, 9, 10, Space);
    assert DirectTagSplit(line, 0, 3, 9, 10);
    DirectTagOfSplit(line, 0, 3, 9, 10);
  }

  lemma PastMatchColumn()
    ensures FindNamePosition("{% hx_get foo %} 'foo'", 0, "foo") == 18
  {
    var line := "{% hx_get foo %} 'foo'";
    hide Find, FindNamePosition;
    assert "'" + "foo" + "'" == "'foo'";
    assert OccursAt(line, "'foo'", 17);
    assert forall k :: 0 <= k < 17 ==> line[k] != '\'';
    var r := Find(line, "'foo'", 0);
    assert r.Some? && r.value <= 17;
    var v := r.value;
    assert line[v] == line[v..v + 5][0] == '\'';
    assert Find(line, "'foo'", 0) == Some(17);
  }

  /**
   * The column comes from a text search, not from the match: in
   * `{% hx_get foo %} 'foo'` the tag matches over columns 0..13 and captures
   * `foo` at column 10, yet the usage is placed at column 18, past the match.
   */
  lemma ColumnPastMatch()
    ensures var t := Tag(0, 13, "hx_get", "foo", 10);
            && IsTag("{% hx_get foo %} 'foo'", t, DirectTag)
            && TagUsage("{% hx_get foo %} 'foo'", 1, "page.html", t, DirectTag).value.column == 18 > t.end
  {
    PastMatchTag();
    PastMatchColumn();
  }

  lemma {:induction false} TagUsagesWellFormed(line: string, n: nat, path: string, ts: seq<Tag>, g: Grammar)
    requires forall i :: 0 <= i < |ts| ==> IsTag(line, ts[i], g)
    ensures forall u :: u in TagUsages(line, n, path, ts, g) ==> UsageOnLine(u, line, n, path) && TypedBy(u, g)
  {
    hide TagAt;
    if ts != [] {
      TagUsageWellFormed(line, n, path, ts[0], g);
      TagUsagesWellFormed(line, n, path, ts[1..], g);
    }
  }

  /** Within a line every direct-tag usage comes before every `hx_vals` usage. */
  predicate DirectBeforeVals(us: seq<Usage>)
  {
    forall i, j :: 0 <= i < j < |us| && us[i].tagType == "hx_vals" ==> us[j].tagType == "hx_vals"
  }

  lemma DirectThenVals(d: seq<Usage>, v: seq<Usage>, line: string, n: nat, path: string)
    requires forall u :: u in d ==> UsageOnLine(u, line, n, path) && TypedBy(u, DirectTag)
    requires forall u :: u in v ==> UsageOnLine(u, line, n, path) && TypedBy(u, ValsTag)
    ensures LineWellFormed(d + v, line, n, path)
  {
    var us := d + v;
    assert forall k :: 0 <= k < |d| ==> us[k] == d[k] && us[k] in d;
    assert forall k :: |d| <= k < |us| ==> us[k] == v[k - |d|] && us[k] in v;
  }

  /** The usages of one line, numbered `n`, are well formed and direct tags come first. */
  predicate LineWellFormed(us: seq<Usage>, line: string, n: nat, path: string)
  {
    && (forall u :: u in us ==> UsageOnLine(u, line, n, path) && u.tagType in ["hx_post", "hx_get", "hx_request", "hx_vals"])
    && DirectBeforeVals(us)
  }

  lemma LineUsagesWellFormed(line: string, n: nat, path: string)
    ensures LineWellFormed(LineUsages(line, n, path), line, n, path)
  {
    hide TagAt;
    TagsSpec(line, 0, DirectTag);
    TagsSpec(line, 0, ValsTag);
    TagUsagesWellFormed(line, n, path, Tags(line, 0, DirectTag), DirectTag);
    TagUsagesWellFormed(line, n, path, Tags(line, 0, ValsTag), ValsTag);
    DirectThenVals(TagUsages(line, n, path, Tags(line, 0, DirectTag), DirectTag),
                   TagUsages(line, n, path, Tags(line, 0, ValsTag), ValsTag), line, n, path);
  }

  /** Lines come in order; within a line, direct tags first. */
  predicate InScanOrder(us: seq<Usage>)
  {
    forall i, j :: 0 <= i < j < |us| ==>
      us[i].lineNumber <= us[j].lineNumber
      && (us[i].lineNumber == us[j].lineNumber && us[i].tagType == "hx_vals" ==> us[j].tagType == "hx_vals")
  }

  predicate UsagesUpTo(us: seq<Usage>, lines: seq<string>, m: nat, path: string)
    requires m <= |lines|
  {
    forall u :: u in us ==>
      && 1 <= u.lineNumber <= m
      && UsageOnLine(u, lines[u.lineNumber - 1], u.lineNumber, path)
      && u.tagType in ["hx_post", "hx_get", "hx_request", "hx_vals"]
  }

  lemma AppendLine(a: seq<Usage>, b: seq<Usage>, lines: seq<string>, m: nat, path: string)
    requires 1 <= m <= |lines|
    requires UsagesUpTo(a, lines, m - 1, path) && InScanOrder(a)
    requires LineWellFormed(b, lines[m - 1], m, path)
    ensures UsagesUpTo(a + b, lines, m, path) && InScanOrder(a + b)
  {
    var us := a + b;
    assert forall u :: u in us ==> u in a || u in b;
    forall i, j | 0 <= i < j < |us|
      ensures us[i].lineNumber <= us[j].lineNumber
      ensures us[i].lineNumber == us[j].lineNumber && us[i].tagType == "hx_vals" ==> us[j].tagType == "hx_vals"
    {
      if j < |a| {
        assert us[i] == a[i] && us[j] == a[j];
      } else if i < |a| {
        assert us[i] in a && us[j] == b[j - |a|] && us[j] in b;
      } else {
        assert us[i] == b[i - |a|] && us[j] == b[j - |a|];
      }
    }
  }

  lemma {:induction false} FlattenWellFormed(ls: seq<seq<Usage>>, lines: seq<string>, path: string)
    requires |ls| <= |lines|
    requires forall i :: 0 <= i < |ls| ==> LineWellFormed(ls[i], lines[i], i + 1, path)
    ensures UsagesUpTo(Flatten(ls), lines, |ls|, path) && InScanOrder(Flatten(ls))
  {
    if ls != [] {
      var init := ls[..|ls| - 1];
      FlattenWellFormed(init, lines, path);
      AppendLine(Flatten(init), ls[|ls| - 1], lines, |ls|, path);
    }
  }

  /**
   * Every usage of a template: its 1-based line number indexes `splitlines()`,
   * it spells its name at `column..endColumn` on that line (so it never spans
   * lines), the name is undotted, non-empty and quote-free, and the tag type is
   * one of the four keywords; usages come in scan order.
   */
  lemma TemplateUsagesWellFormed(content: string, path: string)
    ensures UsagesUpTo(TemplateUsages(content, path), SplitLines(content), |SplitLines(content)|, path)
    ensures InScanOrder(TemplateUsages(content, path))
  {
    hide TagAt;
    var lines := SplitLines(content);
    PerLineWellFormed(lines, path);
    FlattenWellFormed(PerLine(lines, path), lines, path);
  }

  /** The half-open span `column <= col < end_column` holds `col`. */
  predicate Covers(u: Usage, col: int)
  {
    u.column <= col < u.endColumn
  }

  /** What the cursor lookup reports: name, start column and end column. */
  function Span(u: Usage): (string, nat, nat)
  {
    (u.name, u.column, u.endColumn)
  }

  /** The first usage covering `col`, as the lookup's early-return loop finds it. */
  function FirstCovering(us: seq<Usage>, col: int): (r: Option<(string, nat, nat)>)
    ensures r.Some? ==> exists i :: 0 <= i < |us| && Covers(us[i], col) && r.value == Span(us[i])
                                   && forall k :: 0 <= k < i ==> !Covers(us[k], col)
    ensures r.None? <==> forall i :: 0 <= i < |us| ==> !Covers(us[i], col)
  {
    if us == [] then None
    else if Covers(us[0], col) then Some(Span(us[0]))
    else
      var r := FirstCovering(us[1..], col);
      assert forall i :: 1 <= i < |us| ==> us[i] == us[1..][i - 1];
      r
  }

  /**
   * `get_hx_request_name_at_position`: nothing outside lines 1..len(lines);
   * otherwise the line is scanned on its own and the first usage on it whose
   * span holds the column is reported, so what is reported is an undotted name
   * spelled on that line at the reported columns, which hold the column.
   */
  function NameAtPosition(content: string, line: int, column: int): (r: Option<(string, nat, nat)>)
    ensures line < 1 || line > |SplitLines(content)| ==> r.None?
    ensures r.Some? ==>
              var (name, start, end) := r.value;
              && start <= column < end && end == start + |name|
              && name != [] && '.' !in name
              && OccursAt(SplitLines(content)[line - 1], name, start)
  {
    var lines := SplitLines(content);
    if line < 1 || line > |lines| then None
    else
      CursorUsagesOnLine(lines[line - 1]);
      FirstCovering(TemplateUsages(lines[line - 1], "<cursor>"), column)
  }

  /** Spans do not depend on the line number or the file a usage is tagged with. */
  function Spans(us: seq<Usage>): seq<(string, nat, nat)>
  {
    if us == [] then [] else [Span(us[0])] + Spans(us[1..])
  }

  lemma {:induction false} SpansAppend(a: seq<Usage>, b: seq<Usage>)
    ensures Spans(a + b) == Spans(a) + Spans(b)
  {
    if a != [] {
      assert (a + b)[0] == a[0];
      assert (a + b)[1..] == a[1..] + b;
      SpansAppend(a[1..], b);
      assert Spans(a + b) == [Span(a[0])] + (Spans(a[1..]) + Spans(b));
    } else {
      assert a + b == b;
    }
  }

  lemma {:induction false} FirstCoveringSpans(a: seq<Usage>, b: seq<Usage>, col: int)
    requires Spans(a) == Spans(b)
    ensures FirstCovering(a, col) == FirstCovering(b, col)
  {
    if a != [] && b != [] {
      assert Spans(a) == [Span(a[0])] + Spans(a[1..]);
      assert Spans(b) == [Span(b[0])] + Spans(b[1..]);
      assert Span(a[0]) == Spans(a)[0] == Span(b[0]);
      assert Spans(a[1..]) == Spans(a)[1..] == Spans(b[1..]);
      FirstCoveringSpans(a[1..], b[1..], col);
    }
  }

  lemma {:induction false} TagUsagesSpans(line: string, n: nat, path: string, n': nat, path': string, ts: seq<Tag>, g: Grammar)
    ensures Spans(TagUsages(line, n, path, ts, g)) == Spans(TagUsages(line, n', path', ts, g))
  {
    if ts != [] {
      var a := AsSeq(TagUsage(line, n, path, ts[0], g));
      var b := AsSeq(TagUsage(line, n', path', ts[0], g));
      assert Spans(a) == Spans(b);
      TagUsagesSpans(line, n, path, n', path', ts[1..], g);
      SpansAppend(a, TagUsages(line, n, path, ts[1..], g));
      SpansAppend(b, TagUsages(line, n', path', ts[1..], g));
    }
  }

  lemma LineUsagesSpans(line: string, n: nat, path: string, n': nat, path': string)
    ensures Spans(LineUsages(line, n, path)) == Spans(LineUsages(line, n', path'))
  {
    var d := Tags(line, 0, DirectTag);
    var v := Tags(line, 0, ValsTag);
    TagUsagesSpans(line, n, path, n', path', d, DirectTag);
    TagUsagesSpans(line, n, path, n', path', v, ValsTag);
    SpansAppend(TagUsages(line, n, path, d, DirectTag), TagUsages(line, n, path, v, ValsTag));
    SpansAppend(TagUsages(line, n', path', d, DirectTag), TagUsages(line, n', path', v, ValsTag));
  }

  /** The usages in `us` on line `n`, in order. */
  function OnLine(us: seq<Usage>, n: int): (r: seq<Usage>)
    ensures forall u :: u in r <==> u in us && u.lineNumber == n
  {
    if us == [] then []
    else (if us[0].lineNumber == n then [us[0]] else []) + OnLine(us[1..], n)
  }

  lemma {:induction false} OnLineAppend(a: seq<Usage>, b: seq<Usage>, n: int)
    ensures OnLine(a + b, n) == OnLine(a, n) + OnLine(b, n)
  {
    if a != [] {
      assert (a + b)[0] == a[0];
      assert (a + b)[1..] == a[1..] + b;
      OnLineAppend(a[1..], b, n);
      assert OnLine(a + b, n) == (if a[0].lineNumber == n then [a[0]] else []) + (OnLine(a[1..], n) + OnLine(b, n));
    } else {
      assert a + b == b;
    }
  }

  lemma {:induction false} OnLineAll(us: seq<Usage>, n: int)
    requires forall u :: u in us ==> u.lineNumber == n
    ensures OnLine(us, n) == us
  {
    if us != [] {
      assert forall u :: u in us[1..] ==> u in us;
      OnLineAll(us[1..], n);
    }
  }

  lemma {:induction false} OnLineNone(us: seq<Usage>, n: int)
    requires forall u :: u in us ==> u.lineNumber != n
    ensures OnLine(us, n) == []
  {
    if us != [] {
      assert forall u :: u in us[1..] ==> u in us;
      OnLineNone(us[1..], n);
    }
  }

  /** Regrouping the flattened lists by line number gives back line `n`'s list. */
  lemma {:induction false} OnLineFlatten(ls: seq<seq<Usage>>, n: nat)
    requires 1 <= n <= |ls|
    requires forall i, u :: 0 <= i < |ls| && u in ls[i] ==> u.lineNumber == i + 1
    ensures OnLine(Flatten(ls), n) == ls[n - 1]
  {
    var init := ls[..|ls| - 1];
    var last := ls[|ls| - 1];
    OnLineAppend(Flatten(init), last, n);
    if n == |ls| {
      FlattenLineBound(init);
      OnLineNone(Flatten(init), n);
      OnLineAll(last, n);
    } else {
      OnLineFlatten(init, n);
      OnLineNone(last, n);
    }
  }

  lemma {:induction false} FlattenLineBound(ls: seq<seq<Usage>>)
    requires forall i, u :: 0 <= i < |ls| && u in ls[i] ==> u.lineNumber == i + 1
    ensures forall u :: u in Flatten(ls) ==> u.lineNumber <= |ls|
  {
    if ls != [] {
      FlattenLineBound(ls[..|ls| - 1]);
    }
  }

  /**
   * The cursor lookup agrees with the scan of the whole template: on a line in
   * range it reports the first usage of that line, in scan order, whose span
   * holds the column.
   */
  lemma NameAtPositionAgrees(content: string, path: string, line: int, column: int)
    requires 1 <= line <= |SplitLines(content)|
    ensures NameAtPosition(content, line, column)
            == FirstCovering(OnLine(TemplateUsages(content, path), line), column)
  {
    hide TagAt;
    var l := SplitLines(content)[line - 1];
    OnLineTemplate(content, path, line);
    CursorScanSpans(l, line, path);
    FirstCoveringSpans(TemplateUsages(l, "<cursor>"), LineUsages(l, line, path), column);
  }

  /** The usages of a template on line `n` are that line's own. */
  lemma OnLineTemplate(content: string, path: string, n: nat)
    requires 1 <= n <= |SplitLines(content)|
    ensures OnLine(TemplateUsages(content, path), n) == LineUsages(SplitLines(content)[n - 1], n, path)
  {
    hide TagAt;
    var lines := SplitLines(content);
    PerLineWellFormed(lines, path);
    LineNumbers(PerLine(lines, path), lines, path);
    OnLineFlatten(PerLine(lines, path), n);
  }

  lemma PerLineWellFormed(lines: seq<string>, path: string)
    ensures forall i :: 0 <= i < |lines| ==> LineWellFormed(PerLine(lines, path)[i], lines[i], i + 1, path)
  {
    hide TagAt;
    forall i | 0 <= i < |lines| ensures LineWellFormed(PerLine(lines, path)[i], lines[i], i + 1, path) {
      LineUsagesWellFormed(lines[i], i + 1, path);
    }
  }

  lemma LineNumbers(ls: seq<seq<Usage>>, lines: seq<string>, path: string)
    requires |ls| <= |lines|
    requires forall i :: 0 <= i < |ls| ==> LineWellFormed(ls[i], lines[i], i + 1, path)
    ensures forall i, u :: 0 <= i < |ls| && u in ls[i] ==> u.lineNumber == i + 1
  {
    hide TagAt;
    forall i, u | 0 <= i < |ls| && u in ls[i] ensures u.lineNumber == i + 1 {
      assert LineWellFormed(ls[i], lines[i], i + 1, path);
    }
  }

  /** Scanning one line on its own finds that line's usages, up to line number and file. */
  lemma CursorScanSpans(l: string, n: nat, path: string)
    requires forall k :: 0 <= k < |l| ==> !IsLineBoundary(l[k])
    ensures Spans(TemplateUsages(l, "<cursor>")) == Spans(LineUsages(l, n, path))
  {
    hide TagAt;
    LineUsagesSpans(l, n, path, 1, "<cursor>");
    if l == [] {
      EmptyLineScan(n, path);
    } else {
      SingleLineScan(l);
    }
  }

  lemma EmptyLineScan(n: nat, path: string)
    ensures TemplateUsages([], "<cursor>") == [] && LineUsages([], n, path) == []
  {
    hide TagAt;
    NoTagsOnEmptyLine(DirectTag);
    NoTagsOnEmptyLine(ValsTag);
  }

  lemma SingleLineScan(l: string)
    requires l != [] && forall k :: 0 <= k < |l| ==> !IsLineBoundary(l[k])
    ensures TemplateUsages(l, "<cursor>") == LineUsages(l, 1, "<cursor>")
  {
    hide TagAt;
    SplitLinesOfLine(l);
    OnePerLine(l, "<cursor>");
  }

  lemma OnePerLine(l: string, path: string)
    ensures Flatten(PerLine([l], path)) == LineUsages(l, 1, path)
  {
    hide TagAt;
    var ls := PerLine([l], path);
    assert ls[..0] == [];
    assert Flatten(ls) == Flatten(ls[..0]) + ls[0];
  }

  lemma NoTagsOnEmptyLine(g: Grammar)
    ensures Tags([], 0, g) == []
  {
    assert TagAt([], 0, g).None?;
  }

  /** Every usage found when one line is scanned on its own spells its name on that line. */
  lemma CursorUsagesOnLine(l: string)
    requires forall k :: 0 <= k < |l| ==> !IsLineBoundary(l[k])
    ensures forall u :: u in TemplateUsages(l, "<cursor>") ==> UsageOnLine(u, l, u.lineNumber, "<cursor>")
  {
    hide TagAt;
    TemplateUsagesWellFormed(l, "<cursor>");
    if l != [] {
      SplitLinesOfLine(l);
    }
  }
}

