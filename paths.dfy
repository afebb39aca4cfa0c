/**
 * The parts of `pathlib.PurePosixPath` the index and the resolver use.
 * Paths are strings; joining inserts one `/`.
 */
module Paths {
  import opened Wrappers
  import opened Strings

  /** `s.rfind(c)`, with `None` for Python's `-1`. */
  function LastIndexOf(s: string, c: char): (r: Option<nat>)
    ensures r.Some? ==> r.value < |s| && s[r.value] == c
    ensures r.Some? ==> forall k :: r.value < k < |s| ==> s[k] != c
    ensures r.None? ==> forall k :: 0 <= k < |s| ==> s[k] != c
    decreases |s|
  {
    if s == [] then None
    else if s[|s| - 1] == c then Some(|s| - 1)
    else LastIndexOf(s[..|s| - 1], c)
  }

  /** `path.name`: the text after the last `/`. */
  function FileName(p: string): (r: string)
    ensures '/' !in r
    ensures EndsWith(p, r)
  {
    match LastIndexOf(p, '/')
    case None => p
    case Some(i) => p[i + 1..]
  }

  /** `path.parent`: the text before the last `/`, `/` for a top-level entry, `.` when there is no `/`. */
  function Parent(p: string): string
  {
    match LastIndexOf(p, '/')
    case None => "."
    case Some(i) => if i == 0 then "/" else p[..i]
  }

  /** `Path(dir) / rel`. */
  function JoinPath(dir: string, rel: string): string
  {
    if dir != [] && dir[|dir| - 1] == '/' then dir + rel else dir + "/" + rel
  }

  lemma FileNameOfJoin(dir: string, name: string)
    requires '/' !in name
    ensures FileName(JoinPath(dir, name)) == name
  {
    var p := JoinPath(dir, name);
    assert p[|p| - |name| - 1] == '/';
    assert forall k :: |p| - |name| <= k < |p| ==> p[k] == name[k - (|p| - |name|)];
    var i := LastIndexOf(p, '/');
    assert i == Some(|p| - |name| - 1);
  }

  /** `path.suffix`: from the final `.` of the name, unless that `.` starts or ends the name. */
  function Suffix(p: string): string
  {
    var name := FileName(p);
    match LastIndexOf(name, '.')
    case None => ""
    case Some(i) => if 0 < i < |name| - 1 then name[i..] else ""
  }

  /**
   * A suffix such as `.py` is a path's suffix exactly when its name ends
   * with it and has something before it.
   */
  lemma SuffixIs(p: string, ext: string)
    requires |ext| >= 2 && ext[0] == '.' && '.' !in ext[1..]
    ensures Suffix(p) == ext <==> EndsWith(FileName(p), ext) && |FileName(p)| > |ext|
  {
    var name := FileName(p);
    if EndsWith(name, ext) && |name| > |ext| {
      var j := |name| - |ext|;
      assert name[j] == '.';
      forall k | j < k < |name| ensures name[k] != '.' {
        assert name[k] == ext[k - j] == ext[1..][k - j - 1];
      }
      assert LastIndexOf(name, '.') == Some(j);
    }
    if Suffix(p) == ext {
      var i := LastIndexOf(name, '.').value;
      assert name[i..] == ext;
    }
  }

  predicate IsSegment(s: string) { s != "" && s != "." }

  /** Drops the empty and `.` segments that pathlib collapses. */
  function KeepSegments(xs: seq<string>): (r: seq<string>)
    ensures forall i :: 0 <= i < |r| ==> IsSegment(r[i])
    ensures forall s :: s in r <==> s in xs && IsSegment(s)
  {
    if xs == [] then []
    else (if IsSegment(xs[0]) then [xs[0]] else []) + KeepSegments(xs[1..])
  }

  /** `path.parts`: `/` for an absolute path, then its non-empty segments other than `.`. */
  function Parts(p: string): (r: seq<string>)
    ensures StartsWith(p, "/") ==> |r| >= 1 && r[0] == "/"
    ensures forall i :: 0 <= i < |r| ==> r[i] == "/" || (IsSegment(r[i]) && '/' !in r[i])
  {
    var segments := KeepSegments(Split(p, '/'));
    assert forall i :: 0 <= i < |segments| ==> segments[i] in Split(p, '/');
    (if StartsWith(p, "/") then ["/"] else []) + segments
  }
}
