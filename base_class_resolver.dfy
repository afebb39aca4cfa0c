/**
 * Base-class resolution: where is the class a definition inherits from?
 * The file system is an `Environment`: the files that can be read (with
 * their parse, `None` when reading or parsing fails), the directories with
 * their `*.py` listing, and the installed library's recursive `*.py`
 * listing (`None` when the library is not installed).
 */
module BaseClassResolver {
  import opened Wrappers
  import opened Strings
  import opened Paths
  import opened PythonAst

  /** Where a base class is defined; the source compares and hashes these by `name` alone. */
  datatype BaseClassInfo = BaseClassInfo(name: string, filePath: Option<string>, lineNumber: Option<nat>)

  datatype Location = Location(path: string, line: nat)

  datatype Environment = Environment(
    files: map<string, Option<seq<Stmt>>>,
    dirs: map<string, seq<string>>,
    library: Option<seq<string>>,
    resolve: string -> string)

  predicate PathExists(env: Environment, p: string)
  {
    p in env.files || p in env.dirs
  }

  predicate IsClassNamed(s: Stmt, cls: string)
  {
    s.ClassDef? && s.name == cls
  }

  /** Records every class in `nodes`, left to right, over `table`; a later class of the same name overwrites. */
  function ClassTableFrom(nodes: seq<Stmt>, table: map<string, nat>): map<string, nat>
  {
    if nodes == [] then table
    else ClassTableFrom(nodes[1..], if nodes[0].ClassDef? then table[nodes[0].name := nodes[0].lineno] else table)
  }

  /** The class table of a parsed file, filled in `ast.walk` order. */
  function ClassTable(tree: seq<Stmt>): map<string, nat>
  {
    ClassTableFrom(Walk(tree), map[])
  }

  /** `nodes[i]` is the last class named `cls` in `nodes`. */
  predicate LastClassAt(nodes: seq<Stmt>, cls: string, i: nat)
  {
    i < |nodes| && IsClassNamed(nodes[i], cls) && forall j :: i < j < |nodes| ==> !IsClassNamed(nodes[j], cls)
  }

  lemma {:induction false} ClassTableFromSpec(nodes: seq<Stmt>, table: map<string, nat>, cls: string)
    ensures var r := ClassTableFrom(nodes, table);
      && (cls in r <==> cls in table || exists i :: 0 <= i < |nodes| && IsClassNamed(nodes[i], cls))
      && ((exists i :: 0 <= i < |nodes| && IsClassNamed(nodes[i], cls)) ==>
            exists i: nat :: LastClassAt(nodes, cls, i) && nodes[i].lineno == r[cls])
      && ((forall i :: 0 <= i < |nodes| ==> !IsClassNamed(nodes[i], cls)) ==> cls in table ==> r[cls] == table[cls])
    decreases |nodes|
  {
    if nodes != [] {
      var t := if nodes[0].ClassDef? then table[nodes[0].name := nodes[0].lineno] else table;
      var rest := nodes[1..];
      ClassTableFromSpec(rest, t, cls);
      if exists i :: 0 <= i < |rest| && IsClassNamed(rest[i], cls) {
        var i: nat :| LastClassAt(rest, cls, i) && rest[i].lineno == ClassTableFrom(rest, t)[cls];
        assert LastClassAt(nodes, cls, i + 1);
      } else if IsClassNamed(nodes[0], cls) {
        assert LastClassAt(nodes, cls, 0);
      } else {
        forall i | 0 <= i < |nodes| ensures !IsClassNamed(nodes[i], cls) {
          if i > 0 { assert nodes[i] == rest[i - 1]; }
        }
      }
      if exists i :: 0 <= i < |nodes| && IsClassNamed(nodes[i], cls) {
        var i :| 0 <= i < |nodes| && IsClassNamed(nodes[i], cls);
        if i > 0 { assert IsClassNamed(rest[i - 1], cls); }
      }
    }
  }

  /**
   * The class table holds every class of the file, at any depth; for a name
   * defined more than once, the line of the definition `ast.walk` reaches last.
   */
  lemma ClassTableSpec(tree: seq<Stmt>, cls: string)
    ensures cls in ClassTable(tree) <==> exists s :: s in PreOrder(tree) && IsClassNamed(s, cls)
    ensures cls in ClassTable(tree) ==> exists i: nat :: LastClassAt(Walk(tree), cls, i) && Walk(tree)[i].lineno == ClassTable(tree)[cls]
  {
    var w := Walk(tree);
    ClassTableFromSpec(w, map[], cls);
    WalkPermutesPreOrder(tree);
    assert forall s :: s in w <==> s in PreOrder(tree) by {
      forall s ensures s in w <==> s in PreOrder(tree) {
        assert s in w <==> s in multiset(w);
        assert s in PreOrder(tree) <==> s in multiset(PreOrder(tree));
      }
    }
    if exists s :: s in PreOrder(tree) && IsClassNamed(s, cls) {
      var s :| s in PreOrder(tree) && IsClassNamed(s, cls);
      assert s in w;
      var i :| 0 <= i < |w| && w[i] == s;
    }
    if cls in ClassTable(tree) {
      var i :| 0 <= i < |w| && IsClassNamed(w[i], cls);
      assert w[i] in w;
    }
  }

  /** The class table of `path`: empty when it is not a readable, parsable file. */
  function ClassesOf(env: Environment, path: string): map<string, nat>
  {
    if path in env.files && env.files[path].Some? then ClassTable(env.files[path].value) else map[]
  }

  predicate Defines(env: Environment, path: string, cls: string)
  {
    cls in ClassesOf(env, path)
  }

  /** `_parse_file_for_classes`: walks the tree breadth-first with a queue, recording each class. */
  method ParseFileForClasses(env: Environment, path: string) returns (classes: map<string, nat>)
    ensures classes == ClassesOf(env, path)
  {
    classes := map[];
    if path !in env.files || env.files[path].None? {
      return;
    }
    var tree := env.files[path].value;
    var todo := tree;
    while todo != []
      invariant ClassTableFrom(Walk(todo), classes) == ClassTable(tree)
      decreases |PreOrder(todo)|
    {
      var node := todo[0];
      WalkShrinks(todo);
      todo := todo[1..] + Children(node);
      if node.ClassDef? {
        classes := classes[node.name := node.lineno];
      }
    }
  }

  /** The first of `paths` whose class table has `cls`, with the line recorded there. */
  function FirstDefining(env: Environment, paths: seq<string>, cls: string): (r: Option<Location>)
    ensures r.Some? ==> r.value.path in paths && Defines(env, r.value.path, cls)
                        && r.value.line == ClassesOf(env, r.value.path)[cls]
    decreases |paths|
  {
    if paths == [] then None
    else if Defines(env, paths[0], cls) then Some(Location(paths[0], ClassesOf(env, paths[0])[cls]))
    else FirstDefining(env, paths[1..], cls)
  }

  /** `paths[i]` is the first of `paths` that defines `cls`. */
  predicate FirstDefiningAt(env: Environment, paths: seq<string>, cls: string, i: nat)
  {
    i < |paths| && Defines(env, paths[i], cls) && forall j :: 0 <= j < i ==> !Defines(env, paths[j], cls)
  }

  /** The search reports the first defining path, and nothing exactly when no path defines `cls`. */
  lemma {:induction false} FirstDefiningSpec(env: Environment, paths: seq<string>, cls: string)
    ensures FirstDefining(env, paths, cls).Some? ==>
              exists i: nat :: FirstDefiningAt(env, paths, cls, i) && FirstDefining(env, paths, cls).value.path == paths[i]
    ensures FirstDefining(env, paths, cls).None? <==> forall i :: 0 <= i < |paths| ==> !Defines(env, paths[i], cls)
    decreases |paths|
  {
    if paths != [] {
      if Defines(env, paths[0], cls) {
        assert FirstDefiningAt(env, paths, cls, 0);
      } else {
        var rest := paths[1..];
        FirstDefiningSpec(env, rest, cls);
        assert forall i :: 1 <= i < |paths| ==> paths[i] == rest[i - 1];
        if FirstDefining(env, rest, cls).Some? {
          var i: nat :| FirstDefiningAt(env, rest, cls, i) && FirstDefining(env, rest, cls).value.path == rest[i];
          assert FirstDefiningAt(env, paths, cls, i + 1);
        }
      }
    }
  }

  /**
   * `_find_class_in_module`: a file is looked up directly; a directory is
   * looked up through its `__init__.py`, then through each listed `*.py`.
   */
  function ClassInModule(env: Environment, modulePath: string, cls: string): (r: Option<Location>)
    ensures r.Some? ==> Defines(env, r.value.path, cls) && r.value.line == ClassesOf(env, r.value.path)[cls]
  {
    if modulePath in env.files then
      if Defines(env, modulePath, cls) then Some(Location(modulePath, ClassesOf(env, modulePath)[cls])) else None
    else if modulePath in env.dirs then
      var init := JoinPath(modulePath, "__init__.py");
      if PathExists(env, init) && Defines(env, init, cls) then Some(Location(init, ClassesOf(env, init)[cls]))
      else FirstDefining(env, env.dirs[modulePath], cls)
    else None
  }

  method FindClassInModule(env: Environment, modulePath: string, cls: string) returns (r: Option<Location>)
    ensures r == ClassInModule(env, modulePath, cls)
  {
    hide ClassTable;
    if modulePath in env.files {
      var classes := ParseFileForClasses(env, modulePath);
      if cls in classes {
        return Some(Location(modulePath, classes[cls]));
      }
      return None;
    } else if modulePath in env.dirs {
      var init := JoinPath(modulePath, "__init__.py");
      if PathExists(env, init) {
        var classes := ParseFileForClasses(env, init);
        if cls in classes {
          return Some(Location(init, classes[cls]));
        }
      }
      var listing := env.dirs[modulePath];
      var i := 0;
      while i < |listing|
        invariant 0 <= i <= |listing|
        invariant FirstDefining(env, listing[i..], cls) == FirstDefining(env, listing, cls)
      {
        var classes := ParseFileForClasses(env, listing[i]);
        if cls in classes {
          return Some(Location(listing[i], classes[cls]));
        }
        assert listing[i..][1..] == listing[i + 1..];
        i := i + 1;
      }
      return None;
    }
    return None;
  }

  predicate InCacheDir(path: string)
  {
    Contains(path, "__pycache__")
  }

  /** The library scan: skips `__pycache__` paths; a hit reports the resolved path of the first defining file. */
  function LibraryFirst(env: Environment, files: seq<string>, cls: string): (r: Option<Location>)
    decreases |files|
  {
    if files == [] then None
    else if !InCacheDir(files[0]) && Defines(env, files[0], cls) then
      Some(Location(env.resolve(files[0]), ClassesOf(env, files[0])[cls]))
    else LibraryFirst(env, files[1..], cls)
  }

  /** `files[i]` is the first library file outside `__pycache__` that defines `cls`. */
  predicate LibraryHitAt(env: Environment, files: seq<string>, cls: string, i: nat)
  {
    && i < |files| && !InCacheDir(files[i]) && Defines(env, files[i], cls)
    && forall j :: 0 <= j < i ==> InCacheDir(files[j]) || !Defines(env, files[j], cls)
  }

  /**
   * The library scan reports the first defining file outside `__pycache__`,
   * at its resolved path, and nothing exactly when there is none.
   */
  lemma {:induction false} LibraryFirstSpec(env: Environment, files: seq<string>, cls: string)
    ensures LibraryFirst(env, files, cls).Some? ==>
              exists i: nat :: LibraryHitAt(env, files, cls, i)
                               && LibraryFirst(env, files, cls).value == Location(env.resolve(files[i]), ClassesOf(env, files[i])[cls])
    ensures LibraryFirst(env, files, cls).None? <==>
              forall i :: 0 <= i < |files| ==> InCacheDir(files[i]) || !Defines(env, files[i], cls)
    decreases |files|
  {
    if files != [] {
      if !InCacheDir(files[0]) && Defines(env, files[0], cls) {
        assert LibraryHitAt(env, files, cls, 0);
      } else {
        var rest := files[1..];
        LibraryFirstSpec(env, rest, cls);
        assert forall i :: 1 <= i < |files| ==> files[i] == rest[i - 1];
        if LibraryFirst(env, rest, cls).Some? {
          var i: nat :| LibraryHitAt(env, rest, cls, i)
                        && LibraryFirst(env, rest, cls).value == Location(env.resolve(rest[i]), ClassesOf(env, rest[i])[cls]);
          assert LibraryHitAt(env, files, cls, i + 1);
        }
      }
    }
  }

  function LibraryClass(env: Environment, cls: string): Option<Location>
  {
    match env.library
    case None => None
    case Some(files) => LibraryFirst(env, files, cls)
  }

  /** `_find_class_in_hx_requests_package`. */
  method FindClassInLibrary(env: Environment, cls: string) returns (r: Option<Location>)
    ensures r == LibraryClass(env, cls)
  {
    if env.library.None? {
      return None;
    }
    var files := env.library.value;
    for i := 0 to |files|
      invariant LibraryFirst(env, files[i..], cls) == LibraryFirst(env, files, cls)
    {
      assert files[i..][1..] == files[i + 1..];
      if InCacheDir(files[i]) {
        continue;
      }
      var classes := ParseFileForClasses(env, files[i]);
      if cls in classes {
        return Some(Location(env.resolve(files[i]), classes[cls]));
      }
    }
    return None;
  }

  /** The workspace files that may hold module `moduleName`, in the order they are tried. */
  function CandidatePaths(root: string, moduleName: string): seq<string>
  {
    var parts := Split(moduleName, '.');
    var joined := Join(parts, "/");
    [JoinPath(JoinPath(root, joined), "__init__.py"), JoinPath(root, joined + ".py")]
    + if |parts| > 1 then [JoinPath(JoinPath(root, Join(parts[..|parts| - 1], "/")), parts[|parts| - 1] + ".py")] else []
  }

  lemma {:induction false} JoinEndsWithLast(parts: seq<string>, sep: string)
    requires |parts| >= 1
    ensures EndsWith(Join(parts, sep), parts[|parts| - 1])
  {
    if |parts| >= 2 {
      JoinLast(parts, sep);
    }
  }

  /** `dir` followed by the separator `JoinPath` puts after it. */
  function DirPrefix(dir: string): string
  {
    if dir != [] && dir[|dir| - 1] == '/' then dir else dir + "/"
  }

  lemma JoinPathIsPrefixed(dir: string, rel: string)
    ensures JoinPath(dir, rel) == DirPrefix(dir) + rel
  {
  }

  /** A join of non-empty, `/`-free parts does not end with `/`. */
  lemma JoinEndsWithoutSlash(parts: seq<string>)
    requires |parts| >= 1
    requires forall i :: 0 <= i < |parts| ==> parts[i] != [] && '/' !in parts[i]
    ensures Join(parts, "/") != [] && Join(parts, "/")[|Join(parts, "/")| - 1] != '/'
  {
    var a := Join(parts, "/");
    var tail := parts[|parts| - 1];
    JoinEndsWithLast(parts, "/");
    assert a[|a| - 1] == tail[|tail| - 1];
    assert tail[|tail| - 1] in tail;
  }

  /** Joining `a` and then `rel` onto `root` is joining `a/rel`, when `a` does not end with `/`. */
  lemma JoinPathTwice(root: string, a: string, rel: string)
    requires a != [] && a[|a| - 1] != '/'
    ensures JoinPath(JoinPath(root, a), rel) == JoinPath(root, a + "/" + rel)
  {
    JoinPathIsPrefixed(root, a);
    var x := DirPrefix(root) + a;
    assert x[|x| - 1] == a[|a| - 1];
    JoinPathIsPrefixed(x, rel);
    JoinPathIsPrefixed(root, a + "/" + rel);
    assert DirPrefix(root) + (a + "/" + rel) == x + "/" + rel;
  }

  lemma JoinedPartsAgree(root: string, parts: seq<string>)
    requires |parts| > 1
    requires forall i :: 0 <= i < |parts| ==> parts[i] != [] && '/' !in parts[i]
    ensures JoinPath(JoinPath(root, Join(parts[..|parts| - 1], "/")), parts[|parts| - 1] + ".py")
            == JoinPath(root, Join(parts, "/") + ".py")
  {
    hide *;
    var init := parts[..|parts| - 1];
    var last := parts[|parts| - 1];
    var a := Join(init, "/");
    JoinLast(parts, "/");
    JoinEndsWithoutSlash(init);
    JoinPathTwice(root, a, last + ".py");
    assert Join(parts, "/") + ".py" == a + "/" + (last + ".py");
  }

  /**
   * For a dotted module name (non-empty segments without `/`), the third
   * candidate spells the same path as the second, so it never changes the outcome.
   */
  lemma ThirdCandidateRepeatsSecond(root: string, moduleName: string)
    requires forall i :: 0 <= i < |Split(moduleName, '.')| ==> Split(moduleName, '.')[i] != [] && '/' !in Split(moduleName, '.')[i]
    requires |Split(moduleName, '.')| > 1
    ensures |CandidatePaths(root, moduleName)| == 3
    ensures CandidatePaths(root, moduleName)[2] == CandidatePaths(root, moduleName)[1]
  {
    JoinedPartsAgree(root, Split(moduleName, '.'));
  }

  /** `path.parent` for an `__init__.py` candidate, the path itself otherwise. */
  function ModuleOf(candidate: string): string
  {
    if FileName(candidate) == "__init__.py" then Parent(candidate) else candidate
  }

  /** Tries every existing candidate in order until one holds the class. */
  function TryCandidates(env: Environment, candidates: seq<string>, cls: string): (r: Option<Location>)
    ensures r.Some? ==> Defines(env, r.value.path, cls) && r.value.line == ClassesOf(env, r.value.path)[cls]
    decreases |candidates|
  {
    if candidates == [] then None
    else
      var c := candidates[0];
      var found := if PathExists(env, c) then ClassInModule(env, ModuleOf(c), cls) else None;
      if found.Some? then found else TryCandidates(env, candidates[1..], cls)
  }

  /** `candidates[i]` exists and its module holds the class. */
  predicate CandidateHit(env: Environment, candidates: seq<string>, cls: string, i: nat)
  {
    i < |candidates| && PathExists(env, candidates[i]) && ClassInModule(env, ModuleOf(candidates[i]), cls).Some?
  }

  /**
   * Every existing candidate is tried, in order: the result is the first
   * hit's, and nothing exactly when no existing candidate's module holds the class.
   */
  lemma {:induction false} TryCandidatesSpec(env: Environment, candidates: seq<string>, cls: string)
    ensures TryCandidates(env, candidates, cls).Some? ==>
              exists i: nat :: CandidateHit(env, candidates, cls, i)
                               && (forall j :: 0 <= j < i ==> !CandidateHit(env, candidates, cls, j))
                               && TryCandidates(env, candidates, cls) == ClassInModule(env, ModuleOf(candidates[i]), cls)
    ensures TryCandidates(env, candidates, cls).None? <==> forall i: nat :: !CandidateHit(env, candidates, cls, i)
    decreases |candidates|
  {
    hide ClassInModule;
    hide ModuleOf;
    if candidates != [] && !CandidateHit(env, candidates, cls, 0) {
      var rest := candidates[1..];
      TryCandidatesSpec(env, rest, cls);
      assert forall i: nat :: 1 <= i < |candidates| ==> (CandidateHit(env, candidates, cls, i) <==> CandidateHit(env, rest, cls, i - 1));
      if TryCandidates(env, rest, cls).Some? {
        var i: nat :| CandidateHit(env, rest, cls, i) && (forall j :: 0 <= j < i ==> !CandidateHit(env, rest, cls, j))
                      && TryCandidates(env, rest, cls) == ClassInModule(env, ModuleOf(rest[i]), cls);
        assert CandidateHit(env, candidates, cls, i + 1);
        assert candidates[i + 1] == rest[i];
      } else {
        forall i: nat ensures !CandidateHit(env, candidates, cls, i) {
          if 0 < i < |candidates| { assert !CandidateHit(env, rest, cls, i - 1); }
        }
      }
    }
  }

  function Unresolved(cls: string): BaseClassInfo
  {
    BaseClassInfo(cls, None, None)
  }

  function LocatedAt(cls: string, loc: Location): BaseClassInfo
  {
    BaseClassInfo(cls, Some(loc.path), Some(loc.line))
  }

  /**
   * `resolve_base_class`: the referencing file first, then the library,
   * then the module the name was imported from, inside the workspace.
   */
  function ResolveBaseClass(cls: string, sourceFile: string, imports: map<string, string>,
                            workspaceRoot: Option<string>, env: Environment): (r: BaseClassInfo)
    ensures r.name == cls
    ensures r.filePath.Some? <==> r.lineNumber.Some?
    ensures Defines(env, sourceFile, cls) ==>
              r == BaseClassInfo(cls, Some(env.resolve(sourceFile)), Some(ClassesOf(env, sourceFile)[cls]))
    ensures !Defines(env, sourceFile, cls) && LibraryClass(env, cls).Some? ==> r == LocatedAt(cls, LibraryClass(env, cls).value)
    ensures (!Defines(env, sourceFile, cls) && LibraryClass(env, cls).None?
             && (cls !in imports || workspaceRoot.None? || workspaceRoot.value == "")) ==> r == Unresolved(cls)
    ensures (!Defines(env, sourceFile, cls) && LibraryClass(env, cls).None?
             && cls in imports && workspaceRoot.Some? && workspaceRoot.value != "") ==>
              var hit := TryCandidates(env, CandidatePaths(workspaceRoot.value, imports[cls]), cls);
              r == if hit.Some? then LocatedAt(cls, hit.value) else Unresolved(cls)
  {
    if Defines(env, sourceFile, cls) then
      BaseClassInfo(cls, Some(env.resolve(sourceFile)), Some(ClassesOf(env, sourceFile)[cls]))
    else match LibraryClass(env, cls)
      case Some(loc) => LocatedAt(cls, loc)
      case None =>
        if cls in imports && workspaceRoot.Some? && workspaceRoot.value != "" then
          match TryCandidates(env, CandidatePaths(workspaceRoot.value, imports[cls]), cls)
          case Some(loc) => LocatedAt(cls, loc)
          case None => Unresolved(cls)
        else Unresolved(cls)
  }

  /**
   * A resolved base class points at a file whose class table defines it at
   * that line (the file itself, or its resolved path).
   */
  lemma ResolvedLocationDefinesClass(cls: string, sourceFile: string, imports: map<string, string>,
                                     workspaceRoot: Option<string>, env: Environment)
    requires ResolveBaseClass(cls, sourceFile, imports, workspaceRoot, env).filePath.Some?
    ensures var r := ResolveBaseClass(cls, sourceFile, imports, workspaceRoot, env);
      exists f :: Defines(env, f, cls) && ClassesOf(env, f)[cls] == r.lineNumber.value
                  && (r.filePath.value == f || r.filePath.value == env.resolve(f))
  {
    var r := ResolveBaseClass(cls, sourceFile, imports, workspaceRoot, env);
    if Defines(env, sourceFile, cls) {
      assert Defines(env, sourceFile, cls) && ClassesOf(env, sourceFile)[cls] == r.lineNumber.value;
    } else if LibraryClass(env, cls).Some? {
      var files := env.library.value;
      LibraryFirstSpec(env, files, cls);
      var i: nat :| LibraryHitAt(env, files, cls, i)
                    && LibraryClass(env, cls).value == Location(env.resolve(files[i]), ClassesOf(env, files[i])[cls]);
      assert Defines(env, files[i], cls) && ClassesOf(env, files[i])[cls] == r.lineNumber.value;
    } else {
      var loc := TryCandidates(env, CandidatePaths(workspaceRoot.value, imports[cls]), cls).value;
      assert Defines(env, loc.path, cls) && ClassesOf(env, loc.path)[cls] == r.lineNumber.value;
    }
  }

  /** `resolve_all_base_classes`: one result per name, in order. */
  function ResolveAllBaseClasses(names: seq<string>, sourceFile: string, imports: map<string, string>,
                                 workspaceRoot: Option<string>, env: Environment): (r: seq<BaseClassInfo>)
    ensures |r| == |names|
    ensures forall i :: 0 <= i < |names| ==> r[i] == ResolveBaseClass(names[i], sourceFile, imports, workspaceRoot, env)
    ensures forall i :: 0 <= i < |names| ==> r[i].name == names[i]
  {
    seq(|names|, i requires 0 <= i < |names| => ResolveBaseClass(names[i], sourceFile, imports, workspaceRoot, env))
  }
}
