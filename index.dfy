/**
 * `HxRequestIndex`: the cache of hx-request definitions and usages the
 * language server answers queries from. Its fields are the four maps and
 * two sets of `IndexModel.IndexState`; every method that changes them is
 * proved to leave exactly the state the matching `IndexModel` function
 * describes, and to keep `IndexModel.Inv`.
 *
 * The file system is a parameter: `env` (the Python files, already parsed,
 * and `Path.resolve`), `templateSources` (each template's text, `None`
 * when it is not valid UTF-8) and `parse` (`ast.parse`, `None` on a syntax
 * error).
 */
module Index {
  import opened Wrappers
  import opened Strings
  import opened Paths
  import opened Dicts
  import opened Sorting
  import opened PythonAst
  import opened BaseClassResolver
  import opened PythonParser
  import opened TemplateParser
  import opened IndexModel

  /** `Path(value) if value else None`. */
  function RootOf(value: Option<string>): Option<string>
  {
    if value.Some? && value.value != "" then value else None
  }

  /** `parse_hx_requests_from_file`: nothing for a missing file, else its classes tagged with the resolved path. */
  function FileDefinitions(env: Environment, root: Option<string>, p: string): (r: seq<Definition>)
    ensures p !in env.files || env.files[p].None? ==> r == []
    ensures forall d :: d in r ==> d.filePath == env.resolve(p)
  {
    if p in env.files then
      ParsedDefinitionsSpec(env.files[p], env.resolve(p), root, env);
      ParsedDefinitions(env.files[p], env.resolve(p), root, env)
    else []
  }

  /** `parse_template_file`: nothing for a missing or undecodable file, else its usages tagged with the resolved path. */
  function FileUsages(env: Environment, sources: map<string, Option<string>>, p: string): (r: seq<Usage>)
    ensures p !in sources || sources[p].None? ==> r == []
    ensures forall u :: u in r ==> u.filePath == env.resolve(p)
  {
    if p in sources && sources[p].Some? then
      TemplateUsagesTagged(sources[p].value, env.resolve(p));
      TemplateUsages(sources[p].value, env.resolve(p))
    else []
  }

  /** What an update parses: the editor's `content` when given, the file on disk otherwise. */
  function UpdatedDefinitions(env: Environment, parse: string -> Option<seq<Stmt>>, root: Option<string>,
                              p: string, content: Option<string>): seq<Definition>
  {
    if content.Some? then ParsedDefinitions(parse(content.value), env.resolve(p), root, env)
    else FileDefinitions(env, root, p)
  }

  function UpdatedUsages(env: Environment, sources: map<string, Option<string>>, p: string,
                         content: Option<string>): seq<Usage>
  {
    if content.Some? then TemplateUsages(content.value, env.resolve(p)) else FileUsages(env, sources, p)
  }

  /** Whatever an update or an index parses is tagged with the resolved path: the key it is stored under. */
  lemma UpdatedTagged(env: Environment, parse: string -> Option<seq<Stmt>>, sources: map<string, Option<string>>,
                      root: Option<string>, p: string, content: Option<string>)
    ensures forall d :: d in UpdatedDefinitions(env, parse, root, p, content) ==> d.filePath == env.resolve(p)
    ensures forall d :: d in FileDefinitions(env, root, p) ==> d.filePath == env.resolve(p)
    ensures forall u :: u in UpdatedUsages(env, sources, p, content) ==> u.filePath == env.resolve(p)
    ensures forall u :: u in FileUsages(env, sources, p) ==> u.filePath == env.resolve(p)
  {
    hide ParsedDefinitions;
    hide TemplateUsages;
    if content.Some? {
      ParsedDefinitionsSpec(parse(content.value), env.resolve(p), root, env);
      TemplateUsagesTagged(content.value, env.resolve(p));
    }
    if p in env.files {
      ParsedDefinitionsSpec(env.files[p], env.resolve(p), root, env);
    }
    if p in sources && sources[p].Some? {
      TemplateUsagesTagged(sources[p].value, env.resolve(p));
    }
  }

  lemma TemplateUsagesTagged(content: string, path: string)
    ensures forall u :: u in TemplateUsages(content, path) ==> u.filePath == path
  {
    TemplateUsagesWellFormed(content, path);
  }

  /** The first loop of `build_full_index`. */
  function IndexPythonFiles(s: IndexState, env: Environment, root: Option<string>, paths: seq<string>): (r: IndexState)
    requires DictsValid(s)
    ensures DictsValid(r)
    decreases |paths|
  {
    if paths == [] then s
    else
      var p := paths[|paths| - 1];
      IndexPython(IndexPythonFiles(s, env, root, paths[..|paths| - 1]), env.resolve(p), FileDefinitions(env, root, p))
  }

  /** The second loop of `build_full_index`. */
  function IndexTemplateFiles(s: IndexState, env: Environment, sources: map<string, Option<string>>,
                              paths: seq<string>): (r: IndexState)
    requires DictsValid(s)
    ensures DictsValid(r)
    decreases |paths|
  {
    if paths == [] then s
    else
      var p := paths[|paths| - 1];
      IndexTemplate(IndexTemplateFiles(s, env, sources, paths[..|paths| - 1]), env.resolve(p), FileUsages(env, sources, p))
  }

  /** Creating a missing list and then appending, as the append loop does, is `AddUsage`. */
  lemma CreateThenAppend(d: Dict<seq<Usage>>, u: Usage)
    requires d.Valid()
    ensures var e := if u.name in d.entries then d else d.Put(u.name, []);
            e.Put(u.name, e.entries[u.name] + [u]) == AddUsage(d, u)
  {
    if u.name !in d.entries {
      assert [] + [u] == [u];
    }
  }

  lemma AddUsagesSnoc(d: Dict<seq<Usage>>, news: seq<Usage>, i: nat)
    requires d.Valid() && i < |news|
    ensures AddUsages(d, news[..i + 1]) == AddUsage(AddUsages(d, news[..i]), news[i])
  {
    assert news[..i + 1][..i] == news[..i];
  }

  /** The discovered files resolve to pairwise different keys (discovery deduplicates by `resolve()`). */
  predicate DistinctKeys(env: Environment, paths: seq<string>)
  {
    forall i, j :: 0 <= i < j < |paths| ==> env.resolve(paths[i]) != env.resolve(paths[j])
  }

  predicate IsAppMarker(part: string)
  {
    part == "hx_requests" || part == "templates" || part == "template_partials"
  }

  /** `parts[k]` is the first marker part at an index of at least `i`, and `name` the part before it. */
  predicate AppNameAt(parts: seq<string>, i: nat, k: nat, name: string)
  {
    1 <= i <= k < |parts| && IsAppMarker(parts[k]) && name == parts[k - 1]
    && forall j :: i <= j < k ==> !IsAppMarker(parts[j])
  }

  /** The part just before the first marker part at an index of at least `i`. */
  function AppNameFrom(parts: seq<string>, i: nat): (r: Option<string>)
    requires i >= 1
    ensures r.Some? ==> exists k :: AppNameAt(parts, i, k, r.value)
    ensures r.None? <==> forall k :: i <= k < |parts| ==> !IsAppMarker(parts[k])
    decreases |parts| - i
  {
    if i >= |parts| then None
    else if IsAppMarker(parts[i]) then assert AppNameAt(parts, i, i, parts[i - 1]); Some(parts[i - 1])
    else AppNameShift(parts, i, i + 1); AppNameFrom(parts, i + 1)
  }

  lemma AppNameShift(parts: seq<string>, i: nat, next: nat)
    requires 1 <= i < |parts| && !IsAppMarker(parts[i]) && next == i + 1
    ensures forall k, name :: AppNameAt(parts, next, k, name) ==> AppNameAt(parts, i, k, name)
  {
  }

  /**
   * `_extract_app_name`: the path part just before the first `hx_requests`,
   * `templates` or `template_partials` part that is not the first part.
   */
  function AppNameOf(p: string): Option<string>
  {
    AppNameFrom(Parts(p), 1)
  }

  /** The sort key `(0 if same app else 1, name)`. */
  function RelevanceKey(app: Option<string>): Definition -> RankKey
  {
    (d: Definition) => RankKey(if AppNameOf(d.filePath) == app then 0 else 1, d.name)
  }

  /** The sort key `d.name`. */
  function ByName(d: Definition): RankKey
  {
    RankKey(0, d.name)
  }

  function NameKey(n: string): RankKey
  {
    RankKey(0, n)
  }

  class HxRequestIndex {
    const env: Environment
    const templateSources: map<string, Option<string>>
    const parse: string -> Option<seq<Stmt>>

    var workspaceRoot: Option<string>
    var definitions: Dict<Definition>
    var usages: Dict<seq<Usage>>
    var definitionsByFile: map<string, seq<Definition>>
    var usagesByFile: map<string, seq<Usage>>
    var indexedPythonFiles: set<string>
    var indexedTemplateFiles: set<string>

    function State(): IndexState
      reads this
    {
      IndexState(definitions, usages, definitionsByFile, usagesByFile, indexedPythonFiles, indexedTemplateFiles)
    }

    ghost predicate Valid()
      reads this
    {
      Inv(State())
    }

    constructor (env: Environment, templateSources: map<string, Option<string>>,
                 parse: string -> Option<seq<Stmt>>, workspaceRoot: Option<string>)
      ensures this.env == env && this.templateSources == templateSources && this.parse == parse
      ensures this.workspaceRoot == RootOf(workspaceRoot)
      ensures State() == EmptyState()
      ensures Valid()
    {
      this.env := env;
      this.templateSources := templateSources;
      this.parse := parse;
      this.workspaceRoot := RootOf(workspaceRoot);
      definitions := Dicts.Empty();
      usages := Dicts.Empty();
      definitionsByFile := map[];
      usagesByFile := map[];
      indexedPythonFiles := {};
      indexedTemplateFiles := {};
      new;
      EmptyStateInv();
    }

    /** The `workspace_root` setter. */
    method SetWorkspaceRoot(value: Option<string>)
      modifies this`workspaceRoot
      ensures workspaceRoot == RootOf(value)
    {
      workspaceRoot := RootOf(value);
    }

    /**
     * `build_full_index` over the files discovery returns: a no-op without a
     * workspace root; otherwise the index is cleared and every Python file,
     * then every template, is indexed in order.
     */
    method BuildFullIndex(pythonPaths: seq<string>, templatePaths: seq<string>)
      requires Valid()
      requires DistinctKeys(env, pythonPaths) && DistinctKeys(env, templatePaths)
      modifies this`definitions, this`usages, this`definitionsByFile, this`usagesByFile,
               this`indexedPythonFiles, this`indexedTemplateFiles
      ensures Valid()
      ensures workspaceRoot.None? ==> State() == old(State())
      ensures workspaceRoot.Some? ==>
                State() == IndexTemplateFiles(IndexPythonFiles(EmptyState(), env, workspaceRoot, pythonPaths),
                                              env, templateSources, templatePaths)
    {
      if workspaceRoot.None? {
        return;
      }
      definitions := Dicts.Empty();
      usages := Dicts.Empty();
      definitionsByFile := map[];
      usagesByFile := map[];
      indexedPythonFiles := {};
      indexedTemplateFiles := {};
      EmptyStateInv();
      IndexAllPython(pythonPaths);
      IndexAllTemplates(templatePaths);
    }

    /** The first loop of `build_full_index`: each discovered Python file is indexed in turn. */
    method IndexAllPython(paths: seq<string>)
      requires Valid() && DistinctKeys(env, paths)
      requires forall j :: 0 <= j < |paths| ==> env.resolve(paths[j]) !in definitionsByFile
      modifies this`definitions, this`definitionsByFile, this`indexedPythonFiles
      ensures Valid()
      ensures State() == IndexPythonFiles(old(State()), env, workspaceRoot, paths)
    {
      assert DictsValid(old(State()));
      hide Inv, FileDefinitions, PutDefinitions;
      for i := 0 to |paths|
        invariant Valid()
        invariant State() == IndexPythonFiles(old(State()), env, workspaceRoot, paths[..i])
        invariant forall j :: i <= j < |paths| ==> env.resolve(paths[j]) !in definitionsByFile
      {
        assert paths[..i + 1][..i] == paths[..i];
        IndexPythonFile(paths[i]);
      }
      assert paths[..|paths|] == paths;
    }

    /** The second loop of `build_full_index`: each discovered template is indexed in turn. */
    method IndexAllTemplates(paths: seq<string>)
      requires Valid() && DistinctKeys(env, paths)
      requires forall j :: 0 <= j < |paths| ==> env.resolve(paths[j]) !in usagesByFile
      modifies this`usages, this`usagesByFile, this`indexedTemplateFiles
      ensures Valid()
      ensures State() == IndexTemplateFiles(old(State()), env, templateSources, paths)
    {
      assert DictsValid(old(State()));
      hide Inv, FileUsages, AddUsages;
      for i := 0 to |paths|
        invariant Valid()
        invariant State() == IndexTemplateFiles(old(State()), env, templateSources, paths[..i])
        invariant forall j :: i <= j < |paths| ==> env.resolve(paths[j]) !in usagesByFile
      {
        assert paths[..i + 1][..i] == paths[..i];
        IndexTemplateFile(paths[i]);
      }
      assert paths[..|paths|] == paths;
    }

    /** `parse_hx_requests_from_file` on the modelled file system. */
    method ParsePythonFile(path: string) returns (defs: seq<Definition>)
      ensures defs == FileDefinitions(env, workspaceRoot, path)
    {
      if path !in env.files {
        return [];
      }
      defs := ParseHxRequests(env.files[path], env.resolve(path), workspaceRoot, env);
    }

    /** `parse_template_file` on the modelled file system. */
    method ParseTemplateFile(path: string) returns (us: seq<Usage>)
      ensures us == FileUsages(env, templateSources, path)
    {
      if path !in templateSources || templateSources[path].None? {
        return [];
      }
      us := ParseTemplateForHxRequests(templateSources[path].value, env.resolve(path));
    }

    /** The loop `for d in defs: self._definitions[d.name] = d`. */
    method StoreDefinitions(news: seq<Definition>)
      requires definitions.Valid()
      modifies this`definitions
      ensures definitions == PutDefinitions(old(definitions), news)
    {
      for i := 0 to |news|
        invariant definitions == PutDefinitions(old(definitions), news[..i])
      {
        assert news[..i + 1][..i] == news[..i];
        definitions := definitions.Put(news[i].name, news[i]);
      }
      assert news[..|news|] == news;
    }

    /** The owner-checked removal loop over the file's old definitions. */
    method DropDefinitionsOf(key: string)
      requires definitions.Valid()
      modifies this`definitions
      ensures definitions == DropDefinitions(old(definitions), ListOf(definitionsByFile, key), key)
    {
      var olds := if key in definitionsByFile then definitionsByFile[key] else [];
      for i := 0 to |olds|
        invariant definitions == DropDefinitions(old(definitions), olds[..i], key)
      {
        assert olds[..i + 1][..i] == olds[..i];
        var name := olds[i].name;
        if name in definitions.entries {
          if definitions.entries[name].filePath == key {
            definitions := definitions.Remove(name);
          }
        }
      }
      assert olds[..|olds|] == olds;
    }

    /** The loop appending each fresh usage to its name's list, creating the list first. */
    method AppendUsages(news: seq<Usage>)
      requires usages.Valid()
      modifies this`usages
      ensures usages == AddUsages(old(usages), news)
    {
      for i := 0 to |news|
        invariant usages == AddUsages(old(usages), news[..i])
      {
        hide AddUsages, AddUsage;
        var u := news[i];
        CreateThenAppend(usages, u);
        AddUsagesSnoc(old(usages), news, i);
        if u.name !in usages.entries {
          usages := usages.Put(u.name, []);
        }
        usages := usages.Put(u.name, usages.entries[u.name] + [u]);
      }
      assert news[..|news|] == news;
    }

    /** The loop filtering the file's usages out of every list it touches, deleting lists left empty. */
    method DropUsagesOf(key: string)
      requires usages.Valid()
      modifies this`usages
      ensures usages == DropUsages(old(usages), ListOf(usagesByFile, key), key)
    {
      var olds := if key in usagesByFile then usagesByFile[key] else [];
      for i := 0 to |olds|
        invariant usages == DropUsages(old(usages), olds[..i], key)
      {
        assert olds[..i + 1][..i] == olds[..i];
        var name := olds[i].name;
        if name in usages.entries {
          ghost var before := usages;
          usages := usages.Put(name, OtherFiles(usages.entries[name], key));
          if usages.entries[name] == [] {
            usages := usages.Remove(name);
            assert usages.entries == before.entries - {name};
          }
        }
      }
      assert olds[..|olds|] == olds;
    }

    /** `_index_python_file`. */
    method IndexPythonFile(path: string)
      requires Valid()
      requires env.resolve(path) !in definitionsByFile
      modifies this`definitions, this`definitionsByFile, this`indexedPythonFiles
      ensures State() == IndexPython(old(State()), env.resolve(path), FileDefinitions(env, workspaceRoot, path))
      ensures Valid()
    {
      var key := env.resolve(path);
      var defs := ParsePythonFile(path);
      definitionsByFile := definitionsByFile[key := defs];
      indexedPythonFiles := indexedPythonFiles + {key};
      StoreDefinitions(defs);
      UpdatedTagged(env, parse, templateSources, workspaceRoot, path, None);
      IndexPythonIsUpdate(old(State()), key, defs);
      UpdatePythonKeepsInv(old(State()), key, defs);
    }

    /** `_index_template_file`. */
    method IndexTemplateFile(path: string)
      requires Valid()
      requires env.resolve(path) !in usagesByFile
      modifies this`usages, this`usagesByFile, this`indexedTemplateFiles
      ensures State() == IndexTemplate(old(State()), env.resolve(path), FileUsages(env, templateSources, path))
      ensures Valid()
    {
      var key := env.resolve(path);
      var us := ParseTemplateFile(path);
      usagesByFile := usagesByFile[key := us];
      indexedTemplateFiles := indexedTemplateFiles + {key};
      AppendUsages(us);
      UpdatedTagged(env, parse, templateSources, workspaceRoot, path, None);
      IndexTemplateIsUpdate(old(State()), key, us);
      UpdateTemplateKeepsInv(old(State()), key, us);
    }

    /**
     * `update_file`: a `.py` path is re-parsed as Python, an `.html` path
     * as a template, any other path leaves the index as it is.
     */
    method UpdateFile(path: string, content: Option<string>)
      requires Valid()
      modifies this`definitions, this`usages, this`definitionsByFile, this`usagesByFile,
               this`indexedPythonFiles, this`indexedTemplateFiles
      ensures Valid()
      ensures Suffix(path) == ".py" ==>
                State() == UpdatePython(old(State()), env.resolve(path),
                                        UpdatedDefinitions(env, parse, workspaceRoot, path, content))
      ensures Suffix(path) == ".html" ==>
                State() == UpdateTemplate(old(State()), env.resolve(path), UpdatedUsages(env, templateSources, path, content))
      ensures Suffix(path) != ".py" && Suffix(path) != ".html" ==> State() == old(State())
    {
      var key := env.resolve(path);
      if Suffix(path) == ".py" {
        UpdatePythonFile(path, key, content);
      } else if Suffix(path) == ".html" {
        UpdateTemplateFile(path, key, content);
      }
    }

    /** `_update_python_file`. */
    method UpdatePythonFile(path: string, key: string, content: Option<string>)
      requires Valid()
      requires key == env.resolve(path)
      modifies this`definitions, this`definitionsByFile, this`indexedPythonFiles
      ensures State() == UpdatePython(old(State()), key, UpdatedDefinitions(env, parse, workspaceRoot, path, content))
      ensures Valid()
    {
      assert definitions.Valid();
      hide Inv, ParsedDefinitions, FileDefinitions, PutDefinitions, DropDefinitions;
      DropDefinitionsOf(key);
      var defs;
      if content.Some? {
        defs := ParseHxRequests(parse(content.value), key, workspaceRoot, env);
      } else {
        defs := ParsePythonFile(path);
      }
      definitionsByFile := definitionsByFile[key := defs];
      indexedPythonFiles := indexedPythonFiles + {key};
      StoreDefinitions(defs);
      UpdatedTagged(env, parse, templateSources, workspaceRoot, path, content);
      UpdatePythonKeepsInv(old(State()), key, defs);
    }

    /** `_update_template_file`. */
    method UpdateTemplateFile(path: string, key: string, content: Option<string>)
      requires Valid()
      requires key == env.resolve(path)
      modifies this`usages, this`usagesByFile, this`indexedTemplateFiles
      ensures State() == UpdateTemplate(old(State()), key, UpdatedUsages(env, templateSources, path, content))
      ensures Valid()
    {
      assert usages.Valid();
      hide Inv, TemplateUsages, FileUsages, AddUsages, DropUsages;
      DropUsagesOf(key);
      var us;
      if content.Some? {
        us := ParseTemplateForHxRequests(content.value, key);
      } else {
        us := ParseTemplateFile(path);
      }
      usagesByFile := usagesByFile[key := us];
      indexedTemplateFiles := indexedTemplateFiles + {key};
      AppendUsages(us);
      UpdatedTagged(env, parse, templateSources, workspaceRoot, path, content);
      UpdateTemplateKeepsInv(old(State()), key, us);
    }

    /** `remove_file`. */
    method RemoveFile(path: string)
      requires Valid()
      modifies this`definitions, this`usages, this`definitionsByFile, this`usagesByFile,
               this`indexedPythonFiles, this`indexedTemplateFiles
      ensures State() == IndexModel.RemoveFile(old(State()), env.resolve(path))
      ensures Valid()
    {
      var key := env.resolve(path);
      if key in indexedPythonFiles {
        DropDefinitionsOf(key);
        definitionsByFile := definitionsByFile - {key};
        indexedPythonFiles := indexedPythonFiles - {key};
      }
      if key in indexedTemplateFiles {
        DropUsagesOf(key);
        usagesByFile := usagesByFile - {key};
        indexedTemplateFiles := indexedTemplateFiles - {key};
      }
      RemoveFileSpec(old(State()), key);
    }

    /** `get_definition`. */
    method GetDefinition(name: string) returns (r: Option<Definition>)
      requires Valid()
      ensures r.Some? <==> name in definitions.entries
      ensures r.Some? ==> r.value == definitions.entries[name] && r.value.name == name
                          && r.value.filePath in definitionsByFile && r.value in definitionsByFile[r.value.filePath]
    {
      r := definitions.Get(name);
    }

    /** `get_usages`: the indexed usages of the name, each file's in that file's order; `[]` for an unknown name. */
    method GetUsages(name: string) returns (r: seq<Usage>)
      requires Valid()
      ensures forall u :: u in r <==> u.name == name && IsIndexed(usagesByFile, u)
      ensures forall f :: OfFile(r, f) == OfName(ListOf(usagesByFile, f), name)
      ensures r == [] <==> name !in usages.entries
    {
      r := if name in usages.entries then usages.entries[name] else [];
      assert r == Named(usages, name);
      assert Regrouped(usages, usagesByFile);
      forall u ensures u in r <==> u.name == name && IsIndexed(usagesByFile, u) {
        IndexedUsage(State(), name, u);
      }
    }

    /** `get_all_definition_names`: the stored names, in strictly increasing order. */
    method GetAllDefinitionNames() returns (names: seq<string>)
      requires Valid()
      ensures multiset(names) == multiset(definitions.keys)
      ensures forall i, j :: 0 <= i < j < |names| ==> Less(names[i], names[j])
    {
      names := SortBy(definitions.keys, NameKey);
      PermutationKeepsDistinct(definitions.keys, names);
      SortedDistinctIsStrict(names, NameKey);
    }

    /** `_extract_app_name`. */
    method ExtractAppName(filePath: string) returns (r: Option<string>)
      ensures r == AppNameOf(filePath)
    {
      var parts := Parts(filePath);
      for i := 0 to |parts|
        invariant AppNameFrom(parts, 1) == AppNameFrom(parts, if i == 0 then 1 else i)
      {
        if IsAppMarker(parts[i]) && i > 0 {
          return Some(parts[i - 1]);
        }
      }
      return None;
    }

    /**
     * `get_definitions_sorted_by_relevance`: every stored definition once,
     * by name when there is no current file, otherwise those of the
     * current file's app first and then by name.
     */
    method GetDefinitionsSortedByRelevance(currentFile: Option<string>) returns (r: seq<Definition>)
      requires Valid()
      ensures multiset(r) == multiset(definitions.Values())
      ensures currentFile.None? || currentFile.value == "" ==> StrictlySorted(r, ByName)
      ensures currentFile.Some? && currentFile.value != "" ==>
                StrictlySorted(r, RelevanceKey(AppNameOf(env.resolve(currentFile.value))))
    {
      var all := definitions.Values();
      if currentFile.None? || currentFile.value == "" {
        r := SortBy(all, ByName);
        DistinctNames(all, r);
        SortedDistinctIsStrict(r, ByName);
        return;
      }
      var currentApp := ExtractAppName(env.resolve(currentFile.value));
      r := SortBy(all, RelevanceKey(currentApp));
      DistinctNames(all, r);
      SortedDistinctIsStrict(r, RelevanceKey(currentApp));
    }

    /** The stored definitions have pairwise different names, and so has any rearrangement of them. */
    lemma DistinctNames(all: seq<Definition>, r: seq<Definition>)
      requires Valid()
      requires all == definitions.Values()
      requires multiset(r) == multiset(all)
      ensures forall i, j :: 0 <= i < j < |r| ==> r[i].name != r[j].name
    {
      assert Distinct(all);
      PermutationKeepsDistinct(all, r);
      forall i, j | 0 <= i < j < |r| ensures r[i].name != r[j].name {
        assert r[i] in multiset(all) && r[j] in multiset(all);
      }
    }

    /** `get_all_definitions`: the stored definitions in insertion order of their names. */
    method GetAllDefinitions() returns (r: seq<Definition>)
      requires Valid()
      ensures |r| == |definitions.keys|
      ensures forall i :: 0 <= i < |r| ==> r[i] == definitions.entries[definitions.keys[i]] && r[i].name == definitions.keys[i]
    {
      r := definitions.Values();
    }

    /** `get_definitions_in_file`. */
    method GetDefinitionsInFile(filePath: string) returns (r: seq<Definition>)
      requires Valid()
      ensures r == ListOf(definitionsByFile, env.resolve(filePath))
      ensures forall d :: d in r ==> d.filePath == env.resolve(filePath)
      ensures r != [] ==> env.resolve(filePath) in indexedPythonFiles
    {
      var key := env.resolve(filePath);
      r := if key in definitionsByFile then definitionsByFile[key] else [];
    }

    /** `get_usages_in_file`. */
    method GetUsagesInFile(filePath: string) returns (r: seq<Usage>)
      requires Valid()
      ensures r == ListOf(usagesByFile, env.resolve(filePath))
      ensures forall u :: u in r ==> u.filePath == env.resolve(filePath)
      ensures r != [] ==> env.resolve(filePath) in indexedTemplateFiles
    {
      var key := env.resolve(filePath);
      r := if key in usagesByFile then usagesByFile[key] else [];
    }

    /** `find_undefined_usages`: the indexed usages whose name has no definition, name by name in key order. */
    method FindUndefinedUsages() returns (undefined: seq<Usage>)
      requires Valid()
      ensures undefined == UndefinedFrom(usages, usages.keys, definitions.entries)
      ensures forall u :: u in undefined <==> IsIndexed(usagesByFile, u) && u.name !in definitions.entries
    {
      undefined := [];
      var names := usages.keys;
      for i := 0 to |names|
        invariant undefined == UndefinedFrom(usages, names[..i], definitions.entries)
      {
        assert names[..i + 1][..i] == names[..i];
        var name := names[i];
        assert name in usages.entries;
        hide Inv;
        if name !in definitions.entries {
          undefined := undefined + usages.entries[name];
        }
      }
      assert names[..|names|] == names;
      UndefinedUsagesSpec(State());
    }

    /** `find_unused_definitions`: the stored definitions whose name no indexed template uses, in key order. */
    method FindUnusedDefinitions() returns (unused: seq<Definition>)
      requires Valid()
      ensures unused == UnusedFrom(definitions, definitions.keys, usages)
      ensures forall d :: d in unused <==> d.name in definitions.entries && definitions.entries[d.name] == d
                                           && NeverUsed(usagesByFile, d.name)
    {
      unused := [];
      var names := definitions.keys;
      for i := 0 to |names|
        invariant unused == UnusedFrom(definitions, names[..i], usages)
      {
        assert names[..i + 1][..i] == names[..i];
        var name := names[i];
        assert name in definitions.entries;
        hide Inv;
        if name !in usages.entries || usages.entries[name] == [] {
          unused := unused + [definitions.entries[name]];
        }
      }
      assert names[..|names|] == names;
      UnusedDefinitionsSpec(State());
    }
  }
}
