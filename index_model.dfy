/**
 * The state of `HxRequestIndex` as a value, and each of its per-file
 * operations as a function on that value: the four maps (name to
 * definition, name to usage list, file to definitions, file to usages) and
 * the two sets of indexed files.
 *
 * The invariant `Inv` says what the operations keep: every stored
 * definition is stored under its name and listed for the file it names, no
 * name maps to an empty usage list, and the name-to-usages map is exactly
 * the per-file usage lists regrouped by name.
 */
module IndexModel {
  import opened Wrappers
  import opened Dicts
  import opened PythonAst
  import opened PythonParser
  import opened TemplateParser

  datatype IndexState = IndexState(
    definitions: Dict<Definition>,
    usages: Dict<seq<Usage>>,
    definitionsByFile: map<string, seq<Definition>>,
    usagesByFile: map<string, seq<Usage>>,
    pythonFiles: set<string>,
    templateFiles: set<string>)

  /** The index before anything is indexed (and after `build_full_index` clears it). */
  function EmptyState(): (s: IndexState)
    ensures s.definitions.Valid() && s.usages.Valid()
  {
    IndexState(Dicts.Empty(), Dicts.Empty(), map[], map[], {}, {})
  }

  ghost predicate DictsValid(s: IndexState)
  {
    s.definitions.Valid() && s.usages.Valid()
  }

  /** `m.get(k, [])`. */
  function ListOf<T>(m: map<string, seq<T>>, k: string): seq<T>
  {
    if k in m then m[k] else []
  }

  /** `usages.get(n, [])`. */
  function Named(d: Dict<seq<Usage>>, n: string): seq<Usage>
  {
    if n in d.entries then d.entries[n] else []
  }

  // ---------------------------------------------------------------------
  // Filters over usage lists
  // ---------------------------------------------------------------------

  /** The usages that come from file `f`, in order. */
  function OfFile(us: seq<Usage>, f: string): (r: seq<Usage>)
    ensures forall u :: u in r <==> u in us && u.filePath == f
  {
    if us == [] then [] else (if us[0].filePath == f then [us[0]] else []) + OfFile(us[1..], f)
  }

  /** The source's `[u for u in us if u.file_path != f]`. */
  function OtherFiles(us: seq<Usage>, f: string): (r: seq<Usage>)
    ensures forall u :: u in r <==> u in us && u.filePath != f
  {
    if us == [] then [] else (if us[0].filePath != f then [us[0]] else []) + OtherFiles(us[1..], f)
  }

  /** The usages named `n`, in order. */
  function OfName(us: seq<Usage>, n: string): (r: seq<Usage>)
    ensures forall u :: u in r <==> u in us && u.name == n
  {
    if us == [] then [] else (if us[0].name == n then [us[0]] else []) + OfName(us[1..], n)
  }

  lemma {:induction false} OfFileAppend(a: seq<Usage>, b: seq<Usage>, f: string)
    ensures OfFile(a + b, f) == OfFile(a, f) + OfFile(b, f)
  {
    if a == [] {
      assert a + b == b;
    } else {
      assert (a + b)[0] == a[0] && (a + b)[1..] == a[1..] + b;
      OfFileAppend(a[1..], b, f);
      AppendAssoc(if a[0].filePath == f then [a[0]] else [], OfFile(a[1..], f), OfFile(b, f));
    }
  }

  lemma {:induction false} OfNameAppend(a: seq<Usage>, b: seq<Usage>, n: string)
    ensures OfName(a + b, n) == OfName(a, n) + OfName(b, n)
  {
    if a == [] {
      assert a + b == b;
    } else {
      assert (a + b)[0] == a[0] && (a + b)[1..] == a[1..] + b;
      OfNameAppend(a[1..], b, n);
      AppendAssoc(if a[0].name == n then [a[0]] else [], OfName(a[1..], n), OfName(b, n));
    }
  }

  /** Keeping the other files' usages and then taking file `f`'s: nothing for the dropped file, all of `f`'s otherwise. */
  lemma {:induction false} OfFileOfOthers(us: seq<Usage>, key: string, f: string)
    ensures OfFile(OtherFiles(us, key), f) == if f == key then [] else OfFile(us, f)
  {
    if us != [] {
      OfFileOfOthers(us[1..], key, f);
      var h := if us[0].filePath != key then [us[0]] else [];
      OfFileAppend(h, OtherFiles(us[1..], key), f);
    }
  }

  /** A list holding nothing from `key` is left as it is by the comprehension. */
  lemma {:induction false} OthersWhenNone(us: seq<Usage>, key: string)
    requires OfFile(us, key) == []
    ensures OtherFiles(us, key) == us
  {
    if us != [] {
      assert us[0] !in OfFile(us, key);
      assert forall u :: u in us[1..] ==> u in us;
      OthersWhenNone(us[1..], key);
    }
  }

  lemma {:induction false} OfFileAll(us: seq<Usage>, f: string)
    requires forall u :: u in us ==> u.filePath == f
    ensures OfFile(us, f) == us
  {
    if us != [] {
      assert forall u :: u in us[1..] ==> u in us;
      OfFileAll(us[1..], f);
    }
  }

  lemma OfFileNone(us: seq<Usage>, f: string)
    requires forall u :: u in us ==> u.filePath != f
    ensures OfFile(us, f) == []
  {
  }

  // ---------------------------------------------------------------------
  // The loops of `_update_template_file` and `_index_template_file`
  // ---------------------------------------------------------------------

  /**
   * One pass of the removal loop for a name: the list keeps the other
   * files' usages, and the name is deleted once nothing is left.
   */
  function DropUsage(d: Dict<seq<Usage>>, name: string, key: string): (r: Dict<seq<Usage>>)
    requires d.Valid()
    ensures r.Valid()
  {
    if name in d.entries then
      var kept := OtherFiles(d.entries[name], key);
      if kept == [] then d.Remove(name) else d.Put(name, kept)
    else d
  }

  /** The removal loop over a file's old usages `olds`. */
  function DropUsages(d: Dict<seq<Usage>>, olds: seq<Usage>, key: string): (r: Dict<seq<Usage>>)
    requires d.Valid()
    ensures r.Valid()
    decreases |olds|
  {
    if olds == [] then d
    else DropUsage(DropUsages(d, olds[..|olds| - 1], key), olds[|olds| - 1].name, key)
  }

  /** `if u.name not in usages: usages[u.name] = []`, then `usages[u.name].append(u)`. */
  function AddUsage(d: Dict<seq<Usage>>, u: Usage): (r: Dict<seq<Usage>>)
    requires d.Valid()
    ensures r.Valid()
  {
    if u.name in d.entries then d.Put(u.name, d.entries[u.name] + [u]) else d.Put(u.name, [u])
  }

  /** The append loop over a file's fresh usages. */
  function AddUsages(d: Dict<seq<Usage>>, news: seq<Usage>): (r: Dict<seq<Usage>>)
    requires d.Valid()
    ensures r.Valid()
    decreases |news|
  {
    if news == [] then d else AddUsage(AddUsages(d, news[..|news| - 1]), news[|news| - 1])
  }

  predicate NonEmptyLists(d: Dict<seq<Usage>>)
  {
    forall n :: n in d.entries ==> d.entries[n] != []
  }

  /**
   * The removal loop filters the list of every name that occurs among the
   * old usages and leaves the other names alone; no list is left empty.
   */
  lemma {:induction false} DropUsagesSpec(d: Dict<seq<Usage>>, olds: seq<Usage>, key: string)
    requires d.Valid()
    ensures forall n :: Named(DropUsages(d, olds, key), n)
                        == if OfName(olds, n) != [] then OtherFiles(Named(d, n), key) else Named(d, n)
    ensures NonEmptyLists(d) ==> NonEmptyLists(DropUsages(d, olds, key))
    decreases |olds|
  {
    if olds != [] {
      hide DropUsage;
      hide OtherFiles;
      hide OfName;
      var init := olds[..|olds| - 1];
      var last := olds[|olds| - 1];
      assert olds == init + [last];
      DropUsagesSpec(d, init, key);
      DropUsageStep(DropUsages(d, init, key), last.name, key);
      forall n
        ensures Named(DropUsages(d, olds, key), n)
                == if OfName(olds, n) != [] then OtherFiles(Named(d, n), key) else Named(d, n)
      {
        OfNameAppend(init, [last], n);
        OfNameSingle(last, n);
        if n == last.name && OfName(init, n) != [] {
          OthersIdempotent(Named(d, n), key);
        }
      }
    }
  }

  lemma DropUsageStep(d: Dict<seq<Usage>>, name: string, key: string)
    requires d.Valid()
    ensures forall n :: Named(DropUsage(d, name, key), n) == if n == name then OtherFiles(Named(d, n), key) else Named(d, n)
    ensures NonEmptyLists(d) ==> NonEmptyLists(DropUsage(d, name, key))
  {
  }

  lemma AddUsageStep(d: Dict<seq<Usage>>, u: Usage)
    requires d.Valid()
    ensures forall n :: Named(AddUsage(d, u), n) == Named(d, n) + OfName([u], n)
    ensures NonEmptyLists(d) ==> NonEmptyLists(AddUsage(d, u))
  {
  }

  lemma OfNameSingle(u: Usage, n: string)
    ensures OfName([u], n) == if u.name == n then [u] else []
  {
  }

  lemma OthersIdempotent(us: seq<Usage>, key: string)
    ensures OtherFiles(OtherFiles(us, key), key) == OtherFiles(us, key)
  {
    OfFileOfOthers(us, key, key);
    OthersWhenNone(OtherFiles(us, key), key);
  }

  /** The append loop adds each fresh usage at the end of its name's list. */
  lemma {:induction false} AddUsagesSpec(d: Dict<seq<Usage>>, news: seq<Usage>)
    requires d.Valid()
    ensures forall n :: Named(AddUsages(d, news), n) == Named(d, n) + OfName(news, n)
    ensures NonEmptyLists(d) ==> NonEmptyLists(AddUsages(d, news))
    decreases |news|
  {
    if news != [] {
      hide AddUsage;
      hide OfName;
      var init := news[..|news| - 1];
      var last := news[|news| - 1];
      assert news == init + [last];
      AddUsagesSpec(d, init);
      AddUsageStep(AddUsages(d, init), last);
      forall n ensures Named(AddUsages(d, news), n) == Named(d, n) + OfName(news, n) {
        OfNameAppend(init, [last], n);
        AppendAssoc(Named(d, n), OfName(init, n), OfName([last], n));
      }
    }
  }

  // ---------------------------------------------------------------------
  // The loops of `_update_python_file` and `_index_python_file`
  // ---------------------------------------------------------------------

  /** The last definition named `n`: the one a run of `definitions[d.name] = d` leaves stored. */
  function LastNamed(ds: seq<Definition>, n: string): (r: Option<Definition>)
    ensures r.Some? ==> r.value in ds && r.value.name == n
    ensures r.None? <==> forall d :: d in ds ==> d.name != n
    decreases |ds|
  {
    if ds == [] then None
    else if ds[|ds| - 1].name == n then Some(ds[|ds| - 1])
    else
      assert ds == ds[..|ds| - 1] + [ds[|ds| - 1]];
      LastNamed(ds[..|ds| - 1], n)
  }

  /** No definition after the one `LastNamed` picks has its name. */
  lemma {:induction false} LastNamedIsLast(ds: seq<Definition>, n: string)
    requires LastNamed(ds, n).Some?
    ensures exists i :: 0 <= i < |ds| && ds[i] == LastNamed(ds, n).value
                        && forall j :: i < j < |ds| ==> ds[j].name != n
    decreases |ds|
  {
    if ds[|ds| - 1].name != n {
      LastNamedIsLast(ds[..|ds| - 1], n);
    }
  }

  /** One pass of the removal loop: `del` a name only if its stored definition belongs to `key`. */
  function DropDefinition(defs: Dict<Definition>, name: string, key: string): (r: Dict<Definition>)
    requires defs.Valid()
    ensures r.Valid()
  {
    if name in defs.entries && defs.entries[name].filePath == key then defs.Remove(name) else defs
  }

  function DropDefinitions(defs: Dict<Definition>, olds: seq<Definition>, key: string): (r: Dict<Definition>)
    requires defs.Valid()
    ensures r.Valid()
    decreases |olds|
  {
    if olds == [] then defs
    else DropDefinition(DropDefinitions(defs, olds[..|olds| - 1], key), olds[|olds| - 1].name, key)
  }

  /** The loop `for d in news: definitions[d.name] = d`. */
  function PutDefinitions(defs: Dict<Definition>, news: seq<Definition>): (r: Dict<Definition>)
    requires defs.Valid()
    ensures r.Valid()
    decreases |news|
  {
    if news == [] then defs
    else PutDefinitions(defs, news[..|news| - 1]).Put(news[|news| - 1].name, news[|news| - 1])
  }

  /**
   * Removal is owner-checked: a name goes only when one of the old
   * definitions has it and the stored definition belongs to `key`; every
   * other entry stays as it was.
   */
  lemma {:induction false} DropDefinitionsSpec(defs: Dict<Definition>, olds: seq<Definition>, key: string)
    requires defs.Valid()
    ensures forall n :: DropDefinitions(defs, olds, key).Get(n)
                        == if LastNamed(olds, n).Some? && n in defs.entries && defs.entries[n].filePath == key
                           then None else defs.Get(n)
    decreases |olds|
  {
    if olds != [] {
      DropDefinitionsSpec(defs, olds[..|olds| - 1], key);
    }
  }

  /** Latest wins: a name the new definitions carry holds the last of them; other names are untouched. */
  lemma {:induction false} PutDefinitionsSpec(defs: Dict<Definition>, news: seq<Definition>)
    requires defs.Valid()
    ensures forall n :: PutDefinitions(defs, news).Get(n)
                        == if LastNamed(news, n).Some? then LastNamed(news, n) else defs.Get(n)
    decreases |news|
  {
    if news != [] {
      PutDefinitionsSpec(defs, news[..|news| - 1]);
    }
  }

  // ---------------------------------------------------------------------
  // The operations
  // ---------------------------------------------------------------------

  /** `_index_python_file` once the file is parsed: no old definitions are removed. */
  function IndexPython(s: IndexState, key: string, news: seq<Definition>): (r: IndexState)
    requires DictsValid(s)
    ensures DictsValid(r)
  {
    s.(definitions := PutDefinitions(s.definitions, news),
       definitionsByFile := s.definitionsByFile[key := news],
       pythonFiles := s.pythonFiles + {key})
  }

  /** `_update_python_file` once the file is parsed: the old definitions it owns go first. */
  function UpdatePython(s: IndexState, key: string, news: seq<Definition>): (r: IndexState)
    requires DictsValid(s)
    ensures DictsValid(r)
  {
    IndexPython(s.(definitions := DropDefinitions(s.definitions, ListOf(s.definitionsByFile, key), key)), key, news)
  }

  /** `_index_template_file` once the file is parsed. */
  function IndexTemplate(s: IndexState, key: string, news: seq<Usage>): (r: IndexState)
    requires DictsValid(s)
    ensures DictsValid(r)
  {
    s.(usages := AddUsages(s.usages, news),
       usagesByFile := s.usagesByFile[key := news],
       templateFiles := s.templateFiles + {key})
  }

  /** `_update_template_file` once the file is parsed: the file's old usages go first. */
  function UpdateTemplate(s: IndexState, key: string, news: seq<Usage>): (r: IndexState)
    requires DictsValid(s)
    ensures DictsValid(r)
  {
    IndexTemplate(s.(usages := DropUsages(s.usages, ListOf(s.usagesByFile, key), key)), key, news)
  }

  /** The Python half of `remove_file`. */
  function RemovePython(s: IndexState, key: string): (r: IndexState)
    requires DictsValid(s)
    ensures DictsValid(r)
  {
    if key in s.pythonFiles then
      s.(definitions := DropDefinitions(s.definitions, ListOf(s.definitionsByFile, key), key),
         definitionsByFile := s.definitionsByFile - {key},
         pythonFiles := s.pythonFiles - {key})
    else s
  }

  /** The template half of `remove_file`. */
  function RemoveTemplate(s: IndexState, key: string): (r: IndexState)
    requires DictsValid(s)
    ensures DictsValid(r)
  {
    if key in s.templateFiles then
      s.(usages := DropUsages(s.usages, ListOf(s.usagesByFile, key), key),
         usagesByFile := s.usagesByFile - {key},
         templateFiles := s.templateFiles - {key})
    else s
  }

  /** `remove_file` for the resolved path `key`. */
  function RemoveFile(s: IndexState, key: string): (r: IndexState)
    requires DictsValid(s)
    ensures DictsValid(r)
  {
    RemoveTemplate(RemovePython(s, key), key)
  }

  // ---------------------------------------------------------------------
  // The invariant
  // ---------------------------------------------------------------------

  /** Each per-file list holds only what the parser tagged with that file. */
  predicate DefinitionsTagged(b: map<string, seq<Definition>>)
  {
    forall f, d :: f in b && d in b[f] ==> d.filePath == f
  }

  predicate UsagesTagged(b: map<string, seq<Usage>>)
  {
    forall f, u :: f in b && u in b[f] ==> u.filePath == f
  }

  /** Every stored definition is stored under its own name and listed for the file it names. */
  predicate StoredListed(defs: Dict<Definition>, b: map<string, seq<Definition>>)
  {
    forall n :: n in defs.entries ==>
      defs.entries[n].name == n && defs.entries[n].filePath in b && defs.entries[n] in b[defs.entries[n].filePath]
  }

  /** The usages of `n` that come from `f` are exactly `f`'s usages of `n`, in `f`'s order. */
  ghost predicate Regrouped(d: Dict<seq<Usage>>, b: map<string, seq<Usage>>)
  {
    forall n, f :: OfFile(Named(d, n), f) == OfName(ListOf(b, f), n)
  }

  ghost predicate Inv(s: IndexState)
  {
    && DictsValid(s)
    && s.definitionsByFile.Keys == s.pythonFiles
    && s.usagesByFile.Keys == s.templateFiles
    && DefinitionsTagged(s.definitionsByFile)
    && UsagesTagged(s.usagesByFile)
    && StoredListed(s.definitions, s.definitionsByFile)
    && NonEmptyLists(s.usages)
    && Regrouped(s.usages, s.usagesByFile)
  }

  lemma EmptyStateInv()
    ensures Inv(EmptyState())
  {
    forall n, f ensures OfFile(Named(EmptyState().usages, n), f) == OfName(ListOf(EmptyState().usagesByFile, f), n) {
    }
  }

  /** A stored usage list holds exactly the indexed usages of its name. */
  lemma IndexedUsage(s: IndexState, n: string, u: Usage)
    requires Inv(s)
    ensures u in Named(s.usages, n) <==>
              u.name == n && u.filePath in s.usagesByFile && u in s.usagesByFile[u.filePath]
  {
    var f := u.filePath;
    assert OfFile(Named(s.usages, n), f) == OfName(ListOf(s.usagesByFile, f), n);
  }

  /** A name has no usage list exactly when no indexed template uses it. */
  lemma NoUsagesIff(s: IndexState, n: string)
    requires Inv(s)
    ensures Named(s.usages, n) == [] <==> forall f :: f in s.usagesByFile ==> OfName(s.usagesByFile[f], n) == []
  {
    var x := Named(s.usages, n);
    if x != [] {
      var f := x[0].filePath;
      assert OfFile(x, f) == OfName(ListOf(s.usagesByFile, f), n);
      assert x[0] in OfFile(x, f);
    } else {
      forall f | f in s.usagesByFile ensures OfName(s.usagesByFile[f], n) == [] {
        assert OfFile(x, f) == OfName(ListOf(s.usagesByFile, f), n);
      }
    }
  }

  /** Under the invariant the removal loop drops exactly `key`'s usages from every list. */
  lemma DropFileUsages(s: IndexState, key: string)
    requires Inv(s)
    ensures forall n :: Named(DropUsages(s.usages, ListOf(s.usagesByFile, key), key), n) == OtherFiles(Named(s.usages, n), key)
    ensures NonEmptyLists(DropUsages(s.usages, ListOf(s.usagesByFile, key), key))
  {
    var olds := ListOf(s.usagesByFile, key);
    DropUsagesSpec(s.usages, olds, key);
    forall n | OfName(olds, n) == []
      ensures OtherFiles(Named(s.usages, n), key) == Named(s.usages, n)
    {
      assert OfFile(Named(s.usages, n), key) == OfName(ListOf(s.usagesByFile, key), n);
      OthersWhenNone(Named(s.usages, n), key);
    }
  }

  /**
   * A template update keeps, for every name, the other files' usages in
   * their order and appends the file's fresh usages of that name.
   */
  lemma UpdateTemplateUsages(s: IndexState, key: string, news: seq<Usage>)
    requires Inv(s)
    ensures forall n :: Named(UpdateTemplate(s, key, news).usages, n) == OtherFiles(Named(s.usages, n), key) + OfName(news, n)
    ensures UpdateTemplate(s, key, news).usagesByFile[key] == news
  {
    DropFileUsages(s, key);
    AddUsagesSpec(DropUsages(s.usages, ListOf(s.usagesByFile, key), key), news);
  }

  /** The lists after dropping `key` and appending `news` regroup the per-file lists where `key` now holds `news`. */
  lemma RegroupAfterReplace(s: IndexState, key: string, news: seq<Usage>, d: Dict<seq<Usage>>, b: map<string, seq<Usage>>)
    requires Inv(s)
    requires forall u :: u in news ==> u.filePath == key
    requires forall n :: Named(d, n) == OtherFiles(Named(s.usages, n), key) + OfName(news, n)
    requires forall f :: f != key ==> ListOf(b, f) == ListOf(s.usagesByFile, f)
    requires ListOf(b, key) == news
    ensures Regrouped(d, b)
  {
    hide OfFile;
    hide OtherFiles;
    hide OfName;
    forall n, f ensures OfFile(Named(d, n), f) == OfName(ListOf(b, f), n) {
      var x := Named(s.usages, n);
      OfFileAppend(OtherFiles(x, key), OfName(news, n), f);
      OfFileOfOthers(x, key, f);
      assert OfFile(x, f) == OfName(ListOf(s.usagesByFile, f), n);
      if f == key {
        OfFileAll(OfName(news, n), f);
      } else {
        OfFileNone(OfName(news, n), f);
      }
    }
  }

  lemma UpdateTemplateKeepsInv(s: IndexState, key: string, news: seq<Usage>)
    requires Inv(s)
    requires forall u :: u in news ==> u.filePath == key
    ensures Inv(UpdateTemplate(s, key, news))
  {
    var r := UpdateTemplate(s, key, news);
    UpdateTemplateUsages(s, key, news);
    DropFileUsages(s, key);
    AddUsagesSpec(DropUsages(s.usages, ListOf(s.usagesByFile, key), key), news);
    RegroupAfterReplace(s, key, news, r.usages, r.usagesByFile);
  }

  /** On a file not indexed yet, indexing is the same as updating. */
  lemma IndexTemplateIsUpdate(s: IndexState, key: string, news: seq<Usage>)
    requires DictsValid(s)
    requires key !in s.usagesByFile
    ensures IndexTemplate(s, key, news) == UpdateTemplate(s, key, news)
  {
  }

  lemma RemoveTemplateKeepsInv(s: IndexState, key: string)
    requires Inv(s)
    ensures Inv(RemoveTemplate(s, key))
    ensures RemoveTemplate(s, key).definitions == s.definitions
    ensures key !in RemoveTemplate(s, key).usagesByFile
    ensures forall n :: Named(RemoveTemplate(s, key).usages, n) == OtherFiles(Named(s.usages, n), key)
  {
    if key in s.templateFiles {
      var r := RemoveTemplate(s, key);
      DropFileUsages(s, key);
      forall n ensures Named(r.usages, n) == OtherFiles(Named(s.usages, n), key) + OfName([], n) {
      }
      RegroupAfterReplace(s, key, [], r.usages, r.usagesByFile);
    } else {
      forall n ensures OfFile(Named(s.usages, n), key) == [] {
        assert OfFile(Named(s.usages, n), key) == OfName(ListOf(s.usagesByFile, key), n);
      }
      forall n ensures OtherFiles(Named(s.usages, n), key) == Named(s.usages, n) {
        OthersWhenNone(Named(s.usages, n), key);
      }
    }
  }

  /** Under the invariant the removal loop for `key` deletes exactly the names whose stored definition `key` owns. */
  lemma DropFileDefinitions(s: IndexState, key: string)
    requires Inv(s)
    ensures forall n :: DropDefinitions(s.definitions, ListOf(s.definitionsByFile, key), key).Get(n)
                        == if n in s.definitions.entries && s.definitions.entries[n].filePath == key
                           then None else s.definitions.Get(n)
  {
    var olds := ListOf(s.definitionsByFile, key);
    DropDefinitionsSpec(s.definitions, olds, key);
    forall n | n in s.definitions.entries && s.definitions.entries[n].filePath == key
      ensures LastNamed(olds, n).Some?
    {
      assert s.definitions.entries[n] in olds;
    }
  }

  /**
   * A Python update: a name the fresh definitions carry holds the last of
   * them; otherwise a name whose stored definition the file owned is gone,
   * and every other entry is unchanged.
   */
  lemma UpdatePythonDefinitions(s: IndexState, key: string, news: seq<Definition>)
    requires Inv(s)
    ensures forall n :: UpdatePython(s, key, news).definitions.Get(n)
                        == if LastNamed(news, n).Some? then LastNamed(news, n)
                           else if n in s.definitions.entries && s.definitions.entries[n].filePath == key then None
                           else s.definitions.Get(n)
    ensures UpdatePython(s, key, news).definitionsByFile[key] == news
  {
    DropFileDefinitions(s, key);
    PutDefinitionsSpec(DropDefinitions(s.definitions, ListOf(s.definitionsByFile, key), key), news);
  }

  lemma UpdatePythonKeepsInv(s: IndexState, key: string, news: seq<Definition>)
    requires Inv(s)
    requires forall d :: d in news ==> d.filePath == key
    ensures Inv(UpdatePython(s, key, news))
  {
    var r := UpdatePython(s, key, news);
    UpdatePythonDefinitions(s, key, news);
    forall n | n in r.definitions.entries
      ensures r.definitions.entries[n].name == n && r.definitions.entries[n].filePath in r.definitionsByFile
              && r.definitions.entries[n] in r.definitionsByFile[r.definitions.entries[n].filePath]
    {
      assert r.definitions.Get(n).Some?;
    }
    assert r.usages == s.usages && r.usagesByFile == s.usagesByFile;
  }

  /** On a file not indexed yet, indexing is the same as updating. */
  lemma IndexPythonIsUpdate(s: IndexState, key: string, news: seq<Definition>)
    requires DictsValid(s)
    requires key !in s.definitionsByFile
    ensures IndexPython(s, key, news) == UpdatePython(s, key, news)
  {
  }

  lemma RemovePythonKeepsInv(s: IndexState, key: string)
    requires Inv(s)
    ensures Inv(RemovePython(s, key))
    ensures RemovePython(s, key).usages == s.usages && RemovePython(s, key).usagesByFile == s.usagesByFile
    ensures key !in RemovePython(s, key).definitionsByFile
    ensures forall n :: RemovePython(s, key).definitions.Get(n)
                        == if n in s.definitions.entries && s.definitions.entries[n].filePath == key
                           then None else s.definitions.Get(n)
  {
    var r := RemovePython(s, key);
    if key in s.pythonFiles {
      DropFileDefinitions(s, key);
      forall n | n in r.definitions.entries
        ensures r.definitions.entries[n].name == n && r.definitions.entries[n].filePath in r.definitionsByFile
                && r.definitions.entries[n] in r.definitionsByFile[r.definitions.entries[n].filePath]
      {
        assert r.definitions.Get(n).Some?;
      }
    }
  }

  /**
   * `remove_file`: the file's usages leave every list, the names whose
   * stored definition it owned are deleted, nothing else changes, and the
   * invariant holds.
   */
  lemma RemoveFileSpec(s: IndexState, key: string)
    requires Inv(s)
    ensures Inv(RemoveFile(s, key))
    ensures key !in RemoveFile(s, key).definitionsByFile && key !in RemoveFile(s, key).usagesByFile
    ensures forall n :: Named(RemoveFile(s, key).usages, n) == OtherFiles(Named(s.usages, n), key)
    ensures forall n :: RemoveFile(s, key).definitions.Get(n)
                        == if n in s.definitions.entries && s.definitions.entries[n].filePath == key
                           then None else s.definitions.Get(n)
  {
    RemovePythonKeepsInv(s, key);
    RemoveTemplateKeepsInv(RemovePython(s, key), key);
  }

  /** Removing a file neither indexed as Python nor as a template changes nothing. */
  lemma RemoveUnindexed(s: IndexState, key: string)
    requires DictsValid(s)
    requires key !in s.pythonFiles && key !in s.templateFiles
    ensures RemoveFile(s, key) == s
  {
  }

  // ---------------------------------------------------------------------
  // The queries
  // ---------------------------------------------------------------------

  /** An indexed usage: its file is indexed and lists it. */
  predicate IsIndexed(b: map<string, seq<Usage>>, u: Usage)
  {
    u.filePath in b && u in b[u.filePath]
  }

  /** No indexed template uses the name `n`. */
  predicate NeverUsed(b: map<string, seq<Usage>>, n: string)
  {
    forall f :: f in b ==> OfName(b[f], n) == []
  }

  /** What `find_undefined_usages` collects visiting the names `ks` in order. */
  function UndefinedFrom(d: Dict<seq<Usage>>, ks: seq<string>, defined: map<string, Definition>): seq<Usage>
    decreases |ks|
  {
    if ks == [] then []
    else
      var k := ks[|ks| - 1];
      UndefinedFrom(d, ks[..|ks| - 1], defined) + (if k !in defined then Named(d, k) else [])
  }

  lemma {:induction false} UndefinedFromMembers(d: Dict<seq<Usage>>, ks: seq<string>, defined: map<string, Definition>, u: Usage)
    ensures u in UndefinedFrom(d, ks, defined) <==> exists i :: 0 <= i < |ks| && ks[i] !in defined && u in Named(d, ks[i])
    decreases |ks|
  {
    if ks != [] {
      var init := ks[..|ks| - 1];
      UndefinedFromMembers(d, init, defined, u);
      assert forall i :: 0 <= i < |init| ==> init[i] == ks[i];
    }
  }

  /** `find_undefined_usages` yields exactly the indexed usages whose name has no definition. */
  lemma UndefinedUsagesSpec(s: IndexState)
    requires Inv(s)
    ensures forall u :: u in UndefinedFrom(s.usages, s.usages.keys, s.definitions.entries)
                        <==> IsIndexed(s.usagesByFile, u) && u.name !in s.definitions.entries
  {
    var ks := s.usages.keys;
    forall u
      ensures u in UndefinedFrom(s.usages, ks, s.definitions.entries)
              <==> IsIndexed(s.usagesByFile, u) && u.name !in s.definitions.entries
    {
      UndefinedFromMembers(s.usages, ks, s.definitions.entries, u);
      IndexedUsage(s, u.name, u);
      if u in UndefinedFrom(s.usages, ks, s.definitions.entries) {
        var i :| 0 <= i < |ks| && ks[i] !in s.definitions.entries && u in Named(s.usages, ks[i]);
        IndexedUsage(s, ks[i], u);
      }
    }
  }

  /** What `find_unused_definitions` collects visiting the names `ks` in order. */
  function UnusedFrom(defs: Dict<Definition>, ks: seq<string>, us: Dict<seq<Usage>>): seq<Definition>
    decreases |ks|
  {
    if ks == [] then []
    else
      var k := ks[|ks| - 1];
      UnusedFrom(defs, ks[..|ks| - 1], us)
      + (if k in defs.entries && (k !in us.entries || us.entries[k] == []) then [defs.entries[k]] else [])
  }

  lemma {:induction false} UnusedFromMembers(defs: Dict<Definition>, ks: seq<string>, us: Dict<seq<Usage>>, d: Definition)
    ensures d in UnusedFrom(defs, ks, us) <==>
              exists i :: 0 <= i < |ks| && ks[i] in defs.entries && d == defs.entries[ks[i]] && Named(us, ks[i]) == []
    decreases |ks|
  {
    if ks != [] {
      var init := ks[..|ks| - 1];
      UnusedFromMembers(defs, init, us, d);
      assert forall i :: 0 <= i < |init| ==> init[i] == ks[i];
    }
  }

  /** `find_unused_definitions` yields exactly the stored definitions whose name no indexed template uses. */
  lemma UnusedDefinitionsSpec(s: IndexState)
    requires Inv(s)
    ensures forall d :: d in UnusedFrom(s.definitions, s.definitions.keys, s.usages)
                        <==> d.name in s.definitions.entries && s.definitions.entries[d.name] == d
                             && NeverUsed(s.usagesByFile, d.name)
  {
    var ks := s.definitions.keys;
    forall d
      ensures d in UnusedFrom(s.definitions, ks, s.usages)
              <==> d.name in s.definitions.entries && s.definitions.entries[d.name] == d
                   && NeverUsed(s.usagesByFile, d.name)
    {
      UnusedFromMembers(s.definitions, ks, s.usages, d);
      NoUsagesIff(s, d.name);
      if d.name in s.definitions.entries && s.definitions.entries[d.name] == d && NeverUsed(s.usagesByFile, d.name) {
        var i :| 0 <= i < |ks| && ks[i] == d.name;
      }
    }
  }
}
