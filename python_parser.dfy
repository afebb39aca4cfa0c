/**
 * Finding hx-request definitions in a parsed Python module: every class
 * with an hx-request base and a string `name` attribute, in visit order,
 * together with the `from M import x` map used to resolve its bases.
 */
module PythonParser {
  import opened Wrappers
  import opened Strings
  import opened PythonAst
  import opened BaseClassResolver

  datatype Definition = Definition(
    name: string,
    className: string,
    filePath: string,
    lineNumber: nat,
    endLineNumber: nat,
    column: nat,
    baseClasses: seq<string>,
    baseClassInfo: seq<BaseClassInfo>,
    docstring: Option<string>,
    getTemplate: Option<string>,
    postTemplate: Option<string>)

  /** The source's `__eq__`: a definition is identified by name, file and line. */
  predicate SameDefinition(a: Definition, b: Definition)
  {
    a.name == b.name && a.filePath == b.filePath && a.lineNumber == b.lineNumber
  }

  /** The tuple the source's `__hash__` hashes. */
  function DefinitionHashKey(d: Definition): (string, string, nat)
  {
    (d.name, d.filePath, d.lineNumber)
  }

  /** `__eq__` and `__hash__` agree: equal definitions hash alike, and equal keys mean equal definitions. */
  lemma DefinitionEqHash(a: Definition, b: Definition)
    ensures SameDefinition(a, b) <==> DefinitionHashKey(a) == DefinitionHashKey(b)
  {
  }

  /** The name a base-class expression contributes, if any. */
  function BaseName(e: Expr): Option<string>
  {
    match e
    case Name(id) => Some(id)
    case Attribute(_, attr) => Some(attr)
    case Subscript(Name(id), _) => Some(id)
    case _ => None
  }

  function OptionSeq<T>(o: Option<T>): seq<T>
  {
    if o.Some? then [o.value] else []
  }

  /** The base names of a class, in the order of its bases. */
  function BaseClassNames(bases: seq<Expr>): seq<string>
  {
    if bases == [] then [] else BaseClassNames(bases[..|bases| - 1]) + OptionSeq(BaseName(bases[|bases| - 1]))
  }

  /** Base names are collected base by base, keeping their order. */
  lemma {:induction false} BaseClassNamesAppend(a: seq<Expr>, b: seq<Expr>)
    ensures BaseClassNames(a + b) == BaseClassNames(a) + BaseClassNames(b)
    decreases |b|
  {
    if b == [] {
      assert a + b == a;
    } else {
      var b' := b[..|b| - 1];
      assert (a + b)[..|a + b| - 1] == a + b';
      assert (a + b)[|a + b| - 1] == b[|b| - 1];
      BaseClassNamesAppend(a, b');
    }
  }

  lemma {:induction false} BaseClassNamesMembers(bases: seq<Expr>, n: string)
    ensures n in BaseClassNames(bases) <==> exists i :: 0 <= i < |bases| && BaseName(bases[i]) == Some(n)
    decreases |bases|
  {
    if bases != [] {
      var init := bases[..|bases| - 1];
      BaseClassNamesMembers(init, n);
      if exists i :: 0 <= i < |init| && BaseName(init[i]) == Some(n) {
        var i :| 0 <= i < |init| && BaseName(init[i]) == Some(n);
        assert bases[i] == init[i];
      }
      if exists i :: 0 <= i < |bases| && BaseName(bases[i]) == Some(n) {
        var i :| 0 <= i < |bases| && BaseName(bases[i]) == Some(n);
        if i < |init| { assert init[i] == bases[i]; }
      }
    }
  }

  predicate IsHxRequestBase(base: string)
  {
    EndsWith(base, "HxRequest") || EndsWith(base, "HxMixin") || EndsWith(base, "Hx") || EndsWith(base, "TabsRouter")
  }

  predicate IsHxRequestClass(baseNames: seq<string>)
  {
    exists i :: 0 <= i < |baseNames| && IsHxRequestBase(baseNames[i])
  }

  /** A class is a candidate exactly when one of its base expressions names an hx-request base. */
  lemma CandidateByBases(bases: seq<Expr>)
    ensures IsHxRequestClass(BaseClassNames(bases)) <==>
            exists i :: 0 <= i < |bases| && BaseName(bases[i]).Some? && IsHxRequestBase(BaseName(bases[i]).value)
  {
    var names := BaseClassNames(bases);
    if IsHxRequestClass(names) {
      var k :| 0 <= k < |names| && IsHxRequestBase(names[k]);
      BaseClassNamesMembers(bases, names[k]);
    }
    if exists i :: 0 <= i < |bases| && BaseName(bases[i]).Some? && IsHxRequestBase(BaseName(bases[i]).value) {
      var i :| 0 <= i < |bases| && BaseName(bases[i]).Some? && IsHxRequestBase(BaseName(bases[i]).value);
      BaseClassNamesMembers(bases, BaseName(bases[i]).value);
      var k :| 0 <= k < |names| && names[k] == BaseName(bases[i]).value;
    }
  }

  /** The `str` constant a class-body item assigns to the bare name `attr`, if it does. */
  function AssignedString(item: Stmt, attr: string): Option<string>
  {
    match item
    case Assign(targets, value) =>
      if Name(attr) in targets && value.Constant? && value.constant.Str? then Some(value.constant.text) else None
    case AnnAssign(target, annValue) =>
      if target == Name(attr) && annValue.Some? && annValue.value.Constant? && annValue.value.constant.Str?
      then Some(annValue.value.constant.text) else None
    case _ => None
  }

  /** `body[i]` is the first item assigning a string to `attr`. */
  predicate FirstAssignmentAt(body: seq<Stmt>, attr: string, i: nat)
  {
    i < |body| && AssignedString(body[i], attr).Some? && forall j :: 0 <= j < i ==> AssignedString(body[j], attr).None?
  }

  /** `_extract_string_attribute` (and `_extract_name_attribute` for `name`): the first string assigned to `attr`. */
  function ExtractStringAttribute(body: seq<Stmt>, attr: string): (r: Option<string>)
    ensures r.Some? ==> exists i: nat :: FirstAssignmentAt(body, attr, i) && AssignedString(body[i], attr) == r
    ensures r.None? <==> forall i :: 0 <= i < |body| ==> AssignedString(body[i], attr).None?
    decreases |body|
  {
    if body == [] then None
    else if AssignedString(body[0], attr).Some? then
      assert FirstAssignmentAt(body, attr, 0);
      AssignedString(body[0], attr)
    else
      var r := ExtractStringAttribute(body[1..], attr);
      assert forall i :: 1 <= i < |body| ==> body[i] == body[1..][i - 1];
      if r.Some? then
        var i: nat :| FirstAssignmentAt(body[1..], attr, i) && AssignedString(body[1..][i], attr) == r;
        assert FirstAssignmentAt(body, attr, i + 1);
        r
      else r
  }

  /** `node.end_lineno or node.lineno`. */
  function EndLine(node: Stmt): nat
    requires node.ClassDef?
  {
    if node.endLineno.Some? && node.endLineno.value != 0 then node.endLineno.value else node.lineno
  }

  /** The definition `visit_ClassDef` records for a class, if any. */
  function ClassDefinition(node: Stmt, path: string): Option<Definition>
    requires node.ClassDef?
  {
    var bases := BaseClassNames(node.bases);
    var hxName := ExtractStringAttribute(node.body, "name");
    if IsHxRequestClass(bases) && hxName.Some? && hxName.value != "" then
      Some(Definition(hxName.value, node.name, path, node.lineno, EndLine(node), node.colOffset, bases, [],
                      node.docstring, ExtractStringAttribute(node.body, "GET_template"),
                      ExtractStringAttribute(node.body, "POST_template")))
    else None
  }

  /**
   * A class is recorded exactly when one of its bases names an hx-request base
   * and its first string `name` is not empty; the record carries the class's
   * own data.
   */
  lemma ClassDefinitionSpec(node: Stmt, path: string)
    requires node.ClassDef?
    ensures ClassDefinition(node, path).Some? <==>
      && (exists i :: 0 <= i < |node.bases| && BaseName(node.bases[i]).Some? && IsHxRequestBase(BaseName(node.bases[i]).value))
      && (exists i: nat :: FirstAssignmentAt(node.body, "name", i) && AssignedString(node.body[i], "name") != Some(""))
    ensures ClassDefinition(node, path).Some? ==>
      var d := ClassDefinition(node, path).value;
      && Some(d.name) == ExtractStringAttribute(node.body, "name")
      && d.className == node.name && d.filePath == path
      && d.lineNumber == node.lineno && d.endLineNumber == EndLine(node) && d.column == node.colOffset
      && d.baseClasses == BaseClassNames(node.bases) && d.baseClassInfo == []
      && d.docstring == node.docstring
      && d.getTemplate == ExtractStringAttribute(node.body, "GET_template")
      && d.postTemplate == ExtractStringAttribute(node.body, "POST_template")
  {
    CandidateByBases(node.bases);
  }

  /** The definitions visiting a statement records, in visit order. */
  function StmtDefinitions(s: Stmt, path: string): seq<Definition>
    decreases s
  {
    match s
    case ClassDef(_, _, body, _, _, _, _) => OptionSeq(ClassDefinition(s, path)) + BodyDefinitions(body, path)
    case Block(children) => BodyDefinitions(children, path)
    case _ => []
  }

  function BodyDefinitions(ss: seq<Stmt>, path: string): seq<Definition>
    decreases ss
  {
    if ss == [] then [] else BodyDefinitions(ss[..|ss| - 1], path) + StmtDefinitions(ss[|ss| - 1], path)
  }

  /** Visiting one more statement of a body. */
  lemma BodyStep(ss: seq<Stmt>, i: nat, path: string, m: map<string, string>)
    requires i < |ss|
    ensures BodyDefinitions(ss[..i + 1], path) == BodyDefinitions(ss[..i], path) + StmtDefinitions(ss[i], path)
    ensures BodyImports(m, ss[..i + 1]) == StmtImports(BodyImports(m, ss[..i]), ss[i])
  {
    assert ss[..i + 1][..i] == ss[..i];
  }

  /** The definitions of a flat list of nodes, class by class. */
  function DefinitionsOf(nodes: seq<Stmt>, path: string): seq<Definition>
  {
    if nodes == [] then []
    else DefinitionsOf(nodes[..|nodes| - 1], path)
         + (if nodes[|nodes| - 1].ClassDef? then OptionSeq(ClassDefinition(nodes[|nodes| - 1], path)) else [])
  }

  lemma {:induction false} DefinitionsOfAppend(a: seq<Stmt>, b: seq<Stmt>, path: string)
    ensures DefinitionsOf(a + b, path) == DefinitionsOf(a, path) + DefinitionsOf(b, path)
    decreases |b|
  {
    if b == [] {
      assert a + b == a;
    } else {
      var b' := b[..|b| - 1];
      assert (a + b)[..|a + b| - 1] == a + b';
      assert (a + b)[|a + b| - 1] == b[|b| - 1];
      DefinitionsOfAppend(a, b', path);
    }
  }

  /**
   * Nested classes are visited too: the visitor records the definitions of
   * the classes of the whole tree in depth-first pre-order, outer before inner.
   */
  lemma {:induction false} VisitRecordsPreOrder(ss: seq<Stmt>, path: string)
    ensures BodyDefinitions(ss, path) == DefinitionsOf(PreOrder(ss), path)
    decreases ss, 1
  {
    if ss != [] {
      var init := ss[..|ss| - 1];
      var last := ss[|ss| - 1];
      VisitRecordsPreOrder(init, path);
      NodeRecordsPreOrder(last, path);
      DefinitionsOfAppend(PreOrder(init), NodePreOrder(last), path);
    }
  }

  lemma {:induction false} NodeRecordsPreOrder(s: Stmt, path: string)
    ensures StmtDefinitions(s, path) == DefinitionsOf(NodePreOrder(s), path)
    decreases s, 0
  {
    assert DefinitionsOf([s], path) == (if s.ClassDef? then OptionSeq(ClassDefinition(s, path)) else []) by {
      assert [s][..0] == [];
    }
    match s {
      case ClassDef(_, _, body, _, _, _, _) =>
        VisitRecordsPreOrder(body, path);
        DefinitionsOfAppend([s], PreOrder(body), path);
      case Block(children) =>
        VisitRecordsPreOrder(children, path);
        DefinitionsOfAppend([s], PreOrder(children), path);
      case _ =>
    }
  }

  /** Every recorded definition carries the visitor's file path. */
  lemma {:induction false} DefinitionsOfTagged(nodes: seq<Stmt>, path: string)
    ensures forall d :: d in DefinitionsOf(nodes, path) ==> d.filePath == path
  {
    if nodes != [] {
      DefinitionsOfTagged(nodes[..|nodes| - 1], path);
    }
  }

  /** The name an imported alias is bound to. */
  function BoundName(a: Alias): string
  {
    if a.asname.Some? && a.asname.value != "" then a.asname.value else a.name
  }

  predicate BindsName(names: seq<Alias>, k: string)
  {
    exists i :: 0 <= i < |names| && BoundName(names[i]) == k
  }

  /** Maps each bound name of one `from moduleName import ...` to `moduleName`. */
  function ImportNames(imports: map<string, string>, moduleName: string, names: seq<Alias>): (r: map<string, string>)
    ensures forall k :: k in r <==> k in imports || BindsName(names, k)
    ensures forall k :: k in r ==> r[k] == if BindsName(names, k) then moduleName else imports[k]
    decreases |names|
  {
    if names == [] then imports
    else
      var init := names[..|names| - 1];
      assert forall i :: 0 <= i < |init| ==> init[i] == names[i];
      assert forall k :: BindsName(names, k) <==> BindsName(init, k) || BoundName(names[|names| - 1]) == k;
      ImportNames(imports, moduleName, init)[BoundName(names[|names| - 1]) := moduleName]
  }

  /** `node` is an import with a module that binds `k`. */
  predicate Binds(node: Stmt, k: string)
  {
    node.ImportFrom? && node.moduleName.Some? && node.moduleName.value != "" && BindsName(node.names, k)
  }

  /** `visit_ImportFrom`'s effect; a relative import without a module is ignored. */
  function ImportStep(imports: map<string, string>, node: Stmt): (r: map<string, string>)
    ensures forall k :: k in r <==> k in imports || Binds(node, k)
    ensures forall k :: k in r ==> r[k] == if Binds(node, k) then node.moduleName.value else imports[k]
  {
    if node.ImportFrom? && node.moduleName.Some? && node.moduleName.value != "" then
      ImportNames(imports, node.moduleName.value, node.names)
    else imports
  }

  function StmtImports(imports: map<string, string>, s: Stmt): map<string, string>
    decreases s
  {
    match s
    case ImportFrom(_, _) => ImportStep(imports, s)
    case ClassDef(_, _, body, _, _, _, _) => BodyImports(imports, body)
    case Block(children) => BodyImports(imports, children)
    case _ => imports
  }

  function BodyImports(imports: map<string, string>, ss: seq<Stmt>): map<string, string>
    decreases ss
  {
    if ss == [] then imports else StmtImports(BodyImports(imports, ss[..|ss| - 1]), ss[|ss| - 1])
  }

  /** The imports of a flat list of nodes, one import statement after another. */
  function ImportsOf(imports: map<string, string>, nodes: seq<Stmt>): map<string, string>
  {
    if nodes == [] then imports else ImportStep(ImportsOf(imports, nodes[..|nodes| - 1]), nodes[|nodes| - 1])
  }

  lemma {:induction false} ImportsOfAppend(m: map<string, string>, a: seq<Stmt>, b: seq<Stmt>)
    ensures ImportsOf(m, a + b) == ImportsOf(ImportsOf(m, a), b)
    decreases |b|
  {
    if b == [] {
      assert a + b == a;
    } else {
      var b' := b[..|b| - 1];
      assert (a + b)[..|a + b| - 1] == a + b';
      assert (a + b)[|a + b| - 1] == b[|b| - 1];
      ImportsOfAppend(m, a, b');
    }
  }

  /** The visitor meets the import statements of the whole tree in depth-first pre-order. */
  lemma {:induction false} VisitImportsPreOrder(m: map<string, string>, ss: seq<Stmt>)
    ensures BodyImports(m, ss) == ImportsOf(m, PreOrder(ss))
    decreases ss, 1
  {
    if ss != [] {
      var init := ss[..|ss| - 1];
      var last := ss[|ss| - 1];
      VisitImportsPreOrder(m, init);
      NodeImportsPreOrder(BodyImports(m, init), last);
      ImportsOfAppend(m, PreOrder(init), NodePreOrder(last));
    }
  }

  lemma {:induction false} NodeImportsPreOrder(m: map<string, string>, s: Stmt)
    ensures StmtImports(m, s) == ImportsOf(m, NodePreOrder(s))
    decreases s, 0
  {
    assert ImportsOf(m, [s]) == ImportStep(m, s) by {
      assert [s][..0] == [];
    }
    match s {
      case ClassDef(_, _, body, _, _, _, _) =>
        VisitImportsPreOrder(m, body);
        ImportsOfAppend(m, [s], PreOrder(body));
      case Block(children) =>
        VisitImportsPreOrder(m, children);
        ImportsOfAppend(m, [s], PreOrder(children));
      case _ =>
    }
  }

  /** `nodes[i]` is the last node binding `k`. */
  predicate LastBindingAt(nodes: seq<Stmt>, k: string, i: nat)
  {
    i < |nodes| && Binds(nodes[i], k) && forall j :: i < j < |nodes| ==> !Binds(nodes[j], k)
  }

  /** Later imports overwrite earlier ones: a bound name maps to the module of its last import. */
  lemma {:induction false} ImportsLastWins(m: map<string, string>, nodes: seq<Stmt>, k: string)
    ensures k in ImportsOf(m, nodes) <==> k in m || exists i :: 0 <= i < |nodes| && Binds(nodes[i], k)
    ensures forall i: nat :: LastBindingAt(nodes, k, i) ==> ImportsOf(m, nodes)[k] == nodes[i].moduleName.value
    ensures (forall i :: 0 <= i < |nodes| ==> !Binds(nodes[i], k)) && k in m ==> ImportsOf(m, nodes)[k] == m[k]
    decreases |nodes|
  {
    hide ImportNames;
    if nodes != [] {
      var init := nodes[..|nodes| - 1];
      var last := nodes[|nodes| - 1];
      ImportsLastWins(m, init, k);
      assert forall i :: 0 <= i < |init| ==> init[i] == nodes[i];
      forall i: nat | LastBindingAt(nodes, k, i) ensures ImportsOf(m, nodes)[k] == nodes[i].moduleName.value {
        if i < |init| {
          assert LastBindingAt(init, k, i);
        }
      }
    }
  }

  /** The root handed to the resolver: `str(workspace_root) if workspace_root else None`. */
  function ResolverRoot(workspaceRoot: Option<string>): Option<string>
  {
    if workspaceRoot.Some? && workspaceRoot.value != "" then workspaceRoot else None
  }

  /** A recorded definition with its base classes resolved. */
  function WithBaseClassInfo(d: Definition, imports: map<string, string>, workspaceRoot: Option<string>,
                             env: Environment): Definition
  {
    d.(baseClassInfo := ResolveAllBaseClasses(d.baseClasses, d.filePath, imports, ResolverRoot(workspaceRoot), env))
  }

  /**
   * `parse_hx_requests_from_source` on a parse result (`None` for a syntax
   * error), the file's path and the workspace root.
   */
  function ParsedDefinitions(tree: Option<seq<Stmt>>, path: string, workspaceRoot: Option<string>,
                             env: Environment): seq<Definition>
  {
    match tree
    case None => []
    case Some(t) =>
      var defs := BodyDefinitions(t, path);
      var imports := BodyImports(map[], t);
      seq(|defs|, i requires 0 <= i < |defs| => WithBaseClassInfo(defs[i], imports, workspaceRoot, env))
  }

  /**
   * A parse yields the classes of the tree in pre-order, each tagged with
   * the path, one resolved base per base name.
   */
  lemma ParsedDefinitionsSpec(tree: Option<seq<Stmt>>, path: string, workspaceRoot: Option<string>, env: Environment)
    ensures tree.None? ==> ParsedDefinitions(tree, path, workspaceRoot, env) == []
    ensures tree.Some? ==> |ParsedDefinitions(tree, path, workspaceRoot, env)| == |DefinitionsOf(PreOrder(tree.value), path)|
    ensures forall d :: d in ParsedDefinitions(tree, path, workspaceRoot, env) ==>
              d.filePath == path && |d.baseClassInfo| == |d.baseClasses|
              && forall j :: 0 <= j < |d.baseClasses| ==> d.baseClassInfo[j].name == d.baseClasses[j]
    ensures tree.Some? ==>
              var r := ParsedDefinitions(tree, path, workspaceRoot, env);
              forall i :: 0 <= i < |r| ==> r[i] == DefinitionsOf(PreOrder(tree.value), path)[i].(baseClassInfo := r[i].baseClassInfo)
  {
    if tree.Some? {
      VisitRecordsPreOrder(tree.value, path);
      DefinitionsOfTagged(PreOrder(tree.value), path);
      var defs := BodyDefinitions(tree.value, path);
      var r := ParsedDefinitions(tree, path, workspaceRoot, env);
      forall d | d in r
        ensures d.filePath == path && |d.baseClassInfo| == |d.baseClasses|
      {
        var i :| 0 <= i < |r| && r[i] == d;
        assert defs[i] in defs;
      }
    }
  }

  /** `HxRequestVisitor`: collects definitions and imports while walking a tree. */
  class HxRequestVisitor {
    const filePath: string
    var definitions: seq<Definition>
    var imports: map<string, string>

    constructor (filePath: string)
      ensures this.filePath == filePath && definitions == [] && imports == map[]
    {
      this.filePath := filePath;
      definitions := [];
      imports := map[];
    }

    /** Visits statements in order (`generic_visit` over a list field). */
    method VisitBody(ss: seq<Stmt>)
      modifies this
      ensures definitions == old(definitions) + BodyDefinitions(ss, filePath)
      ensures imports == BodyImports(old(imports), ss)
      decreases ss, 2
    {
      hide StmtDefinitions;
      hide StmtImports;
      for i := 0 to |ss|
        invariant definitions == old(definitions) + BodyDefinitions(ss[..i], filePath)
        invariant imports == BodyImports(old(imports), ss[..i])
      {
        BodyStep(ss, i, filePath, old(imports));
        VisitStmt(ss[i]);
        AppendAssoc(old(definitions), BodyDefinitions(ss[..i], filePath), StmtDefinitions(ss[i], filePath));
      }
      assert ss[..|ss|] == ss;
    }

    method VisitStmt(s: Stmt)
      modifies this
      ensures definitions == old(definitions) + StmtDefinitions(s, filePath)
      ensures imports == StmtImports(old(imports), s)
      decreases s, 1
    {
      match s {
        case ClassDef(_, _, _, _, _, _, _) => VisitClassDef(s);
        case ImportFrom(_, _) => VisitImportFrom(s);
        case Block(children) => VisitBody(children);
        case _ =>
      }
    }

    method VisitImportFrom(node: Stmt)
      requires node.ImportFrom?
      modifies this
      ensures definitions == old(definitions)
      ensures imports == ImportStep(old(imports), node)
      decreases node, 0
    {
      if node.moduleName.Some? && node.moduleName.value != "" {
        var names := node.names;
        for i := 0 to |names|
          invariant imports == ImportNames(old(imports), node.moduleName.value, names[..i])
          invariant definitions == old(definitions)
        {
          assert names[..i + 1][..i] == names[..i];
          imports := imports[BoundName(names[i]) := node.moduleName.value];
        }
        assert names[..|names|] == names;
      }
    }

    method VisitClassDef(node: Stmt)
      requires node.ClassDef?
      modifies this
      ensures definitions == old(definitions) + StmtDefinitions(node, filePath)
      ensures imports == StmtImports(old(imports), node)
      decreases node, 0
    {
      hide ExtractStringAttribute;
      hide BaseClassNames;
      hide IsHxRequestClass;
      hide BodyDefinitions;
      hide BodyImports;
      var baseNames := GetBaseClassNames(node.bases);
      if IsHxRequestClass(baseNames) {
        var hxName := ExtractStringAttribute(node.body, "name");
        if hxName.Some? && hxName.value != "" {
          var definition := Definition(hxName.value, node.name, filePath, node.lineno, EndLine(node), node.colOffset,
                                       baseNames, [], node.docstring, ExtractStringAttribute(node.body, "GET_template"),
                                       ExtractStringAttribute(node.body, "POST_template"));
          definitions := definitions + [definition];
        }
      }
      assert definitions == old(definitions) + OptionSeq(ClassDefinition(node, filePath));
      VisitBody(node.body);
      AppendAssoc(old(definitions), OptionSeq(ClassDefinition(node, filePath)), BodyDefinitions(node.body, filePath));
    }

    /** `_get_base_class_names`. */
    method GetBaseClassNames(bases: seq<Expr>) returns (names: seq<string>)
      ensures names == BaseClassNames(bases)
    {
      names := [];
      for i := 0 to |bases|
        invariant names == BaseClassNames(bases[..i])
      {
        assert bases[..i + 1][..i] == bases[..i];
        match bases[i] {
          case Name(id) => names := names + [id];
          case Attribute(_, attr) => names := names + [attr];
          case Subscript(value, _) =>
            if value.Name? {
              names := names + [value.id];
            }
          case _ =>
        }
      }
      assert bases[..|bases|] == bases;
    }
  }

  /** `parse_hx_requests_from_source` after `ast.parse`: visit, then resolve each definition's bases in place. */
  method ParseHxRequests(tree: Option<seq<Stmt>>, path: string, workspaceRoot: Option<string>, env: Environment)
    returns (defs: seq<Definition>)
    ensures defs == ParsedDefinitions(tree, path, workspaceRoot, env)
  {
    if tree.None? {
      return [];
    }
    var visitor := new HxRequestVisitor(path);
    visitor.VisitBody(tree.value);
    defs := visitor.definitions;
    var imports := visitor.imports;
    ghost var visited := defs;
    var root := ResolverRoot(workspaceRoot);
    for i := 0 to |defs|
      invariant |defs| == |visited|
      invariant forall j :: 0 <= j < i ==> defs[j] == WithBaseClassInfo(visited[j], imports, workspaceRoot, env)
      invariant forall j :: i <= j < |defs| ==> defs[j] == visited[j]
    {
      var d := defs[i];
      defs := defs[i := d.(baseClassInfo := ResolveAllBaseClasses(d.baseClasses, d.filePath, imports, root, env))];
    }
  }
}
