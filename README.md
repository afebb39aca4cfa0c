# hx-requests language server core, modelled in Dafny

The hx-requests language server gives editor support for Django projects
that use hx-requests. It keeps an index of two kinds of thing:

- **Definitions**: the `HxRequest` classes declared in Python files. These are classes
  with a base whose name ends in `HxRequest`, `HxMixin`, `Hx` or `TabsRouter`,
  and that assign a non-empty string to `name`.
- **Usages**: the places where Django templates refer to those classes by name,
  either as `{% hx_get 'name' %}` (or `hx_post`, `hx_request`) or as an
  `hx_request_name=` keyword argument inside `{% hx_vals ... %}`.

The index answers look-ups, finds unknown usages and unused definitions,
and ranks definitions by relevance to the current file. The server also turns
unknown usages into warnings and works out from the cursor whether a
completion or a "go to definition" applies.

This project models:

- **the Python scanner** (`python_parser.dfy`, over the `ast` subset in
  `python_ast.dfy`): which classes become definitions, which attributes they
  carry, and the `from X import Y` table;
- **the base-class resolver** (`base_class_resolver.dfy`): the referencing
  file first, then the installed hx-requests package, then the workspace
  module that was imported from;
- **the template scanner** (`template_parser.dfy`): both template regular
  expressions written out by hand, `finditer`'s left-to-right scan, the dotted-name
  filter and the column search;
- **the index** (`index_model.dfy` for its state as a value and the
  invariant tying its four dictionaries together; `index.dfy` for the
  `HxRequestIndex` class whose methods update those dictionaries in place);
- **the three server helpers** (`server.dfy`): diagnostics, the
  completion-context test and the name under the cursor in a Python line.

Python's `dict` insertion order is kept (`dicts.dfy`), because
`get_all_definitions`, `find_undefined_usages` and `find_unused_definitions`
return values in that order. `sorted` is a stable sort by a `(rank, name)`
key (`sorting.dfy`). `str` and `pathlib` operations are in `strings.dfy` and
`paths.dfy`.

The file system, the installed package and `Path.resolve` are an
`Environment` value:

- `files` maps each existing `.py` path to its parse tree, or to `None` when
  it does not parse;
- `dirs` lists each directory's `.py` files;
- `library` is the installed package's file listing;
- `resolve` is a function.

`ast.parse` of editor content is a function field `parse` of the index.
Template files on disk are a map from path to text (`None` when the bytes are not valid UTF-8).

## Model

| member | source | states |
|---|---|---|
| PythonParser.BaseClassNamesMembers | bundled/libs/hx_requests_lsp/python_parser.py:111-124 | a name is among the base names exactly when some base yields it: a plain name its identifier, an attribute its last part, a subscript of a plain name that name |
| PythonParser.BaseClassNamesAppend | bundled/libs/hx_requests_lsp/python_parser.py:111-124 | base names are collected base by base, in order |
| PythonParser.HxRequestVisitor.GetBaseClassNames | bundled/libs/hx_requests_lsp/python_parser.py:111-124 | the loop over the bases yields exactly the base-name list |
| PythonParser.CandidateByBases | bundled/libs/hx_requests_lsp/python_parser.py:78-90 | a class is considered exactly when one of its base expressions yields a name ending in `HxRequest`, `HxMixin`, `Hx` or `TabsRouter` |
| PythonParser.ExtractStringAttribute | bundled/libs/hx_requests_lsp/python_parser.py:144-160 | the result is the string of the first plain or annotated assignment to the attribute with a `str` constant, and None exactly when there is no such assignment |
| PythonParser.ClassDefinitionSpec | bundled/libs/hx_requests_lsp/python_parser.py:78-142 | a class yields a definition exactly when a base qualifies and its first string `name` assignment is not empty; the definition carries that name, the class name, path, line span, column, base names, docstring and both template attributes |
| PythonParser.VisitRecordsPreOrder | bundled/libs/hx_requests_lsp/python_parser.py:78-109 | the visitor records definitions in depth-first order, outer classes before the classes nested in them |
| PythonParser.DefinitionsOfTagged | bundled/libs/hx_requests_lsp/python_parser.py:93-106 | every recorded definition carries the visited file's path |
| PythonParser.ImportStep | bundled/libs/hx_requests_lsp/python_parser.py:65-71 | a `from M import a as b` binds `b` (or `a`) to `M`, and an import without a module binds nothing |
| PythonParser.ImportNames | bundled/libs/hx_requests_lsp/python_parser.py:65-71 | the names bound by one import statement are added to the table, and every other entry is kept |
| PythonParser.ImportsLastWins | bundled/libs/hx_requests_lsp/python_parser.py:65-71 | after a walk, a name is bound exactly when some import binds it; the last binding import decides the module |
| PythonParser.VisitImportsPreOrder | bundled/libs/hx_requests_lsp/python_parser.py:65-76 | imports are collected in the same depth-first order as the definitions |
| PythonParser.HxRequestVisitor.VisitClassDef | bundled/libs/hx_requests_lsp/python_parser.py:78-109 | visiting a class appends its definition, if any, and then visits its body |
| PythonParser.HxRequestVisitor.VisitImportFrom | bundled/libs/hx_requests_lsp/python_parser.py:65-71 | visiting an import updates only the import table |
| PythonParser.HxRequestVisitor.VisitBody | bundled/libs/hx_requests_lsp/python_parser.py:65-109 | visiting a body appends the body's definitions in order and folds in its imports |
| PythonParser.ParsedDefinitionsSpec | bundled/libs/hx_requests_lsp/python_parser.py:202-234 | source that does not parse gives no definitions; otherwise the i-th result is the i-th qualifying class in visit order, field for field, except that its base-class entries are resolved: one per base name, with the same name, all tagged with the path |
| PythonParser.DefinitionEqHash | bundled/libs/hx_requests_lsp/python_parser.py:42-50 | two definitions are equal under `__eq__` exactly when the tuples `__hash__` hashes (name, file, line) are equal |
| PythonParser.ParseHxRequests | bundled/libs/hx_requests_lsp/python_parser.py:163-234 | parsing then resolving every definition's bases gives the specified definition list |
| BaseClassResolver.ClassTableSpec | bundled/libs/hx_requests_lsp/base_class_resolver.py:21-34 | a class name is in a file's table exactly when a class of that name occurs at any depth; its line is that of the last such class in `ast.walk` order |
| BaseClassResolver.ParseFileForClasses | bundled/libs/hx_requests_lsp/base_class_resolver.py:21-34 | a missing or unparsable file gives the empty table, otherwise the class table |
| BaseClassResolver.FirstDefiningSpec | bundled/libs/hx_requests_lsp/base_class_resolver.py:50-53 | a glob over a package directory yields the first listed file that defines the class, and nothing exactly when none does |
| BaseClassResolver.FindClassInModule | bundled/libs/hx_requests_lsp/base_class_resolver.py:37-56 | a file is looked up directly; a directory through its `__init__.py` first, then through its listed `*.py` files; a hit names a file that defines the class at that line |
| BaseClassResolver.LibraryFirstSpec | bundled/libs/hx_requests_lsp/base_class_resolver.py:59-73 | the first library file outside `__pycache__` that defines the class wins, at its resolved path; nothing exactly when no such file exists |
| BaseClassResolver.FindClassInLibrary | bundled/libs/hx_requests_lsp/base_class_resolver.py:59-73 | the loop over the library files returns the specified first hit |
| BaseClassResolver.ThirdCandidateRepeatsSecond | bundled/libs/hx_requests_lsp/base_class_resolver.py:116-121 | for a dotted module name, the third candidate path is the same file as the second |
| BaseClassResolver.TryCandidatesSpec | bundled/libs/hx_requests_lsp/base_class_resolver.py:123-133 | every existing candidate is tried in order (an `__init__.py` stands for its package); the first whose module holds the class wins |
| BaseClassResolver.ResolveBaseClass | bundled/libs/hx_requests_lsp/base_class_resolver.py:76-135 | the name is kept; the same file wins, then the library, then the workspace candidates when the name was imported and a root is set; otherwise unresolved; path and line are given together |
| BaseClassResolver.ResolvedLocationDefinesClass | bundled/libs/hx_requests_lsp/base_class_resolver.py:76-135 | a resolved base class always points at a file whose class table defines it at the returned line |
| BaseClassResolver.ResolveAllBaseClasses | bundled/libs/hx_requests_lsp/base_class_resolver.py:138-145 | one result per base name, in order, each with that name |
| TemplateParser.NameArgAt | bundled/libs/hx_requests_lsp/template_parser.py:39-50 | the name argument is either a quoted run of non-quote characters or a bare run of name characters that starts with a letter or `_`; it fails exactly when neither matches |
| TemplateParser.KeywordArgAt | bundled/libs/hx_requests_lsp/template_parser.py:53-66 | a keyword-argument match starts with `hx_request_name`; what it captures lies after the keyword and holds no quote (the inside of a quoted name, or a bare name) |
| TemplateParser.KeywordArgIff | bundled/libs/hx_requests_lsp/template_parser.py:53-66 | the keyword argument matches at a position exactly when `hx_request_name`, whitespace, `=`, whitespace and a quoted or bare name follow there; any such split fixes what is captured |
| TemplateParser.DirectTagIff | bundled/libs/hx_requests_lsp/template_parser.py:39-50 | the direct-tag pattern matches at a position exactly when `{%`, whitespace, one of the three keywords, at least one whitespace character and a quoted or bare name follow there; the match records that keyword and captured name |
| TemplateParser.ValsTagIff | bundled/libs/hx_requests_lsp/template_parser.py:53-66 | the `hx_vals` pattern matches at a position exactly when `{%`, whitespace, `hx_vals`, a whitespace character, anything, and a keyword argument follow there; the match captures the first keyword argument after `hx_vals` and that character |
| TemplateParser.FirstKeywordArg | bundled/libs/hx_requests_lsp/template_parser.py:53-66 | the lazy `.*?` picks the first position from which the keyword argument matches |
| TemplateParser.TagsSpec | bundled/libs/hx_requests_lsp/template_parser.py:97-144 | the scan yields matches left to right, without overlap, each a match of the pattern at its start; no match starts before the first, between one match's end and the next one's start, or after the last |
| TemplateParser.TagsComplete | bundled/libs/hx_requests_lsp/template_parser.py:97-144 | the scan misses nothing: every position where the pattern matches lies inside a reported match |
| TemplateParser.FindIter | bundled/libs/hx_requests_lsp/template_parser.py:97-144 | each search resumes at the end of the previous match and collects the specified matches |
| TemplateParser.FindNamePosition | bundled/libs/hx_requests_lsp/template_parser.py:149-169 | the column is just inside the first single-quoted occurrence, else the first double-quoted one, else the first bare occurrence from the search start, else the search start itself; any occurrence means the column really holds the name |
| TemplateParser.TagUsage | bundled/libs/hx_requests_lsp/template_parser.py:99-144 | a match gives a usage exactly when its name has no dot; the usage has the match's name, the line number and path given, a column at or after the match's start and an end column the name's length further |
| TemplateParser.TagUsageWellFormed | bundled/libs/hx_requests_lsp/template_parser.py:99-144 | a match gives a usage exactly when its name has no dot; the usage spells its name on its line at the column the name search reports (at or after the match's start, possibly past its end); a direct tag's usage has the matched keyword as its tag type and an `hx_vals` one `hx_vals`; the full match is the matched text |
| TemplateParser.ColumnPastMatch | bundled/libs/hx_requests_lsp/template_parser.py:149-169 | in `{% hx_get foo %} 'foo'` the tag matches over columns 0..13, yet the usage's column is 18, past the match |
| TemplateParser.UsageEqHash | bundled/libs/hx_requests_lsp/template_parser.py:20-31 | two usages are equal under `__eq__` exactly when the tuples `__hash__` hashes (name, file, line, column) are equal |
| TemplateParser.LineUsagesWellFormed | bundled/libs/hx_requests_lsp/template_parser.py:97-144 | on a line, the direct-tag usages come before the `hx_vals` usages |
| TemplateParser.TemplateUsagesWellFormed | bundled/libs/hx_requests_lsp/template_parser.py:84-146 | every usage's line number indexes the split lines, its end column is its column plus the name's length, its name is non-empty, undotted and quote-free, and usages come line by line |
| TemplateParser.ParseTemplateForHxRequests | bundled/libs/hx_requests_lsp/template_parser.py:84-146 | the loop over lines and matches gives the specified usage list |
| TemplateParser.ParseLine | bundled/libs/hx_requests_lsp/template_parser.py:97-144 | one line is scanned with the direct-tag pattern and then the `hx_vals` pattern |
| TemplateParser.CollectUsages | bundled/libs/hx_requests_lsp/template_parser.py:99-144 | the loop over one pattern's matches appends the usage of each undotted match |
| TemplateParser.FirstCovering | bundled/libs/hx_requests_lsp/template_parser.py:260-263 | the first usage whose span covers the column (end exclusive) wins, and nothing exactly when none covers it |
| TemplateParser.NameAtPositionAgrees | bundled/libs/hx_requests_lsp/template_parser.py:240-265 | rescanning the cursor line alone finds the same spans as the line's usages in the whole-template scan |
| TemplateParser.NameAtPosition | bundled/libs/hx_requests_lsp/template_parser.py:240-265 | a line outside the template gives nothing; a result is an undotted non-empty name that occurs on that line at its start, and the column is inside it |
| TemplateParser.OnLineTemplate | bundled/libs/hx_requests_lsp/template_parser.py:84-146 | the usages of line `n` in the whole-template scan are exactly that line's own scan |
| IndexModel.DropUsagesSpec | bundled/libs/hx_requests_lsp/index.py:174-181 | dropping a file's old usages leaves, for each name it used, only the other files' usages, and leaves the other names alone |
| IndexModel.AddUsagesSpec | bundled/libs/hx_requests_lsp/index.py:129-132 | adding usages appends each to its name's list, in order |
| IndexModel.DropDefinitionsSpec | bundled/libs/hx_requests_lsp/index.py:154-158 | a file's old definition names are removed only where the stored definition still belongs to that file |
| IndexModel.PutDefinitionsSpec | bundled/libs/hx_requests_lsp/index.py:113-114 | storing definitions makes the last one of each name win, and keeps the other names |
| IndexModel.LastNamedIsLast | bundled/libs/hx_requests_lsp/index.py:113-114 | the stored definition of a name is the last in the file with that name |
| IndexModel.EmptyStateInv | bundled/libs/hx_requests_lsp/index.py:33-56 | the empty index satisfies the index invariant |
| IndexModel.IndexedUsage | bundled/libs/hx_requests_lsp/index.py:241-251 | a usage is listed under a name exactly when it has that name and is stored for its file |
| IndexModel.UpdateTemplateUsages | bundled/libs/hx_requests_lsp/index.py:171-196 | after a template update each name's usages are the other files' old ones followed by the new ones, and the file's list is the new scan |
| IndexModel.UpdateTemplateKeepsInv | bundled/libs/hx_requests_lsp/index.py:171-196 | a template update keeps the index invariant |
| IndexModel.IndexTemplateIsUpdate | bundled/libs/hx_requests_lsp/index.py:116-132 | indexing a template not yet indexed is the same as updating it |
| IndexModel.UpdatePythonDefinitions | bundled/libs/hx_requests_lsp/index.py:152-169 | after a Python update a name maps to the file's last new definition of it; otherwise its old entry is removed if it belonged to the file, and kept if not |
| IndexModel.UpdatePythonKeepsInv | bundled/libs/hx_requests_lsp/index.py:152-169 | a Python update keeps the index invariant |
| IndexModel.IndexPythonIsUpdate | bundled/libs/hx_requests_lsp/index.py:100-114 | indexing a Python file not yet indexed is the same as updating it |
| IndexModel.RemovePythonKeepsInv | bundled/libs/hx_requests_lsp/index.py:208-215 | removing a Python file drops its owned definitions, forgets the file, leaves the usages alone and keeps the invariant |
| IndexModel.RemoveTemplateKeepsInv | bundled/libs/hx_requests_lsp/index.py:217-227 | removing a template drops its usages from every name, forgets the file, leaves the definitions alone and keeps the invariant |
| IndexModel.RemoveFileSpec | bundled/libs/hx_requests_lsp/index.py:198-227 | removing a file forgets it in both roles, drops exactly its usages and its owned definitions, and keeps the invariant |
| IndexModel.RemoveUnindexed | bundled/libs/hx_requests_lsp/index.py:198-227 | removing a file that was never indexed changes nothing |
| IndexModel.NoUsagesIff | bundled/libs/hx_requests_lsp/index.py:360-371 | a name has no usages exactly when no indexed template uses it |
| IndexModel.UndefinedUsagesSpec | bundled/libs/hx_requests_lsp/index.py:347-358 | the undefined usages are exactly the indexed usages whose name has no definition |
| IndexModel.UnusedDefinitionsSpec | bundled/libs/hx_requests_lsp/index.py:360-371 | the unused definitions are exactly the stored definitions whose name no indexed template uses |
| Index.FileDefinitions | bundled/libs/hx_requests_lsp/python_parser.py:163-199 | a missing file or one that does not parse gives no definitions; every definition is tagged with the resolved path |
| Index.FileUsages | bundled/libs/hx_requests_lsp/template_parser.py:172-190 | a missing file or one that is not valid UTF-8 gives no usages; every usage is tagged with the resolved path |
| Index.UpdatedTagged | bundled/libs/hx_requests_lsp/index.py:100-196 | whatever an index or an update parses is tagged with the resolved path it is stored under |
| Index.AppNameFrom | bundled/libs/hx_requests_lsp/index.py:292-310 | the app is the part before the first `hx_requests`, `templates` or `template_partials` part after position 0, and there is none exactly when no such part exists |
| Index.HxRequestIndex.constructor | bundled/libs/hx_requests_lsp/index.py:33-56 | a new index is empty, valid, and holds the root it was given (an empty root counts as none) |
| Index.HxRequestIndex.SetWorkspaceRoot | bundled/libs/hx_requests_lsp/index.py:62-64 | setting the root changes only the root |
| Index.HxRequestIndex.BuildFullIndex | bundled/libs/hx_requests_lsp/index.py:66-93 | without a root nothing changes; with one the index is rebuilt from empty, Python files first and then templates, and stays valid |
| Index.HxRequestIndex.IndexAllPython | bundled/libs/hx_requests_lsp/index.py:87-89 | every discovered Python file is indexed in turn |
| Index.HxRequestIndex.IndexAllTemplates | bundled/libs/hx_requests_lsp/index.py:91-93 | every discovered template is indexed in turn |
| Index.HxRequestIndex.ParsePythonFile | bundled/libs/hx_requests_lsp/index.py:106-108 | a Python file is parsed from disk with the workspace root, keyed by its resolved path |
| Index.HxRequestIndex.ParseTemplateFile | bundled/libs/hx_requests_lsp/template_parser.py:172-190 | a missing template, or one that is not valid UTF-8, gives no usages; otherwise its scan, tagged with the resolved path |
| Index.HxRequestIndex.StoreDefinitions | bundled/libs/hx_requests_lsp/index.py:113-114 | the loop stores each definition under its name |
| Index.HxRequestIndex.DropDefinitionsOf | bundled/libs/hx_requests_lsp/index.py:154-158 | the loop deletes the file's old names that are still owned by the file |
| Index.HxRequestIndex.AppendUsages | bundled/libs/hx_requests_lsp/index.py:129-132 | the loop creates a list for each new name and appends each usage |
| Index.HxRequestIndex.DropUsagesOf | bundled/libs/hx_requests_lsp/index.py:174-181 | the loop filters the file's usages out of each name it used |
| Index.HxRequestIndex.IndexPythonFile | bundled/libs/hx_requests_lsp/index.py:100-114 | indexing a Python file stores its definitions and records the file, keeping the index valid |
| Index.HxRequestIndex.IndexTemplateFile | bundled/libs/hx_requests_lsp/index.py:116-132 | indexing a template appends its usages and records the file, keeping the index valid |
| Index.HxRequestIndex.UpdateFile | bundled/libs/hx_requests_lsp/index.py:134-150 | a `.py` file is re-parsed as Python, an `.html` file as a template, and any other file leaves the index unchanged; the index stays valid |
| Index.HxRequestIndex.UpdatePythonFile | bundled/libs/hx_requests_lsp/index.py:152-169 | the file's old definitions are dropped, the new ones (from the editor's content when given) are stored, and the index stays valid |
| Index.HxRequestIndex.UpdateTemplateFile | bundled/libs/hx_requests_lsp/index.py:171-196 | the file's old usages are dropped, the new ones are appended, and the index stays valid |
| Index.HxRequestIndex.RemoveFile | bundled/libs/hx_requests_lsp/index.py:198-227 | removing a file by its resolved path gives the specified state and keeps the index valid |
| Index.HxRequestIndex.GetDefinition | bundled/libs/hx_requests_lsp/index.py:229-239 | a definition is found exactly when the name is indexed; it has that name and is stored for its own file |
| Index.HxRequestIndex.GetUsages | bundled/libs/hx_requests_lsp/index.py:241-251 | the usages of a name are exactly the indexed usages with that name; per file in scan order, and empty exactly when the name has no entry |
| Index.HxRequestIndex.GetAllDefinitionNames | bundled/libs/hx_requests_lsp/index.py:253-260 | the names are exactly the indexed names, in strictly increasing string order |
| Index.HxRequestIndex.ExtractAppName | bundled/libs/hx_requests_lsp/index.py:292-310 | the loop over the path's parts returns the specified app name |
| Index.HxRequestIndex.GetDefinitionsSortedByRelevance | bundled/libs/hx_requests_lsp/index.py:262-290 | a permutation of all definitions; without a current file it is sorted by name, otherwise same-app definitions come first, each group by name |
| Index.HxRequestIndex.DistinctNames | bundled/libs/hx_requests_lsp/index.py:262-290 | no two definitions being ranked share a name, so the order is strict |
| Index.HxRequestIndex.GetAllDefinitions | bundled/libs/hx_requests_lsp/index.py:312-319 | every definition once, in the order the names were first stored |
| Index.HxRequestIndex.GetDefinitionsInFile | bundled/libs/hx_requests_lsp/index.py:321-332 | the definitions stored for the resolved path, all tagged with it; a non-empty result means the file is indexed |
| Index.HxRequestIndex.GetUsagesInFile | bundled/libs/hx_requests_lsp/index.py:334-345 | the usages stored for the resolved path, all tagged with it; a non-empty result means the file is indexed |
| Index.HxRequestIndex.FindUndefinedUsages | bundled/libs/hx_requests_lsp/index.py:347-358 | exactly the indexed usages whose name has no definition |
| Index.HxRequestIndex.FindUnusedDefinitions | bundled/libs/hx_requests_lsp/index.py:360-371 | exactly the stored definitions whose name no indexed template uses |
| Server.NameAssignAtIff | bundled/libs/hx_requests_lsp/server.py:425-436 | the name-assignment pattern matches at a position exactly when `name`, spaces, `=`, spaces, a quote, non-quote characters and a quote follow there |
| Server.FirstNameAssign | bundled/libs/hx_requests_lsp/server.py:428 | the search finds the leftmost match, and nothing exactly when no position matches |
| Server.HxNameFromPythonLine | bundled/libs/hx_requests_lsp/server.py:425-436 | a name is returned exactly when the first match's captured name spans the column, ends included; it is non-empty and quote-free |
| Server.HxNameUsesFirstMatch | bundled/libs/hx_requests_lsp/server.py:425-436 | only the first match on the line counts, even when the cursor is on a later one |
| Server.HxNameInclusiveEnds | bundled/libs/hx_requests_lsp/server.py:432-435 | both ends of the captured name count as inside, the positions just outside do not |
| Server.PrefixTo | bundled/libs/hx_requests_lsp/server.py:398 | the prefix is a slice from the start of the line, of length `column` when the column is inside the line |
| Server.IsInHxRequestContextSpec | bundled/libs/hx_requests_lsp/server.py:396-422 | the cursor is in a completion context exactly when one of the four patterns matches at the end of the text before it |
| Server.ContextIgnoresRest | bundled/libs/hx_requests_lsp/server.py:396-422 | nothing after the cursor affects the answer |
| Server.UnknownWarnings | bundled/libs/hx_requests_lsp/server.py:378-391 | at most one warning per usage, each a warning from `hx-requests-lsp` with code `unknown-hx-request` |
| Server.Diagnostics | bundled/libs/hx_requests_lsp/server.py:367-393 | only `.html` files get diagnostics; at most one per usage, each an `unknown-hx-request` warning |
| Server.UnknownWarningsMembers | bundled/libs/hx_requests_lsp/server.py:378-391 | there is one warning for each usage whose name is not defined, and no other warning |
| Server.DiagnosticsEmpty | bundled/libs/hx_requests_lsp/server.py:367-393 | files not ending in `.html` get no diagnostics; a template gets none exactly when all its usages are defined |
| Server.ComputeDiagnostics | bundled/libs/hx_requests_lsp/server.py:367-393 | the loop over the file's indexed usages warns about each undefined one |
| Server.DiagnosticsAreUndefinedUsages | bundled/libs/hx_requests_lsp/server.py:367-393 | a file's warnings are about exactly the index-wide undefined usages that belong to that file |

## Left out

- Thread safety: the index's re-entrant lock is not modelled. Every method runs alone.
- The `lru_cache` on the resolver's file parser is not modelled. The model reads the environment afresh, so it never returns stale tables.
- Locating the installed hx-requests package and globbing it (`rglob`) is not modelled. They are the `library` listing of the environment.
- Discovering workspace files (`find_hx_request_files`, `find_template_files`) is not modelled. `BuildFullIndex` receives the discovered paths and requires that their resolved paths are distinct, as the set the source builds guarantees.
- `collect_all_definitions` and `collect_all_usages` are not part of this model; the index does not use them.
- `Path.exists`, `read_text`, `ast.parse`, `ast.get_docstring` and `Path.resolve` are inputs, not computations. Decoding errors are a `None` file text; a syntax error is a `None` tree.
- Logging, the LSP handlers and server set-up (`main`, `uri_to_path`) are out of scope, as are the bundling script and the package `__init__`. The completion, hover and definition handlers only call the modelled helpers.
- The template pattern `HX_NAME_IN_TAG` is not part of this model; the scanner never uses it.
- Python expressions other than names, attributes, subscripts and constants are `OtherExpr`. Statements other than classes, assignments and `from` imports are blocks of their child statements.
- BaseClassResolver.ResolveBaseClass: in the same-file tier the file is read from disk even when an update's content comes from the editor. The model does the same, so an unsaved base class is not found there.
- PythonParser.ParsedDefinitionsSpec: the resolved base-class entries are stated by their names here; their locations are stated by `BaseClassResolver.ResolveBaseClass`.
- Index.HxRequestIndex.GetUsages: returns the per-name list as stored. The per-file order is stated, but the interleaving between files is the order in which the files were indexed and is not restated.
- Index.FileDefinitions, Index.FileUsages, Index.HxRequestIndex.BuildFullIndex: only a syntax error or a decoding error is caught when a file is read. Any other read error (a permission error, a directory where a file was expected) propagates and can leave a full rebuild half done. The model has no such errors: a file is either present with its contents or treated as giving nothing.
- Three behaviours of the code that are easy to miss; the model follows the code:
  - A dotted name is dropped for quoted direct-tag arguments too, not only bare ones.
  - In the workspace tier every existing candidate path is tried, not just the first.
  - The first string assignment to `name` decides, even when it is empty.
