/**
 * The slice of Python's `ast` module the parser and the resolver look at.
 * A tree is the body of a module: a sequence of statements. `Block` stands
 * for every other node that can hold statements (a function, a loop, an
 * `if`, a `try`, an exception handler, ...), with its statements in field
 * order; expressions and statements the model does not inspect are
 * `OtherExpr` and `Block([])`.
 */
module PythonAst {
  import opened Wrappers

  /** The value of an `ast.Constant`: a `str` or anything else. */
  datatype ConstValue = Str(text: string) | NonStr

  datatype Expr =
    | Name(id: string)
    | Attribute(value: Expr, attr: string)
    | Subscript(value: Expr, slice: Expr)
    | Constant(constant: ConstValue)
    | OtherExpr

  /** `name [as asname]` in an import statement. */
  datatype Alias = Alias(name: string, asname: Option<string>)

  datatype Stmt =
    | ClassDef(name: string, bases: seq<Expr>, body: seq<Stmt>, lineno: nat, endLineno: Option<nat>,
               colOffset: nat, docstring: Option<string>)
    | Assign(targets: seq<Expr>, value: Expr)
    | AnnAssign(target: Expr, annValue: Option<Expr>)
    | ImportFrom(moduleName: Option<string>, names: seq<Alias>)
    | Block(children: seq<Stmt>)

  /** The statements directly inside a node. */
  function Children(s: Stmt): seq<Stmt>
  {
    match s
    case ClassDef(_, _, body, _, _, _, _) => body
    case Block(children) => children
    case _ => []
  }

  /** Depth-first pre-order, the order in which `ast.NodeVisitor` reaches the nodes of a tree. */
  function PreOrder(ss: seq<Stmt>): seq<Stmt>
    decreases ss
  {
    if ss == [] then [] else PreOrder(ss[..|ss| - 1]) + NodePreOrder(ss[|ss| - 1])
  }

  function NodePreOrder(s: Stmt): seq<Stmt>
    decreases s
  {
    match s
    case ClassDef(_, _, body, _, _, _, _) => [s] + PreOrder(body)
    case Block(children) => [s] + PreOrder(children)
    case _ => [s]
  }

  lemma NodePreOrderChildren(s: Stmt)
    ensures NodePreOrder(s) == [s] + PreOrder(Children(s))
  {
  }

  lemma PreOrderSnoc(ss: seq<Stmt>, s: Stmt)
    ensures PreOrder(ss + [s]) == PreOrder(ss) + NodePreOrder(s)
  {
    assert (ss + [s])[..|ss|] == ss;
  }

  lemma AppendAssoc<T>(a: seq<T>, b: seq<T>, c: seq<T>)
    ensures (a + b) + c == a + (b + c)
  {
  }

  lemma {:induction false} PreOrderAppend(a: seq<Stmt>, b: seq<Stmt>)
    ensures PreOrder(a + b) == PreOrder(a) + PreOrder(b)
    decreases |b|
  {
    if b == [] {
      assert a + b == a;
    } else {
      var b' := b[..|b| - 1];
      var last := b[|b| - 1];
      assert b == b' + [last];
      assert a + b == (a + b') + [last];
      PreOrderAppend(a, b');
      PreOrderSnoc(a + b', last);
      PreOrderSnoc(b', last);
      AppendAssoc(PreOrder(a), PreOrder(b'), NodePreOrder(last));
    }
  }

  lemma PreOrderCons(s: Stmt, rest: seq<Stmt>)
    ensures PreOrder([s] + rest) == [s] + PreOrder(Children(s)) + PreOrder(rest)
  {
    PreOrderAppend([s], rest);
    assert [s][..0] == [];
    NodePreOrderChildren(s);
  }

  /** `ast.walk`: breadth-first, a node's children join the end of the queue. */
  function Walk(queue: seq<Stmt>): seq<Stmt>
    decreases |PreOrder(queue)|
  {
    if queue == [] then []
    else
      var next := queue[1..] + Children(queue[0]);
      WalkShrinks(queue);
      [queue[0]] + Walk(next)
  }

  lemma WalkShrinks(queue: seq<Stmt>)
    requires queue != []
    ensures |PreOrder(queue[1..] + Children(queue[0]))| < |PreOrder(queue)|
  {
    assert queue == [queue[0]] + queue[1..];
    PreOrderCons(queue[0], queue[1..]);
    PreOrderAppend(queue[1..], Children(queue[0]));
  }

  lemma MultisetStep(x: Stmt, w: seq<Stmt>, c: seq<Stmt>, r: seq<Stmt>)
    requires multiset(w) == multiset(r + c)
    ensures multiset([x] + w) == multiset([x] + c + r)
  {
  }

  /** The breadth-first walk reaches exactly the nodes of the depth-first one, each once. */
  lemma {:induction false} WalkPermutesPreOrder(queue: seq<Stmt>)
    ensures multiset(Walk(queue)) == multiset(PreOrder(queue))
    decreases |PreOrder(queue)|
  {
    if queue != [] {
      var q := queue[0];
      var rest := queue[1..];
      var next := rest + Children(q);
      WalkShrinks(queue);
      WalkPermutesPreOrder(next);
      assert queue == [q] + rest;
      PreOrderCons(q, rest);
      PreOrderAppend(rest, Children(q));
      assert Walk(queue) == [q] + Walk(next);
      MultisetStep(q, Walk(next), PreOrder(Children(q)), PreOrder(rest));
    }
  }
}
