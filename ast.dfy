/**
 * Syntax trees as the engine sees them: a node is its kind plus one value per
 * field of that kind; a field holds a child node, a leaf literal or a list.
 * Python's `ast` classes become `Kind` values; only the class name, whether it
 * is a statement or an expression, and its field names matter to the engine.
 */
module Ast {

  import opened Wrappers

  newtype byte = x: int | 0 <= x < 256

  /** Leaf values of a field (`Constant.value`, `Name.id`, an absent child). */
  datatype Lit =
    | LNone
    | LBool(b: bool)
    | LInt(i: int)
    | LStr(s: string)
    | LBytes(bs: seq<byte>)
    | LOther(repr: string)   // float, complex, Ellipsis: not shrunk by this model

  datatype Category = Stmt | Expr | OtherNode

  datatype Kind = Kind(name: string, cat: Category, fields: seq<string>)

  datatype Tree = Node(kind: Kind, vals: seq<Val>)

  datatype Val = VNode(t: Tree) | VLit(lit: Lit) | VList(items: seq<Val>)

  const PassKind := Kind("Pass", Stmt, [])
  const ExprKind := Kind("Expr", Stmt, ["value"])

  /** `ast.Pass()`, the statement that pads an emptied block. */
  function PassStmt(): Val { VNode(Node(PassKind, [])) }

  /** `ast.Expr(v)`, the statement that wraps an expression placed in a block. */
  function ExprStmt(v: Val): Val { VNode(Node(ExprKind, [v])) }

  predicate IsCtx(k: Kind, i: nat) { i < |k.fields| && k.fields[i] == "ctx" }

  /**
   * equal_ast: values of different types differ; lists are equal when their
   * lengths agree and their elements are pairwise equal; nodes of one kind are
   * compared on every field except `ctx`; anything else with `==`.
   */
  predicate EqualAst(a: Val, b: Val)
    decreases a
  {
    match a
    case VList(xs) => b.VList? && EqualItems(xs, b.items)
    case VNode(s) => b.VNode? && s.kind == b.t.kind && EqualFields(s.kind, 0, s.vals, b.t.vals)
    case VLit(x) => b.VLit? && x == b.lit
  }

  predicate EqualItems(xs: seq<Val>, ys: seq<Val>)
    decreases xs
  {
    |xs| == |ys| && (xs == [] || (EqualAst(xs[0], ys[0]) && EqualItems(xs[1..], ys[1..])))
  }

  /** Compares field values from position `i` on; `ctx` positions are skipped. */
  predicate EqualFields(k: Kind, i: nat, xs: seq<Val>, ys: seq<Val>)
    decreases xs
  {
    |xs| == |ys| &&
    (xs == [] || ((IsCtx(k, i) || EqualAst(xs[0], ys[0])) && EqualFields(k, i + 1, xs[1..], ys[1..])))
  }

  /** The reference definition: a tree with every `ctx` field blanked out. */
  function StripCtx(v: Val): Val
    decreases v
  {
    match v
    case VList(xs) => VList(StripItems(xs))
    case VNode(t) => VNode(Node(t.kind, StripFields(t.kind, 0, t.vals)))
    case VLit(x) => v
  }

  function StripItems(xs: seq<Val>): (r: seq<Val>)
    ensures |r| == |xs|
    decreases xs
  {
    if xs == [] then [] else [StripCtx(xs[0])] + StripItems(xs[1..])
  }

  function StripFields(k: Kind, i: nat, xs: seq<Val>): (r: seq<Val>)
    ensures |r| == |xs|
    decreases xs
  {
    if xs == [] then []
    else [if IsCtx(k, i) then VLit(LNone) else StripCtx(xs[0])] + StripFields(k, i + 1, xs[1..])
  }

  /** equal_ast holds exactly when the two values agree once `ctx` is ignored. */
  lemma {:induction false} EqualAstIsStripEquality(a: Val, b: Val)
    ensures EqualAst(a, b) <==> StripCtx(a) == StripCtx(b)
    decreases a
  {
    match a
    case VList(xs) =>
      if b.VList? { EqualItemsIsStripEquality(xs, b.items); }
    case VNode(s) =>
      if b.VNode? && s.kind == b.t.kind { EqualFieldsIsStripEquality(s.kind, 0, s.vals, b.t.vals); }
    case VLit(x) =>
  }

  lemma {:induction false} EqualItemsIsStripEquality(xs: seq<Val>, ys: seq<Val>)
    ensures EqualItems(xs, ys) <==> StripItems(xs) == StripItems(ys)
    decreases xs
  {
    if xs != [] && |xs| == |ys| {
      EqualAstIsStripEquality(xs[0], ys[0]);
      EqualItemsIsStripEquality(xs[1..], ys[1..]);
      assert StripItems(xs) == [StripCtx(xs[0])] + StripItems(xs[1..]);
      assert StripItems(ys) == [StripCtx(ys[0])] + StripItems(ys[1..]);
      if StripItems(xs) == StripItems(ys) {
        assert StripItems(xs)[0] == StripItems(ys)[0];
        assert StripItems(xs)[1..] == StripItems(ys)[1..];
      }
    }
  }

  lemma {:induction false} EqualFieldsIsStripEquality(k: Kind, i: nat, xs: seq<Val>, ys: seq<Val>)
    ensures EqualFields(k, i, xs, ys) <==> StripFields(k, i, xs) == StripFields(k, i, ys)
    decreases xs
  {
    if xs != [] && |xs| == |ys| {
      EqualAstIsStripEquality(xs[0], ys[0]);
      EqualFieldsIsStripEquality(k, i + 1, xs[1..], ys[1..]);
      var l := StripFields(k, i, xs);
      var r := StripFields(k, i, ys);
      assert l == [if IsCtx(k, i) then VLit(LNone) else StripCtx(xs[0])] + StripFields(k, i + 1, xs[1..]);
      assert r == [if IsCtx(k, i) then VLit(LNone) else StripCtx(ys[0])] + StripFields(k, i + 1, ys[1..]);
      if l == r {
        assert l[0] == r[0];
        assert l[1..] == r[1..];
      }
    }
  }

  /** Hence equal_ast is an equivalence relation, as the driver's change test needs. */
  lemma EqualAstIsEquivalence(a: Val, b: Val, c: Val)
    ensures EqualAst(a, a)
    ensures EqualAst(a, b) ==> EqualAst(b, a)
    ensures EqualAst(a, b) && EqualAst(b, c) ==> EqualAst(a, c)
  {
    EqualAstIsStripEquality(a, a);
    EqualAstIsStripEquality(a, b);
    EqualAstIsStripEquality(b, a);
    EqualAstIsStripEquality(b, c);
    EqualAstIsStripEquality(a, c);
  }

  /** Changing only a `ctx` field leaves a node equal_ast to the original. */
  lemma CtxIsIgnored(k: Kind, vals: seq<Val>, i: nat, v: Val)
    requires i < |vals| && IsCtx(k, i)
    ensures EqualAst(VNode(Node(k, vals)), VNode(Node(k, vals[i := v])))
  {
    EqualAstIsStripEquality(VNode(Node(k, vals)), VNode(Node(k, vals[i := v])));
    StripFieldsIgnoresCtx(k, 0, vals, i, v);
  }

  lemma {:induction false} StripFieldsIgnoresCtx(k: Kind, j: nat, xs: seq<Val>, i: nat, v: Val)
    requires j <= i < j + |xs| && IsCtx(k, i)
    ensures StripFields(k, j, xs) == StripFields(k, j, xs[i - j := v])
    decreases xs
  {
    if i > j {
      StripFieldsIgnoresCtx(k, j + 1, xs[1..], i, v);
      assert xs[i - j := v][1..] == xs[1..][i - (j + 1) := v];
    }
  }

  /**
   * is_block: a non-empty list whose every element is a statement. `cats`
   * are the categories of the list's elements.
   */
  predicate IsBlock(cats: seq<Category>)
  {
    |cats| > 0 && forall c :: c in cats ==> c == Stmt
  }

  /** A function's parameter record (`ast.arguments`); absent parameters are None. */
  datatype Parameters<P> = Parameters(
    posonlyargs: seq<P>, args: seq<P>, vararg: Option<P>, kwonlyargs: seq<P>, kwarg: Option<P>)

  function Present<P>(o: Option<P>): seq<P> { if o.Some? then [o.value] else [] }

  /**
   * arguments(): every parameter of a function or lambda, in the order
   * args, vararg, kwonlyargs, kwarg, then posonlyargs, skipping absent ones.
   */
  function Arguments<P(!new)>(a: Parameters<P>): (r: seq<P>)
    ensures |r| == |a.posonlyargs| + |a.args| + |a.kwonlyargs|
                   + (if a.vararg.Some? then 1 else 0) + (if a.kwarg.Some? then 1 else 0)
    ensures forall p :: p in r <==>
      p in a.posonlyargs || p in a.args || p in a.kwonlyargs
      || a.vararg == Some(p) || a.kwarg == Some(p)
    ensures r[..|a.args|] == a.args
    ensures r[|r| - |a.posonlyargs|..] == a.posonlyargs
  {
    a.args + Present(a.vararg) + a.kwonlyargs + Present(a.kwarg) + a.posonlyargs
  }
}
