/**
 * The substitution-map model of MinimizeBase (pysource_minimize/_minimize_base.py):
 * every node of the original tree has an integer handle, candidates are
 * described by a map from handles (or handle/field pairs) to replacements,
 * and get_ast materialises a candidate tree from the original and a map.
 */
module Substitution {

  import opened Wrappers
  import opened Ast

  type Handle = nat

  /** A field of an original node: one child, a list of children, or a plain value. */
  datatype Slot = Child(h: Handle) | Kids(hs: seq<Handle>) | Plain(v: Val)

  /**
   * A node of the original tree, its children referred to by handle.
   * `Wrapper` is ValueWrapper: a plain list element (a None default, a
   * global name) given a handle of its own so that it can be removed.
   */
  datatype ANode = ANode(kind: Kind, slots: seq<Slot>) | Wrapper(lit: Lit)

  /** The original tree: the node with handle h is at position h; the root is 0. */
  type Arena = seq<ANode>

  /** A map key: a node (`index`) or one field of a node (`(index, name)`). */
  datatype Key = At(h: Handle) | FieldOf(h: Handle, name: string)

  /**
   * A replacement. Removal from a list is `RedirectList([])`, as in the
   * source, where it is the empty list; `Literal` is a fresh node or a
   * wrapped value that is not part of the original tree.
   */
  datatype Subst = Null | Redirect(target: Handle) | RedirectList(targets: seq<Handle>) | Literal(v: Val)

  type SubstMap = map<Key, Subst>

  /**
   * Why materialisation has no result. The source has none either:
   * `RedirectCycle` and `TooDeep` are endless loops or recursion,
   * `NotNodeOrNone` is the failed assertion on a redirect chain and
   * `UnknownHandle` a missing entry of the node table.
   */
  datatype Failure = RedirectCycle | NotNodeOrNone | UnknownHandle | TooDeep

  /** The candidate map `{**committed, **extra}`: extra wins on equal keys. */
  function Merge(committed: SubstMap, extra: SubstMap): (m: SubstMap)
    ensures m.Keys == committed.Keys + extra.Keys
    ensures forall k :: k in extra ==> m[k] == extra[k]
    ensures forall k :: k in committed && k !in extra ==> m[k] == committed[k]
  {
    committed + extra
  }

  function MappedHandles(m: SubstMap): set<Handle>
  {
    set k | k in m.Keys && k.At? :: k.h
  }

  lemma MappedHandle(m: SubstMap, h: Handle)
    requires At(h) in m
    ensures h in MappedHandles(m)
  {
    assert At(h).h == h;
  }

  /** Where a scalar field ends up: at an original node, or at a value. */
  datatype Resolved = ToNode(h: Handle) | ToValue(v: Val)

  /**
   * replaced_node: follow the redirect chain from h until an unmapped
   * handle; None gives None and a literal is returned as it is. `path`
   * holds the handles already followed; meeting one again is a cycle.
   */
  function ResolveScalar(m: SubstMap, h: Handle, path: set<Handle>): (r: Result<Resolved, Failure>)
    ensures At(h) !in m ==> r == Ok(ToNode(h))
    ensures r.Ok? && r.value.ToNode? ==> At(r.value.h) !in m
    ensures r.Ok? && At(h) in m ==> h !in path
    ensures At(h) in m && h !in path && m[At(h)] == Null ==> r == Ok(ToValue(VLit(LNone)))
    ensures At(h) in m && h !in path && m[At(h)].Literal? ==> r == Ok(ToValue(m[At(h)].v))
    ensures At(h) in m && m[At(h)].RedirectList? ==> r.Err?
    decreases MappedHandles(m) - path
  {
    if At(h) !in m then Ok(ToNode(h))
    else if h in path then Err(RedirectCycle)
    else
      match m[At(h)]
      case Null => Ok(ToValue(VLit(LNone)))
      case Literal(v) => Ok(ToValue(v))
      case RedirectList(_) => Err(NotNodeOrNone)
      case Redirect(j) =>
        MappedHandle(m, h);
        ResolveScalar(m, j, path + {h})
  }

  /** A successful resolution does not depend on how much of the chain was already followed. */
  lemma {:induction false} ResolveScalarPathIrrelevant(m: SubstMap, h: Handle, p: set<Handle>, q: set<Handle>)
    requires p <= q && ResolveScalar(m, h, q).Ok?
    ensures ResolveScalar(m, h, p) == ResolveScalar(m, h, q)
    decreases MappedHandles(m) - p
  {
    if At(h) in m && m[At(h)].Redirect? {
      MappedHandle(m, h);
      ResolveScalarPathIrrelevant(m, m[At(h)].target, p + {h}, q + {h});
    }
  }

  /** Following one redirect step does not change where a chain ends. */
  lemma ResolveScalarStep(m: SubstMap, h: Handle)
    requires At(h) in m && m[At(h)].Redirect?
    requires ResolveScalar(m, h, {}).Ok?
    ensures ResolveScalar(m, h, {}) == ResolveScalar(m, m[At(h)].target, {})
  {
    var j := m[At(h)].target;
    MappedHandle(m, h);
    assert {} + {h} == {h};
    assert ResolveScalar(m, h, {}) == ResolveScalar(m, j, {h});
    ResolveScalarPathIrrelevant(m, j, {}, {h});
  }

  /** An element of a resolved list: an original node, or a value put there by the map. */
  datatype Item = INode(h: Handle) | IVal(v: Val)

  /**
   * replace() inside replaced_nodes: unmapped handles stay, handles mapped
   * to a list (the empty list included) are replaced by that list's
   * flattening, a single redirect by its target's, None by None and a
   * literal by itself.
   */
  function FlattenSeq(m: SubstMap, hs: seq<Handle>, path: set<Handle>): (r: Result<seq<Item>, Failure>)
    ensures r.Ok? ==> forall it :: it in r.value && it.INode? ==> At(it.h) !in m
    decreases MappedHandles(m) - path, |hs|
  {
    if hs == [] then Ok([])
    else
      match FlattenOne(m, hs[0], path)
      case Err(e) => Err(e)
      case Ok(head) =>
        match FlattenSeq(m, hs[1..], path)
        case Err(e) => Err(e)
        case Ok(tail) => Ok(head + tail)
  }

  function FlattenOne(m: SubstMap, h: Handle, path: set<Handle>): (r: Result<seq<Item>, Failure>)
    ensures r.Ok? ==> forall it :: it in r.value && it.INode? ==> At(it.h) !in m
    ensures At(h) !in m ==> r == Ok([INode(h)])
    ensures At(h) in m && h !in path && m[At(h)] == Null ==> r == Ok([IVal(VLit(LNone))])
    ensures At(h) in m && h !in path && m[At(h)] == RedirectList([]) ==> r == Ok([])
    decreases MappedHandles(m) - path, 0
  {
    if At(h) !in m then Ok([INode(h)])
    else if h in path then Err(RedirectCycle)
    else
      MappedHandle(m, h);
      match m[At(h)]
      case Null => Ok([IVal(VLit(LNone))])
      case Literal(v) => Ok([IVal(v)])
      case Redirect(j) => FlattenSeq(m, [j], path + {h})
      case RedirectList(js) => FlattenSeq(m, js, path + {h})
  }

  /** Flattening works element by element: it distributes over concatenation. */
  lemma {:induction false} FlattenSeqAppend(m: SubstMap, a: seq<Handle>, b: seq<Handle>, path: set<Handle>)
    requires FlattenSeq(m, a, path).Ok? && FlattenSeq(m, b, path).Ok?
    ensures FlattenSeq(m, a + b, path).Ok?
    ensures FlattenSeq(m, a + b, path).value == FlattenSeq(m, a, path).value + FlattenSeq(m, b, path).value
    decreases |a|
  {
    if a == [] {
      assert a + b == b;
    } else {
      var head := FlattenOne(m, a[0], path);
      var rest := FlattenSeq(m, a[1..], path);
      assert head.Ok? && rest.Ok? && FlattenSeq(m, a, path).value == head.value + rest.value;
      FlattenSeqAppend(m, a[1..], b, path);
      var ab := a + b;
      assert ab[0] == a[0] && ab[1..] == a[1..] + b;
      assert FlattenSeq(m, ab, path).value == head.value + (rest.value + FlattenSeq(m, b, path).value);
    }
  }

  /** With nothing mapped, flattening keeps every handle, in order. */
  lemma {:induction false} FlattenSeqUnmapped(m: SubstMap, hs: seq<Handle>, path: set<Handle>)
    requires forall h :: h in hs ==> At(h) !in m
    ensures FlattenSeq(m, hs, path).Ok?
    ensures FlattenSeq(m, hs, path).value == seq(|hs|, i requires 0 <= i < |hs| => INode(hs[i]))
    decreases |hs|
  {
    if hs != [] {
      FlattenSeqUnmapped(m, hs[1..], path);
      assert FlattenOne(m, hs[0], path) == Ok([INode(hs[0])]);
      assert FlattenSeq(m, hs, path).value == [INode(hs[0])] + FlattenSeq(m, hs[1..], path).value;
    }
  }

  /** Removing handles (mapping them to []) drops exactly those handles from a list. */
  lemma {:induction false} FlattenSeqRemoved(m: SubstMap, hs: seq<Handle>, path: set<Handle>)
    requires forall h :: h in hs ==> At(h) in m && m[At(h)] == RedirectList([]) && h !in path
    ensures FlattenSeq(m, hs, path).Ok? && FlattenSeq(m, hs, path).value == []
    decreases |hs|
  {
    if hs != [] {
      FlattenSeqRemoved(m, hs[1..], path);
      assert FlattenOne(m, hs[0], path) == Ok([]);
    }
  }

  /** A successful flattening does not depend on how many redirects were already followed. */
  lemma {:induction false} FlattenSeqPathIrrelevant(m: SubstMap, hs: seq<Handle>, p: set<Handle>, q: set<Handle>)
    requires p <= q && FlattenSeq(m, hs, q).Ok?
    ensures FlattenSeq(m, hs, p).Ok? && FlattenSeq(m, hs, p).value == FlattenSeq(m, hs, q).value
    decreases MappedHandles(m) - p, |hs|
  {
    if hs != [] {
      FlattenOnePathIrrelevant(m, hs[0], p, q);
      FlattenSeqPathIrrelevant(m, hs[1..], p, q);
    }
  }

  lemma {:induction false} FlattenOnePathIrrelevant(m: SubstMap, h: Handle, p: set<Handle>, q: set<Handle>)
    requires p <= q && FlattenOne(m, h, q).Ok?
    ensures FlattenOne(m, h, p).Ok? && FlattenOne(m, h, p).value == FlattenOne(m, h, q).value
    decreases MappedHandles(m) - p, 0
  {
    if At(h) in m {
      MappedHandle(m, h);
      match m[At(h)]
      case Redirect(j) => FlattenSeqPathIrrelevant(m, [j], p + {h}, q + {h});
      case RedirectList(js) => FlattenSeqPathIrrelevant(m, js, p + {h}, q + {h});
      case Null =>
      case Literal(_) =>
    }
  }

  /** A redirect inside a list is replaced by the flattening of its target. */
  lemma FlattenOneRedirect(m: SubstMap, h: Handle)
    requires At(h) in m && m[At(h)].Redirect?
    requires FlattenOne(m, h, {}).Ok?
    ensures FlattenOne(m, m[At(h)].target, {}).Ok?
    ensures FlattenOne(m, h, {}).value == FlattenOne(m, m[At(h)].target, {}).value
  {
    var j := m[At(h)].target;
    MappedHandle(m, h);
    assert {} + {h} == {h};
    assert FlattenOne(m, h, {}) == FlattenSeq(m, [j], {h});
    assert FlattenSeq(m, [j], {h}).value == FlattenOne(m, j, {h}).value + [];
    FlattenOnePathIrrelevant(m, j, {}, {h});
  }

  /** A list redirect inside a list is replaced by the flattening of its targets, in order. */
  lemma FlattenOneRedirectList(m: SubstMap, h: Handle)
    requires At(h) in m && m[At(h)].RedirectList?
    requires FlattenOne(m, h, {}).Ok?
    ensures FlattenSeq(m, m[At(h)].targets, {}).Ok?
    ensures FlattenOne(m, h, {}).value == FlattenSeq(m, m[At(h)].targets, {}).value
  {
    MappedHandle(m, h);
    assert {} + {h} == {h};
    FlattenSeqPathIrrelevant(m, m[At(h)].targets, {}, {h});
  }

  function Cat(a: Arena, h: Handle): Category
  {
    if h < |a| && a[h].ANode? then a[h].kind.cat else OtherNode
  }

  function Cats(a: Arena, hs: seq<Handle>): (r: seq<Category>)
    ensures |r| == |hs| && forall i :: 0 <= i < |hs| ==> r[i] == Cat(a, hs[i])
  {
    if hs == [] then [] else [Cat(a, hs[0])] + Cats(a, hs[1..])
  }

  predicate IsExprNode(v: Val) { v.VNode? && v.t.kind.cat == Expr }

  /** The block rule: each expression put into a block is wrapped in `Expr`. */
  function WrapExprs(vs: seq<Val>): (r: seq<Val>)
    ensures |r| == |vs|
    ensures forall i :: 0 <= i < |vs| ==> r[i] == if IsExprNode(vs[i]) then ExprStmt(vs[i]) else vs[i]
  {
    if vs == [] then [] else [if IsExprNode(vs[0]) then ExprStmt(vs[0]) else vs[0]] + WrapExprs(vs[1..])
  }

  function FieldName(k: Kind, i: nat): string
  {
    if i < |k.fields| then k.fields[i] else ""
  }

  /** setattr with the raw replacement value of a `(index, field)` key. */
  function Override(s: Subst): Val
  {
    match s
    case Null => VLit(LNone)
    case Literal(v) => v
    case Redirect(j) => VLit(LInt(j))
    case RedirectList(js) => VList(seq(|js|, i requires 0 <= i < |js| => VLit(LInt(js[i]))))
  }

  /**
   * get_ast / map_node for the node with handle h: its fields resolved
   * through m. `depth` bounds the nesting; on an acyclic map it is never
   * exhausted before the arena's size (see Candidate).
   */
  function Materialize(a: Arena, m: SubstMap, h: Handle, depth: nat): (r: Result<Val, Failure>)
    ensures r.Ok? ==> h < |a| && (r.value.VNode? <==> a[h].ANode?)
    ensures r.Ok? && a[h].ANode? ==> r.value.t.kind == a[h].kind && |r.value.t.vals| == |a[h].slots|
    decreases depth, 0
  {
    if depth == 0 then Err(TooDeep)
    else if h >= |a| then Err(UnknownHandle)
    else
      match a[h]
      case Wrapper(lit) => Ok(VLit(lit))
      case ANode(kind, slots) =>
        var vals :- ResolveSlots(a, m, h, kind, 0, slots, depth - 1);
        Ok(VNode(Node(kind, vals)))
  }

  function ResolveSlots(a: Arena, m: SubstMap, owner: Handle, k: Kind, i: nat, slots: seq<Slot>, depth: nat)
    : (r: Result<seq<Val>, Failure>)
    ensures r.Ok? ==> |r.value| == |slots|
    decreases depth, 3, |slots|
  {
    if slots == [] then Ok([])
    else
      var v :- ResolveSlot(a, m, owner, FieldName(k, i), slots[0], depth);
      var vs :- ResolveSlots(a, m, owner, k, i + 1, slots[1..], depth);
      Ok([v] + vs)
  }

  /**
   * One field: a `(index, name)` key overrides the whole field; otherwise a
   * list field is resolved as a list, a child as a scalar, and a plain
   * value is kept.
   */
  function ResolveSlot(a: Arena, m: SubstMap, owner: Handle, name: string, s: Slot, depth: nat)
    : (r: Result<Val, Failure>)
    ensures FieldOf(owner, name) in m ==> r == Ok(Override(m[FieldOf(owner, name)]))
    ensures FieldOf(owner, name) !in m && s.Plain? ==> r == Ok(s.v)
    ensures FieldOf(owner, name) !in m && s.Kids? && r.Ok? ==> r.value.VList?
    decreases depth, 2
  {
    if FieldOf(owner, name) in m then Ok(Override(m[FieldOf(owner, name)]))
    else
      match s
      case Plain(v) => Ok(v)
      case Kids(hs) => ResolveList(a, m, name, hs, depth)
      case Child(c) =>
        var target :- ResolveScalar(m, c, {});
        match target
        case ToValue(v) => Ok(v)
        case ToNode(j) => Materialize(a, m, j, depth)
  }

  /**
   * replaced_nodes: flatten the list through m and materialise what is
   * left; an emptied block becomes `[Pass]` unless it is an `orelse` or a
   * `finalbody`, and expressions placed in a block are wrapped in `Expr`.
   */
  function ResolveList(a: Arena, m: SubstMap, name: string, hs: seq<Handle>, depth: nat)
    : (r: Result<Val, Failure>)
    ensures r.Ok? ==> r.value.VList?
    ensures r.Ok? && IsBlock(Cats(a, hs)) && name != "orelse" && name != "finalbody" ==> |r.value.items| > 0
    ensures r.Ok? && IsBlock(Cats(a, hs)) ==> forall v :: v in r.value.items ==> !IsExprNode(v)
    ensures r.Ok? ==> FlattenSeq(m, hs, {}).Ok?
    ensures r.Ok? && IsBlock(Cats(a, hs)) && (name == "orelse" || name == "finalbody") ==>
      |r.value.items| == |FlattenSeq(m, hs, {}).value|
    ensures r.Ok? && !IsBlock(Cats(a, hs)) ==> |r.value.items| == |FlattenSeq(m, hs, {}).value|
    decreases depth, 1
  {
    var items :- FlattenSeq(m, hs, {});
    var vals :- MaterializeItems(a, m, items, depth);
    var block := IsBlock(Cats(a, hs));
    if vals == [] && block && name != "orelse" && name != "finalbody" then Ok(VList([PassStmt()]))
    else if block then Ok(VList(WrapExprs(vals)))
    else Ok(VList(vals))
  }

  function MaterializeItems(a: Arena, m: SubstMap, items: seq<Item>, depth: nat): (r: Result<seq<Val>, Failure>)
    ensures r.Ok? ==> |r.value| == |items|
    decreases depth, 1, |items|
  {
    if items == [] then Ok([])
    else
      var v :- match items[0]
               case IVal(v) => Ok(v)
               case INode(j) => Materialize(a, m, j, depth);
      var vs :- MaterializeItems(a, m, items[1..], depth);
      Ok([v] + vs)
  }

  /**
   * get_current_tree(extra): the candidate for `committed ∪ extra`. A
   * nesting deeper than the arena's size repeats a handle, i.e. follows a
   * redirect cycle, on which the source recurses without end.
   */
  function Candidate(a: Arena, committed: SubstMap, extra: SubstMap): (r: Result<Val, Failure>)
    ensures |a| > 0 && r.Ok? && a[0].ANode? ==> r.value.VNode? && r.value.t.kind == a[0].kind
  {
    if |a| == 0 then Err(UnknownHandle) else Materialize(a, Merge(committed, extra), 0, |a|)
  }
}
