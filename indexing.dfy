/**
 * Handle assignment in MinimizeBase.__init__ (pysource_minimize/_minimize_base.py):
 * the plain elements of four list fields are wrapped so that they can be
 * removed like nodes, and every node is numbered in `ast.walk` order, which
 * is breadth first. The result is the arena the rest of the model reads:
 * the entry at position h is the node with handle h, its children referred
 * to by handle.
 */
module Indexing {

  import opened Wrappers
  import opened Ast
  import opened Substitution
  import opened Checker
  import opened Base

  /** The fields whose plain elements `wrap` turns into ValueWrapper nodes. */
  predicate WrapsValues(kind: string, field: string)
  {
    || (kind == "arguments" && field == "kw_defaults")
    || (kind == "Nonlocal" && field == "names")
    || (kind == "Global" && field == "names")
    || (kind == "MatchClass" && field == "kwd_attrs")
  }

  /** A plain value `wrap` accepts: None, an int (a bool included), a str or bytes. */
  predicate Wrappable(v: Val)
  {
    v.VLit? && !v.lit.LOther?
  }

  /**
   * Whether the elements of a list field get handles of their own: when
   * they are all nodes, or, in a wrapped field, nodes and wrappable values.
   */
  predicate Indexed(k: Kind, f: nat, items: seq<Val>)
  {
    forall x :: 0 <= x < |items| ==> items[x].VNode? || (WrapsValues(k.name, FieldName(k, f)) && Wrappable(items[x]))
  }

  /** How many arena entries a node (or a wrapped value) and everything below it take. */
  function Size(v: Val): (n: nat)
    ensures n >= 1
    decreases v, 0
  {
    match v
    case VNode(t) => 1 + FieldsSize(t.kind, t.vals)
    case _ => 1
  }

  /** The entries taken below the fields of a node. */
  function FieldsSize(k: Kind, vals: seq<Val>): nat
    decreases vals
  {
    if vals == [] then 0
    else FieldsSize(k, vals[..|vals| - 1]) + FieldSize(k, |vals| - 1, vals[|vals| - 1])
  }

  /** The entries taken below field number f: a child node's, or an indexed list's. */
  function FieldSize(k: Kind, f: nat, v: Val): nat
    decreases v, 1
  {
    match v
    case VNode(_) => Size(v)
    case VList(items) => if Indexed(k, f, items) then Sizes(items) else 0
    case VLit(_) => 0
  }

  function Sizes(vs: seq<Val>): nat
    decreases vs
  {
    if vs == [] then 0 else Sizes(vs[..|vs| - 1]) + Size(vs[|vs| - 1])
  }

  lemma {:induction false} SizesAppend(a: seq<Val>, b: seq<Val>)
    ensures Sizes(a + b) == Sizes(a) + Sizes(b)
    decreases |b|
  {
    if b != [] {
      var b' := b[..|b| - 1];
      assert (a + b)[..|a + b| - 1] == a + b';
      SizesAppend(a, b');
    } else {
      assert a + b == a;
    }
  }

  lemma {:induction false} SizesBound(vs: seq<Val>, x: nat)
    requires x < |vs|
    ensures Size(vs[x]) <= Sizes(vs)
    decreases |vs|
  {
    if x < |vs| - 1 {
      SizesBound(vs[..|vs| - 1], x);
    }
  }

  lemma {:induction false} FieldsSizeBound(k: Kind, vals: seq<Val>, f: nat)
    requires f < |vals|
    ensures FieldSize(k, f, vals[f]) <= FieldsSize(k, vals)
    decreases |vals|
  {
    if f < |vals| - 1 {
      FieldsSizeBound(k, vals[..|vals| - 1], f);
    }
  }

  /** Handle h of the worklist holds the value v. */
  predicate HoldsAt(P: seq<Val>, h: Handle, v: Val)
  {
    h < |P| && P[h] == v
  }

  /**
   * The slot recorded for field number f, whose value is v: a child node
   * by its handle, an indexed list by the handles of its elements, in
   * order, and anything else as it is.
   */
  predicate SlotMatches(s: Slot, k: Kind, f: nat, v: Val, P: seq<Val>)
  {
    match v
    case VNode(_) => s.Child? && HoldsAt(P, s.h, v)
    case VList(items) =>
      if Indexed(k, f, items) then
        s.Kids? && |s.hs| == |items| && forall x :: 0 <= x < |items| ==> HoldsAt(P, s.hs[x], items[x])
      else s == Plain(v)
    case VLit(_) => s == Plain(v)
  }

  /** The arena entry for the worklist entry v. */
  predicate Matches(e: ANode, v: Val, P: seq<Val>)
  {
    match v
    case VNode(t) =>
      && e.ANode? && e.kind == t.kind && |e.slots| == |t.vals|
      && forall f :: 0 <= f < |t.vals| ==> SlotMatches(e.slots[f], t.kind, f, t.vals[f], P)
    case VLit(l) => e == Wrapper(l)
    case VList(_) => false
  }

  /** What the worklist holds: nodes, and the wrapped values of wrapped fields. */
  predicate Entries(P: seq<Val>)
  {
    forall j :: 0 <= j < |P| ==> P[j].VNode? || P[j].VLit?
  }

  /** Every entry of the arena is the node at the same position of the worklist. */
  ghost predicate Numbered(a: Arena, P: seq<Val>)
  {
    |a| == |P| && forall j :: 0 <= j < |P| ==> Matches(a[j], P[j], P)
  }

  lemma SlotMatchesGrow(s: Slot, k: Kind, f: nat, v: Val, P: seq<Val>, Q: seq<Val>)
    requires SlotMatches(s, k, f, v, P) && P <= Q
    ensures SlotMatches(s, k, f, v, Q)
  {
    if v.VList? && Indexed(k, f, v.items) {
      forall x | 0 <= x < |v.items|
        ensures HoldsAt(Q, s.hs[x], v.items[x])
      {
        assert HoldsAt(P, s.hs[x], v.items[x]);
      }
    }
  }

  lemma MatchesGrow(a: Arena, P: seq<Val>, Q: seq<Val>, n: nat)
    requires n <= |a| && n <= |P| && P <= Q
    requires forall j :: 0 <= j < n ==> Matches(a[j], P[j], P)
    ensures forall j :: 0 <= j < n ==> Matches(a[j], Q[j], Q)
  {
    forall j | 0 <= j < n
      ensures Matches(a[j], Q[j], Q)
    {
      assert Matches(a[j], P[j], P) && Q[j] == P[j];
      if P[j].VNode? {
        var t := P[j].t;
        forall f | 0 <= f < |t.vals|
          ensures SlotMatches(a[j].slots[f], t.kind, f, t.vals[f], Q)
        {
          SlotMatchesGrow(a[j].slots[f], t.kind, f, t.vals[f], P, Q);
        }
      }
    }
  }

  /** What field number f appends to the worklist: a child node, or an indexed list's elements. */
  function FieldEntries(k: Kind, f: nat, v: Val): (added: seq<Val>)
    ensures Entries(added)
  {
    match v
    case VNode(_) => [v]
    case VList(items) => if Indexed(k, f, items) then items else []
    case VLit(_) => []
  }

  /** The slot recorded for field number f when the worklist so far holds `base` entries. */
  function FieldSlot(k: Kind, f: nat, v: Val, base: nat): Slot
  {
    match v
    case VNode(_) => Child(base)
    case VList(items) =>
      if Indexed(k, f, items) then Kids(seq(|items|, x requires 0 <= x < |items| => base + x)) else Plain(v)
    case VLit(_) => Plain(v)
  }

  /** The slot refers to the entries appended for it. */
  lemma FieldSlotMatches(k: Kind, f: nat, v: Val, P: seq<Val>)
    ensures SlotMatches(FieldSlot(k, f, v, |P|), k, f, v, P + FieldEntries(k, f, v))
  {
    var Q := P + FieldEntries(k, f, v);
    if v.VList? && Indexed(k, f, v.items) {
      forall x | 0 <= x < |v.items|
        ensures HoldsAt(Q, |P| + x, v.items[x])
      {
        assert Q[|P| + x] == v.items[x];
      }
    } else if v.VNode? {
      assert Q[|P|] == v;
    }
  }

  /** The appended entries take exactly the field's share of the node's size. */
  lemma FieldEntriesSize(k: Kind, f: nat, v: Val)
    ensures Sizes(FieldEntries(k, f, v)) == FieldSize(k, f, v)
  {
    if v.VNode? {
      assert [v][..0] == [];
    }
  }

  lemma FieldsSizeStep(k: Kind, vals: seq<Val>, f: nat)
    requires f < |vals|
    ensures FieldsSize(k, vals[..f + 1]) == FieldsSize(k, vals[..f]) + FieldSize(k, f, vals[f])
  {
    assert vals[..f + 1][..f] == vals[..f];
  }

  lemma SlotsGrow(slots: seq<Slot>, k: Kind, vals: seq<Val>, n: nat, P: seq<Val>, Q: seq<Val>)
    requires n <= |slots| && n <= |vals| && P <= Q
    requires forall g :: 0 <= g < n ==> SlotMatches(slots[g], k, g, vals[g], P)
    ensures forall g :: 0 <= g < n ==> SlotMatches(slots[g], k, g, vals[g], Q)
  {
    forall g | 0 <= g < n
      ensures SlotMatches(slots[g], k, g, vals[g], Q)
    {
      SlotMatchesGrow(slots[g], k, g, vals[g], P, Q);
    }
  }

  /**
   * The fields of one node: each child node and each element of an
   * indexed list is appended to the worklist (`iter_child_nodes` order)
   * and referred to by the handle it gets there.
   */
  method IndexFields(t: Tree, pending: seq<Val>) returns (slots: seq<Slot>, added: seq<Val>)
    ensures |slots| == |t.vals| && Entries(added)
    ensures forall f :: 0 <= f < |t.vals| ==> SlotMatches(slots[f], t.kind, f, t.vals[f], pending + added)
    ensures Sizes(added) == FieldsSize(t.kind, t.vals)
  {
    slots := [];
    added := [];
    for f := 0 to |t.vals|
      invariant |slots| == f && Entries(added)
      invariant forall g :: 0 <= g < f ==> SlotMatches(slots[g], t.kind, g, t.vals[g], pending + added)
      invariant Sizes(added) == FieldsSize(t.kind, t.vals[..f])
    {
      FieldTurn(t, f, pending, added, slots);
      slots := slots + [FieldSlot(t.kind, f, t.vals[f], |pending + added|)];
      added := added + FieldEntries(t.kind, f, t.vals[f]);
    }
    assert t.vals[..|t.vals|] == t.vals;
  }

  /** One turn of IndexFields keeps its invariant. */
  lemma FieldTurn(t: Tree, f: nat, pending: seq<Val>, added: seq<Val>, slots: seq<Slot>)
    requires f < |t.vals| && |slots| == f
    requires forall g :: 0 <= g < f ==> SlotMatches(slots[g], t.kind, g, t.vals[g], pending + added)
    requires Sizes(added) == FieldsSize(t.kind, t.vals[..f])
    ensures var more := FieldEntries(t.kind, f, t.vals[f]);
      var slots' := slots + [FieldSlot(t.kind, f, t.vals[f], |pending + added|)];
      && (forall g :: 0 <= g < f + 1 ==> SlotMatches(slots'[g], t.kind, g, t.vals[g], pending + (added + more)))
      && Sizes(added + more) == FieldsSize(t.kind, t.vals[..f + 1])
  {
    var v := t.vals[f];
    var more := FieldEntries(t.kind, f, v);
    var P := pending + added;
    FieldSlotMatches(t.kind, f, v, P);
    SlotsGrow(slots, t.kind, t.vals, f, P, P + more);
    FieldEntriesSize(t.kind, f, v);
    SizesAppend(added, more);
    FieldsSizeStep(t.kind, t.vals, f);
    AppendAssoc(pending, added, more);
  }

  /** One turn of the numbering loop keeps its invariant. */
  lemma NumberStep(root: Val, arena: Arena, pending: seq<Val>, i: nat, entry: ANode, added: seq<Val>)
    requires i < |pending| && |arena| == i && Entries(pending) && Entries(added)
    requires forall j :: 0 <= j < i ==> Matches(arena[j], pending[j], pending)
    requires i + Sizes(pending[i..]) == Size(root)
    requires Matches(entry, pending[i], pending + added) && Sizes(added) + 1 == Size(pending[i])
    ensures Entries(pending + added)
    ensures forall j :: 0 <= j < i + 1 ==> Matches((arena + [entry])[j], (pending + added)[j], pending + added)
    ensures i + 1 + Sizes((pending + added)[i + 1..]) == Size(root)
    ensures Sizes((pending + added)[i + 1..]) < Sizes(pending[i..])
  {
    NumberMatches(arena, pending, i, entry, added);
    NumberSizes(pending, i, added);
  }

  /** The entries numbered so far, and the new one, still match once the worklist grows. */
  lemma NumberMatches(arena: Arena, pending: seq<Val>, i: nat, entry: ANode, added: seq<Val>)
    requires i < |pending| && |arena| == i && Entries(pending) && Entries(added)
    requires forall j :: 0 <= j < i ==> Matches(arena[j], pending[j], pending)
    requires Matches(entry, pending[i], pending + added)
    ensures Entries(pending + added)
    ensures forall j :: 0 <= j < i + 1 ==> Matches((arena + [entry])[j], (pending + added)[j], pending + added)
  {
    MatchesGrow(arena, pending, pending + added, i);
    forall j | 0 <= j < i + 1
      ensures Matches((arena + [entry])[j], (pending + added)[j], pending + added)
    {
      if j == i {
        assert (arena + [entry])[j] == entry && (pending + added)[j] == pending[i];
      } else {
        assert (arena + [entry])[j] == arena[j];
      }
    }
  }

  /** The size still to number drops by the entry just numbered. */
  lemma NumberSizes(pending: seq<Val>, i: nat, added: seq<Val>)
    requires i < |pending| && Sizes(added) + 1 == Size(pending[i])
    ensures Sizes((pending + added)[i + 1..]) + 1 == Sizes(pending[i..])
  {
    var v := pending[i];
    var rest := pending[i + 1..];
    assert pending[i..] == [v] + rest;
    SizesAppend([v], rest);
    assert [v][..0] == [];
    assert (pending + added)[i + 1..] == rest + added;
    SizesAppend(rest, added);
  }

  /**
   * The numbering loop of __init__: entries are taken from the worklist in
   * order (`ast.walk` is breadth first) and get their position in it as
   * handle, the root 0. Materialising the arena with nothing mapped gives
   * the original tree back.
   */
  method IndexTree(root: Val) returns (arena: Arena)
    requires root.VNode?
    ensures |arena| == Size(root) && arena[0].ANode?
    ensures Candidate(arena, map[], map[]) == Ok(root)
  {
    var pending := [root];
    arena := [];
    var i := 0;
    assert pending[i..] == [root][..0] + [root];
    while i < |pending|
      invariant 0 <= i <= |pending| && |arena| == i && 0 < |pending| && pending[0] == root
      invariant Entries(pending)
      invariant forall j :: 0 <= j < i ==> Matches(arena[j], pending[j], pending)
      invariant i + Sizes(pending[i..]) == Size(root)
      decreases Sizes(pending[i..])
    {
      var v := pending[i];
      var entry: ANode;
      var added: seq<Val> := [];
      if v.VNode? {
        var slots;
        slots, added := IndexFields(v.t, pending);
        entry := ANode(v.t.kind, slots);
      } else {
        entry := Wrapper(v.lit);
      }
      NumberStep(root, arena, pending, i, entry, added);
      pending := pending + added;
      arena := arena + [entry];
      i := i + 1;
    }
    Finish(root, arena, pending);
  }

  /**
   * MinimizeBase.__init__ on a tree: number it, then open the gate. Since
   * the numbered arena materialises to the tree itself, the checker is
   * asked about the original tree: the constructor refuses exactly when
   * the checker rejects it, and never for a broken candidate.
   */
  method Prepare(root: Val, checker: Val -> Verdict) returns (r: Result<Engine, GateError>)
    requires root.VNode?
    ensures r.Ok? || r == Err(NothingToMinimize)
    ensures r == Err(NothingToMinimize) <==> checker(root) == Reject
    ensures r.Ok? ==>
      && fresh(r.value) && r.value.Valid() && Candidate(r.value.arena, map[], map[]) == Ok(root)
      && r.value.trials == []
      && (r.value.state == Stopped <==> checker(root) == AcceptAndStop)
      && r.value.visits == (if r.value.state == Running then [Visit("minimize_stmt", One(0))] else [])
  {
    var arena := IndexTree(root);
    r := Open(arena, checker);
  }

  lemma Finish(root: Val, arena: Arena, pending: seq<Val>)
    requires |arena| == |pending| && 0 < |pending| && pending[0] == root && root.VNode?
    requires Entries(pending)
    requires forall j :: 0 <= j < |pending| ==> Matches(arena[j], pending[j], pending)
    requires |pending| + Sizes(pending[|pending|..]) == Size(root)
    ensures |arena| == Size(root) && arena[0].ANode?
    ensures Candidate(arena, map[], map[]) == Ok(root)
  {
    assert pending[|pending|..] == [];
    assert Matches(arena[0], pending[0], pending);
    RoundTrip(arena, pending, 0, |arena|);
    assert Merge(map[], map[]) == map[];
  }

  /** A numbered arena materialises every entry back to the value it was made from. */
  lemma RoundTrip(a: Arena, P: seq<Val>, j: nat, d: nat)
    requires Numbered(a, P) && Entries(P) && j < |P| && Size(P[j]) <= d
    ensures Materialize(a, map[], j, d) == Ok(P[j])
  {
    MaterializeEntry(a, P, j, d);
  }

  lemma {:induction false} MaterializeEntry(a: Arena, P: seq<Val>, j: nat, d: nat)
    requires Numbered(a, P) && Entries(P) && j < |P| && Size(P[j]) <= d
    ensures Materialize(a, map[], j, d) == Ok(P[j])
    decreases P[j], 0
  {
    assert Matches(a[j], P[j], P);
    if P[j].VNode? {
      var t := P[j].t;
      forall f | 0 <= f < |t.vals|
        ensures FieldSize(t.kind, f, t.vals[f]) <= d - 1
      {
        FieldsSizeBound(t.kind, t.vals, f);
      }
      ResolveSlotsOk(a, P, j, t.kind, 0, a[j].slots, t.vals, d - 1);
    }
  }

  lemma {:induction false} ResolveSlotsOk(a: Arena, P: seq<Val>, owner: Handle, k: Kind, i: nat,
                                          slots: seq<Slot>, vals: seq<Val>, d: nat)
    requires Numbered(a, P) && Entries(P) && |slots| == |vals|
    requires forall f :: 0 <= f < |vals| ==> SlotMatches(slots[f], k, i + f, vals[f], P)
    requires forall f :: 0 <= f < |vals| ==> FieldSize(k, i + f, vals[f]) <= d
    ensures ResolveSlots(a, map[], owner, k, i, slots, d) == Ok(vals)
    decreases vals
  {
    if vals != [] {
      ResolveSlotOk(a, P, owner, k, i, slots[0], vals[0], d);
      ResolveSlotsOk(a, P, owner, k, i + 1, slots[1..], vals[1..], d);
      assert [vals[0]] + vals[1..] == vals;
    }
  }

  lemma {:induction false} ResolveSlotOk(a: Arena, P: seq<Val>, owner: Handle, k: Kind, f: nat, s: Slot, v: Val, d: nat)
    requires Numbered(a, P) && Entries(P)
    requires SlotMatches(s, k, f, v, P) && FieldSize(k, f, v) <= d
    ensures ResolveSlot(a, map[], owner, FieldName(k, f), s, d) == Ok(v)
    decreases v, 1
  {
    match v {
      case VNode(_) =>
        MaterializeEntry(a, P, s.h, d);
      case VList(items) =>
        if Indexed(k, f, items) {
          ResolveListOk(a, P, FieldName(k, f), s.hs, items, d);
        }
      case VLit(_) =>
    }
  }

  lemma ResolveListOk(a: Arena, P: seq<Val>, name: string, hs: seq<Handle>, items: seq<Val>, d: nat)
    requires Numbered(a, P) && Entries(P) && |hs| == |items|
    requires forall x :: 0 <= x < |items| ==> HoldsAt(P, hs[x], items[x])
    requires Sizes(items) <= d
    ensures ResolveList(a, map[], name, hs, d) == Ok(VList(items))
    decreases items, 1
  {
    FlattenSeqUnmapped(map[], hs, {});
    var flat := seq(|hs|, x requires 0 <= x < |hs| => INode(hs[x]));
    forall x | 0 <= x < |items|
      ensures Size(items[x]) <= d
    {
      SizesBound(items, x);
    }
    MaterializeItemsOk(a, P, flat, items, d);
    if IsBlock(Cats(a, hs)) {
      BlockHasNoExpr(a, P, hs, items);
    }
  }

  /** The elements of a statement block are statements: the block rule wraps none of them. */
  lemma BlockHasNoExpr(a: Arena, P: seq<Val>, hs: seq<Handle>, items: seq<Val>)
    requires Numbered(a, P) && |hs| == |items|
    requires forall x :: 0 <= x < |items| ==> HoldsAt(P, hs[x], items[x])
    requires IsBlock(Cats(a, hs))
    ensures WrapExprs(items) == items
  {
    forall x | 0 <= x < |items|
      ensures !IsExprNode(items[x])
    {
      assert Cats(a, hs)[x] in Cats(a, hs);
      assert Matches(a[hs[x]], P[hs[x]], P);
    }
  }

  lemma {:induction false} MaterializeItemsOk(a: Arena, P: seq<Val>, flat: seq<Item>, items: seq<Val>, d: nat)
    requires Numbered(a, P) && Entries(P) && |flat| == |items|
    requires forall x :: 0 <= x < |items| ==> flat[x].INode? && HoldsAt(P, flat[x].h, items[x])
    requires forall x :: 0 <= x < |items| ==> Size(items[x]) <= d
    ensures MaterializeItems(a, map[], flat, d) == Ok(items)
    decreases items, 0
  {
    if items != [] {
      MaterializeEntry(a, P, flat[0].h, d);
      MaterializeItemsOk(a, P, flat[1..], items[1..], d);
      assert [items[0]] + items[1..] == items;
    }
  }
}
