/**
 * The unique-name pass (src/pysource_minimize/_minimize_unique_name.py,
 * class MinimizeUniqueName): every `Name` whose id does not already carry
 * the prefix is offered a fresh name `unique_name_<k>`, the counter `k`
 * only moving forward past names already in use.
 */
module UniqueName {

  import opened Wrappers
  import opened Ast
  import opened Substitution
  import opened Checker
  import opened Base

  const Prefix: string := "unique_name_"

  // ---------------------------------------------------------------------
  // str(k)
  // ---------------------------------------------------------------------

  function Digit(d: nat): char
    requires d < 10
  {
    (48 + d) as char
  }

  /** `str(n)` for a natural number: its decimal digits, most significant first. */
  function NatToString(n: nat): (s: string)
    ensures |s| >= 1
    ensures n >= 10 ==> |s| >= 2
    ensures s[|s| - 1] == Digit(n % 10)
    decreases n
  {
    if n < 10 then [Digit(n)] else NatToString(n / 10) + [Digit(n % 10)]
  }

  /** Different numbers have different decimal representations. */
  lemma {:induction false} NatToStringInjective(a: nat, b: nat)
    requires NatToString(a) == NatToString(b)
    ensures a == b
    decreases a
  {
    var s := NatToString(a);
    if a >= 10 && b >= 10 {
      assert NatToString(a / 10) == s[..|s| - 1] == NatToString(b / 10);
      NatToStringInjective(a / 10, b / 10);
    }
  }

  /** The name `new_name` builds from a counter value. */
  function UniqueNameOf(k: nat): (s: string)
    ensures Prefix <= s
  {
    Prefix + NatToString(k)
  }

  lemma UniqueNameInjective(j: nat, k: nat)
    requires UniqueNameOf(j) == UniqueNameOf(k)
    ensures j == k
  {
    assert NatToString(j) == UniqueNameOf(j)[|Prefix|..];
    assert NatToString(k) == UniqueNameOf(k)[|Prefix|..];
    NatToStringInjective(j, k);
  }

  /** The names for the counter values below `n`. */
  function Generated(n: nat): set<string>
  {
    set j | 0 <= j < n :: UniqueNameOf(j)
  }

  lemma GeneratedStep(n: nat)
    ensures Generated(n + 1) == Generated(n) + {UniqueNameOf(n)}
    ensures UniqueNameOf(n) !in Generated(n)
  {
    if UniqueNameOf(n) in Generated(n) {
      var j :| 0 <= j < n && UniqueNameOf(j) == UniqueNameOf(n);
      UniqueNameInjective(j, n);
    }
  }

  /**
   * The counter value `new_name` settles on: the least `r >= k` whose name
   * is not in use. It exists because only finitely many names are in use.
   */
  function FirstFree(used: set<string>, k: nat): (r: nat)
    ensures k <= r
    ensures UniqueNameOf(r) !in used
    ensures forall j :: k <= j < r ==> UniqueNameOf(j) in used
    decreases Ahead(used, k)
  {
    if UniqueNameOf(k) in used then
      SkipUsed(used, k);
      FirstFree(used, k + 1)
    else k
  }

  /** How many used names are not among those for counter values below `k`. */
  function Ahead(used: set<string>, k: nat): nat
  {
    |used - Generated(k)|
  }

  /** Skipping a name in use leaves fewer used names ahead of the counter. */
  lemma SkipUsed(used: set<string>, k: nat)
    requires UniqueNameOf(k) in used
    ensures Ahead(used, k + 1) < Ahead(used, k)
  {
    GeneratedStep(k);
    assert used - Generated(k + 1) == (used - Generated(k)) - {UniqueNameOf(k)};
  }

  /** One step of the search: the counter moves past a name in use. */
  lemma SearchStep(used: set<string>, k: nat)
    requires UniqueNameOf(k) in used
    ensures FirstFree(used, k + 1) == FirstFree(used, k)
  {
  }

  /** The search stops at the first free counter value. */
  lemma SearchStop(used: set<string>, k: nat)
    requires UniqueNameOf(k) !in used
    ensures FirstFree(used, k) == k
  {
  }

  /** Starting from where a previous search stopped finds the same value again. */
  lemma FirstFreeIdempotent(used: set<string>, k: nat)
    ensures FirstFree(used, FirstFree(used, k)) == FirstFree(used, k)
  {
  }

  // ---------------------------------------------------------------------
  // Name nodes of the original tree
  // ---------------------------------------------------------------------

  function FindField(fields: seq<string>, name: string): (r: Option<nat>)
    ensures r.Some? ==> r.value < |fields| && fields[r.value] == name
  {
    if |fields| == 0 then None
    else if fields[|fields| - 1] == name then Some(|fields| - 1)
    else FindField(fields[..|fields| - 1], name)
  }

  /** The id of a `Name` node; other nodes have none. */
  function NameId(n: ANode): Option<string>
  {
    if n.ANode? && n.kind.name == "Name" then
      match FindField(n.kind.fields, "id")
      case Some(i) =>
        if i < |n.slots| && n.slots[i].Plain? && n.slots[i].v.VLit? && n.slots[i].v.lit.LStr? then Some(n.slots[i].v.lit.s) else None
      case None => None
    else None
  }

  /** The id minimize_Name reads from a node; a node without one reads as the empty id. */
  function IdOf(n: ANode): string
  {
    match NameId(n) case Some(s) => s case None => ""
  }

  /** The ids of all `Name` nodes among `ns`. */
  function NamesIn(ns: seq<ANode>): set<string>
  {
    if ns == [] then {}
    else NamesIn(ns[..|ns| - 1]) + (match NameId(ns[|ns| - 1]) case Some(s) => {s} case None => {})
  }

  /** Every `Name` id of the tree is recorded. */
  lemma {:induction false} NamesInHas(ns: seq<ANode>, i: int)
    requires 0 <= i < |ns| && NameId(ns[i]).Some?
    ensures NameId(ns[i]).value in NamesIn(ns)
    decreases |ns|
  {
    if i < |ns| - 1 {
      assert ns[..|ns| - 1][i] == ns[i];
      NamesInHas(ns[..|ns| - 1], i);
    }
  }

  /** Only `Name` ids are recorded. */
  lemma {:induction false} NamesInOnly(ns: seq<ANode>, s: string)
    requires s in NamesIn(ns)
    ensures exists i :: 0 <= i < |ns| && NameId(ns[i]) == Some(s)
    decreases |ns|
  {
    if NameId(ns[|ns| - 1]) != Some(s) {
      NamesInOnly(ns[..|ns| - 1], s);
      var i :| 0 <= i < |ns| - 1 && NameId(ns[..|ns| - 1][i]) == Some(s);
      assert ns[..|ns| - 1][i] == ns[i];
    }
  }

  /** The child nodes of a node's fields, in field order (`ast.iter_child_nodes`). */
  function Children(slots: seq<Slot>): seq<Handle>
  {
    if slots == [] then []
    else Children(slots[..|slots| - 1]) + (match slots[|slots| - 1] case Child(c) => [c] case Kids(hs) => hs case Plain(_) => [])
  }

  /**
   * The nodes the traversal hands to minimize_Name, in order: a `Name` is
   * handled, any other node is entered child by child. `depth` bounds the
   * nesting, as in materialisation; the arena size is always enough for a tree.
   */
  function NameNodes(a: Arena, h: Handle, depth: nat): seq<Handle>
    decreases depth, 0, 0
  {
    if depth == 0 || h >= |a| then []
    else match a[h]
      case Wrapper(_) => []
      case ANode(k, slots) => if k.name == "Name" then [h] else NameNodesOf(a, Children(slots), depth - 1)
  }

  function NameNodesOf(a: Arena, hs: seq<Handle>, depth: nat): seq<Handle>
    decreases depth, 1, |hs|
  {
    if hs == [] then [] else NameNodesOf(a, hs[..|hs| - 1], depth) + NameNodes(a, hs[|hs| - 1], depth)
  }

  /** The handled nodes are `Name` nodes. */
  lemma {:induction false} NameNodesAreNames(a: Arena, h: Handle, depth: nat)
    ensures forall i :: 0 <= i < |NameNodes(a, h, depth)| ==>
      NameNodes(a, h, depth)[i] < |a| && a[NameNodes(a, h, depth)[i]].ANode? && a[NameNodes(a, h, depth)[i]].kind.name == "Name"
    decreases depth, 0, 0
  {
    if depth > 0 && h < |a| && a[h].ANode? && a[h].kind.name != "Name" {
      NameNodesOfAreNames(a, Children(a[h].slots), depth - 1);
    }
  }

  lemma {:induction false} NameNodesOfAreNames(a: Arena, hs: seq<Handle>, depth: nat)
    ensures forall i :: 0 <= i < |NameNodesOf(a, hs, depth)| ==>
      NameNodesOf(a, hs, depth)[i] < |a| && a[NameNodesOf(a, hs, depth)[i]].ANode? && a[NameNodesOf(a, hs, depth)[i]].kind.name == "Name"
    decreases depth, 1, |hs|
  {
    if hs != [] {
      NameNodesOfAreNames(a, hs[..|hs| - 1], depth);
      NameNodesAreNames(a, hs[|hs| - 1], depth);
    }
  }

  // ---------------------------------------------------------------------
  // The traversal as written: before `start`
  // ---------------------------------------------------------------------

  /** A node whose id already carries the prefix; minimize_Name leaves it alone. */
  predicate Prefixed(a: Arena, h: Handle)
  {
    h < |a| && Prefix <= IdOf(a[h])
  }

  /** The position of the first handled node whose id lacks the prefix: the first call of `new_name`. */
  function FirstUnprefixed(a: Arena, hs: seq<Handle>): (r: Option<nat>)
    ensures r.Some? ==> r.value < |hs| && !Prefixed(a, hs[r.value])
    ensures r.Some? ==> forall j :: 0 <= j < r.value ==> Prefixed(a, hs[j])
    ensures r.None? ==> forall j :: 0 <= j < |hs| ==> Prefixed(a, hs[j])
  {
    if hs == [] then None
    else if !Prefixed(a, hs[0]) then Some(0)
    else match FirstUnprefixed(a, hs[1..]) case Some(i) => Some(i + 1) case None => None
  }

  /**
   * The pass as written. Nothing calls `start`, and MinimizeBase.__init__
   * runs minimize_stmt at once, so `new_name` reads a `name_index` that was
   * never set. Ids with the prefix make no call, so AttributeError is raised
   * at the first `Name` without it, before any probe; the result is that
   * node, or None when every handled id has the prefix.
   */
  function UnstartedRaisesAt(a: Arena): (r: Option<Handle>)
    ensures r.Some? ==> r.value in NameNodes(a, 0, |a|) && !Prefixed(a, r.value)
    ensures r.None? ==> forall h :: h in NameNodes(a, 0, |a|) ==> Prefixed(a, h)
  {
    var hs := NameNodes(a, 0, |a|);
    match FirstUnprefixed(a, hs)
    case Some(i) => Some(hs[i])
    case None => None
  }

  /** `x = 1`, numbered in `ast.walk` order: Module, Assign, Name, Constant, Store. */
  function AssignX(): Arena
  {
    [ ANode(Kind("Module", OtherNode, ["body", "type_ignores"]), [Kids([1]), Plain(VList([]))]),
      ANode(Kind("Assign", Stmt, ["targets", "value", "type_comment"]), [Kids([2]), Child(3), Plain(VLit(LNone))]),
      ANode(Kind("Name", Expr, ["id", "ctx"]), [Plain(VLit(LStr("x"))), Child(4)]),
      ANode(Kind("Constant", Expr, ["value", "kind"]), [Plain(VLit(LInt(1))), Plain(VLit(LNone))]),
      ANode(Kind("Store", OtherNode, []), []) ]
  }

  /** On `x = 1` the pass as written raises at the `Name` node `x`. */
  lemma UnstartedRaisesOnAssign()
    ensures UnstartedRaisesAt(AssignX()) == Some(2)
  {
    var a := AssignX();
    assert Children(a[0].slots) == [1];
    assert Children(a[1].slots) == [2, 3];
    assert Children(a[3].slots) == [];
    assert NameNodesOf(a, [2, 3], 3) == NameNodesOf(a, [2], 3) + NameNodes(a, 3, 3);
    assert NameNodes(a, 0, |a|) == [2];
    assert FindField(a[2].kind.fields, "id") == Some(0);
    assert IdOf(a[2]) == "x";
  }

  // ---------------------------------------------------------------------
  // The pass
  // ---------------------------------------------------------------------

  class Renamer {
    const engine: Engine
    /** `self.used_names`. */
    var usedNames: set<string>
    /** `self.name_index`. */
    var nameIndex: nat
    /** The nodes handed to minimize_Name so far. */
    ghost var handled: seq<Handle>
    /** The names offered to the checker so far. */
    ghost var offered: seq<string>

    constructor (engine: Engine)
      ensures this.engine == engine && usedNames == {} && nameIndex == 0 && handled == [] && offered == []
    {
      this.engine := engine;
      usedNames := {};
      nameIndex := 0;
      handled := [];
      offered := [];
    }

    /** start: record the id of every `Name` of the tree and reset the counter. */
    method Start()
      modifies this
      ensures usedNames == NamesIn(engine.arena) && nameIndex == 0
      ensures handled == old(handled) && offered == old(offered)
    {
      var a := engine.arena;
      usedNames := {};
      var i := 0;
      while i < |a|
        invariant 0 <= i <= |a| && usedNames == NamesIn(a[..i]) && handled == old(handled) && offered == old(offered)
      {
        assert a[..i + 1][..i] == a[..i];
        match NameId(a[i]) {
          case Some(s) => usedNames := usedNames + {s};
          case None =>
        }
        i := i + 1;
      }
      assert a[..|a|] == a;
      nameIndex := 0;
    }

    /**
     * new_name: advance the counter past names in use and return the name
     * for it; the name is not marked as used here.
     */
    method NewName() returns (name: string)
      modifies this
      ensures usedNames == old(usedNames) && handled == old(handled) && offered == old(offered)
      ensures nameIndex == FirstFree(usedNames, old(nameIndex))
      ensures name == UniqueNameOf(nameIndex)
    {
      var used := usedNames;
      var k0 := nameIndex;
      var k := k0;
      while UniqueNameOf(k) in used
        invariant FirstFree(used, k) == FirstFree(used, k0)
        modifies {}
        decreases FirstFree(used, k0) - k
      {
        SearchStep(used, k);
        k := k + 1;
      }
      SearchStop(used, k);
      nameIndex := k;
      name := UniqueNameOf(nameIndex);
    }

    /**
     * minimize_Name: a name that already has the prefix is left alone;
     * otherwise the next free name is offered for the id, and it joins the
     * used names only when the checker accepts it.
     */
    method MinimizeName(h: Handle, id: string)
      requires engine.state == Running && engine.Valid()
      modifies this, engine
      ensures engine.Valid() && engine.visits == old(engine.visits) && handled == old(handled) + [h]
      ensures Prefix <= id ==>
        && usedNames == old(usedNames) && nameIndex == old(nameIndex) && offered == old(offered)
        && engine.trials == old(engine.trials) && engine.replaced == old(engine.replaced) && engine.state == Running
      ensures !(Prefix <= id) ==>
        var name := UniqueNameOf(FirstFree(old(usedNames), old(nameIndex)));
        var extra := map[FieldOf(h, "id") := Literal(VLit(LStr(name)))];
        var ans := Judge(engine.arena, engine.checker, old(engine.replaced), extra);
        && nameIndex == FirstFree(old(usedNames), old(nameIndex))
        && offered == old(offered) + [name]
        && engine.trials == old(engine.trials) + [Trial(extra, ans)]
        && usedNames == old(usedNames) + (if ans == Yes then {name} else {})
        && (ans == Unwind <==> engine.state != Running)
        && (ans == Yes ==> engine.replaced == old(engine.replaced)[FieldOf(h, "id") := Literal(VLit(LStr(name)))])
        && (ans == No ==> engine.replaced == old(engine.replaced))
    {
      handled := handled + [h];
      if Prefix <= id {
        return;
      }
      var name := NewName();
      offered := offered + [name];
      var ans := engine.TryAttr(h, "id", VLit(LStr(name)));
      if ans == Yes {
        usedNames := usedNames + {name};
      }
    }

    /**
     * minimize: a `Name` goes to minimize_Name, any other node has its child
     * nodes minimized in order. The traversal ends when the checker asks to stop.
     */
    method Visit(h: Handle, depth: nat)
      requires engine.state == Running && engine.Valid()
      modifies this, engine
      ensures engine.Valid() && engine.visits == old(engine.visits)
      ensures old(handled) <= handled && old(usedNames) <= usedNames && old(nameIndex) <= nameIndex
      ensures forall s :: s in usedNames && s !in old(usedNames) ==> Prefix <= s
      ensures old(offered) <= offered
      ensures forall i :: |old(offered)| <= i < |offered| ==> Prefix <= offered[i] && offered[i] !in old(usedNames)
      ensures engine.state == Running ==> handled == old(handled) + NameNodes(engine.arena, h, depth)
      decreases depth, 0
    {
      if depth == 0 || h >= |engine.arena| {
        return;
      }
      match engine.arena[h] {
        case Wrapper(_) =>
        case ANode(k, slots) =>
          if k.name == "Name" {
            MinimizeName(h, IdOf(engine.arena[h]));
          } else {
            VisitAll(Children(slots), depth - 1);
          }
      }
    }

    /** The loop over the child nodes of a node without a handler. */
    method VisitAll(hs: seq<Handle>, depth: nat)
      requires engine.state == Running && engine.Valid()
      modifies this, engine
      ensures engine.Valid() && engine.visits == old(engine.visits)
      ensures old(handled) <= handled && old(usedNames) <= usedNames && old(nameIndex) <= nameIndex
      ensures forall s :: s in usedNames && s !in old(usedNames) ==> Prefix <= s
      ensures old(offered) <= offered
      ensures forall i :: |old(offered)| <= i < |offered| ==> Prefix <= offered[i] && offered[i] !in old(usedNames)
      ensures engine.state == Running ==> handled == old(handled) + NameNodesOf(engine.arena, hs, depth)
      decreases depth, 1
    {
      var i := 0;
      while i < |hs|
        invariant 0 <= i <= |hs| && engine.Valid() && engine.visits == old(engine.visits)
        invariant old(handled) <= handled && old(usedNames) <= usedNames && old(nameIndex) <= nameIndex
        invariant forall s :: s in usedNames && s !in old(usedNames) ==> Prefix <= s
        invariant old(offered) <= offered
        invariant forall i :: |old(offered)| <= i < |offered| ==> Prefix <= offered[i] && offered[i] !in old(usedNames)
        invariant engine.state == Running ==> handled == old(handled) + NameNodesOf(engine.arena, hs[..i], depth)
      {
        if engine.state != Running {
          return;
        }
        ghost var before := handled;
        Visit(hs[i], depth);
        assert hs[..i + 1][..i] == hs[..i];
        AppendAssoc(old(handled), NameNodesOf(engine.arena, hs[..i], depth), NameNodes(engine.arena, hs[i], depth));
        i := i + 1;
      }
      assert hs[..|hs|] == hs;
    }

    /** minimize_stmt on the whole tree: the traversal from the root. */
    method MinimizeTree()
      requires engine.state == Running && engine.Valid()
      modifies this, engine
      ensures engine.Valid() && engine.visits == old(engine.visits)
      ensures old(usedNames) <= usedNames && old(nameIndex) <= nameIndex
      ensures old(offered) <= offered
      ensures forall i :: |old(offered)| <= i < |offered| ==> Prefix <= offered[i] && offered[i] !in old(usedNames)
      ensures engine.state == Running ==> handled == old(handled) + NameNodes(engine.arena, 0, |engine.arena|)
    {
      Visit(0, |engine.arena|);
    }

    /**
     * The pass as evidently intended: `start` runs before minimize_stmt, so
     * the counter is set and every id of the tree is in use. Every name
     * offered then carries the prefix and is none of the tree's ids, and
     * every `Name` node is handled unless the checker stops the search.
     */
    method Run()
      requires engine.state == Running && engine.Valid()
      modifies this, engine
      ensures engine.Valid() && engine.visits == old(engine.visits)
      ensures NamesIn(engine.arena) <= usedNames
      ensures old(offered) <= offered
      ensures forall i :: |old(offered)| <= i < |offered| ==> Prefix <= offered[i] && offered[i] !in NamesIn(engine.arena)
      ensures engine.state == Running ==> handled == old(handled) + NameNodes(engine.arena, 0, |engine.arena|)
    {
      Start();
      MinimizeTree();
    }
  }
}
