/**
 * The older engine, pysource_minimize/_minimize.py (class Minimizer): the
 * same idea of handles and a replacement map as the newer MinimizeBase, with
 * its own rules. Map values are a node index, None or a list of indices
 * only; a redirect chain of a single child may pass through indices and
 * end in None but never meet a list; an emptied block always becomes
 * `[Pass]`; candidates are judged on their unparsed source, after a
 * compile step whose errors propagate (one message aside); and
 * minimize_list hands every kept singleton to its terminal at once.
 */
module OldEngine {

  import opened Wrappers
  import opened Ast
  import opened Substitution
  import opened Checker
  import Base
  import ListReduce
  import Value

  // ---------------------------------------------------------------------
  // The replacement map and get_ast
  // ---------------------------------------------------------------------

  /** A value of `self.replaced`: another node's index, None, or a list of indices. */
  datatype Target = Index(j: Handle) | NoneTarget | Indices(js: seq<Handle>)

  type Replaced = map<Handle, Target>

  /**
   * Why a candidate has no source: get_ast's assertion on a redirect
   * chain, the TypeError raised for None inside a list, an index with no
   * node, a redirect cycle (an endless loop or recursion in the source),
   * or ast.unparse raising on the tree get_ast built.
   */
  datatype Fault = AssertionFailed | NoneInList | MissingNode | Endless | Unparsable

  /**
   * replaced_node: follow `i = replaced[i]` while `i` is mapped. Every
   * value met must be an index or None; a list fails the assertion at
   * once. `path` holds the indices already followed.
   */
  function FollowNode(m: Replaced, h: Handle, path: set<Handle>): (r: Result<Option<Handle>, Fault>)
    ensures h !in m ==> r == Ok(Some(h))
    ensures h in m && m[h].Indices? ==> r == Err(AssertionFailed)
    ensures h in m && m[h] == NoneTarget ==> r == Ok(None)
    ensures r.Ok? && r.value.Some? ==> r.value.value !in m
    decreases m.Keys - path
  {
    if h !in m then Ok(Some(h))
    else
      match m[h]
      case Indices(_) => Err(AssertionFailed)
      case NoneTarget => Ok(None)
      case Index(j) => if h in path then Err(Endless) else FollowNode(m, j, path + {h})
  }

  /** A successful chain ends in the same place however much of it was already followed. */
  lemma {:induction false} FollowNodePath(m: Replaced, h: Handle, p: set<Handle>, q: set<Handle>)
    requires p <= q && FollowNode(m, h, q).Ok?
    ensures FollowNode(m, h, p) == FollowNode(m, h, q)
    decreases m.Keys - p
  {
    if h in m && m[h].Index? {
      FollowNodePath(m, m[h].j, p + {h}, q + {h});
    }
  }

  /**
   * Redirect chains: a mapped child resolves as its target does, so a chain
   * of indices ends at an unmapped node or at None.
   */
  lemma FollowNodeStep(m: Replaced, h: Handle)
    requires h in m && m[h].Index? && FollowNode(m, h, {}).Ok?
    ensures FollowNode(m, h, {}) == FollowNode(m, m[h].j, {})
  {
    assert {} + {h} == {h};
    FollowNodePath(m, m[h].j, {}, {h});
  }

  /**
   * replace() inside replaced_nodes: an unmapped index stays, an index is
   * replaced by its target's expansion, a list by the expansion of its
   * elements (the empty list removes the entry), and None raises TypeError.
   */
  function ReplaceSeq(m: Replaced, hs: seq<Handle>, path: set<Handle>): (r: Result<seq<Handle>, Fault>)
    ensures r.Ok? ==> forall h :: h in r.value ==> h !in m
    decreases m.Keys - path, |hs|
  {
    if hs == [] then Ok([])
    else
      var head :- ReplaceOne(m, hs[0], path);
      var tail :- ReplaceSeq(m, hs[1..], path);
      Ok(head + tail)
  }

  function ReplaceOne(m: Replaced, h: Handle, path: set<Handle>): (r: Result<seq<Handle>, Fault>)
    ensures r.Ok? ==> forall x :: x in r.value ==> x !in m
    ensures h !in m ==> r == Ok([h])
    ensures h in m && m[h] == NoneTarget ==> r == Err(NoneInList)
    ensures h in m && h !in path && m[h] == Indices([]) ==> r == Ok([])
    decreases m.Keys - path, 0
  {
    if h !in m then Ok([h])
    else if m[h] == NoneTarget then Err(NoneInList)
    else if h in path then Err(Endless)
    else
      match m[h]
      case Index(j) => ReplaceSeq(m, [j], path + {h})
      case Indices(js) => ReplaceSeq(m, js, path + {h})
  }

  /**
   * map_node on the node with index h: every field resolved through m.
   * `depth` bounds the nesting; it is exhausted only on a redirect cycle.
   */
  function GetNode(a: Arena, m: Replaced, h: Handle, depth: nat): (r: Result<Val, Fault>)
    ensures r.Ok? ==> h < |a| && (r.value.VNode? <==> a[h].ANode?)
    ensures r.Ok? && a[h].ANode? ==> r.value.t.kind == a[h].kind && |r.value.t.vals| == |a[h].slots|
    decreases depth, 0
  {
    if depth == 0 then Err(Endless)
    else if h >= |a| then Err(MissingNode)
    else
      match a[h]
      case Wrapper(lit) => Ok(VLit(lit))
      case ANode(kind, slots) =>
        var vals :- GetSlots(a, m, slots, depth - 1);
        Ok(VNode(Node(kind, vals)))
  }

  function GetSlots(a: Arena, m: Replaced, slots: seq<Slot>, depth: nat): (r: Result<seq<Val>, Fault>)
    ensures r.Ok? ==> |r.value| == |slots|
    decreases depth, 3, |slots|
  {
    if slots == [] then Ok([])
    else
      var v :- GetSlot(a, m, slots[0], depth);
      var vs :- GetSlots(a, m, slots[1..], depth);
      Ok([v] + vs)
  }

  /** One field: a list through replaced_nodes, a child through replaced_node, anything else kept. */
  function GetSlot(a: Arena, m: Replaced, s: Slot, depth: nat): (r: Result<Val, Fault>)
    ensures s.Plain? ==> r == Ok(s.v)
    ensures s.Kids? && r.Ok? ==> r.value.VList?
    decreases depth, 2
  {
    match s
    case Plain(v) => Ok(v)
    case Kids(hs) => GetList(a, m, hs, depth)
    case Child(c) =>
      var target :- FollowNode(m, c, {});
      if target.None? then Ok(VLit(LNone)) else GetNode(a, m, target.value, depth)
  }

  /**
   * replaced_nodes: expand the list through m and resolve what is left; in
   * a block (a non-empty list of statements) an empty result becomes
   * `[Pass]`, whatever the field, and expressions are wrapped in `Expr`.
   */
  function GetList(a: Arena, m: Replaced, hs: seq<Handle>, depth: nat): (r: Result<Val, Fault>)
    ensures r.Ok? ==> r.value.VList? && ReplaceSeq(m, hs, {}).Ok?
    ensures r.Ok? && IsBlock(Cats(a, hs)) ==> |r.value.items| > 0
    ensures r.Ok? && IsBlock(Cats(a, hs)) ==> forall v :: v in r.value.items ==> !IsExprNode(v)
    ensures r.Ok? && !IsBlock(Cats(a, hs)) ==> |r.value.items| == |ReplaceSeq(m, hs, {}).value|
    decreases depth, 1
  {
    var l :- ReplaceSeq(m, hs, {});
    var vals :- GetNodes(a, m, l, depth);
    var block := IsBlock(Cats(a, hs));
    if vals == [] && block then Ok(VList([PassStmt()]))
    else if block then Ok(VList(WrapExprs(vals)))
    else Ok(VList(vals))
  }

  function GetNodes(a: Arena, m: Replaced, hs: seq<Handle>, depth: nat): (r: Result<seq<Val>, Fault>)
    ensures r.Ok? ==> |r.value| == |hs|
    decreases depth, 1, |hs|
  {
    if hs == [] then Ok([])
    else
      var v :- GetNode(a, m, hs[0], depth);
      var vs :- GetNodes(a, m, hs[1..], depth);
      Ok([v] + vs)
  }

  /** get_ast(self.original_ast, replaced): the tree rooted at index 0. */
  function GetAst(a: Arena, m: Replaced): (r: Result<Val, Fault>)
    ensures |a| > 0 && r.Ok? && a[0].ANode? ==> r.value.VNode? && r.value.t.kind == a[0].kind
  {
    if |a| == 0 then Err(MissingNode) else GetNode(a, m, 0, |a|)
  }

  /** try_without's map: every given index mapped to the empty list. */
  function RemovalOf(hs: seq<Handle>): (m: Replaced)
    ensures m.Keys == set h | h in hs
    ensures forall h :: h in m ==> m[h] == Indices([])
  {
    map h | h in hs :: Indices([])
  }

  /** Removing indices drops exactly those entries from a list and leaves the rest. */
  lemma {:induction false} RemovedEntriesVanish(m: Replaced, hs: seq<Handle>, path: set<Handle>)
    requires forall h :: h in hs ==> h in m && m[h] == Indices([]) && h !in path
    ensures ReplaceSeq(m, hs, path) == Ok([])
    decreases |hs|
  {
    if hs != [] {
      RemovedEntriesVanish(m, hs[1..], path);
      var head := ReplaceOne(m, hs[0], path);
      assert head == Ok([]);
      assert ReplaceSeq(m, hs, path) == Ok(head.Extract() + ReplaceSeq(m, hs[1..], path).Extract());
      assert head.Extract() + ReplaceSeq(m, hs[1..], path).Extract() == [];
    }
  }

  // ---------------------------------------------------------------------
  // The two engines' block rules side by side
  // ---------------------------------------------------------------------

  /** `if True: pass` with an `else: pass`: index 0 the If, 1 and 2 the two Pass statements. */
  const IfKind := Kind("If", Stmt, ["test", "body", "orelse"])

  function IfElseArena(): Arena
  {
    [ANode(IfKind, [Plain(VLit(LBool(true))), Kids([1]), Kids([2])]), ANode(PassKind, []), ANode(PassKind, [])]
  }

  lemma OldOrelse()
    ensures GetList(IfElseArena(), map[2 := Indices([])], [2], 2) == Ok(VList([PassStmt()]))
  {
    var a := IfElseArena();
    assert Cats(a, [2]) == [Stmt];
    assert ReplaceOne(map[2 := Indices([])], 2, {}) == Ok([]);
  }

  lemma NewOrelse()
    ensures ResolveList(IfElseArena(), map[At(2) := RedirectList([])], "orelse", [2], 2) == Ok(VList([]))
  {
    var a := IfElseArena();
    var m := map[At(2) := RedirectList([])];
    assert Cats(a, [2]) == [Stmt];
    assert FlattenOne(m, 2, {}) == Ok([]);
  }

  /**
   * Removing the only statement of an `else` branch: the older engine puts
   * `pass` there, the newer one leaves the branch empty (so that unparsing
   * drops it).
   */
  lemma EmptiedOrelse()
    ensures GetList(IfElseArena(), map[2 := Indices([])], [2], 2) == Ok(VList([PassStmt()]))
    ensures ResolveList(IfElseArena(), map[At(2) := RedirectList([])], "orelse", [2], 2) == Ok(VList([]))
  {
    OldOrelse();
    NewOrelse();
  }

  // ---------------------------------------------------------------------
  // try_with: unparse, compile, check
  // ---------------------------------------------------------------------

  /**
   * The outside world of the engine: ast.unparse (None when it raises), the
   * message of the error `compile` raises (if any), and the user's checker
   * on the source.
   */
  datatype Env = Env(unparse: Val -> Option<string>, compileError: string -> Option<string>, checker: string -> bool)

  /**
   * get_source_tree: get_ast, then ast.unparse; either can raise, and
   * neither is inside try_with's `try`.
   */
  function SourceOf(a: Arena, env: Env, m: Replaced): (r: Result<string, Fault>)
    ensures r.Ok? <==> GetAst(a, m).Ok? && env.unparse(GetAst(a, m).value).Some?
    ensures r.Ok? ==> r.value == env.unparse(GetAst(a, m).value).value
    ensures GetAst(a, m).Ok? && env.unparse(GetAst(a, m).value).None? ==> r == Err(Unparsable)
  {
    match GetAst(a, m)
    case Err(f) => Err(f)
    case Ok(tree) =>
      match env.unparse(tree)
      case None => Err(Unparsable)
      case Some(src) => Ok(src)
  }

  /** The one compile error that counts as a rejection instead of propagating. */
  const GlobalDeclaration: string := "assigned to before global declaration"

  /**
   * What try_with reports for `replaced | extra`: an exception (Unwind)
   * when get_ast or ast.unparse fails, or compile fails with any other
   * message; a rejection for the global-declaration error; else the
   * checker's answer.
   */
  function TryAnswer(a: Arena, env: Env, committed: Replaced, extra: Replaced): (ans: Answer)
    ensures SourceOf(a, env, committed + extra).Err? ==> ans == Unwind
    ensures ans == Yes ==> (SourceOf(a, env, committed + extra).Ok? &&
              env.compileError(SourceOf(a, env, committed + extra).value).None? &&
              env.checker(SourceOf(a, env, committed + extra).value))
  {
    match SourceOf(a, env, committed + extra)
    case Err(_) => Unwind
    case Ok(src) =>
      match env.compileError(src)
      case Some(msg) => if Value.HasInfix(msg, GlobalDeclaration) then No else Unwind
      case None => if env.checker(src) then Yes else No
  }

  /**
   * A compile error is a rejection exactly when its message mentions a name
   * assigned to before its global declaration; any other one propagates.
   */
  lemma CompileErrorRule(a: Arena, env: Env, committed: Replaced, extra: Replaced, checker2: string -> bool)
    requires SourceOf(a, env, committed + extra).Ok?
    requires env.compileError(SourceOf(a, env, committed + extra).value).Some?
    ensures var msg := env.compileError(SourceOf(a, env, committed + extra).value).value;
      TryAnswer(a, env, committed, extra) == (if Value.HasInfix(msg, GlobalDeclaration) then No else Unwind)
    ensures TryAnswer(a, env, committed, extra) == TryAnswer(a, env.(checker := checker2), committed, extra)
  {
  }

  /** One call of try_with: the map offered and the answer. */
  datatype Trial = Trial(extra: Replaced, answer: Answer)

  /** The committed map after a run of trials: each accepted map merged in, in order. */
  function Replay(m: Replaced, ts: seq<Trial>): (r: Replaced)
    ensures r.Keys >= m.Keys
  {
    if ts == [] then m
    else
      var t := ts[|ts| - 1];
      var r := Replay(m, ts[..|ts| - 1]);
      if t.answer == Yes then r + t.extra else r
  }

  lemma ReplayStep(m: Replaced, ts: seq<Trial>, t: Trial)
    ensures Replay(m, ts + [t]) == if t.answer == Yes then Replay(m, ts) + t.extra else Replay(m, ts)
  {
    assert (ts + [t])[..|ts|] == ts;
  }

  /**
   * The state of Minimizer: the committed map `replaced`, the terminal
   * calls made by minimize_list (the rule bodies they would run are not
   * part of this model), and whether an exception is propagating.
   */
  class Minimizer {
    const arena: Arena
    const env: Env
    var replaced: Replaced
    var visits: seq<Handle>
    var raised: bool
    ghost var trials: seq<Trial>

    constructor (arena: Arena, env: Env)
      ensures this.arena == arena && this.env == env
      ensures replaced == map[] && visits == [] && !raised && trials == []
    {
      this.arena := arena;
      this.env := env;
      replaced := map[];
      visits := [];
      raised := false;
      trials := [];
    }

    /**
     * try_with: build, unparse and compile the candidate; merge `extra`
     * into `replaced` only when the checker accepts it.
     */
    method TryWith(extra: Replaced) returns (ans: Answer)
      requires !raised
      modifies this
      ensures ans == TryAnswer(arena, env, old(replaced), extra)
      ensures replaced == if ans == Yes then old(replaced) + extra else old(replaced)
      ensures raised <==> ans == Unwind
      ensures visits == old(visits) && trials == old(trials) + [Trial(extra, ans)]
    {
      var source := SourceOf(arena, env, replaced + extra);
      if source.Err? {
        ans := Unwind;
      } else {
        var src := source.value;
        var err := env.compileError(src);
        if err.Some? {
          ans := if Value.HasInfix(err.value, GlobalDeclaration) then No else Unwind;
        } else if env.checker(src) {
          replaced := replaced + extra;
          ans := Yes;
        } else {
          ans := No;
        }
      }
      raised := ans == Unwind;
      trials := trials + [Trial(extra, ans)];
    }

    /** try_without: one trial mapping every given index to the empty list. */
    method TryWithout(hs: seq<Handle>) returns (ans: Answer)
      requires !raised
      modifies this
      ensures ans == TryAnswer(arena, env, old(replaced), RemovalOf(hs))
      ensures replaced == if ans == Yes then old(replaced) + RemovalOf(hs) else old(replaced)
      ensures raised <==> ans == Unwind
      ensures visits == old(visits) && trials == old(trials) + [Trial(RemovalOf(hs), ans)]
    {
      ans := TryWith(RemovalOf(hs));
    }

    /**
     * try_none: for an absent node there is nothing to try and None (a
     * false value) is returned without a trial; otherwise the node is
     * offered as None.
     */
    method TryNone(h: Option<Handle>) returns (ans: Option<Answer>)
      requires !raised
      modifies this
      ensures h.None? ==> ans.None? && replaced == old(replaced) && trials == old(trials) && !raised
      ensures h.Some? ==> ans == Some(TryAnswer(arena, env, old(replaced), map[h.value := NoneTarget]))
      ensures h.Some? ==> trials == old(trials) + [Trial(map[h.value := NoneTarget], ans.value)]
      ensures h.Some? ==> (raised <==> ans.value == Unwind)
      ensures h.Some? ==> replaced == if ans.value == Yes then old(replaced)[h.value := NoneTarget] else old(replaced)
      ensures visits == old(visits)
    {
      if h.None? {
        return None;
      }
      var a := TryWith(map[h.value := NoneTarget]);
      assert old(replaced) + map[h.value := NoneTarget] == old(replaced)[h.value := NoneTarget];
      ans := Some(a);
    }

    /**
     * minimize_list with the terminal recorded as a call on the node:
     * as many entries are removed as the budget `len(stmts) - minimal` and
     * the checker allow; every entry that is kept is handed to the terminal
     * at the moment it is kept, in that order.
     */
    method MinimizeList(stmts: seq<Handle>, minimal: int) returns (ghost o: ListReduce.Outcome<Handle>)
      requires !raised
      modifies this
      ensures o == ListReduce.Reduce(stmts, minimal, ListReduce.AnswersOf(o.probes))
      ensures trials == old(trials) + TrialsOf(o.probes)
      ensures raised <==> o.unwound
      ensures visits == old(visits) + o.kept
      ensures !raised ==> replaced == old(replaced) + RemovalOf(o.removed)
    {
      var r := new ListReducer(this, |stmts| - minimal);
      r.Divide(stmts);
      o := r.Out();
      ListReduce.ReduceRemovesAccepted(stmts, minimal, ListReduce.AnswersOf(o.probes));
      if !raised {
        ReplayRemovals(old(replaced), o.probes);
      }
    }
  }

  // ---------------------------------------------------------------------
  // minimize_list: the closures `wo` and `devide`
  // ---------------------------------------------------------------------

  function TrialsOf(ps: seq<ListReduce.Probe<Handle>>): (ts: seq<Trial>)
    ensures |ts| == |ps|
  {
    if ps == [] then []
    else TrialsOf(ps[..|ps| - 1]) + [Trial(RemovalOf(ps[|ps| - 1].batch), ps[|ps| - 1].answer)]
  }

  lemma TrialsOfStep(ps: seq<ListReduce.Probe<Handle>>, p: ListReduce.Probe<Handle>)
    ensures TrialsOf(ps + [p]) == TrialsOf(ps) + [Trial(RemovalOf(p.batch), p.answer)]
  {
    assert (ps + [p])[..|ps|] == ps;
  }

  lemma MergeRemovals(m: Replaced, x: seq<Handle>, y: seq<Handle>)
    ensures m + RemovalOf(x) + RemovalOf(y) == m + RemovalOf(x + y)
  {
    var l := m + RemovalOf(x) + RemovalOf(y);
    var r := m + RemovalOf(x + y);
    assert l.Keys == r.Keys;
    forall k | k in l
      ensures l[k] == r[k]
    {
    }
  }

  /** The committed map after the reducer's probes: every accepted batch removed. */
  lemma {:induction false} ReplayRemovals(m: Replaced, ps: seq<ListReduce.Probe<Handle>>)
    ensures Replay(m, TrialsOf(ps)) == m + RemovalOf(ListReduce.Accepted(ps))
    decreases |ps|
  {
    if ps == [] {
      assert RemovalOf([]) == map[];
      assert m + map[] == m;
    } else {
      var qs := ps[..|ps| - 1];
      var p := ps[|ps| - 1];
      assert ps == qs + [p];
      ReplayRemovals(m, qs);
      TrialsOfStep(qs, p);
      ListReduce.AcceptedStep(qs, p);
      ReplayStep(m, TrialsOf(qs), Trial(RemovalOf(p.batch), p.answer));
      if p.answer == Yes {
        MergeRemovals(m, ListReduce.Accepted(qs), p.batch);
      } else {
        assert ListReduce.Accepted(qs) + [] == ListReduce.Accepted(qs);
      }
    }
  }

  /** The nonlocal state of one minimize_list call: `max_remove`, and what it has done so far. */
  class ListReducer {
    const owner: Minimizer
    ghost const trials0: seq<Trial>
    ghost const replaced0: Replaced
    ghost const visits0: seq<Handle>
    /** `max_remove`. */
    var maxRemove: int
    /** The entries handed to the terminal, in order. */
    ghost var kept: seq<Handle>
    ghost var removed: seq<Handle>
    ghost var probes: seq<ListReduce.Probe<Handle>>

    ghost function Out(): ListReduce.Outcome<Handle>
      reads this, owner
    {
      ListReduce.Outcome(maxRemove, kept, removed, probes, owner.raised)
    }

    /** The minimizer made exactly this reducer's trials and terminal calls, and committed the accepted ones. */
    ghost predicate Tied()
      reads this, owner
    {
      && owner.trials == trials0 + TrialsOf(probes)
      && owner.visits == visits0 + kept
      && (!owner.raised ==> owner.replaced == Replay(replaced0, TrialsOf(probes)))
    }

    constructor (owner: Minimizer, budget: int)
      requires !owner.raised
      ensures this.owner == owner && trials0 == owner.trials && replaced0 == owner.replaced && visits0 == owner.visits
      ensures Out() == ListReduce.Start(budget) && Tied()
    {
      this.owner := owner;
      trials0 := owner.trials;
      replaced0 := owner.replaced;
      visits0 := owner.visits;
      maxRemove := budget;
      kept := [];
      removed := [];
      probes := [];
      new;
      assert trials0 + TrialsOf([]) == trials0;
      assert visits0 + [] == visits0;
    }

    /** `self.try_without(l)`, logged as a probe. */
    method TryWithout(l: seq<Handle>) returns (ans: Answer)
      requires Tied() && !owner.raised
      modifies owner, this
      ensures Tied()
      ensures probes == old(probes) + [ListReduce.Probe(l, old(maxRemove), ans)]
      ensures maxRemove == old(maxRemove) && kept == old(kept) && removed == old(removed)
      ensures owner.raised <==> ans == Unwind
    {
      ans := owner.TryWithout(l);
      var p := ListReduce.Probe(l, maxRemove, ans);
      Base.AppendAssoc(trials0, TrialsOf(probes), [Trial(RemovalOf(l), ans)]);
      TrialsOfStep(probes, p);
      ReplayStep(replaced0, TrialsOf(probes), Trial(RemovalOf(l), ans));
      probes := probes + [p];
    }

    /** `terminal(l[0])`: the entry is handed on at once. */
    method Terminal(h: Handle)
      requires Tied()
      modifies owner, this
      ensures Tied() && kept == old(kept) + [h]
      ensures maxRemove == old(maxRemove) && removed == old(removed) && probes == old(probes)
      ensures owner.raised == old(owner.raised) && owner.visits == old(owner.visits) + [h]
    {
      owner.visits := owner.visits + [h];
      kept := kept + [h];
      Base.AppendAssoc(visits0, old(kept), [h]);
    }

    /** `wo`: remove the whole slice if the budget allows and the checker agrees, else divide it. */
    method Wo(l: seq<Handle>)
      requires Tied() && !owner.raised
      modifies owner, this
      decreases |l|, 1
      ensures Tied() && old(probes) <= probes
      ensures Out() == ListReduce.Wo(l, old(Out()), ListReduce.AnswersOf(probes))
    {
      ghost var o := Out();
      if maxRemove < |l| {
        Divide(l);
      } else {
        var ans := TryWithout(l);
        ghost var mid := probes;
        if ans == Yes {
          maxRemove := maxRemove - |l|;
          removed := removed + l;
        } else if ans == No {
          Divide(l);
        }
        assert mid[|o.probes|] == probes[|o.probes|];
        assert ListReduce.AnswersOf(probes)[|o.probes|] == ans;
      }
      ListReduce.WoUnfold(l, o, ListReduce.AnswersOf(probes));
    }

    /**
     * `devide`: a single entry is offered alone when the budget allows and
     * handed to the terminal when it stays; a longer slice is split at its
     * midpoint and the second half is handled first.
     */
    method Divide(l: seq<Handle>)
      requires Tied() && !owner.raised
      modifies owner, this
      decreases |l|, 0
      ensures Tied() && old(probes) <= probes
      ensures Out() == ListReduce.Divide(l, old(Out()), ListReduce.AnswersOf(probes))
    {
      if l == [] {
        return;
      }
      if |l| == 1 {
        DivideOne(l);
        return;
      }
      var mid := |l| / 2;
      ghost var o := Out();
      Wo(l[mid..]);
      if !owner.raised {
        ghost var firstHalf := probes;
        Wo(l[..mid]);
        ListReduce.AnswersPrefix(firstHalf, probes);
        ListReduce.WoExtend(l[mid..], o, ListReduce.AnswersOf(firstHalf), ListReduce.AnswersOf(probes));
      }
      ListReduce.DivideSplit(l, o, ListReduce.AnswersOf(probes));
    }

    /**
     * The single-entry case of `devide`: at most one trial, and an entry
     * that is not removed is handed to the terminal before returning.
     */
    method DivideOne(l: seq<Handle>)
      requires Tied() && !owner.raised && |l| == 1
      modifies owner, this
      ensures Tied() && old(probes) <= probes && |probes| <= |old(probes)| + 1
      ensures !owner.raised && removed == old(removed) ==> owner.visits == old(owner.visits) + l
      ensures Out() == ListReduce.Divide(l, old(Out()), ListReduce.AnswersOf(probes))
    {
      assert [l[0]] == l;
      ghost var o := Out();
      if maxRemove >= 1 {
        var ans := TryWithout(l);
        ghost var o1 := o.(probes := o.probes + [ListReduce.Probe(l, o.left, ans)]);
        assert ListReduce.AnswersOf(probes)[|o.probes|] == ans;
        if ans == Yes {
          maxRemove := maxRemove - 1;
          removed := removed + l;
          assert Out() == o1.(left := o.left - 1, removed := o.removed + l);
        } else if ans == No {
          Terminal(l[0]);
          assert Out() == o1.(kept := o.kept + l);
        } else {
          assert Out() == o1.(unwound := true);
        }
      } else {
        Terminal(l[0]);
        assert Out() == o.(kept := o.kept + l);
      }
      ListReduce.DivideSingle(l, o, ListReduce.AnswersOf(probes));
    }
  }

  // ---------------------------------------------------------------------
  // The constructor gate
  // ---------------------------------------------------------------------

  /** What Minimizer.__init__ does before any reduction. */
  datatype Gate =
    | NothingToMinimize        // ValueError: the checker rejects the original source
    | Raises(why: Fault)       // get_source({}) itself fails: get_ast or ast.unparse raises
    | KeepOriginal             // the unparse round trip loses the error: the original is returned
    | Proceed(roundTrip: string)

  /**
   * The gate of Minimizer.__init__: the original source must satisfy the
   * checker (else ValueError); when its round trip through ast.unparse does
   * not, the original source is kept and nothing is reduced.
   */
  function OpenGate(original: string, a: Arena, env: Env): (g: Gate)
    ensures g == NothingToMinimize <==> !env.checker(original)
    ensures g.Raises? <==> env.checker(original) && SourceOf(a, env, map[]).Err?
    ensures g.Raises? ==> g.why == SourceOf(a, env, map[]).error
    ensures g == KeepOriginal ==> env.checker(original) && SourceOf(a, env, map[]).Ok? && !env.checker(SourceOf(a, env, map[]).value)
    ensures g.Proceed? ==> env.checker(original) && SourceOf(a, env, map[]).Ok? && g.roundTrip == SourceOf(a, env, map[]).value && env.checker(g.roundTrip)
  {
    if !env.checker(original) then NothingToMinimize
    else
      match SourceOf(a, env, map[])
      case Err(f) => Raises(f)
      case Ok(src) => if env.checker(src) then Proceed(src) else KeepOriginal
  }
}
