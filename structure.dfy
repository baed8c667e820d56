/**
 * The list strategy of MinimizeStructure
 * (src/pysource_minimize/_minimize_structure.py): minimize_lists and
 * minimize_list remove as many list entries as the checker allows, then
 * run every kept entry through its terminal rule. The closures `wo` and
 * `devide` and their nonlocal variables become the class ListReducer,
 * whose methods are proved to follow the pure reducer ListReduce step for
 * step, given the answers the engine gave to their probes.
 */
module Structure {

  import opened Wrappers
  import opened Ast
  import opened Substitution
  import opened Checker
  import opened Base
  import ListReduce

  /** One entry of the zipped lists: the nodes standing at the same position in each list. */
  type Row = seq<Handle>

  /** What is done with a kept node: a rule call, or nothing (`lambda e: None`). */
  datatype Terminal = Call(rule: string) | Ignore

  function Min(a: int, b: int): int { if a <= b then a else b }

  /** `itertools.chain.from_iterable`: the nodes of the rows, in order. */
  function Flat(rows: seq<Row>): (r: seq<Handle>)
    ensures forall h :: h in r <==> exists i :: 0 <= i < |rows| && h in rows[i]
  {
    if rows == [] then [] else rows[0] + Flat(rows[1..])
  }

  /** The length of the shortest list (zero when there is none). */
  function MinLen(lists: seq<seq<Handle>>): (n: nat)
    ensures forall j :: 0 <= j < |lists| ==> n <= |lists[j]|
    ensures lists == [] ==> n == 0
    ensures lists != [] ==> exists j :: 0 <= j < |lists| && n == |lists[j]|
  {
    if lists == [] then 0
    else if |lists| == 1 then |lists[0]|
    else Min(|lists[0]|, MinLen(lists[1..]))
  }

  /**
   * `zip(*lists)`: the k-th row holds the k-th node of every list, and
   * the rows stop at the end of the shortest list.
   */
  function Transpose(lists: seq<seq<Handle>>): (rows: seq<Row>)
    ensures |rows| == MinLen(lists)
    ensures forall k :: 0 <= k < |rows| ==> |rows[k]| == |lists|
    ensures forall k, j :: 0 <= k < |rows| && 0 <= j < |lists| ==> rows[k][j] == lists[j][k]
  {
    seq(MinLen(lists), k requires 0 <= k < MinLen(lists) => seq(|lists|, j requires 0 <= j < |lists| => lists[j][k]))
  }

  /** Each node on a row of its own: the list minimize_list reduces. */
  function Singletons(stmts: seq<Handle>): (rows: seq<Row>)
    ensures |rows| == |stmts|
    ensures forall k :: 0 <= k < |rows| ==> rows[k] == [stmts[k]]
  {
    seq(|stmts|, k requires 0 <= k < |stmts| => [stmts[k]])
  }

  /** The nodes of singleton rows. */
  function Firsts(rows: seq<Row>): (r: seq<Handle>)
    requires forall k :: 0 <= k < |rows| ==> |rows[k]| == 1
    ensures |r| == |rows|
    ensures forall k :: 0 <= k < |rows| ==> rows[k] == [r[k]]
  {
    seq(|rows|, k requires 0 <= k < |rows| => rows[k][0])
  }

  /** The engine trial made by each probe of the reducer: one removal mapping for every node of the batch. */
  function TrialsOf(ps: seq<ListReduce.Probe<Row>>): (ts: seq<Trial>)
    ensures |ts| == |ps|
  {
    if ps == [] then []
    else TrialsOf(ps[..|ps| - 1]) + [Trial(RemovalMap(Flat(ps[|ps| - 1].batch)), ps[|ps| - 1].answer)]
  }

  lemma TrialsOfStep(ps: seq<ListReduce.Probe<Row>>, p: ListReduce.Probe<Row>)
    ensures TrialsOf(ps + [p]) == TrialsOf(ps) + [Trial(RemovalMap(Flat(p.batch)), p.answer)]
  {
    assert (ps + [p])[..|ps|] == ps;
  }

  /** The answers the probes received, in order: the script the pure reducer is run on. */
  lemma {:induction false} FlatAppend(a: seq<Row>, b: seq<Row>)
    ensures Flat(a + b) == Flat(a) + Flat(b)
  {
    if a == [] {
      assert a + b == b;
    } else {
      assert (a + b)[0] == a[0] && (a + b)[1..] == a[1..] + b;
      FlatAppend(a[1..], b);
      AppendAssoc(a[0], Flat(a[1..]), Flat(b));
    }
  }

  /** Two removals committed one after the other commit the removal of both. */
  lemma MergeRemovals(m: SubstMap, x: seq<Handle>, y: seq<Handle>)
    ensures Merge(Merge(m, RemovalMap(x)), RemovalMap(y)) == Merge(m, RemovalMap(x + y))
  {
    RemovalUnion(x, y);
    MergeAssoc(m, RemovalMap(x), RemovalMap(y));
  }

  lemma RemovalUnion(x: seq<Handle>, y: seq<Handle>)
    ensures RemovalMap(x + y) == Merge(RemovalMap(x), RemovalMap(y))
  {
    var l := RemovalMap(x + y);
    var r := Merge(RemovalMap(x), RemovalMap(y));
    forall k | k in l
      ensures k in r
    {
      assert k.h in x + y;
    }
    forall k | k in r
      ensures k in l
    {
      assert k.h in x || k.h in y;
    }
    assert l.Keys == r.Keys;
  }

  lemma MergeAssoc(m: SubstMap, a: SubstMap, b: SubstMap)
    ensures Merge(Merge(m, a), b) == Merge(m, Merge(a, b))
  {
    var l := Merge(Merge(m, a), b);
    var r := Merge(m, Merge(a, b));
    assert l.Keys == r.Keys;
    forall k | k in l
      ensures l[k] == r[k]
    {
    }
  }

  /**
   * The committed mappings after a run of the reducer's probes: the
   * earlier ones plus the removal of every node of an accepted batch.
   */
  lemma {:induction false} ReplayRemovals(m: SubstMap, ps: seq<ListReduce.Probe<Row>>)
    ensures Replay(m, TrialsOf(ps)) == Merge(m, RemovalMap(Flat(ListReduce.Accepted(ps))))
    decreases |ps|
  {
    if ps == [] {
      assert RemovalMap([]) == map[];
      MergeEmpty(m);
    } else {
      var qs := ps[..|ps| - 1];
      var p := ps[|ps| - 1];
      assert ps == qs + [p];
      ReplayRemovals(m, qs);
      TrialsOfStep(qs, p);
      ListReduce.AcceptedStep(qs, p);
      ReplayStep(m, TrialsOf(qs), Trial(RemovalMap(Flat(p.batch)), p.answer));
      if p.answer == Yes {
        FlatAppend(ListReduce.Accepted(qs), p.batch);
        MergeRemovals(m, Flat(ListReduce.Accepted(qs)), Flat(p.batch));
      } else {
        assert ListReduce.Accepted(qs) + [] == ListReduce.Accepted(qs);
      }
    }
  }

  /** The probes made so far, and the batch offered next. */
  type Asker = (seq<ListReduce.Probe<Row>>, seq<Row>) -> Answer

  /**
   * try_with's answer to a removal probe of the reducer: the checker's
   * verdict on removing the batch's nodes, on top of the mappings `m`
   * committed before the reduction plus those of the probes before it.
   */
  function JudgeOf(a: Arena, checker: Val -> Verdict, m: SubstMap): (ask: Asker)
    ensures forall pre, b :: ask(pre, b) == Judge(a, checker, Replay(m, TrialsOf(pre)), RemovalMap(Flat(b)))
  {
    (pre, b) => Judge(a, checker, Replay(m, TrialsOf(pre)), RemovalMap(Flat(b)))
  }

  /** Every probe got the answer `ask` gives for its batch after the probes before it. */
  ghost predicate ProbesJudged(ask: Asker, ps: seq<ListReduce.Probe<Row>>)
    decreases |ps|
  {
    ps == [] ||
    (ProbesJudged(ask, ps[..|ps| - 1]) && ps[|ps| - 1].answer == ask(ps[..|ps| - 1], ps[|ps| - 1].batch))
  }

  lemma ProbesJudgedStep(ask: Asker, ps: seq<ListReduce.Probe<Row>>, p: ListReduce.Probe<Row>)
    requires ProbesJudged(ask, ps) && p.answer == ask(ps, p.batch)
    ensures ProbesJudged(ask, ps + [p])
  {
    assert (ps + [p])[..|ps|] == ps;
  }

  /** Pointwise: probe i got the answer `ask` gives after the probes before it. */
  lemma {:induction false} ProbesJudgedAt(ask: Asker, ps: seq<ListReduce.Probe<Row>>, i: int)
    requires ProbesJudged(ask, ps) && 0 <= i < |ps|
    ensures ps[i].answer == ask(ps[..i], ps[i].batch)
    decreases |ps|
  {
    if i < |ps| - 1 {
      ProbesJudgedAt(ask, ps[..|ps| - 1], i);
      assert ps[..|ps| - 1][..i] == ps[..i];
    }
  }

  /**
   * What local minimality means for the checker: unless the budget ran out,
   * every kept row was offered for removal on its own, and try_with refused
   * that removal on the mappings committed at that moment.
   */
  lemma KeptRowsWereRefused(a: Arena, checker: Val -> Verdict, m: SubstMap, rows: seq<Row>, minimal: int, o: ListReduce.Outcome<Row>)
    requires o == ListReduce.Reduce(rows, minimal, ListReduce.AnswersOf(o.probes))
    requires ProbesJudged(JudgeOf(a, checker, m), o.probes)
    ensures forall x :: x in o.kept ==>
      (o.left < 1 ||
       exists i ::
         0 <= i < |o.probes| && o.probes[i].batch == [x] &&
         Judge(a, checker, Replay(m, TrialsOf(o.probes[..i])), RemovalMap(x)) == No)
  {
    ListReduce.ReduceLocallyMinimal(rows, minimal, ListReduce.AnswersOf(o.probes));
    forall x | x in o.kept && o.left >= 1
      ensures exists i ::
        0 <= i < |o.probes| && o.probes[i].batch == [x] &&
        Judge(a, checker, Replay(m, TrialsOf(o.probes[..i])), RemovalMap(x)) == No
    {
      assert x in ListReduce.RejectedAlone(o.probes);
      var i :| 0 <= i < |o.probes| && |o.probes[i].batch| == 1 && o.probes[i].answer == No && o.probes[i].batch[0] == x;
      assert o.probes[i].batch == [x];
      ProbesJudgedAt(JudgeOf(a, checker, m), o.probes, i);
      assert Flat(o.probes[i].batch) == x;
    }
  }

  /** The state of one minimize_list / minimize_lists call: the closures' nonlocal variables. */
  class ListReducer {
    const engine: Engine
    /** The engine's trial log and committed mappings when the reduction began. */
    ghost const trials0: seq<Trial>
    ghost const replaced0: SubstMap
    /** try_with's answer function for this engine. */
    ghost const ask: Asker
    /** `max_remove`: how many more rows may still be removed. */
    var maxRemove: int
    /** `remaining`: the rows kept, in the order they were kept. */
    var remaining: seq<Row>
    /** The rows removed so far, in the order removed. */
    ghost var removed: seq<Row>
    /** Every probe made so far. */
    ghost var probes: seq<ListReduce.Probe<Row>>
    /** An exception (a stop request or a broken candidate) is unwinding the reduction. */
    var unwound: bool

    ghost function Out(): ListReduce.Outcome<Row>
      reads this
    {
      ListReduce.Outcome(maxRemove, remaining, removed, probes, unwound)
    }

    /**
     * The engine has made exactly this reducer's probes, has committed
     * exactly the accepted ones, and still holds a tree the checker accepts.
     */
    ghost predicate Tied()
      reads this, engine
    {
      Linked(probes, unwound) && ProbesJudged(ask, probes)
    }

    /** `ask` is try_with's answer function for this engine (fixed at construction). */
    ghost predicate AskIsJudge()
    {
      ask == JudgeOf(engine.arena, engine.checker, replaced0)
    }

    /** The engine's side of Tied, for the given probes and unwinding flag. */
    ghost predicate Linked(ps: seq<ListReduce.Probe<Row>>, raised: bool)
      reads engine
    {
      && engine.Valid()
      && engine.trials == trials0 + TrialsOf(ps)
      && (raised <==> engine.state != Running)
      && (!raised ==> engine.replaced == Replay(replaced0, TrialsOf(ps)))
    }

    constructor (engine: Engine, budget: int)
      requires engine.state == Running && engine.Valid()
      ensures this.engine == engine && trials0 == engine.trials && replaced0 == engine.replaced
      ensures AskIsJudge()
      ensures Out() == ListReduce.Start(budget) && Tied()
    {
      this.engine := engine;
      trials0 := engine.trials;
      replaced0 := engine.replaced;
      ask := JudgeOf(engine.arena, engine.checker, engine.replaced);
      maxRemove := budget;
      remaining := [];
      removed := [];
      probes := [];
      unwound := false;
      new;
      assert trials0 + TrialsOf([]) == trials0;
    }

    /** The `try_without` closure: one probe removing every node of the given rows. */
    method TryWithoutRows(l: seq<Row>) returns (ans: Answer)
      requires Tied() && AskIsJudge() && !unwound
      modifies this, engine
      ensures Tied() && engine.visits == old(engine.visits)
      ensures probes == old(probes) + [ListReduce.Probe(l, old(maxRemove), ans)]
      ensures maxRemove == old(maxRemove) && remaining == old(remaining) && removed == old(removed)
      ensures unwound <==> ans == Unwind
    {
      var p := ListReduce.Probe(l, maxRemove, Unwind);
      ans := engine.TryWithout(Flat(l));
      p := p.(answer := ans);
      AppendAssoc(trials0, TrialsOf(probes), [Trial(RemovalMap(Flat(l)), ans)]);
      ProbesJudgedStep(ask, probes, p);
      TrialsOfStep(probes, p);
      ReplayStep(replaced0, TrialsOf(probes), Trial(RemovalMap(Flat(l)), ans));
      probes := probes + [p];
      unwound := ans == Unwind;
    }

    /** `wo`: remove the whole slice when the budget allows and the checker agrees, else divide it. */
    method Wo(l: seq<Row>)
      requires Tied() && AskIsJudge() && !unwound
      modifies this, engine
      decreases |l|, 2
      ensures Tied() && engine.visits == old(engine.visits) && old(probes) <= probes
      ensures Out() == ListReduce.Wo(l, old(Out()), ListReduce.AnswersOf(probes))
    {
      if maxRemove < |l| {
        ghost var o := Out();
        Divide(l);
        ListReduce.WoUnfold(l, o, ListReduce.AnswersOf(probes));
      } else {
        WoOffer(l);
      }
    }

    /** `wo` within the budget: offer the whole slice; divide it when refused. */
    method WoOffer(l: seq<Row>)
      requires Tied() && AskIsJudge() && !unwound && maxRemove >= |l|
      modifies this, engine
      decreases |l|, 1
      ensures Tied() && engine.visits == old(engine.visits) && old(probes) <= probes
      ensures Out() == ListReduce.Wo(l, old(Out()), ListReduce.AnswersOf(probes))
    {
      ghost var o := Out();
      var ans := TryWithoutRows(l);
      ghost var mid := probes;
      assert |mid| == |o.probes| + 1 && mid[|o.probes|].answer == ans;
      if ans == Yes {
        Drop(l);
      } else if ans == No {
        Divide(l);
      }
      assert mid <= probes;
      assert probes[|o.probes|].answer == ans;
      assert ListReduce.AnswersOf(probes)[|o.probes|] == ans;
      ListReduce.WoUnfold(l, o, ListReduce.AnswersOf(probes));
    }

    /**
     * `devide`: handle a single row on its own; split a longer slice at
     * its midpoint and handle the second half first.
     */
    method Divide(l: seq<Row>)
      requires Tied() && AskIsJudge() && !unwound
      modifies this, engine
      decreases |l|, 0
      ensures Tied() && engine.visits == old(engine.visits) && old(probes) <= probes
      ensures Out() == ListReduce.Divide(l, old(Out()), ListReduce.AnswersOf(probes))
    {
      if l == [] {
        return;
      }
      if |l| == 1 {
        DivideOne(l);
        return;
      }
      var mid := |l| / 2;
      ghost var o := Out();
      Wo(l[mid..]);
      if !unwound {
        ghost var firstHalf := probes;
        Wo(l[..mid]);
        ListReduce.AnswersPrefix(firstHalf, probes);
        ListReduce.WoExtend(l[mid..], o, ListReduce.AnswersOf(firstHalf), ListReduce.AnswersOf(probes));
      }
      ListReduce.DivideSplit(l, o, ListReduce.AnswersOf(probes));
    }

    /** An accepted removal: the rows are gone and the budget shrinks by their number. */
    method Drop(l: seq<Row>)
      requires Tied()
      modifies this
      ensures Tied() && maxRemove == old(maxRemove) - |l| && removed == old(removed) + l
      ensures remaining == old(remaining) && probes == old(probes) && unwound == old(unwound)
    {
      maxRemove := maxRemove - |l|;
      removed := removed + l;
    }

    /** `remaining.append(...)`: keep one row. */
    method Keep(row: Row)
      requires Tied()
      modifies this
      ensures Tied() && remaining == old(remaining) + [row]
      ensures maxRemove == old(maxRemove) && removed == old(removed) && probes == old(probes) && unwound == old(unwound)
    {
      remaining := remaining + [row];
    }

    /** The single-row case of `devide`: offer it alone when the budget allows, keep it otherwise. */
    method DivideOne(l: seq<Row>)
      requires Tied() && AskIsJudge() && !unwound && |l| == 1
      modifies this, engine
      ensures Tied() && engine.visits == old(engine.visits) && old(probes) <= probes
      ensures Out() == ListReduce.Divide(l, old(Out()), ListReduce.AnswersOf(probes))
    {
      if maxRemove >= 1 {
        OfferOne(l);
      } else {
        ghost var o := Out();
        assert [l[0]] == l;
        Keep(l[0]);
        assert Out() == o.(kept := o.kept + l);
        ListReduce.DivideSingle(l, o, ListReduce.AnswersOf(probes));
      }
    }

    /** A single row within the budget: removed when the checker agrees, kept when it refuses. */
    method OfferOne(l: seq<Row>)
      requires Tied() && AskIsJudge() && !unwound && |l| == 1 && maxRemove >= 1
      modifies this, engine
      ensures Tied() && engine.visits == old(engine.visits) && old(probes) <= probes
      ensures Out() == ListReduce.Divide(l, old(Out()), ListReduce.AnswersOf(probes))
    {
      assert [l[0]] == l;
      ghost var o := Out();
      var ans := TryWithoutRows(l);
      ghost var o1 := o.(probes := o.probes + [ListReduce.Probe(l, o.left, ans)]);
      assert ListReduce.AnswersOf(probes)[|o.probes|] == ans;
      if ans == Yes {
        Drop(l);
        assert Out() == o1.(left := o.left - 1, removed := o.removed + l);
      } else if ans == No {
        Keep(l[0]);
        assert Out() == o1.(kept := o.kept + l);
      } else {
        assert Out() == o1.(unwound := true);
      }
      ListReduce.DivideSingle(l, o, ListReduce.AnswersOf(probes));
    }
  }

  // ---------------------------------------------------------------------
  // The terminal rules run on the kept entries

  /** The rule call a terminal makes on a node, if any. */
  function TerminalVisit(t: Terminal, h: Handle): seq<Visit>
  {
    if t.Call? then [Visit(t.rule, One(h))] else []
  }

  /** `zip(terminals, nodes)`: the calls made for the first n pairs of a kept row. */
  function RowVisits(terminals: seq<Terminal>, nodes: Row, n: nat): seq<Visit>
    requires n <= |terminals| && n <= |nodes|
  {
    if n == 0 then [] else RowVisits(terminals, nodes, n - 1) + TerminalVisit(terminals[n - 1], nodes[n - 1])
  }

  /** The calls made for the first n kept rows, each row's pairs stopping at the shorter of the two. */
  function KeptVisits(terminals: seq<Terminal>, rows: seq<Row>, n: nat): seq<Visit>
    requires n <= |rows|
  {
    if n == 0 then []
    else KeptVisits(terminals, rows, n - 1) + RowVisits(terminals, rows[n - 1], Min(|terminals|, |rows[n - 1]|))
  }

  /** The calls minimize_list makes on the first n kept nodes. */
  function ListVisits(t: Terminal, hs: seq<Handle>, n: nat): seq<Visit>
    requires n <= |hs|
  {
    if n == 0 then [] else ListVisits(t, hs, n - 1) + TerminalVisit(t, hs[n - 1])
  }

  /** The terminals minimize_lists uses: the given ones, or `self.minimize` for every list. */
  function TerminalsFor(count: nat, terminals: Option<seq<Terminal>>): seq<Terminal>
  {
    if terminals.Some? then terminals.value else seq(count, _ => Call("minimize"))
  }

  /** `for terminal, node in zip(terminals, nodes): terminal(node)` for one kept row. */
  method RunRow(engine: Engine, terminals: seq<Terminal>, nodes: Row)
    modifies engine
    ensures engine.visits == old(engine.visits) + RowVisits(terminals, nodes, Min(|terminals|, |nodes|))
    ensures engine.replaced == old(engine.replaced) && engine.state == old(engine.state) && engine.trials == old(engine.trials)
  {
    var i := 0;
    while i < |terminals| && i < |nodes|
      invariant 0 <= i <= Min(|terminals|, |nodes|)
      invariant engine.visits == old(engine.visits) + RowVisits(terminals, nodes, i)
      invariant engine.replaced == old(engine.replaced) && engine.state == old(engine.state) && engine.trials == old(engine.trials)
    {
      AppendAssoc(old(engine.visits), RowVisits(terminals, nodes, i), TerminalVisit(terminals[i], nodes[i]));
      if terminals[i].Call? {
        engine.Minimize(terminals[i].rule, One(nodes[i]));
      }
      i := i + 1;
    }
  }

  /** `for nodes in remaining: ...`: run every kept row through the terminals. */
  method RunRows(engine: Engine, terminals: seq<Terminal>, rows: seq<Row>)
    modifies engine
    ensures engine.visits == old(engine.visits) + KeptVisits(terminals, rows, |rows|)
    ensures engine.replaced == old(engine.replaced) && engine.state == old(engine.state) && engine.trials == old(engine.trials)
  {
    var i := 0;
    while i < |rows|
      invariant 0 <= i <= |rows|
      invariant engine.visits == old(engine.visits) + KeptVisits(terminals, rows, i)
      invariant engine.replaced == old(engine.replaced) && engine.state == old(engine.state) && engine.trials == old(engine.trials)
    {
      AppendAssoc(old(engine.visits), KeptVisits(terminals, rows, i), RowVisits(terminals, rows[i], Min(|terminals|, |rows[i]|)));
      RunRow(engine, terminals, rows[i]);
      i := i + 1;
    }
  }

  /** `for node in remaining: terminal(node)`. */
  method RunNodes(engine: Engine, t: Terminal, nodes: seq<Handle>)
    modifies engine
    ensures engine.visits == old(engine.visits) + ListVisits(t, nodes, |nodes|)
    ensures engine.replaced == old(engine.replaced) && engine.state == old(engine.state) && engine.trials == old(engine.trials)
  {
    var i := 0;
    while i < |nodes|
      invariant 0 <= i <= |nodes|
      invariant engine.visits == old(engine.visits) + ListVisits(t, nodes, i)
      invariant engine.replaced == old(engine.replaced) && engine.state == old(engine.state) && engine.trials == old(engine.trials)
    {
      AppendAssoc(old(engine.visits), ListVisits(t, nodes, i), TerminalVisit(t, nodes[i]));
      if t.Call? {
        engine.Minimize(t.rule, One(nodes[i]));
      }
      i := i + 1;
    }
  }

  /**
   * The reduction shared by minimize_lists and minimize_list: remove as
   * many rows as the budget `len(rows) - minimal` and the checker allow,
   * probing through the engine. Returns the kept rows.
   */
  method ReduceRows(engine: Engine, rows: seq<Row>, minimal: int)
    returns (kept: seq<Row>, ghost o: ListReduce.Outcome<Row>)
    requires engine.state == Running && engine.Valid()
    modifies engine
    ensures engine.Valid() && engine.visits == old(engine.visits)
    ensures o == ListReduce.Reduce(rows, minimal, ListReduce.AnswersOf(o.probes)) && kept == o.kept
    ensures engine.trials == old(engine.trials) + TrialsOf(o.probes)
    ensures o.unwound <==> engine.state != Running
    ensures !o.unwound ==> engine.replaced == Replay(old(engine.replaced), TrialsOf(o.probes))
    ensures ProbesJudged(JudgeOf(engine.arena, engine.checker, old(engine.replaced)), o.probes)
  {
    var r := new ListReducer(engine, |rows| - minimal);
    r.Divide(rows);
    o := r.Out();
    kept := r.remaining;
  }

  /**
   * minimize_lists: zip the lists into rows, remove as many rows as the
   * budget `len(rows) - minimal` and the checker allow, then run the nodes
   * of every kept row through their terminals. The kept rows are returned
   * in the order they were kept (the reverse of their order in the lists).
   */
  method MinimizeLists(engine: Engine, lists: seq<seq<Handle>>, terminals: Option<seq<Terminal>>, minimal: int)
    returns (remaining: seq<Row>, ghost o: ListReduce.Outcome<Row>)
    requires engine.state == Running && engine.Valid()
    modifies engine
    ensures engine.Valid()
    ensures o == ListReduce.Reduce(Transpose(lists), minimal, ListReduce.AnswersOf(o.probes))
    ensures ProbesJudged(JudgeOf(engine.arena, engine.checker, old(engine.replaced)), o.probes)
    ensures engine.trials == old(engine.trials) + TrialsOf(o.probes)
    ensures o.unwound <==> engine.state != Running
    ensures o.unwound ==> engine.visits == old(engine.visits)
    ensures !o.unwound ==> remaining == o.kept
    ensures !o.unwound ==> engine.replaced == Merge(old(engine.replaced), RemovalMap(Flat(o.removed)))
    ensures !o.unwound ==> engine.visits == old(engine.visits) + KeptVisits(TerminalsFor(|lists|, terminals), o.kept, |o.kept|)
  {
    var rows := Transpose(lists);
    remaining, o := ReduceRows(engine, rows, minimal);
    ListReduce.ReduceRemovesAccepted(rows, minimal, ListReduce.AnswersOf(o.probes));
    if engine.state == Running {
      ReplayRemovals(old(engine.replaced), o.probes);
      RunRows(engine, TerminalsFor(|lists|, terminals), remaining);
    }
  }

  /**
   * minimize_list: the same reduction on a single list, each node on a row
   * of its own, with one terminal for every kept node. Returns the kept
   * nodes in the order they were kept; unless unwinding, at least
   * `minimal` of them are kept (all of them when the list is shorter).
   */
  method MinimizeList(engine: Engine, stmts: seq<Handle>, terminal: Option<Terminal>, minimal: int)
    returns (remaining: seq<Handle>, ghost o: ListReduce.Outcome<Row>)
    requires engine.state == Running && engine.Valid()
    modifies engine
    ensures engine.Valid()
    ensures o == ListReduce.Reduce(Singletons(stmts), minimal, ListReduce.AnswersOf(o.probes))
    ensures ProbesJudged(JudgeOf(engine.arena, engine.checker, old(engine.replaced)), o.probes)
    ensures engine.trials == old(engine.trials) + TrialsOf(o.probes)
    ensures o.unwound <==> engine.state != Running
    ensures o.unwound ==> engine.visits == old(engine.visits)
    ensures !o.unwound ==> Singletons(remaining) == o.kept && |remaining| >= Min(minimal, |stmts|)
    ensures !o.unwound ==> engine.replaced == Merge(old(engine.replaced), RemovalMap(Flat(o.removed)))
    ensures !o.unwound ==> engine.visits == old(engine.visits) + ListVisits(if terminal.Some? then terminal.value else Call("minimize"), remaining, |remaining|)
  {
    var rows := Singletons(stmts);
    var kept;
    kept, o := ReduceRows(engine, rows, minimal);
    SingleListOutcome(stmts, minimal, o);
    remaining := Firsts(kept);
    if engine.state == Running {
      ReplayRemovals(old(engine.replaced), o.probes);
      RunNodes(engine, if terminal.Some? then terminal.value else Call("minimize"), remaining);
    }
  }

  /** What the reduction of a list of singleton rows leaves: singleton rows, at least the floor of them, and the accepted batches removed. */
  lemma SingleListOutcome(stmts: seq<Handle>, minimal: int, o: ListReduce.Outcome<Row>)
    requires o == ListReduce.Reduce(Singletons(stmts), minimal, ListReduce.AnswersOf(o.probes))
    ensures forall k :: 0 <= k < |o.kept| ==> |o.kept[k]| == 1
    ensures Singletons(Firsts(o.kept)) == o.kept
    ensures !o.unwound ==> |o.kept| >= Min(minimal, |stmts|)
    ensures o.removed == ListReduce.Accepted(o.probes)
  {
    var rows := Singletons(stmts);
    ListReduce.ReduceRemovesAccepted(rows, minimal, ListReduce.AnswersOf(o.probes));
    ListReduce.ReducePartition(rows, minimal, ListReduce.AnswersOf(o.probes));
    ListReduce.ReduceKeepsMinimal(rows, minimal, ListReduce.AnswersOf(o.probes));
    assert multiset(o.kept) <= multiset(o.kept) + multiset(o.removed);
    SingletonRows(rows, o.kept, stmts);
  }

  /** Rows drawn from the singleton rows of a list are singletons themselves. */
  lemma SingletonRows(rows: seq<Row>, kept: seq<Row>, stmts: seq<Handle>)
    requires rows == Singletons(stmts) && multiset(kept) <= multiset(rows)
    ensures forall k :: 0 <= k < |kept| ==> |kept[k]| == 1
    ensures Singletons(Firsts(kept)) == kept
  {
    forall k | 0 <= k < |kept|
      ensures |kept[k]| == 1
    {
      assert kept[k] in multiset(kept);
      assert kept[k] in rows;
    }
  }

  // ---------------------------------------------------------------------
  // Rows with absent entries: a dict display's `**x` entry has key None

  /** A row of a dict display's zipped keys and values: the key is None for a `**` entry. */
  type OptRow = seq<Option<Handle>>

  /**
   * try_without on the chained entries, as written: the map comprehension
   * reads `n.__index` of every entry, and an absent entry (None) raises
   * AttributeError before the checker is asked. Otherwise the keys are the
   * handles of the entries, in order.
   */
  function RemovalHandlesAsWritten(rows: seq<OptRow>): (r: Result<seq<Handle>, string>)
    ensures r.Err? <==> exists i, j :: 0 <= i < |rows| && 0 <= j < |rows[i]| && rows[i][j].None?
    ensures r.Ok? ==> r.value == PresentHandles(rows)
  {
    if rows == [] then Ok([])
    else
      var rest := RemovalHandlesAsWritten(rows[1..]);
      if exists j :: 0 <= j < |rows[0]| && rows[0][j].None? then Err("AttributeError")
      else if rest.Err? then
        var i, j :| 0 <= i < |rows[1..]| && 0 <= j < |rows[1..][i]| && rows[1..][i][j].None?;
        assert rows[i + 1][j].None?;
        rest
      else Ok(Present(rows[0]) + rest.value)
  }

  /**
   * try_without on the chained entries, corrected: absent entries have no
   * node to remove and are skipped; the handles of all the others are removed.
   */
  function PresentHandles(rows: seq<OptRow>): (r: seq<Handle>)
    ensures forall h :: h in r <==> exists i :: 0 <= i < |rows| && Some(h) in rows[i]
  {
    if rows == [] then [] else Present(rows[0]) + PresentHandles(rows[1..])
  }

  /** The handles of the present entries of one row, in order. */
  function Present(row: OptRow): (r: seq<Handle>)
    ensures forall h :: h in r <==> Some(h) in row
    ensures (forall j :: 0 <= j < |row| ==> row[j].Some?) ==> |r| == |row|
  {
    if row == [] then []
    else (if row[0].Some? then [row[0].value] else []) + Present(row[1..])
  }

  /** Rows of handles only, as the rest of the model reduces them. */
  function Lift(rows: seq<Row>): (r: seq<OptRow>)
    ensures |r| == |rows|
    ensures forall i :: 0 <= i < |rows| ==> |r[i]| == |rows[i]|
    ensures forall i, j :: 0 <= i < |rows| && 0 <= j < |rows[i]| ==> r[i][j] == Some(rows[i][j])
  {
    seq(|rows|, i requires 0 <= i < |rows| => seq(|rows[i]|, j requires 0 <= j < |rows[i]| => Some(rows[i][j])))
  }

  /**
   * On rows without absent entries the corrected try_without is the one
   * as written, and both remove exactly `Flat(rows)`, the nodes the rest of
   * the model removes.
   */
  lemma {:induction false} CorrectedAgreesOnNodes(rows: seq<Row>)
    ensures RemovalHandlesAsWritten(Lift(rows)) == Ok(Flat(rows))
    ensures PresentHandles(Lift(rows)) == Flat(rows)
    decreases |rows|
  {
    if rows != [] {
      CorrectedAgreesOnNodes(rows[1..]);
      assert Lift(rows)[1..] == Lift(rows[1..]);
      PresentOfLifted(rows[0]);
      assert Lift(rows)[0] == Lift([rows[0]])[0];
    }
  }

  lemma {:induction false} PresentOfLifted(row: Row)
    ensures Present(Lift([row])[0]) == row
    decreases |row|
  {
    if row != [] {
      PresentOfLifted(row[1..]);
      assert Lift([row])[0][1..] == Lift([row[1..]])[0];
    }
  }

  /**
   * `{**x}`: the zipped keys and values are the single row (None, x). With
   * the budget `1 - 0`, the reducer's first probe offers that row whole,
   * whatever the checker answers, and the removal map as written cannot be
   * built: AttributeError escapes minimize_lists.
   */
  lemma DictUnpackProbeRaises(x: Handle, script: seq<Answer>)
    ensures var rows := [[None, Some(x)]];
      var o := ListReduce.Reduce(rows, 0, script);
      && |o.probes| >= 1 && o.probes[0].batch == rows
      && RemovalHandlesAsWritten(o.probes[0].batch).Err?
  {
  }

  /** The same row under the corrected try_without removes the `**` operand alone. */
  lemma DictUnpackProbeCorrected(x: Handle)
    ensures RemovalMap(PresentHandles([[None, Some(x)]])) == map[At(x) := RedirectList([])]
  {
  }

  // ---------------------------------------------------------------------
  // walk_until

  /** The kinds minimize_stmt does not look into when deciding whether a function's body may replace it. */
  const ScopeKinds: set<string> := {"GeneratorExp", "FunctionDef", "ClassDef", "AsyncFunctionDef"}

  /** The kinds that tie statements to their enclosing function. */
  const FunctionOnlyKinds: set<string> := {"Return", "Yield", "YieldFrom", "Await", "AsyncFor", "AsyncWith"}

  /**
   * The walk of walk_until: a list is walked element by element with the
   * same stop kinds; a node is yielded, then every child node
   * (`ast.iter_child_nodes`) whose kind is not a stop kind is walked. The
   * child walk gets the stop kinds again when `passOn` holds and none
   * otherwise; walk_until as written is the latter. A literal yields nothing.
   */
  function Walk(v: Val, stop: set<string>, passOn: bool): seq<Tree>
    decreases v, 0
  {
    match v
    case VList(items) => WalkRoots(items, stop, passOn)
    case VNode(t) => [t] + WalkFields(t.vals, stop, passOn)
    case VLit(_) => []
  }

  function WalkRoots(items: seq<Val>, stop: set<string>, passOn: bool): seq<Tree>
    decreases items
  {
    if items == [] then [] else Walk(items[0], stop, passOn) + WalkRoots(items[1..], stop, passOn)
  }

  /** The child nodes of a node's fields: a node field, or the nodes of a list field. */
  function WalkFields(vals: seq<Val>, stop: set<string>, passOn: bool): seq<Tree>
    decreases vals
  {
    if vals == [] then []
    else
      (match vals[0]
       case VNode(_) => WalkChild(vals[0], stop, passOn)
       case VList(items) => WalkListField(items, stop, passOn)
       case VLit(_) => []) + WalkFields(vals[1..], stop, passOn)
  }

  function WalkListField(items: seq<Val>, stop: set<string>, passOn: bool): seq<Tree>
    decreases items
  {
    if items == [] then []
    else (if items[0].VNode? then WalkChild(items[0], stop, passOn) else []) + WalkListField(items[1..], stop, passOn)
  }

  /** One child node: skipped when of a stop kind, walked otherwise. */
  function WalkChild(v: Val, stop: set<string>, passOn: bool): seq<Tree>
    requires v.VNode?
    decreases v, 1
  {
    if v.t.kind.name in stop then [] else Walk(v, if passOn then stop else {}, passOn)
  }

  /** walk_until as written: the stop kinds apply to the children of the roots only. */
  function WalkUntil(v: Val, stop: set<string>): seq<Tree>
  {
    Walk(v, stop, false)
  }

  /** walk_until with the stop kinds passed on to every level. */
  function WalkUntilScoped(v: Val, stop: set<string>): seq<Tree>
  {
    Walk(v, stop, true)
  }

  /** The nodes a walk starts from: the node itself, or the nodes of a list, however nested. */
  function Roots(v: Val): seq<Tree>
    decreases v
  {
    match v
    case VList(items) => RootItems(items)
    case VNode(t) => [t]
    case VLit(_) => []
  }

  function RootItems(items: seq<Val>): seq<Tree>
    decreases items
  {
    if items == [] then [] else Roots(items[0]) + RootItems(items[1..])
  }

  /** Some walked node is of one of the kinds. */
  predicate HasKind(ts: seq<Tree>, kinds: set<string>)
  {
    exists i :: 0 <= i < |ts| && ts[i].kind.name in kinds
  }

  /**
   * The guard of minimize_stmt on a function: the body may replace the
   * function only when no node walked from it returns, yields or awaits.
   */
  predicate BodyMayReplaceFunction(body: Val)
  {
    !HasKind(WalkUntil(body, ScopeKinds), FunctionOnlyKinds)
  }

  predicate BodyMayReplaceFunctionScoped(body: Val)
  {
    !HasKind(WalkUntilScoped(body, ScopeKinds), FunctionOnlyKinds)
  }

  /**
   * With the stop kinds passed on, the only walked nodes of a stop kind
   * are the roots: the walk never enters a nested scope below them.
   */
  lemma {:induction false} ScopedWalkStopsAtScopes(v: Val, stop: set<string>)
    ensures forall t :: t in WalkUntilScoped(v, stop) && t.kind.name in stop ==> t in Roots(v)
    decreases v, 0
  {
    match v
    case VList(items) => ScopedRootsStop(items, stop);
    case VNode(t) => ScopedFieldsStop(t.vals, stop);
    case VLit(_) =>
  }

  lemma {:induction false} ScopedRootsStop(items: seq<Val>, stop: set<string>)
    ensures forall t :: t in WalkRoots(items, stop, true) && t.kind.name in stop ==> t in RootItems(items)
    decreases items
  {
    if items != [] {
      ScopedWalkStopsAtScopes(items[0], stop);
      ScopedRootsStop(items[1..], stop);
    }
  }

  lemma {:induction false} ScopedFieldsStop(vals: seq<Val>, stop: set<string>)
    ensures forall t :: t in WalkFields(vals, stop, true) ==> t.kind.name !in stop
    decreases vals
  {
    if vals != [] {
      match vals[0] {
        case VNode(_) => ScopedChildStop(vals[0], stop);
        case VList(items) => ScopedListStop(items, stop);
        case VLit(_) =>
      }
      ScopedFieldsStop(vals[1..], stop);
    }
  }

  lemma {:induction false} ScopedListStop(items: seq<Val>, stop: set<string>)
    ensures forall t :: t in WalkListField(items, stop, true) ==> t.kind.name !in stop
    decreases items
  {
    if items != [] {
      if items[0].VNode? {
        ScopedChildStop(items[0], stop);
      }
      ScopedListStop(items[1..], stop);
    }
  }

  lemma {:induction false} ScopedChildStop(v: Val, stop: set<string>)
    requires v.VNode?
    ensures forall t :: t in WalkChild(v, stop, true) ==> t.kind.name !in stop
    decreases v, 1
  {
    if v.t.kind.name !in stop {
      ScopedWalkStopsAtScopes(v, stop);
    }
  }

  /**
   * Every node the scoped walk reaches, the walk as written reaches too:
   * dropping the stop kinds below the roots only adds nodes.
   */
  lemma {:induction false} ScopedWalkIsContained(v: Val, stop: set<string>, stop': set<string>)
    requires stop' <= stop
    ensures forall t :: t in Walk(v, stop, true) ==> t in Walk(v, stop', false)
    decreases v, 0
  {
    match v
    case VList(items) => RootsContained(items, stop, stop');
    case VNode(t) => FieldsContained(t.vals, stop, stop');
    case VLit(_) =>
  }

  lemma {:induction false} RootsContained(items: seq<Val>, stop: set<string>, stop': set<string>)
    requires stop' <= stop
    ensures forall t :: t in WalkRoots(items, stop, true) ==> t in WalkRoots(items, stop', false)
    decreases items
  {
    if items != [] {
      ScopedWalkIsContained(items[0], stop, stop');
      RootsContained(items[1..], stop, stop');
    }
  }

  lemma {:induction false} FieldsContained(vals: seq<Val>, stop: set<string>, stop': set<string>)
    requires stop' <= stop
    ensures forall t :: t in WalkFields(vals, stop, true) ==> t in WalkFields(vals, stop', false)
    decreases vals
  {
    if vals != [] {
      match vals[0] {
        case VNode(_) => ChildContained(vals[0], stop, stop');
        case VList(items) => ListContained(items, stop, stop');
        case VLit(_) =>
      }
      FieldsContained(vals[1..], stop, stop');
    }
  }

  lemma {:induction false} ListContained(items: seq<Val>, stop: set<string>, stop': set<string>)
    requires stop' <= stop
    ensures forall t :: t in WalkListField(items, stop, true) ==> t in WalkListField(items, stop', false)
    decreases items
  {
    if items != [] {
      if items[0].VNode? {
        ChildContained(items[0], stop, stop');
      }
      ListContained(items[1..], stop, stop');
    }
  }

  lemma {:induction false} ChildContained(v: Val, stop: set<string>, stop': set<string>)
    requires v.VNode? && stop' <= stop
    ensures forall t :: t in WalkChild(v, stop, true) ==> t in WalkChild(v, stop', false)
    decreases v, 1
  {
    if v.t.kind.name !in stop {
      ScopedWalkIsContained(v, stop, {});
    }
  }

  /** The bug only loses opportunities: whenever the scoped guard refuses, the guard as written refuses too. */
  lemma GuardAsWrittenIsStricter(body: Val)
    ensures BodyMayReplaceFunction(body) ==> BodyMayReplaceFunctionScoped(body)
  {
    ScopedWalkIsContained(body, ScopeKinds, ScopeKinds);
    if HasKind(WalkUntilScoped(body, ScopeKinds), FunctionOnlyKinds) {
      var w := WalkUntilScoped(body, ScopeKinds);
      var i :| 0 <= i < |w| && w[i].kind.name in FunctionOnlyKinds;
      assert w[i] in WalkUntil(body, ScopeKinds);
    }
  }

  function NameNode(x: string): Val
  {
    VNode(Node(Kind("Name", Expr, ["id"]), [VLit(LStr(x))]))
  }

  function ReturnNode(): Val
  {
    VNode(Node(Kind("Return", Stmt, ["value"]), [VLit(LNone)]))
  }

  function DefNode(name: string, body: seq<Val>): Val
  {
    VNode(Node(Kind("FunctionDef", Stmt, ["name", "body"]), [VLit(LStr(name)), VList(body)]))
  }

  function IfNode(test: Val, body: seq<Val>): Val
  {
    VNode(Node(Kind("If", Stmt, ["test", "body", "orelse"]), [test, VList(body), VList([])]))
  }

  /**
   * The body of `def f(): if c: if d: def g(): return`: the return belongs
   * to g, so f may be replaced by its body, yet walk_until as written walks
   * into g (the inner `if` is walked without stop kinds) and finds it.
   */
  function NestedReturnBody(): Val
  {
    VList([IfNode(NameNode("c"), [IfNode(NameNode("d"), [DefNode("g", [ReturnNode()])])])])
  }

  lemma WalkDefFields(name: string, body: seq<Val>, stop: set<string>, passOn: bool)
    ensures WalkFields(DefNode(name, body).t.vals, stop, passOn) == WalkListField(body, stop, passOn)
  {
    var vals := DefNode(name, body).t.vals;
    assert vals[1..][1..] == [];
    assert WalkFields(vals[1..], stop, passOn) == WalkListField(body, stop, passOn) + [];
  }

  lemma WalkIfFields(test: Val, body: seq<Val>, stop: set<string>, passOn: bool)
    requires test.VNode?
    ensures WalkFields(IfNode(test, body).t.vals, stop, passOn) == WalkChild(test, stop, passOn) + WalkListField(body, stop, passOn)
  {
    var vals := IfNode(test, body).t.vals;
    assert vals[1..][1..][1..] == [];
    assert WalkFields(vals[1..][1..], stop, passOn) == [];
    assert WalkFields(vals[1..], stop, passOn) == WalkListField(body, stop, passOn) + [];
  }

  lemma WalkSingle(v: Val, stop: set<string>, passOn: bool)
    requires v.VNode?
    ensures WalkListField([v], stop, passOn) == WalkChild(v, stop, passOn)
    ensures WalkRoots([v], stop, passOn) == Walk(v, stop, passOn)
  {
    assert [v][1..] == [];
  }

  lemma WalkName(x: string, stop: set<string>, passOn: bool)
    ensures Walk(NameNode(x), stop, passOn) == [NameNode(x).t]
  {
    var vals := NameNode(x).t.vals;
    assert vals[1..] == [];
    assert WalkFields(vals, stop, passOn) == [];
  }

  lemma WalkReturn(stop: set<string>, passOn: bool)
    ensures Walk(ReturnNode(), stop, passOn) == [ReturnNode().t]
  {
    var vals := ReturnNode().t.vals;
    assert vals[1..] == [];
    assert WalkFields(vals, stop, passOn) == [];
  }

  /** Below the outer level the stop kinds are gone, so the walk enters g. */
  lemma InnerIfWalk()
    ensures var ret := ReturnNode();
            var g := DefNode("g", [ret]);
            var d := NameNode("d");
            Walk(IfNode(d, [g]), {}, false) == [IfNode(d, [g]).t, d.t, g.t, ret.t]
  {
    var ret := ReturnNode();
    var g := DefNode("g", [ret]);
    var d := NameNode("d");
    WalkReturn({}, false);
    WalkSingle(ret, {}, false);
    WalkDefFields("g", [ret], {}, false);
    WalkSingle(g, {}, false);
    WalkName("d", {}, false);
    WalkIfFields(d, [g], {}, false);
  }

  /** At the outer level the inner `if` is no scope, so the walk enters it with no stop kinds. */
  lemma OuterIfWalk(c: Val, inner: Val)
    requires c == NameNode("c") && inner.VNode? && inner.t.kind.name !in ScopeKinds
    ensures Walk(IfNode(c, [inner]), ScopeKinds, false) == [IfNode(c, [inner]).t, c.t] + Walk(inner, {}, false)
  {
    WalkSingle(inner, ScopeKinds, false);
    WalkName("c", {}, false);
    WalkIfFields(c, [inner], ScopeKinds, false);
  }

  /** walk_until as written reaches the nested return. */
  lemma NestedReturnIsWalked()
    ensures !BodyMayReplaceFunction(NestedReturnBody())
  {
    var ret := ReturnNode();
    var g := DefNode("g", [ret]);
    var d := NameNode("d");
    var inner := IfNode(d, [g]);
    var outer := IfNode(NameNode("c"), [inner]);
    InnerIfWalk();
    OuterIfWalk(NameNode("c"), inner);
    WalkSingle(outer, ScopeKinds, false);
    var w := WalkUntil(NestedReturnBody(), ScopeKinds);
    assert w[5] == ret.t;
    assert w[5].kind.name in FunctionOnlyKinds;
  }

  /** With the stop kinds passed on, the walk of the inner `if` skips g. */
  lemma ScopedInnerIfWalk()
    ensures var g := DefNode("g", [ReturnNode()]);
            var d := NameNode("d");
            Walk(IfNode(d, [g]), ScopeKinds, true) == [IfNode(d, [g]).t, d.t]
  {
    var g := DefNode("g", [ReturnNode()]);
    var d := NameNode("d");
    WalkSingle(g, ScopeKinds, true);
    WalkName("d", ScopeKinds, true);
    WalkIfFields(d, [g], ScopeKinds, true);
  }

  /** At the outer level the walk enters the inner `if` with the stop kinds kept. */
  lemma ScopedOuterIfWalk(c: Val, inner: Val)
    requires c == NameNode("c") && inner.VNode? && inner.t.kind.name !in ScopeKinds
    ensures Walk(IfNode(c, [inner]), ScopeKinds, true) == [IfNode(c, [inner]).t, c.t] + Walk(inner, ScopeKinds, true)
  {
    WalkSingle(inner, ScopeKinds, true);
    WalkName("c", ScopeKinds, true);
    WalkIfFields(c, [inner], ScopeKinds, true);
  }

  /** The scoped walk stops at g and finds nothing that ties the body to f. */
  lemma NestedReturnIsSkippedWhenScoped()
    ensures BodyMayReplaceFunctionScoped(NestedReturnBody())
  {
    var d := NameNode("d");
    var inner := IfNode(d, [DefNode("g", [ReturnNode()])]);
    var c := NameNode("c");
    var outer := IfNode(c, [inner]);
    ScopedInnerIfWalk();
    ScopedOuterIfWalk(c, inner);
    WalkSingle(outer, ScopeKinds, true);
    var w := WalkUntilScoped(NestedReturnBody(), ScopeKinds);
    assert w == [outer.t, c.t, inner.t, d.t];
    IfsAndNamesOnly(outer.t, c.t, inner.t, d.t);
  }

  /** Walked `if`s and names tie nothing to the enclosing function. */
  lemma IfsAndNamesOnly(a: Tree, b: Tree, c: Tree, d: Tree)
    requires a.kind.name == "If" && b.kind.name == "Name" && c.kind.name == "If" && d.kind.name == "Name"
    ensures !HasKind([a, b, c, d], FunctionOnlyKinds)
  {
    var ts := [a, b, c, d];
    assert forall i :: 0 <= i < |ts| ==> ts[i].kind.name == "If" || ts[i].kind.name == "Name";
  }
}
