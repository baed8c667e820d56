/**
 * The probing engine shared by the minimization strategies
 * (pysource_minimize/_minimize_base.py, class MinimizeBase): the committed
 * substitution map, the checker, and the helpers that build a candidate
 * mapping, ask the checker about it and commit it on acceptance.
 */
module Base {

  import opened Wrappers
  import opened Ast
  import opened Substitution
  import opened Checker

  /** Whether the search is still going, was stopped by the checker, or broke down. */
  datatype EngineState = Running | Stopped | Failed(why: Failure)

  /** One call of try_with: the extra mapping offered and what the caller was told. */
  datatype Trial = Trial(extra: SubstMap, answer: Answer)

  /** A call of a minimization rule on a node or a list of nodes (`self.minimize(child)`). */
  datatype Target = One(h: Handle) | Many(hs: seq<Handle>)
  datatype Visit = Visit(rule: string, target: Target)

  /** A child argument of try_only: absent, a single node, or a list of nodes. */
  datatype Only = Absent | Single(h: Handle) | Several(hs: seq<Handle>)

  /** Why the constructor refuses to start. */
  datatype GateError = NothingToMinimize | Broken(why: Failure)

  /** The checker's verdict counts as acceptance (StopMinimization also commits). */
  predicate Accepts(v: Verdict) { v != Reject }

  /** A `Delete` statement with a constant among its targets (`del None`). */
  predicate DeleteOfConstant(t: Tree)
  {
    && t.kind.name == "Delete"
    && exists i :: 0 <= i < |t.vals| && FieldName(t.kind, i) == "targets" && t.vals[i].VList? &&
         exists j :: 0 <= j < |t.vals[i].items| && IsConstantNode(t.vals[i].items[j])
  }

  predicate IsConstantNode(v: Val)
  {
    v.VNode? && (v.t.kind.name == "Constant" || v.t.kind.name == "NameConstant")
  }

  /** Some node of the tree is a `Delete` of a constant; try_with refuses such candidates. */
  predicate DeletesConstant(v: Val)
  {
    match v
    case VLit(_) => false
    case VList(items) => exists i :: 0 <= i < |items| && DeletesConstant(items[i])
    case VNode(t) => DeleteOfConstant(t) || exists i :: 0 <= i < |t.vals| && DeletesConstant(t.vals[i])
  }

  /**
   * The answer try_with gives for `extra` on top of the committed mappings:
   * a candidate that cannot be built unwinds, one deleting a constant is
   * refused, otherwise the checker decides (a request to stop unwinds).
   */
  function Judge(a: Arena, checker: Val -> Verdict, committed: SubstMap, extra: SubstMap): Answer
  {
    var c := Candidate(a, committed, extra);
    if c.Err? then Unwind
    else if DeletesConstant(c.value) then No
    else match checker(c.value)
      case Reject => No
      case Accept => Yes
      case AcceptAndStop => Unwind
  }

  /** A committed mapping for a key that `extra` maps again does not influence the answer. */
  lemma JudgeOverride(a: Arena, checker: Val -> Verdict, committed: SubstMap, k: Key, s: Subst, extra: SubstMap)
    requires k in extra
    ensures Judge(a, checker, committed[k := s], extra) == Judge(a, checker, committed, extra)
  {
    assert Merge(committed[k := s], extra) == Merge(committed, extra);
  }

  /**
   * Every trial of a run made on the same committed mappings got the answer
   * try_with gives for its mapping: the checker's verdict on that candidate.
   */
  ghost predicate JudgedAgainst(a: Arena, checker: Val -> Verdict, committed: SubstMap, ts: seq<Trial>)
    decreases |ts|
  {
    ts == [] ||
    (JudgedAgainst(a, checker, committed, ts[..|ts| - 1]) &&
     ts[|ts| - 1].answer == Judge(a, checker, committed, ts[|ts| - 1].extra))
  }

  lemma JudgedStep(a: Arena, checker: Val -> Verdict, committed: SubstMap, ts: seq<Trial>, t: Trial)
    requires JudgedAgainst(a, checker, committed, ts) && t.answer == Judge(a, checker, committed, t.extra)
    ensures JudgedAgainst(a, checker, committed, ts + [t])
  {
    assert (ts + [t])[..|ts|] == ts;
  }

  /** Pointwise: the i-th trial of a judged run is the checker's answer on its candidate. */
  lemma {:induction false} JudgedAt(a: Arena, checker: Val -> Verdict, committed: SubstMap, ts: seq<Trial>, i: int)
    requires JudgedAgainst(a, checker, committed, ts) && 0 <= i < |ts|
    ensures ts[i].answer == Judge(a, checker, committed, ts[i].extra)
    decreases |ts|
  {
    if i < |ts| - 1 {
      JudgedAt(a, checker, committed, ts[..|ts| - 1], i);
    }
  }

  /** try_without(nodes): every listed node maps to the empty list. */
  function RemovalMap(hs: seq<Handle>): (m: SubstMap)
    ensures forall h :: h in hs <==> At(h) in m
    ensures forall k :: k in m ==> k.At? && m[k] == RedirectList([])
  {
    map h | h in hs :: At(h) := RedirectList([])
  }

  /** The committed mappings after a run of trials: every accepted mapping merged in, in order. */
  function Replay(m: SubstMap, ts: seq<Trial>): (r: SubstMap)
    ensures m.Keys <= r.Keys
  {
    if ts == [] then m
    else
      var before := Replay(m, ts[..|ts| - 1]);
      if ts[|ts| - 1].answer == Yes then Merge(before, ts[|ts| - 1].extra) else before
  }

  lemma ReplayStep(m: SubstMap, ts: seq<Trial>, t: Trial)
    ensures Replay(m, ts + [t]) == if t.answer == Yes then Merge(Replay(m, ts), t.extra) else Replay(m, ts)
  {
    assert (ts + [t])[..|ts|] == ts;
  }

  /** The mapping try_only offers for one child; absent children offer none. */
  function OnlyMap(h: Handle, c: Only): SubstMap
  {
    match c
    case Absent => map[]
    case Single(j) => map[At(h) := Redirect(j)]
    case Several(hs) => map[At(h) := RedirectList(hs)]
  }

  /**
   * The probes of one try_only call: one per present child, in order, each
   * rejected until the last one made; all of them when the answer is No.
   */
  ghost predicate OnlyRun(h: Handle, cs: seq<Only>, ts: seq<Trial>, ans: Answer)
  {
    var offered := PresentChildren(cs);
    && |ts| <= |offered|
    && (forall i :: 0 <= i < |ts| ==> ts[i].extra == OnlyMap(h, offered[i]))
    && (forall i :: 0 <= i < |ts| - 1 ==> ts[i].answer == No)
    && (ans == No ==> |ts| == |offered| && (|ts| > 0 ==> ts[|ts| - 1].answer == No))
    && (ans != No ==> |ts| > 0 && ts[|ts| - 1].answer == ans)
  }

  /** The trials of children offered in turn and all rejected. */
  function Rejections(h: Handle, offered: seq<Only>): (ts: seq<Trial>)
    ensures |ts| == |offered|
  {
    if offered == [] then [] else Rejections(h, offered[..|offered| - 1]) + [Trial(OnlyMap(h, offered[|offered| - 1]), No)]
  }

  lemma RejectionsStep(h: Handle, offered: seq<Only>, c: Only)
    ensures Rejections(h, offered + [c]) == Rejections(h, offered) + [Trial(OnlyMap(h, c), No)]
  {
    assert (offered + [c])[..|offered|] == offered;
  }

  lemma {:induction false} RejectionsAt(h: Handle, offered: seq<Only>, i: int)
    requires 0 <= i < |offered|
    ensures Rejections(h, offered)[i] == Trial(OnlyMap(h, offered[i]), No)
    decreases |offered|
  {
    if i < |offered| - 1 {
      RejectionsAt(h, offered[..|offered| - 1], i);
    }
  }

  /** Offering `c` after the rejected prefix `offered` ends the run with answer `ans`. */
  lemma OnlyRunStops(h: Handle, cs: seq<Only>, offered: seq<Only>, c: Only, ans: Answer)
    requires ans != No && |offered| < |PresentChildren(cs)|
    requires PresentChildren(cs)[..|offered|] == offered && PresentChildren(cs)[|offered|] == c
    ensures OnlyRun(h, cs, Rejections(h, offered) + [Trial(OnlyMap(h, c), ans)], ans)
  {
    StopAfterRejections(h, PresentChildren(cs), offered, ans);
  }

  /** The rejections of a prefix of `P` followed by the next child of `P`, answered `ans`. */
  lemma StopAfterRejections(h: Handle, P: seq<Only>, offered: seq<Only>, ans: Answer)
    requires |offered| < |P| && P[..|offered|] == offered
    ensures var ts := Rejections(h, offered) + [Trial(OnlyMap(h, P[|offered|]), ans)];
      && (forall i :: 0 <= i < |ts| ==> ts[i].extra == OnlyMap(h, P[i]))
      && (forall i :: 0 <= i < |ts| - 1 ==> ts[i].answer == No)
  {
    RejectionsOfPrefix(h, P, offered);
  }

  /** The rejections of a prefix of `P` offer the children of `P` in order. */
  lemma RejectionsOfPrefix(h: Handle, P: seq<Only>, offered: seq<Only>)
    requires |offered| <= |P| && P[..|offered|] == offered
    ensures forall i :: 0 <= i < |offered| ==> Rejections(h, offered)[i] == Trial(OnlyMap(h, P[i]), No)
  {
    forall i | 0 <= i < |offered|
      ensures Rejections(h, offered)[i] == Trial(OnlyMap(h, P[i]), No)
    {
      RejectionsAt(h, offered, i);
      assert P[i] == P[..|offered|][i];
    }
  }

  /** Every present child offered and rejected: the run answers No. */
  lemma OnlyRunCompletes(h: Handle, cs: seq<Only>)
    ensures OnlyRun(h, cs, Rejections(h, PresentChildren(cs)), No)
  {
    var offered := PresentChildren(cs);
    forall i | 0 <= i < |offered|
      ensures Rejections(h, offered)[i].extra == OnlyMap(h, offered[i]) && Rejections(h, offered)[i].answer == No
    {
      RejectionsAt(h, offered, i);
    }
  }

  lemma AppendAssoc<T>(a: seq<T>, b: seq<T>, c: seq<T>)
    ensures (a + b) + c == a + (b + c)
  {
  }

  lemma MergeEmpty(m: SubstMap)
    ensures Merge(m, map[]) == m
  {
  }

  class Engine {
    /** The original tree, flattened into handle-addressed nodes. */
    const arena: Arena
    /** The user's checker, as a function of the candidate tree. */
    const checker: Val -> Verdict
    /** The committed mappings (`self.replaced`). */
    var replaced: SubstMap
    var state: EngineState
    /** Every probe made so far, with its answer. */
    ghost var trials: seq<Trial>
    /** Every call of a minimization rule made so far. */
    var visits: seq<Visit>

    /** The tree with every committed mapping applied (`get_ast(original_ast)`). */
    function Current(): Result<Val, Failure>
      reads this
    {
      Candidate(arena, replaced, map[])
    }

    /** The invariant of the search: the current tree is always one the checker accepts. */
    predicate Valid()
      reads this
    {
      Current().Ok? && Accepts(checker(Current().value))
    }

    /**
     * The constructor's gate: the original tree must satisfy the checker,
     * otherwise nothing is minimized; a checker that asks to stop already
     * here leaves the engine stopped.
     */
    constructor (arena: Arena, checker: Val -> Verdict)
      requires Candidate(arena, map[], map[]).Ok? && Accepts(checker(Candidate(arena, map[], map[]).value))
      ensures this.arena == arena && this.checker == checker
      ensures replaced == map[] && trials == [] && visits == []
      ensures state == (if checker(Candidate(arena, map[], map[]).value) == AcceptAndStop then Stopped else Running)
      ensures Valid()
    {
      this.arena := arena;
      this.checker := checker;
      replaced := map[];
      trials := [];
      visits := [];
      state := if checker(Candidate(arena, map[], map[]).value) == AcceptAndStop then Stopped else Running;
    }

    /**
     * try_with: build the candidate for the committed mappings plus `extra`;
     * refuse a candidate that deletes a constant; otherwise ask the checker
     * and commit `extra` when it accepts. A request to stop commits and
     * then unwinds; a candidate that cannot be built unwinds as a failure.
     */
    method TryWith(extra: SubstMap) returns (ans: Answer)
      requires state == Running && Valid()
      modifies this
      ensures Valid()
      ensures trials == old(trials) + [Trial(extra, ans)] && visits == old(visits)
      ensures var c := Candidate(arena, old(replaced), extra);
        && (ans == Yes <==> c.Ok? && !DeletesConstant(c.value) && checker(c.value) == Accept)
        && (ans == Unwind <==> c.Err? || (!DeletesConstant(c.value) && checker(c.value) == AcceptAndStop))
        && (c.Err? ==> state == Failed(c.error))
        && (c.Ok? && ans == Unwind ==> state == Stopped)
        && (ans != Unwind ==> state == Running)
      ensures state.Failed? ==> replaced == old(replaced)
      ensures state == Stopped ==> replaced == Merge(old(replaced), extra)
      ensures ans == No ==> replaced == old(replaced) && state == Running
      ensures ans == Yes ==> replaced == Merge(old(replaced), extra) && state == Running
      ensures ans == Unwind <==> state != Running
      ensures ans == Judge(arena, checker, old(replaced), extra)
    {
      var c := Candidate(arena, replaced, extra);
      if c.Err? {
        state := Failed(c.error);
        ans := Unwind;
      } else if DeletesConstant(c.value) {
        ans := No;
      } else {
        var verdict := checker(c.value);
        if verdict == Reject {
          ans := No;
        } else {
          replaced := Merge(replaced, extra);
          MergeEmpty(replaced);
          if verdict == AcceptAndStop {
            state := Stopped;
            ans := Unwind;
          } else {
            ans := Yes;
          }
        }
      }
      trials := trials + [Trial(extra, ans)];
    }

    /** try_attr: replace one field of a node by a value. */
    method TryAttr(h: Handle, name: string, v: Val) returns (ans: Answer)
      requires state == Running && Valid()
      modifies this
      ensures Valid() && visits == old(visits)
      ensures trials == old(trials) + [Trial(map[FieldOf(h, name) := Literal(v)], ans)]
      ensures ans == No ==> replaced == old(replaced) && state == Running
      ensures ans == Yes ==> replaced == old(replaced)[FieldOf(h, name) := Literal(v)] && state == Running
      ensures state == Stopped ==> replaced == old(replaced)[FieldOf(h, name) := Literal(v)]
      ensures ans == Unwind <==> state != Running
      ensures ans == Judge(arena, checker, old(replaced), map[FieldOf(h, name) := Literal(v)])
    {
      ans := TryWith(map[FieldOf(h, name) := Literal(v)]);
    }

    /** try_node: replace a node by a newly built one. */
    method TryNode(h: Handle, v: Val) returns (ans: Answer)
      requires state == Running && Valid()
      modifies this
      ensures Valid() && visits == old(visits)
      ensures trials == old(trials) + [Trial(map[At(h) := Literal(v)], ans)]
      ensures ans == No ==> replaced == old(replaced) && state == Running
      ensures ans == Yes ==> replaced == old(replaced)[At(h) := Literal(v)] && state == Running
      ensures state == Stopped ==> replaced == old(replaced)[At(h) := Literal(v)]
      ensures ans == Unwind <==> state != Running
      ensures ans == Judge(arena, checker, old(replaced), map[At(h) := Literal(v)])
    {
      ans := TryWith(map[At(h) := Literal(v)]);
    }

    /** try_without: remove all the given nodes from the lists holding them, in one probe. */
    method TryWithout(hs: seq<Handle>) returns (ans: Answer)
      requires state == Running && Valid()
      modifies this
      ensures Valid() && visits == old(visits)
      ensures trials == old(trials) + [Trial(RemovalMap(hs), ans)]
      ensures ans == No ==> replaced == old(replaced) && state == Running
      ensures ans == Yes ==> replaced == Merge(old(replaced), RemovalMap(hs)) && state == Running
      ensures state == Stopped ==> replaced == Merge(old(replaced), RemovalMap(hs))
      ensures ans == Unwind <==> state != Running
      ensures ans == Judge(arena, checker, old(replaced), RemovalMap(hs))
    {
      ans := TryWith(RemovalMap(hs));
    }

    /** try_none: replace an optional child by None; an absent child needs no probe. */
    method TryNone(h: Option<Handle>) returns (ans: Answer)
      requires state == Running && Valid()
      modifies this
      ensures Valid() && visits == old(visits)
      ensures h.None? ==> ans == Yes && trials == old(trials) && replaced == old(replaced) && state == Running
      ensures h.Some? ==> trials == old(trials) + [Trial(map[At(h.value) := Null], ans)]
      ensures ans == No ==> replaced == old(replaced) && state == Running
      ensures h.Some? && ans == Yes ==> replaced == old(replaced)[At(h.value) := Null] && state == Running
      ensures h.Some? && state == Stopped ==> replaced == old(replaced)[At(h.value) := Null]
      ensures ans == Unwind <==> state != Running
      ensures h.Some? ==> ans == Judge(arena, checker, old(replaced), map[At(h.value) := Null])
    {
      if h.None? {
        ans := Yes;
      } else {
        ans := TryWith(map[At(h.value) := Null]);
      }
    }

    /** One branch of try_only: replace the node by one child, or by a list of children. */
    method TryChild(h: Handle, c: Only) returns (ans: Answer)
      requires state == Running && Valid() && !c.Absent?
      modifies this
      ensures Valid() && visits == old(visits)
      ensures trials == old(trials) + [Trial(OnlyMap(h, c), ans)]
      ensures ans == No ==> replaced == old(replaced) && state == Running
      ensures ans == Yes ==> replaced == Merge(old(replaced), OnlyMap(h, c)) && state == Running
      ensures state == Stopped ==> replaced == Merge(old(replaced), OnlyMap(h, c))
      ensures ans == Unwind <==> state != Running
      ensures ans == Judge(arena, checker, old(replaced), OnlyMap(h, c))
    {
      ans := TryWith(OnlyMap(h, c));
    }

    /**
     * try_only: replace a node by each present child in turn (a list child
     * by the list), stopping at the first replacement the checker accepts.
     */
    method TryOnly(h: Handle, cs: seq<Only>) returns (ans: Answer, ghost ts: seq<Trial>)
      requires state == Running && Valid()
      modifies this
      ensures Valid() && visits == old(visits)
      ensures trials == old(trials) + ts && OnlyRun(h, cs, ts, ans)
      ensures ans == No ==> replaced == old(replaced) && state == Running
      ensures ans == Yes ==> |ts| > 0 && replaced == Merge(old(replaced), ts[|ts| - 1].extra) && state == Running
      ensures state == Stopped ==> |ts| > 0 && replaced == Merge(old(replaced), ts[|ts| - 1].extra)
      ensures ans == Unwind <==> state != Running
      ensures JudgedAgainst(arena, checker, old(replaced), ts)
    {
      var present := PresentChildren(cs);
      var i;
      ans, i, ts := OfferChildren(h, present);
      if ans == No {
        OnlyRunCompletes(h, cs);
      } else {
        OnlyRunStops(h, cs, present[..i], present[i], ans);
      }
    }

    /** Record a call of a minimization rule (the rules themselves are not modelled). */
    method Minimize(rule: string, target: Target)
      modifies this
      ensures visits == old(visits) + [Visit(rule, target)]
      ensures replaced == old(replaced) && state == old(state) && trials == old(trials)
    {
      visits := visits + [Visit(rule, target)];
    }

    /**
     * try_only_minimize: replace the node by the first present child the
     * checker accepts and minimize that child; if none is accepted,
     * minimize every present child. try_only with a single present child
     * makes exactly one probe, so each turn of the first loop is a TryChild.
     */
    method TryOnlyMinimize(h: Handle, rule: string, cs: seq<Only>) returns (ans: Answer, ghost ts: seq<Trial>)
      requires state == Running && Valid()
      modifies this
      ensures Valid()
      ensures trials == old(trials) + ts && OnlyRun(h, cs, ts, ans)
      ensures ans == Unwind <==> state != Running
      ensures ans == No ==> replaced == old(replaced) && visits == old(visits) + Minimizations(rule, PresentChildren(cs))
      ensures ans == Yes ==> |ts| > 0 && visits == old(visits) + [Visit(rule, TargetOf(PresentChildren(cs)[|ts| - 1]))]
      ensures ans == Yes ==> replaced == Merge(old(replaced), ts[|ts| - 1].extra) && state == Running
      ensures state == Stopped ==> |ts| > 0 && replaced == Merge(old(replaced), ts[|ts| - 1].extra)
      ensures ans == Unwind ==> visits == old(visits)
      ensures JudgedAgainst(arena, checker, old(replaced), ts)
    {
      var present := PresentChildren(cs);
      var i;
      ans, i, ts := OfferChildren(h, present);
      if ans == No {
        OnlyRunCompletes(h, cs);
        MinimizeEach(rule, present);
      } else {
        OnlyRunStops(h, cs, present[..i], present[i], ans);
        if ans == Yes {
          Minimize(rule, TargetOf(present[i]));
        }
      }
    }

    /**
     * The first loop of try_only_minimize: offer each child in turn until
     * the checker accepts one or an exception unwinds; `i` is the child
     * that ended the loop, or the number of children when all were rejected.
     */
    method OfferChildren(h: Handle, present: seq<Only>) returns (ans: Answer, i: nat, ghost ts: seq<Trial>)
      requires state == Running && Valid() && AllPresent(present)
      modifies this
      ensures Valid() && visits == old(visits) && trials == old(trials) + ts
      ensures ans == Unwind <==> state != Running
      ensures ans == No ==> i == |present| && ts == Rejections(h, present) && replaced == old(replaced)
      ensures ans != No ==> i < |present| && ts == Rejections(h, present[..i]) + [Trial(OnlyMap(h, present[i]), ans)]
      ensures ans == Yes ==> replaced == Merge(old(replaced), OnlyMap(h, present[i])) && state == Running
      ensures state == Stopped ==> i < |present| && replaced == Merge(old(replaced), OnlyMap(h, present[i]))
      ensures JudgedAgainst(arena, checker, old(replaced), ts)
    {
      i := 0;
      ts := [];
      ans := No;
      while i < |present|
        invariant 0 <= i <= |present| && ans == No
        invariant state == Running && Valid() && replaced == old(replaced) && visits == old(visits)
        invariant ts == Rejections(h, present[..i]) && trials == old(trials) + ts
        invariant JudgedAgainst(arena, checker, old(replaced), ts)
      {
        ans := TryChild(h, present[i]);
        AppendAssoc(old(trials), ts, [Trial(OnlyMap(h, present[i]), ans)]);
        JudgedStep(arena, checker, old(replaced), ts, Trial(OnlyMap(h, present[i]), ans));
        ts := ts + [Trial(OnlyMap(h, present[i]), ans)];
        if ans != No {
          return;
        }
        RejectionsStep(h, present[..i], present[i]);
        assert present[..i + 1] == present[..i] + [present[i]];
        i := i + 1;
      }
      assert present[..i] == present;
    }

    /** The closing loop of try_only_minimize: minimize every child, in order. */
    method MinimizeEach(rule: string, present: seq<Only>)
      requires AllPresent(present)
      modifies this
      ensures visits == old(visits) + Minimizations(rule, present)
      ensures replaced == old(replaced) && state == old(state) && trials == old(trials)
    {
      var i := 0;
      while i < |present|
        invariant 0 <= i <= |present|
        invariant replaced == old(replaced) && state == old(state) && trials == old(trials)
        invariant visits == old(visits) + Minimizations(rule, present[..i])
      {
        Minimize(rule, TargetOf(present[i]));
        assert present[..i + 1] == present[..i] + [present[i]];
        MinimizationsAppend(rule, present[..i], [present[i]]);
        i := i + 1;
      }
      assert present[..i] == present;
    }
  }

  /**
   * MinimizeBase.__init__ as a whole: a checker that rejects the original
   * tree raises ValueError (NothingToMinimize); otherwise an engine is
   * built, already stopped when the checker asks to stop at the gate, and
   * the root (handle 0) is handed to `minimize_stmt` while still running.
   */
  method Open(arena: Arena, checker: Val -> Verdict) returns (r: Result<Engine, GateError>)
    ensures var c := Candidate(arena, map[], map[]);
      && (r == Err(NothingToMinimize) <==> c.Ok? && checker(c.value) == Reject)
      && (c.Err? ==> r == Err(Broken(c.error)))
      && (r.Ok? <==> c.Ok? && Accepts(checker(c.value)))
    ensures r.Ok? ==> var e := r.value;
      && fresh(e) && e.Valid() && e.arena == arena && e.checker == checker && e.trials == []
      && (e.state == Stopped <==> checker(Candidate(arena, map[], map[]).value) == AcceptAndStop)
      && (e.state != Stopped ==> e.state == Running)
      && e.visits == (if e.state == Running then [Visit("minimize_stmt", One(0))] else [])
  {
    var c := Candidate(arena, map[], map[]);
    if c.Err? {
      return Err(Broken(c.error));
    }
    if checker(c.value) == Reject {
      return Err(NothingToMinimize);
    }
    var e := new Engine(arena, checker);
    if e.state == Running {
      e.Minimize("minimize_stmt", One(0));
    }
    return Ok(e);
  }

  /** The children given, without the absent ones. */
  function PresentChildren(cs: seq<Only>): (r: seq<Only>)
    ensures |r| <= |cs|
    ensures AllPresent(r)
  {
    if cs == [] then [] else (if cs[0].Absent? then [] else [cs[0]]) + PresentChildren(cs[1..])
  }

  predicate AllPresent(cs: seq<Only>)
  {
    forall i :: 0 <= i < |cs| ==> !cs[i].Absent?
  }

  function TargetOf(c: Only): Target
    requires !c.Absent?
  {
    if c.Single? then One(c.h) else Many(c.hs)
  }

  /** The rule calls made on the given children, in order. */
  function Minimizations(rule: string, cs: seq<Only>): (r: seq<Visit>)
    requires AllPresent(cs)
    ensures |r| == |cs|
  {
    if cs == [] then [] else [Visit(rule, TargetOf(cs[0]))] + Minimizations(rule, cs[1..])
  }

  lemma {:induction false} MinimizationsAppend(rule: string, a: seq<Only>, b: seq<Only>)
    requires AllPresent(a) && AllPresent(b)
    ensures Minimizations(rule, a + b) == Minimizations(rule, a) + Minimizations(rule, b)
    decreases |a|
  {
    if a == [] {
      assert a + b == b;
    } else {
      assert (a + b)[0] == a[0] && (a + b)[1..] == a[1..] + b;
      MinimizationsAppend(rule, a[1..], b);
      AppendAssoc([Visit(rule, TargetOf(a[0]))], Minimizations(rule, a[1..]), Minimizations(rule, b));
    }
  }
}
