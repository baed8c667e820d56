/**
 * The driver of src/pysource_minimize/_minimize.py: minimize_ast repeats
 * cycles of the minimizers (MinimizeStructure, then MinimizeValue) until
 * `retries + 1` cycles in a row leave the tree equal_ast to what they were
 * given, and minimize wraps the user's checker so that a tree which does
 * not unparse (or compile) is rejected, and refuses with CouldNotMinimize
 * a source whose round trip the checker rejects.
 *
 * A minimizer is seen from the driver as a function from the tree it is
 * given to the tree it leaves and its `stop` flag, or to the ValueError its
 * constructor raises when the checker rejects that tree; their inner
 * workings are the Structure, Value and Base modules.
 */
module Driver {

  import opened Wrappers
  import opened Ast

  /**
   * What one minimizer leaves behind: its current tree and its `stop` flag,
   * or `Raised` when its constructor raised ValueError because the checker
   * rejected the tree it was given.
   */
  datatype PassResult = PassResult(tree: Val, stop: bool) | Raised

  /** A result after which the cycle goes no further. */
  predicate EndsCycle(p: PassResult)
  {
    p.Raised? || p.stop
  }

  /** A minimizer class, applied to a tree. */
  type Pass = Val -> PassResult

  // ---------------------------------------------------------------------
  // One cycle: the inner `for Minimizer in (...)` loop
  // ---------------------------------------------------------------------

  /**
   * The passes run in order, each on the tree the previous one left; a pass
   * that sets `stop` ends the cycle with its own tree, and one that raises
   * ends it with the error.
   */
  function Chain(t: Val, passes: seq<Pass>): PassResult
    decreases |passes|
  {
    if passes == [] then PassResult(t, false)
    else
      var p := passes[0](t);
      if EndsCycle(p) then p else Chain(p.tree, passes[1..])
  }

  /**
   * Running a cycle over `a + b` is running it over `a`, and then over `b`
   * only when no pass of `a` stopped or raised: either skips the rest of the cycle.
   */
  lemma {:induction false} ChainAppend(t: Val, a: seq<Pass>, b: seq<Pass>)
    ensures Chain(t, a + b) == (if EndsCycle(Chain(t, a)) then Chain(t, a) else Chain(Chain(t, a).tree, b))
    decreases |a|
  {
    if a == [] {
      assert a + b == b;
    } else {
      var p := a[0](t);
      assert (a + b)[0] == a[0];
      assert (a + b)[1..] == a[1..] + b;
      if !EndsCycle(p) {
        ChainAppend(p.tree, a[1..], b);
      }
    }
  }

  /**
   * The inner loop of minimize_ast: each minimizer is built on the tree the
   * previous one left, and the loop breaks as soon as one of them stops;
   * an error raised by a constructor leaves the loop at once.
   */
  method RunCycle(t: Val, passes: seq<Pass>) returns (r: PassResult)
    ensures r == Chain(t, passes)
  {
    var tree := t;
    var i := 0;
    while i < |passes|
      invariant 0 <= i <= |passes|
      invariant Chain(t, passes) == Chain(tree, passes[i..])
    {
      var p := passes[i](tree);
      assert passes[i..][0] == passes[i] && passes[i..][1..] == passes[i + 1..];
      if EndsCycle(p) {
        return p;
      }
      tree := p.tree;
      i := i + 1;
    }
    r := PassResult(tree, false);
  }

  /** The cycle minimize_ast runs: MinimizeStructure, then MinimizeValue. */
  function Cycle(t: Val, structure: Pass, value: Pass): PassResult
  {
    Chain(t, [structure, value])
  }

  /**
   * When MinimizeStructure raises or stops, MinimizeValue is not run in that
   * cycle; otherwise it runs on the tree MinimizeStructure left.
   */
  lemma StopSkipsValue(t: Val, structure: Pass, value: Pass)
    ensures structure(t).Raised? ==> Cycle(t, structure, value) == Raised
    ensures structure(t).PassResult? && structure(t).stop ==> Cycle(t, structure, value) == structure(t)
    ensures structure(t).PassResult? && !structure(t).stop ==> Cycle(t, structure, value) == value(structure(t).tree)
  {
    ChainAppend(t, [structure], [value]);
    assert [structure] + [value] == [structure, value];
  }

  // ---------------------------------------------------------------------
  // The retry loop
  // ---------------------------------------------------------------------

  /** The trees at the start of every cycle, each the cycle of the one before. */
  ghost predicate IsTrace(trace: seq<Val>, structure: Pass, value: Pass)
  {
    |trace| >= 1 &&
    forall i :: 0 <= i < |trace| - 1 ==>
      Cycle(trace[i], structure, value).PassResult? && trace[i + 1] == Cycle(trace[i], structure, value).tree
  }

  /**
   * `last_success`: how many cycles at the end of the trace changed nothing
   * (their result is equal_ast to their input).
   */
  function Streak(trace: seq<Val>): (n: nat)
    ensures n == 0 || n < |trace|
    ensures forall i :: |trace| - 1 - n <= i < |trace| - 1 ==> EqualAst(trace[i + 1], trace[i])
    ensures n + 1 < |trace| ==> !EqualAst(trace[|trace| - 1 - n], trace[|trace| - 2 - n])
    decreases |trace|
  {
    if |trace| < 2 || !EqualAst(trace[|trace| - 1], trace[|trace| - 2]) then 0
    else
      var pre := trace[..|trace| - 1];
      assert forall i :: 0 <= i < |pre| ==> pre[i] == trace[i];
      Streak(pre) + 1
  }

  /**
   * minimize_ast. `last_success` is the streak of unchanged cycles (reset to
   * 0 by a change, incremented otherwise), and the loop goes on while it is
   * at most `retries`. The loop is bounded by `fuel` cycles; `done` says it
   * ended on its own condition rather than by running out of fuel. `raised`
   * says a minimizer's constructor raised ValueError, which leaves
   * minimize_ast; `current` is then the tree that cycle was given.
   */
  method MinimizeAst(original: Val, structure: Pass, value: Pass, retries: int, fuel: nat)
    returns (current: Val, done: bool, raised: bool, ghost trace: seq<Val>)
    ensures IsTrace(trace, structure, value) && trace[0] == original && current == trace[|trace| - 1]
    ensures done <==> Streak(trace) > retries
    ensures raised ==> !done && Cycle(current, structure, value).Raised? && |trace| <= fuel
    ensures done && retries >= 0 ==> |trace| >= retries + 2
    ensures done ==> forall i :: |trace| - 2 - retries <= i < |trace| - 1 ==> EqualAst(trace[i + 1], trace[i])
    ensures !done && !raised ==> |trace| == fuel + 1
    ensures forall k :: 1 <= k < |trace| ==> Streak(trace[..k]) <= retries
  {
    var lastSuccess := 0;
    current := original;
    trace := [original];
    var cycles := 0;
    raised := false;
    while lastSuccess <= retries && cycles < fuel
      invariant IsTrace(trace, structure, value) && |trace| == cycles + 1 && cycles <= fuel
      invariant trace[0] == original && current == trace[|trace| - 1]
      invariant lastSuccess == Streak(trace)
      invariant forall k :: 1 <= k < |trace| ==> Streak(trace[..k]) <= retries
      decreases fuel - cycles
    {
      var c := RunCycle(current, [structure, value]);
      if c.Raised? {
        raised := true;
        break;
      }
      var newAst := c.tree;
      var minimizedSomething := !EqualAst(newAst, current);
      ExtendTrace(trace, newAst, structure, value, retries);
      current := newAst;
      trace := trace + [current];
      if minimizedSomething {
        lastSuccess := 0;
      } else {
        lastSuccess := lastSuccess + 1;
      }
      cycles := cycles + 1;
    }
    done := lastSuccess > retries;
  }

  /** One more cycle: the trace grows by its result and the streak is reset or incremented. */
  lemma ExtendTrace(prev: seq<Val>, next: Val, structure: Pass, value: Pass, retries: int)
    requires IsTrace(prev, structure, value)
    requires Cycle(prev[|prev| - 1], structure, value).PassResult? && next == Cycle(prev[|prev| - 1], structure, value).tree
    requires Streak(prev) <= retries
    requires forall k :: 1 <= k < |prev| ==> Streak(prev[..k]) <= retries
    ensures IsTrace(prev + [next], structure, value) && (prev + [next])[0] == prev[0]
    ensures Streak(prev + [next]) == if EqualAst(next, prev[|prev| - 1]) then Streak(prev) + 1 else 0
    ensures forall k :: 1 <= k < |prev| + 1 ==> Streak((prev + [next])[..k]) <= retries
  {
    var tr := prev + [next];
    assert tr[..|tr| - 1] == prev;
    forall k | 1 <= k < |tr|
      ensures Streak(tr[..k]) <= retries
    {
      if k < |prev| {
        assert tr[..k] == prev[..k];
      }
    }
  }

  /**
   * Once a cycle leaves its tree exactly as it was, every later cycle of a
   * deterministic run adds one to the streak.
   */
  lemma {:induction false} FixedPointStreak(trace: seq<Val>, structure: Pass, value: Pass, k: nat)
    requires IsTrace(trace, structure, value) && k < |trace|
    requires Cycle(trace[k], structure, value).PassResult? && Cycle(trace[k], structure, value).tree == trace[k]
    ensures Streak(trace) >= |trace| - 1 - k
    ensures trace[|trace| - 1] == trace[k]
    decreases |trace|
  {
    if |trace| - 1 > k {
      var pre := trace[..|trace| - 1];
      assert IsTrace(pre, structure, value) by {
        assert forall i :: 0 <= i < |pre| ==> pre[i] == trace[i];
      }
      FixedPointStreak(pre, structure, value, k);
      assert pre[|pre| - 1] == trace[|trace| - 2];
      EqualAstIsEquivalence(trace[k], trace[k], trace[k]);
    }
  }

  /**
   * With enough fuel, a run that reaches a fixed point after `k` cycles
   * ends on its own, at that fixed point, without an error.
   */
  lemma FixedPointEnds(trace: seq<Val>, structure: Pass, value: Pass, k: nat, retries: int, fuel: nat,
                       done: bool, raised: bool)
    requires IsTrace(trace, structure, value) && k < |trace|
    requires Cycle(trace[k], structure, value).PassResult? && Cycle(trace[k], structure, value).tree == trace[k]
    requires done <==> Streak(trace) > retries
    requires raised ==> Cycle(trace[|trace| - 1], structure, value).Raised?
    requires !done && !raised ==> |trace| == fuel + 1
    requires fuel >= k + retries + 1
    ensures done && !raised && trace[|trace| - 1] == trace[k]
  {
    FixedPointStreak(trace, structure, value, k);
  }

  // ---------------------------------------------------------------------
  // minimize: the wrapped checker and the CouldNotMinimize gate
  // ---------------------------------------------------------------------

  /**
   * source_checker: a tree that cannot be unparsed, or (when `compilable`)
   * whose source does not compile, is rejected; otherwise the user's checker
   * decides on the unparsed source.
   */
  function SourceChecker(unparse: Val -> Option<string>, compiles: string -> bool, compilable: bool,
                         checker: string -> bool, t: Val): (ok: bool)
    ensures ok ==> unparse(t).Some? && checker(unparse(t).value)
    ensures ok && compilable ==> compiles(unparse(t).value)
  {
    match unparse(t)
    case None => false
    case Some(src) => if compilable && !compiles(src) then false else checker(src)
  }

  /**
   * The user's checker is not consulted for a tree that fails to unparse or
   * to compile: any two checkers give the same (negative) answer; and for a
   * tree that gets through, the answer is the checker's.
   */
  lemma SourceCheckerConsults(unparse: Val -> Option<string>, compiles: string -> bool, compilable: bool,
                              c1: string -> bool, c2: string -> bool, t: Val)
    ensures unparse(t).None? || (compilable && !compiles(unparse(t).value)) ==>
              !SourceChecker(unparse, compiles, compilable, c1, t) &&
              !SourceChecker(unparse, compiles, compilable, c2, t)
    ensures unparse(t).Some? && (!compilable || compiles(unparse(t).value)) ==>
              SourceChecker(unparse, compiles, compilable, c1, t) == c1(unparse(t).value)
  {
  }

  /**
   * Why minimize returns no source: the gate, the final unparse, or the
   * ValueError a minimizer's constructor raises from inside minimize_ast.
   */
  datatype MinimizeError = CouldNotMinimize | UnparseFailed | CheckerRejected

  /** A pass that, given a tree `ok` accepts, runs and leaves one `ok` accepts. */
  ghost predicate Keeps(pass: Pass, ok: Val -> bool)
  {
    forall t :: ok(t) ==> pass(t).PassResult? && ok(pass(t).tree)
  }

  /** The constructor's gate: a pass raises exactly on the trees `ok` rejects. */
  ghost predicate Gated(pass: Pass, ok: Val -> bool)
  {
    forall t :: pass(t).Raised? <==> !ok(t)
  }

  /** A cycle from a tree both passes keep accepted runs to an accepted tree. */
  lemma KeptCycleRuns(t: Val, structure: Pass, value: Pass, ok: Val -> bool)
    requires Keeps(structure, ok) && Keeps(value, ok) && ok(t)
    ensures Cycle(t, structure, value).PassResult? && ok(Cycle(t, structure, value).tree)
  {
    StopSkipsValue(t, structure, value);
  }

  /**
   * With gated passes that keep acceptance, a cycle raises exactly when the
   * checker rejects the tree it is given.
   */
  lemma CycleRaisesIffRejected(t: Val, structure: Pass, value: Pass, ok: Val -> bool)
    requires Gated(structure, ok) && Gated(value, ok) && Keeps(structure, ok)
    ensures Cycle(t, structure, value).Raised? <==> !ok(t)
  {
    StopSkipsValue(t, structure, value);
  }

  /** If both passes keep acceptance, every tree of a run from an accepted tree is accepted. */
  lemma {:induction false} TraceKeeps(trace: seq<Val>, structure: Pass, value: Pass, ok: Val -> bool)
    requires IsTrace(trace, structure, value) && ok(trace[0])
    requires Keeps(structure, ok) && Keeps(value, ok)
    ensures ok(trace[|trace| - 1])
    decreases |trace|
  {
    if |trace| > 1 {
      var pre := trace[..|trace| - 1];
      assert IsTrace(pre, structure, value) by {
        assert forall i :: 0 <= i < |pre| ==> pre[i] == trace[i];
      }
      TraceKeeps(pre, structure, value, ok);
      var t := trace[|trace| - 2];
      assert t == pre[|pre| - 1];
      KeptCycleRuns(t, structure, value, ok);
    }
  }

  /**
   * minimize: the original tree must pass the wrapped checker (otherwise
   * CouldNotMinimize and nothing runs); then minimize_ast runs with the
   * wrapped checker, its ValueError passing through, and the result is unparsed.
   */
  method MinimizeSource(original: Val, unparse: Val -> Option<string>, compiles: string -> bool, compilable: bool,
                        checker: string -> bool, structure: Pass, value: Pass, retries: int, fuel: nat)
    returns (r: Result<string, MinimizeError>, ghost trace: seq<Val>)
    ensures r == Err(CouldNotMinimize) <==> !SourceChecker(unparse, compiles, compilable, checker, original)
    ensures r != Err(CouldNotMinimize) ==>
              IsTrace(trace, structure, value) && trace[0] == original &&
              (r == Err(CheckerRejected) ==> Cycle(trace[|trace| - 1], structure, value).Raised?) &&
              (r != Err(CheckerRejected) ==> (r.Ok? <==> unparse(trace[|trace| - 1]).Some?)) &&
              (r.Ok? ==> r.value == unparse(trace[|trace| - 1]).value)
    ensures (Keeps(structure, t => SourceChecker(unparse, compiles, compilable, checker, t)) &&
             Keeps(value, t => SourceChecker(unparse, compiles, compilable, checker, t))) ==>
              r != Err(CheckerRejected) && (r.Ok? ==> checker(r.value))
  {
    if !SourceChecker(unparse, compiles, compilable, checker, original) {
      return Err(CouldNotMinimize), [];
    }
    var minimized, _, raised, tr := MinimizeAst(original, structure, value, retries, fuel);
    trace := tr;
    var ok := t => SourceChecker(unparse, compiles, compilable, checker, t);
    if Keeps(structure, ok) && Keeps(value, ok) {
      TraceKeeps(trace, structure, value, ok);
      KeptCycleRuns(minimized, structure, value, ok);
    }
    if raised {
      return Err(CheckerRejected), trace;
    }
    match unparse(minimized)
    case None =>
      r := Err(UnparseFailed);
    case Some(src) =>
      r := Ok(src);
  }
}
