/**
 * The value pass (pysource_minimize/_minimize_value.py, class MinimizeValue):
 * a constant's value is shrunk in place by repeatedly offering a smaller
 * value for its `value` field. Only that one field changes during the
 * shrinking of a constant, so the answer to each offer depends only on the
 * offered value; the searches below are therefore stated as functions of an
 * answering function, and the methods that run them on the engine are
 * proved to follow those functions.
 */
module Value {

  import opened Ast
  import opened Substitution
  import opened Checker
  import opened Base
  import ListReduce

  /** The mapping `try_attr(constant, "value", x)` offers. */
  function ValueMap(h: Handle, x: Lit): (m: SubstMap)
    ensures m.Keys == {FieldOf(h, "value")}
  {
    map[FieldOf(h, "value") := Literal(VLit(x))]
  }

  /** The answer to offering `x` for the constant's value on top of `base`. */
  function Offer(a: Arena, checker: Val -> Verdict, base: SubstMap, h: Handle, x: Lit): Answer
  {
    Judge(a, checker, base, ValueMap(h, x))
  }

  /** The answer function for offers of any value on top of `base`. */
  function Oracle(a: Arena, checker: Val -> Verdict, base: SubstMap, h: Handle): Lit -> Answer
  {
    x => Offer(a, checker, base, h, x)
  }

  /**
   * The committed mappings are `base` with the constant's value either
   * untouched (it is still `x0`) or set to `x`.
   */
  ghost predicate Holds(replaced: SubstMap, base: SubstMap, h: Handle, x0: Lit, x: Lit)
  {
    (replaced == base && x == x0) || replaced == base[FieldOf(h, "value") := Literal(VLit(x))]
  }

  /** While only the value field has changed, an offer is answered as on top of `base`. */
  lemma HoldsOffer(a: Arena, checker: Val -> Verdict, replaced: SubstMap, base: SubstMap, h: Handle, x0: Lit, x: Lit, y: Lit)
    requires Holds(replaced, base, h, x0, x)
    ensures Judge(a, checker, replaced, ValueMap(h, y)) == Offer(a, checker, base, h, y)
  {
    if replaced != base {
      JudgeOverride(a, checker, base, FieldOf(h, "value"), Literal(VLit(x)), ValueMap(h, y));
    }
  }

  /** An accepted offer of `y` is the new value; the latest mapping of the key wins. */
  lemma HoldsAccept(replaced: SubstMap, base: SubstMap, h: Handle, x0: Lit, x: Lit, y: Lit)
    requires Holds(replaced, base, h, x0, x)
    ensures Holds(replaced[FieldOf(h, "value") := Literal(VLit(y))], base, h, x0, y)
  {
    var k := FieldOf(h, "value");
    if replaced != base {
      assert replaced[k := Literal(VLit(y))] == base[k := Literal(VLit(y))];
    }
  }

  /** The engine's record of offering each of `xs` in turn. */
  function ValueTrials(h: Handle, xs: seq<Lit>, offer: Lit -> Answer): (ts: seq<Trial>)
    ensures |ts| == |xs|
  {
    if xs == [] then [] else [Trial(ValueMap(h, xs[0]), offer(xs[0]))] + ValueTrials(h, xs[1..], offer)
  }

  lemma {:induction false} ValueTrialsAppend(h: Handle, xs: seq<Lit>, ys: seq<Lit>, offer: Lit -> Answer)
    ensures ValueTrials(h, xs + ys, offer) == ValueTrials(h, xs, offer) + ValueTrials(h, ys, offer)
    decreases |xs|
  {
    if xs == [] {
      assert xs + ys == ys;
    } else {
      assert (xs + ys)[1..] == xs[1..] + ys;
      ValueTrialsAppend(h, xs[1..], ys, offer);
    }
  }

  lemma IntTrialsStep(h: Handle, ms: seq<int>, m: int, offer: Lit -> Answer)
    ensures ValueTrials(h, IntLits(ms + [m]), offer) == ValueTrials(h, IntLits(ms), offer) + [Trial(ValueMap(h, LInt(m)), offer(LInt(m)))]
  {
    IntLitsAppend(ms, [m]);
    ValueTrialsAppend(h, IntLits(ms), IntLits([m]), offer);
  }

  // ---------------------------------------------------------------------
  // int: bisection towards 0
  // ---------------------------------------------------------------------

  function IntLit(m: int): Lit { LInt(m) }

  /** The int values as literals. */
  function IntLits(ms: seq<int>): (r: seq<Lit>)
    ensures |r| == |ms| && forall i :: 0 <= i < |ms| ==> r[i] == LInt(ms[i])
  {
    if ms == [] then [] else [LInt(ms[0])] + IntLits(ms[1..])
  }

  lemma {:induction false} IntLitsAppend(ms: seq<int>, ns: seq<int>)
    ensures IntLits(ms + ns) == IntLits(ms) + IntLits(ns)
  {
  }

  /** The answer function for int offers on top of `base`. */
  function IntOracle(a: Arena, checker: Val -> Verdict, base: SubstMap, h: Handle): int -> Answer
  {
    m => Offer(a, checker, base, h, LInt(m))
  }

  function Gap(l: int, v: int): nat { if l <= v then v - l else l - v }

  predicate Between(l: int, x: int, v: int) { (l <= x <= v) || (v <= x <= l) }

  /** How the int search ends: the value left, the values probed in order, and whether it unwound. */
  datatype Bisection = Bisection(value: int, probes: seq<int>, unwound: bool)

  /** The midpoint `(l + v) // 2`: Dafny's `/` by a positive divisor floors, like Python's `//`. */
  lemma MidBetween(l: int, v: int)
    requires l != v
    ensures l < v ==> l <= (l + v) / 2 < v
    ensures v < l ==> v <= (l + v) / 2 < l
  {
  }

  /**
   * The int branch of minimize_Constant from the loop state (`l`, `v`): `v`
   * is the last accepted value (first the original), `l` the last rejected
   * bound (first 0), and each probe is `(l + v) // 2`.
   */
  function Bisect(l: int, v: int, ask: int -> Answer): (r: Bisection)
    ensures Between(l, r.value, v)
    ensures |r.probes| <= Gap(l, v)
    decreases Gap(l, v)
  {
    if l == v then Bisection(v, [], false)
    else
      var m := (l + v) / 2;
      MidBetween(l, v);
      match ask(m)
      case Unwind => Bisection(v, [m], true)
      case Yes =>
        if v == m then Bisection(v, [m], false)
        else var r := Bisect(l, m, ask); Bisection(r.value, [m] + r.probes, r.unwound)
      case No =>
        if l == m then Bisection(v, [m], false)
        else var r := Bisect(m, v, ask); Bisection(r.value, [m] + r.probes, r.unwound)
  }

  /** One step of the search, unfolded. */
  lemma BisectUnfold(l: int, v: int, ask: int -> Answer)
    requires l != v
    ensures var m := (l + v) / 2; var r := Bisect(l, v, ask);
      && (ask(m) == Unwind ==> r == Bisection(v, [m], true))
      && (ask(m) == Yes && v == m ==> r == Bisection(v, [m], false))
      && (ask(m) == No && l == m ==> r == Bisection(v, [m], false))
      && (ask(m) == Yes && v != m ==> r == Bisection(Bisect(l, m, ask).value, [m] + Bisect(l, m, ask).probes, Bisect(l, m, ask).unwound))
      && (ask(m) == No && l != m ==> r == Bisection(Bisect(m, v, ask).value, [m] + Bisect(m, v, ask).probes, Bisect(m, v, ask).unwound))
  {
  }

  /**
   * With a checker that accepts exactly the values from a threshold `t` on,
   * the search ends on `t`, the least accepted value.
   */
  lemma {:induction false} BisectThreshold(l: int, v: int, ask: int -> Answer, t: int)
    requires l <= t <= v
    requires forall m :: l <= m <= v ==> ask(m) == (if m >= t then Yes else No)
    ensures Bisect(l, v, ask).value == t && !Bisect(l, v, ask).unwound
    decreases v - l
  {
    if l != v {
      var m := (l + v) / 2;
      MidBetween(l, v);
      if m >= t {
        BisectThreshold(l, m, ask, t);
      } else if l != m {
        BisectThreshold(m, v, ask, t);
      }
    }
  }

  /** A constant `100` with the checker `value > 70` is shrunk to `71`. */
  lemma BisectExample()
    ensures Bisect(0, 100, m => if m > 70 then Yes else No).value == 71
  {
    BisectThreshold(0, 100, m => if m > 70 then Yes else No, 71);
  }

  /**
   * For a value that is not negative, what the search ends on is the
   * original value or an accepted one, and one below it is 0 or was
   * rejected: no single step down is possible.
   */
  lemma {:induction false} BisectLocallyMinimal(l0: int, l: int, v0: int, v: int, ask: int -> Answer)
    requires l0 <= l <= v
    requires l == l0 || (l < v && ask(l) == No)
    requires v == v0 || ask(v) == Yes
    ensures var r := Bisect(l, v, ask);
      !r.unwound ==> (r.value == v0 || ask(r.value) == Yes) && (r.value <= l0 + 1 || ask(r.value - 1) == No)
    decreases v - l, 1
  {
    if l != v {
      var m := (l + v) / 2;
      MidBetween(l, v);
      if ask(m) == Yes {
        BisectLocallyMinimalYes(l0, l, v0, v, ask);
      } else if ask(m) == No && l != m {
        BisectLocallyMinimalNo(l0, l, v0, v, ask);
      } else {
        BisectStops(l, v, ask);
      }
    }
  }

  /** BisectLocallyMinimal after an accepted probe. */
  lemma {:induction false} BisectLocallyMinimalYes(l0: int, l: int, v0: int, v: int, ask: int -> Answer)
    requires l0 <= l < v && ask((l + v) / 2) == Yes
    requires l == l0 || ask(l) == No
    ensures var r := Bisect(l, v, ask);
      !r.unwound ==> (r.value == v0 || ask(r.value) == Yes) && (r.value <= l0 + 1 || ask(r.value - 1) == No)
    decreases v - l, 0
  {
    var m := (l + v) / 2;
    MidBetween(l, v);
    BisectYesStep(l, v, ask);
    BisectLocallyMinimal(l0, l, v0, m, ask);
  }

  /** BisectLocallyMinimal after a rejected probe above the bound. */
  lemma {:induction false} BisectLocallyMinimalNo(l0: int, l: int, v0: int, v: int, ask: int -> Answer)
    requires l0 <= l < v && ask((l + v) / 2) == No && l != (l + v) / 2
    requires v == v0 || ask(v) == Yes
    ensures var r := Bisect(l, v, ask);
      !r.unwound ==> (r.value == v0 || ask(r.value) == Yes) && (r.value <= l0 + 1 || ask(r.value - 1) == No)
    decreases v - l, 0
  {
    var m := (l + v) / 2;
    MidBetween(l, v);
    BisectNoStep(l, v, ask);
    BisectLocallyMinimal(l0, m, v0, v, ask);
  }

  /** An accepted probe moves the accepted end down to it. */
  lemma BisectYesStep(l: int, v: int, ask: int -> Answer)
    requires l < v && ask((l + v) / 2) == Yes
    ensures var m := (l + v) / 2; var r := Bisect(l, v, ask); var s := Bisect(l, m, ask);
      r.value == s.value && r.unwound == s.unwound
  {
    MidBetween(l, v);
  }

  /** A rejected probe above the bound moves the rejected end up to it. */
  lemma BisectNoStep(l: int, v: int, ask: int -> Answer)
    requires l < v && ask((l + v) / 2) == No && l != (l + v) / 2
    ensures var m := (l + v) / 2; var r := Bisect(l, v, ask); var s := Bisect(m, v, ask);
      r.value == s.value && r.unwound == s.unwound
  {
  }

  /** An unwinding probe, or a rejected probe on the bound, ends the search on `v`. */
  lemma BisectStops(l: int, v: int, ask: int -> Answer)
    requires l < v
    requires ask((l + v) / 2) == Unwind || (ask((l + v) / 2) == No && l == (l + v) / 2)
    ensures Bisect(l, v, ask).value == v
    ensures ask((l + v) / 2) == No ==> v == l + 1
  {
  }

  /** The int branch on the engine: the loop of minimize_Constant. */
  method MinimizeInt(e: Engine, h: Handle, value: int) returns (v: int)
    requires e.state == Running && e.Valid()
    modifies e
    ensures e.Valid() && e.visits == old(e.visits)
    ensures var ask := IntOracle(e.arena, e.checker, old(e.replaced), h);
      var r := Bisect(0, value, ask);
      && v == r.value
      && (r.unwound <==> e.state != Running)
      && e.trials == old(e.trials) + ValueTrials(h, IntLits(r.probes), Oracle(e.arena, e.checker, old(e.replaced), h))
      && (e.state == Running ==> Holds(e.replaced, old(e.replaced), h, LInt(value), LInt(v)))
  {
    ghost var base := e.replaced;
    ghost var ask := IntOracle(e.arena, e.checker, base, h);
    ghost var offer := Oracle(e.arena, e.checker, base, h);
    ghost var goal := Bisect(0, value, ask);
    ghost var done: seq<int> := [];
    v := value;
    var l := 0;
    while l != v
      invariant e.Valid() && e.state == Running && e.visits == old(e.visits)
      invariant Holds(e.replaced, base, h, LInt(value), LInt(v))
      invariant e.trials == old(e.trials) + ValueTrials(h, IntLits(done), offer)
      invariant var r := Bisect(l, v, ask); goal == Bisection(r.value, done + r.probes, r.unwound)
      decreases Gap(l, v)
    {
      var m := (l + v) / 2;
      MidBetween(l, v);
      BisectUnfold(l, v, ask);
      HoldsOffer(e.arena, e.checker, e.replaced, base, h, LInt(value), LInt(v), LInt(m));
      ghost var before := e.replaced;
      ghost var trials := e.trials;
      var ans := e.TryAttr(h, "value", VLit(LInt(m)));
      assert ans == ask(m) == offer(LInt(m));
      IntTrialsStep(h, done, m, offer);
      AppendAssoc(old(e.trials), ValueTrials(h, IntLits(done), offer), [Trial(ValueMap(h, LInt(m)), ans)]);
      AppendAssoc(done, [m], Bisect(l, v, ask).probes[1..]);
      done := done + [m];
      if ans == Unwind {
        assert goal == Bisection(v, done, true);
        return;
      }
      if ans == Yes {
        HoldsAccept(before, base, h, LInt(value), LInt(v), LInt(m));
        if v == m {
          assert goal == Bisection(v, done, false);
          break;
        }
        v := m;
      } else {
        if l == m {
          assert goal == Bisection(v, done, false);
          break;
        }
        l := m;
      }
    }
    assert goal == Bisection(v, done, false);
  }

  // ---------------------------------------------------------------------
  // str and bytes: removing pieces of the value
  // ---------------------------------------------------------------------

  function StrLit(s: seq<char>): Lit { LStr(s) }

  function BytesLit(bs: seq<byte>): Lit { LBytes(bs) }

  /** The answer function for offering a string or byte string built by `wrap`. */
  function PieceOracle<T>(a: Arena, checker: Val -> Verdict, base: SubstMap, h: Handle, wrap: seq<T> -> Lit): seq<T> -> Answer
  {
    s => Offer(a, checker, base, h, wrap(s))
  }

  /** One offer of the str/bytes search: the value offered, the piece it leaves out, the answer. */
  datatype PieceProbe<T> = PieceProbe(cand: seq<T>, removed: seq<T>, answer: Answer)

  /** How a call of `without` or `devide` ends: the pieces it keeps, its offers, whether it unwound. */
  datatype Pieces<T> = Pieces(kept: seq<T>, probes: seq<PieceProbe<T>>, unwound: bool)

  /**
   * `without(before, l, after)`: offer the value without `l`; keep nothing
   * if accepted, keep a single rejected element, otherwise split `l`.
   */
  function Without<T>(before: seq<T>, l: seq<T>, after: seq<T>, ask: seq<T> -> Answer): (r: Pieces<T>)
    ensures |r.probes| > 0
    decreases |l|, if |l| == 1 then 0 else 2
  {
    var ans := ask(before + after);
    var p := PieceProbe(before + after, l, ans);
    if ans == Unwind then Pieces([], [p], true)
    else if ans == Yes then Pieces([], [p], false)
    else if |l| == 1 then Pieces(l, [p], false)
    else var r := Divide(before, l, after, ask); Pieces(r.kept, [p] + r.probes, r.unwound)
  }

  /**
   * `devide(before, l, after)`: run `without` on the first half of `l`, then
   * on the second half with what was kept of the first half in front.
   */
  function Divide<T>(before: seq<T>, l: seq<T>, after: seq<T>, ask: seq<T> -> Answer): (r: Pieces<T>)
    decreases |l|, 1
  {
    if |l| == 0 then Pieces([], [], false)
    else
      var mid := |l| / 2;
      var a := Without(before, l[..mid], l[mid..] + after, ask);
      if a.unwound then a
      else
        var b := Without(before + a.kept, l[mid..], after, ask);
        Pieces(a.kept + b.kept, a.probes + b.probes, b.unwound)
  }

  /** The whole search on a value: `devide([], list(value), [])`. */
  function Shrink<T>(s: seq<T>, ask: seq<T> -> Answer): Pieces<T>
  {
    Divide([], s, [], ask)
  }

  /** The elements offered alone for removal and rejected, in order. */
  function RejectedSingles<T>(ps: seq<PieceProbe<T>>): seq<T>
  {
    if ps == [] then []
    else (if |ps[0].removed| == 1 && ps[0].answer == No then ps[0].removed else []) + RejectedSingles(ps[1..])
  }

  lemma {:induction false} RejectedSinglesAppend<T>(ps: seq<PieceProbe<T>>, qs: seq<PieceProbe<T>>)
    ensures RejectedSingles(ps + qs) == RejectedSingles(ps) + RejectedSingles(qs)
    decreases |ps|
  {
    if ps == [] {
      assert ps + qs == qs;
    } else {
      assert (ps + qs)[1..] == ps[1..] + qs;
      RejectedSinglesAppend(ps[1..], qs);
    }
  }

  /**
   * What is kept is exactly the elements that were offered alone for
   * removal and rejected, in their order.
   */
  lemma {:induction false} WithoutKeepsRejected<T>(before: seq<T>, l: seq<T>, after: seq<T>, ask: seq<T> -> Answer)
    ensures var r := Without(before, l, after, ask); !r.unwound ==> r.kept == RejectedSingles(r.probes)
    decreases |l|, if |l| == 1 then 0 else 2
  {
    var r := Without(before, l, after, ask);
    var p := r.probes[0];
    assert r.probes[1..] == [] || r.probes[1..] == Divide(before, l, after, ask).probes;
    if ask(before + after) == No && |l| != 1 {
      DivideKeepsRejected(before, l, after, ask);
    }
  }

  lemma {:induction false} DivideKeepsRejected<T>(before: seq<T>, l: seq<T>, after: seq<T>, ask: seq<T> -> Answer)
    ensures var r := Divide(before, l, after, ask); !r.unwound ==> r.kept == RejectedSingles(r.probes)
    decreases |l|, 1
  {
    if |l| > 0 {
      var mid := |l| / 2;
      var a := Without(before, l[..mid], l[mid..] + after, ask);
      WithoutKeepsRejected(before, l[..mid], l[mid..] + after, ask);
      if !a.unwound {
        var b := Without(before + a.kept, l[mid..], after, ask);
        WithoutKeepsRejected(before + a.kept, l[mid..], after, ask);
        RejectedSinglesAppend(a.probes, b.probes);
      }
    }
  }

  lemma ShrinkKeepsRejected<T>(s: seq<T>, ask: seq<T> -> Answer)
    ensures var r := Shrink(s, ask); !r.unwound ==> r.kept == RejectedSingles(r.probes)
  {
    DivideKeepsRejected([], s, [], ask);
  }

  /** What is kept is an order-preserving subsequence of the piece. */
  lemma {:induction false} WithoutSubseq<T>(before: seq<T>, l: seq<T>, after: seq<T>, ask: seq<T> -> Answer)
    ensures ListReduce.IsSubseq(Without(before, l, after, ask).kept, l)
    decreases |l|, if |l| == 1 then 0 else 2
  {
    var ans := ask(before + after);
    if ans == No && |l| == 1 {
      ListReduce.SubseqRefl(l);
    } else if ans == No {
      DivideSubseq(before, l, after, ask);
    }
  }

  lemma {:induction false} DivideSubseq<T>(before: seq<T>, l: seq<T>, after: seq<T>, ask: seq<T> -> Answer)
    ensures ListReduce.IsSubseq(Divide(before, l, after, ask).kept, l)
    decreases |l|, 1
  {
    if |l| > 0 {
      var mid := |l| / 2;
      var a := Without(before, l[..mid], l[mid..] + after, ask);
      WithoutSubseq(before, l[..mid], l[mid..] + after, ask);
      assert l[..mid] + l[mid..] == l;
      if !a.unwound {
        WithoutSubseq(before + a.kept, l[mid..], after, ask);
        ListReduce.SubseqConcat(a.kept, l[..mid], Without(before + a.kept, l[mid..], after, ask).kept, l[mid..]);
      } else {
        ListReduce.SubseqConcat(a.kept, l[..mid], [], l[mid..]);
        assert a.kept + [] == a.kept;
      }
    }
  }

  /** All offers of a call are subsequences of the value it starts from. */
  ghost predicate OffersWithin<T>(ps: seq<PieceProbe<T>>, whole: seq<T>)
  {
    forall i :: 0 <= i < |ps| ==> ListReduce.IsSubseq(ps[i].cand, whole)
  }

  lemma OffersWithinWeaken<T>(ps: seq<PieceProbe<T>>, part: seq<T>, whole: seq<T>)
    requires OffersWithin(ps, part) && ListReduce.IsSubseq(part, whole)
    ensures OffersWithin(ps, whole)
  {
    forall i | 0 <= i < |ps| ensures ListReduce.IsSubseq(ps[i].cand, whole) {
      ListReduce.SubseqTrans(ps[i].cand, part, whole);
    }
  }

  /** `before + x + after` with `x` a subsequence of `y` is a subsequence of `before + y + after`. */
  lemma SubseqMiddle<T>(before: seq<T>, x: seq<T>, y: seq<T>, after: seq<T>)
    requires ListReduce.IsSubseq(x, y)
    ensures ListReduce.IsSubseq(before + x + after, before + y + after)
  {
    ListReduce.SubseqRefl(before);
    ListReduce.SubseqRefl(after);
    ListReduce.SubseqConcat(before, before, x, y);
    ListReduce.SubseqConcat(before + x, before + y, after, after);
  }

  /**
   * Every value offered, and so every value committed, is an
   * order-preserving subsequence of the value the call starts from.
   */
  lemma {:induction false} WithoutOffersWithin<T>(before: seq<T>, l: seq<T>, after: seq<T>, ask: seq<T> -> Answer)
    ensures OffersWithin(Without(before, l, after, ask).probes, before + l + after)
    decreases |l|, if |l| == 1 then 0 else 2
  {
    var r := Without(before, l, after, ask);
    ListReduce.SubseqRefl(before + after);
    ListReduce.SubseqPrepend([], l, []);
    SubseqMiddle(before, [], l, after);
    assert before + [] + after == before + after;
    if ask(before + after) == No && |l| != 1 {
      DivideOffersWithin(before, l, after, ask);
      assert r.probes == [r.probes[0]] + Divide(before, l, after, ask).probes;
    }
  }

  lemma {:induction false} DivideOffersWithin<T>(before: seq<T>, l: seq<T>, after: seq<T>, ask: seq<T> -> Answer)
    ensures OffersWithin(Divide(before, l, after, ask).probes, before + l + after)
    decreases |l|, 1
  {
    if |l| > 0 {
      var mid := |l| / 2;
      var whole := before + l + after;
      assert before + l[..mid] + (l[mid..] + after) == whole by {
        assert l == l[..mid] + l[mid..];
      }
      var a := Without(before, l[..mid], l[mid..] + after, ask);
      WithoutOffersWithin(before, l[..mid], l[mid..] + after, ask);
      if !a.unwound {
        var b := Without(before + a.kept, l[mid..], after, ask);
        WithoutOffersWithin(before + a.kept, l[mid..], after, ask);
        WithoutSubseq(before, l[..mid], l[mid..] + after, ask);
        SubseqMiddle(before, a.kept, l[..mid], l[mid..] + after);
        assert before + a.kept + l[mid..] + after == before + a.kept + (l[mid..] + after);
        OffersWithinWeaken(b.probes, before + a.kept + l[mid..] + after, whole);
      }
    }
  }

  lemma ShrinkWithinOriginal<T>(s: seq<T>, ask: seq<T> -> Answer)
    ensures ListReduce.IsSubseq(Shrink(s, ask).kept, s)
    ensures OffersWithin(Shrink(s, ask).probes, s)
  {
    DivideSubseq([], s, [], ask);
    DivideOffersWithin([], s, [], ask);
    assert [] + s + [] == s;
  }

  /** The values offered, as literals. */
  function Cands<T>(ps: seq<PieceProbe<T>>, wrap: seq<T> -> Lit): (r: seq<Lit>)
    ensures |r| == |ps|
  {
    if ps == [] then [] else [wrap(ps[0].cand)] + Cands(ps[1..], wrap)
  }

  lemma {:induction false} CandsAppend<T>(ps: seq<PieceProbe<T>>, qs: seq<PieceProbe<T>>, wrap: seq<T> -> Lit)
    ensures Cands(ps + qs, wrap) == Cands(ps, wrap) + Cands(qs, wrap)
    decreases |ps|
  {
    if ps == [] {
      assert ps + qs == qs;
    } else {
      assert (ps + qs)[1..] == ps[1..] + qs;
      CandsAppend(ps[1..], qs, wrap);
    }
  }

  /** The engine's record of the offers of a str/bytes search. */
  function PieceTrials<T>(a: Arena, checker: Val -> Verdict, base: SubstMap, h: Handle, wrap: seq<T> -> Lit, ps: seq<PieceProbe<T>>): seq<Trial>
  {
    ValueTrials(h, Cands(ps, wrap), Oracle(a, checker, base, h))
  }

  lemma PieceTrialsAppend<T>(a: Arena, checker: Val -> Verdict, base: SubstMap, h: Handle, wrap: seq<T> -> Lit, ps: seq<PieceProbe<T>>, qs: seq<PieceProbe<T>>)
    ensures PieceTrials(a, checker, base, h, wrap, ps + qs) == PieceTrials(a, checker, base, h, wrap, ps) + PieceTrials(a, checker, base, h, wrap, qs)
  {
    CandsAppend(ps, qs, wrap);
    ValueTrialsAppend(h, Cands(ps, wrap), Cands(qs, wrap), Oracle(a, checker, base, h));
  }

  /**
   * `without` on the engine. The constant holds `before + l + after` on
   * entry and `before + kept + after` on return.
   */
  method RunWithout<T>(e: Engine, h: Handle, wrap: seq<T> -> Lit, ghost base: SubstMap, ghost orig: seq<T>,
                       before: seq<T>, l: seq<T>, after: seq<T>) returns (kept: seq<T>)
    requires e.state == Running && e.Valid()
    requires Holds(e.replaced, base, h, wrap(orig), wrap(before + l + after))
    modifies e
    ensures e.Valid() && e.visits == old(e.visits)
    ensures var r := Without(before, l, after, PieceOracle(e.arena, e.checker, base, h, wrap));
      && kept == r.kept
      && (r.unwound <==> e.state != Running)
      && e.trials == old(e.trials) + PieceTrials(e.arena, e.checker, base, h, wrap, r.probes)
      && (e.state == Running ==> Holds(e.replaced, base, h, wrap(orig), wrap(before + kept + after)))
    decreases |l|, if |l| == 1 then 0 else 2
  {
    ghost var ask := PieceOracle(e.arena, e.checker, base, h, wrap);
    ghost var r := Without(before, l, after, ask);
    ghost var p := PieceProbe(before + after, l, ask(before + after));
    HoldsOffer(e.arena, e.checker, e.replaced, base, h, wrap(orig), wrap(before + l + after), wrap(before + after));
    ghost var replaced := e.replaced;
    var ans := e.TryAttr(h, "value", VLit(wrap(before + after)));
    assert ans == ask(before + after);
    assert e.trials == old(e.trials) + PieceTrials(e.arena, e.checker, base, h, wrap, [p]);
    if ans == Unwind {
      kept := [];
    } else if ans == Yes {
      HoldsAccept(replaced, base, h, wrap(orig), wrap(before + l + after), wrap(before + after));
      kept := [];
      assert before + kept + after == before + after;
    } else if |l| == 1 {
      kept := l;
    } else {
      ghost var trials := e.trials;
      kept := RunDivide(e, h, wrap, base, orig, before, l, after);
      ghost var d := Divide(before, l, after, ask);
      assert r.probes == [p] + d.probes;
      PieceTrialsAppend(e.arena, e.checker, base, h, wrap, [p], d.probes);
      AppendAssoc(old(e.trials), PieceTrials(e.arena, e.checker, base, h, wrap, [p]), PieceTrials(e.arena, e.checker, base, h, wrap, d.probes));
    }
  }

  /** `devide` on the engine. */
  method RunDivide<T>(e: Engine, h: Handle, wrap: seq<T> -> Lit, ghost base: SubstMap, ghost orig: seq<T>,
                      before: seq<T>, l: seq<T>, after: seq<T>) returns (kept: seq<T>)
    requires e.state == Running && e.Valid()
    requires Holds(e.replaced, base, h, wrap(orig), wrap(before + l + after))
    modifies e
    ensures e.Valid() && e.visits == old(e.visits)
    ensures var r := Divide(before, l, after, PieceOracle(e.arena, e.checker, base, h, wrap));
      && kept == r.kept
      && (r.unwound <==> e.state != Running)
      && e.trials == old(e.trials) + PieceTrials(e.arena, e.checker, base, h, wrap, r.probes)
      && (e.state == Running ==> Holds(e.replaced, base, h, wrap(orig), wrap(before + kept + after)))
    decreases |l|, 1
  {
    ghost var ask := PieceOracle(e.arena, e.checker, base, h, wrap);
    if |l| == 0 {
      assert before + l + after == before + [] + after;
      return [];
    }
    var mid := |l| / 2;
    assert before + l[..mid] + (l[mid..] + after) == before + l + after by {
      assert l == l[..mid] + l[mid..];
    }
    var a := RunWithout(e, h, wrap, base, orig, before, l[..mid], l[mid..] + after);
    ghost var ra := Without(before, l[..mid], l[mid..] + after, ask);
    if e.state != Running {
      return a;
    }
    AppendAssoc(before + a, l[mid..], after);
    ghost var trials := e.trials;
    var b := RunWithout(e, h, wrap, base, orig, before + a, l[mid..], after);
    ghost var rb := Without(before + a, l[mid..], after, ask);
    kept := a + b;
    AppendAssoc(before, a, b);
    PieceTrialsAppend(e.arena, e.checker, base, h, wrap, ra.probes, rb.probes);
    AppendAssoc(old(e.trials), PieceTrials(e.arena, e.checker, base, h, wrap, ra.probes), PieceTrials(e.arena, e.checker, base, h, wrap, rb.probes));
  }

  /** `w` occurs in `s` as a contiguous piece. */
  predicate HasInfix<T(==)>(s: seq<T>, w: seq<T>)
    decreases |s|
  {
    w <= s || (|s| > 0 && HasInfix(s[1..], w))
  }

  /** A checker looking for "bug" in the constant. */
  function BugOracle(s: string): Answer { if HasInfix(s, "bug") then Yes else No }

  lemma NoBug(s: string)
    requires forall i :: 0 <= i < |s| ==> s[i] != 'b'
    ensures !HasInfix(s, "bug")
    decreases |s|
  {
    if |s| > 0 {
      if |s| >= 3 { assert s[..3][0] == s[0]; }
      NoBug(s[1..]);
    }
  }

  /** An accepted offer keeps nothing. */
  lemma BugDrop(before: string, l: string, after: string)
    requires HasInfix(before + after, "bug")
    ensures Without(before, l, after, BugOracle).kept == [] && !Without(before, l, after, BugOracle).unwound
  {
  }

  /** A rejected offer of a single element keeps it. */
  lemma BugKeep(before: string, l: string, after: string)
    requires !HasInfix(before + after, "bug") && |l| == 1
    ensures Without(before, l, after, BugOracle).kept == l && !Without(before, l, after, BugOracle).unwound
  {
  }

  /** A rejected offer of a longer piece hands over to `devide`. */
  lemma BugSplit(before: string, l: string, after: string, kept: string)
    requires !HasInfix(before + after, "bug") && |l| != 1
    requires Divide(before, l, after, BugOracle).kept == kept && !Divide(before, l, after, BugOracle).unwound
    ensures Without(before, l, after, BugOracle).kept == kept && !Without(before, l, after, BugOracle).unwound
  {
  }

  /** `devide` on a non-empty piece: the first half, then the second half. */
  lemma DivideHalves<T>(before: seq<T>, l: seq<T>, after: seq<T>, ask: seq<T> -> Answer, x: seq<T>, y: seq<T>, a: seq<T>, b: seq<T>)
    requires |l| > 0 && x == l[..|l| / 2] && y == l[|l| / 2..]
    requires var r := Without(before, x, y + after, ask); r.kept == a && !r.unwound
    requires var r := Without(before + a, y, after, ask); r.kept == b && !r.unwound
    ensures Divide(before, l, after, ask).kept == a + b && !Divide(before, l, after, ask).unwound
  {
  }

  /** A string whose only 'b', if any, is its first character and is not followed by "ug". */
  lemma NoBugAfterFirst(s: string)
    requires |s| > 0 && (|s| < 3 || s[1] != 'u' || s[2] != 'g')
    requires forall i :: 1 <= i < |s| ==> s[i] != 'b'
    ensures !HasInfix(s, "bug")
  {
    if |s| >= 3 { assert s[..3][1] == s[1] && s[..3][2] == s[2]; }
    NoBug(s[1..]);
  }

  /** A string that starts with "bug". */
  lemma BugFirst(s: string)
    requires |s| >= 3 && s[0] == 'b' && s[1] == 'u' && s[2] == 'g'
    ensures HasInfix(s, "bug")
  {
    assert s[..3] == "bug";
  }

  /** A string with "bug" after some characters. */
  lemma BugLater(s: string, k: nat)
    requires k + 3 <= |s| && s[k] == 'b' && s[k + 1] == 'u' && s[k + 2] == 'g'
    ensures HasInfix(s, "bug")
    decreases k
  {
    if k == 0 { BugFirst(s); } else { BugLater(s[1..], k - 1); }
  }

  // The calls made on "some bug here", innermost first.

  lemma StepSpaceB()
    ensures var r := Without([], " b", "ug here", BugOracle); r.kept == "b" && !r.unwound
  {
    var after: string := "ug here";
    NoBug([] + after);
    DivideSpaceB();
    BugSplit([], " b", after, "b");
  }

  lemma DivideSpaceB()
    ensures var r := Divide([], " b", "ug here", BugOracle); r.kept == "b" && !r.unwound
  {
    var after: string := "ug here";
    NoBug([] + after);
    BugLater([] + ("b" + after), 0);
    BugDrop([], " ", "b" + after);
    BugKeep([], "b", after);
    DivideHalves([], " b", after, BugOracle, " ", "b", [], "b");
  }

  lemma StepEB()
    ensures var r := Without([], "e b", "ug here", BugOracle); r.kept == "b" && !r.unwound
  {
    var after: string := "ug here";
    NoBug([] + after);
    BugLater([] + (" b" + after), 1);
    BugDrop([], "e", " b" + after);
    StepSpaceB();
    DivideHalves([], "e b", after, BugOracle, "e", " b", [], "b");
    BugSplit([], "e b", after, "b");
  }

  lemma StepSomeB()
    ensures var r := Without([], "some b", "ug here", BugOracle); r.kept == "b" && !r.unwound
  {
    var after: string := "ug here";
    NoBug([] + after);
    BugLater([] + ("e b" + after), 2);
    BugDrop([], "som", "e b" + after);
    StepEB();
    DivideHalves([], "some b", after, BugOracle, "som", "e b", [], "b");
    BugSplit([], "some b", after, "b");
  }

  lemma StepGSpace()
    ensures var r := Without("bu", "g ", "here", BugOracle); r.kept == "g" && !r.unwound
  {
    var bu: string := "bu";
    NoBugAfterFirst(bu + "here");
    NoBugAfterFirst(bu + (" " + "here"));
    BugKeep(bu, "g", " " + "here");
    BugFirst(bu + "g" + "here");
    BugDrop(bu + "g", " ", "here");
    DivideHalves(bu, "g ", "here", BugOracle, "g", " ", "g", []);
    BugSplit(bu, "g ", "here", "g");
  }

  lemma StepUgSpace()
    ensures var r := Without("b", "ug ", "here", BugOracle); r.kept == "ug" && !r.unwound
  {
    var b: string := "b";
    NoBugAfterFirst(b + "here");
    NoBugAfterFirst(b + ("g " + "here"));
    BugKeep(b, "u", "g " + "here");
    assert b + "u" == "bu";
    StepGSpace();
    DivideHalves(b, "ug ", "here", BugOracle, "u", "g ", "u", "g");
    BugSplit(b, "ug ", "here", "ug");
  }

  lemma StepUgHere()
    ensures var r := Without("b", "ug here", [], BugOracle); r.kept == "ug" && !r.unwound
  {
    var b: string := "b";
    NoBugAfterFirst(b + []);
    StepUgSpace();
    assert "here" + [] == "here";
    BugFirst(b + "ug" + []);
    BugDrop(b + "ug", "here", []);
    DivideHalves(b, "ug here", [], BugOracle, "ug ", "here", "ug", []);
    BugSplit(b, "ug here", [], "ug");
  }

  lemma HalvesOfExample()
    ensures "some bug here"[..6] == "some b" && "some bug here"[6..] == "ug here"
  {
    assert "some bug here" == "some b" + "ug here";
  }

  /** The string constant "some bug here", with the checker looking for "bug", shrinks to "bug". */
  lemma ShrinkExample()
    ensures Shrink("some bug here", BugOracle).kept == "bug"
  {
    HalvesOfExample();
    StepSomeB();
    assert "ug here" + [] == "ug here";
    assert [] + "b" == "b";
    StepUgHere();
    DivideHalves([], "some bug here", [], BugOracle, "some b", "ug here", "b", "ug");
    assert "b" + "ug" == "bug";
  }

  // ---------------------------------------------------------------------
  // minimize_Constant
  // ---------------------------------------------------------------------

  /** The str/bytes branch on the engine: `devide([], list(value), [])`. */
  method MinimizePieces<T>(e: Engine, h: Handle, wrap: seq<T> -> Lit, value: seq<T>) returns (kept: seq<T>)
    requires e.state == Running && e.Valid()
    modifies e
    ensures e.Valid() && e.visits == old(e.visits)
    ensures var r := Shrink(value, PieceOracle(e.arena, e.checker, old(e.replaced), h, wrap));
      && kept == r.kept
      && (r.unwound <==> e.state != Running)
      && e.trials == old(e.trials) + PieceTrials(e.arena, e.checker, old(e.replaced), h, wrap, r.probes)
      && (e.state == Running ==> Holds(e.replaced, old(e.replaced), h, wrap(value), wrap(kept)))
  {
    assert [] + value + [] == value;
    kept := RunDivide(e, h, wrap, e.replaced, value, [], value, []);
    assert [] + kept + [] == kept;
  }

  /**
   * minimize_Constant: True is offered False once (False and None are left
   * alone); an int is bisected towards 0; a str or bytes value has pieces
   * removed. A bool is never treated as an int. Other constants (float,
   * complex, Ellipsis) are not shrunk by this model.
   */
  method MinimizeConstant(e: Engine, h: Handle, lit: Lit)
    requires e.state == Running && e.Valid()
    modifies e
    ensures e.Valid() && e.visits == old(e.visits)
    ensures var offer := Oracle(e.arena, e.checker, old(e.replaced), h);
      && (lit == LBool(true) ==>
            && e.trials == old(e.trials) + [Trial(ValueMap(h, LBool(false)), offer(LBool(false)))]
            && (offer(LBool(false)) == Unwind <==> e.state != Running)
            && (e.state == Running ==>
                  e.replaced == if offer(LBool(false)) == Yes then old(e.replaced)[FieldOf(h, "value") := Literal(VLit(LBool(false)))] else old(e.replaced)))
      && (lit.LInt? ==>
            var r := Bisect(0, lit.i, IntOracle(e.arena, e.checker, old(e.replaced), h));
            && (r.unwound <==> e.state != Running)
            && e.trials == old(e.trials) + ValueTrials(h, IntLits(r.probes), offer)
            && (e.state == Running ==> Holds(e.replaced, old(e.replaced), h, lit, LInt(r.value))))
      && (lit.LStr? ==>
            var r := Shrink(lit.s, PieceOracle(e.arena, e.checker, old(e.replaced), h, StrLit));
            && (r.unwound <==> e.state != Running)
            && e.trials == old(e.trials) + PieceTrials(e.arena, e.checker, old(e.replaced), h, StrLit, r.probes)
            && (e.state == Running ==> Holds(e.replaced, old(e.replaced), h, lit, LStr(r.kept))))
      && (lit.LBytes? ==>
            var r := Shrink(lit.bs, PieceOracle(e.arena, e.checker, old(e.replaced), h, BytesLit));
            && (r.unwound <==> e.state != Running)
            && e.trials == old(e.trials) + PieceTrials(e.arena, e.checker, old(e.replaced), h, BytesLit, r.probes)
            && (e.state == Running ==> Holds(e.replaced, old(e.replaced), h, lit, LBytes(r.kept))))
      && (lit.LNone? || lit == LBool(false) || lit.LOther? ==>
            e.trials == old(e.trials) && e.replaced == old(e.replaced) && e.state == Running)
  {
    match lit {
      case LBool(b) =>
        if b {
          var ans := e.TryAttr(h, "value", VLit(LBool(false)));
        }
      case LInt(i) =>
        var v := MinimizeInt(e, h, i);
      case LStr(s) =>
        var kept := MinimizePieces(e, h, StrLit, s);
      case LBytes(bs) =>
        var kept := MinimizePieces(e, h, BytesLit, bs);
      case LNone =>
      case LOther(_) =>
    }
  }
}
