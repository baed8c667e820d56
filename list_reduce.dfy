/**
 * The divide-and-conquer list reducer of minimize_list / minimize_lists
 * (src/pysource_minimize/_minimize_structure.py), as a function of the
 * answers its probes receive. The shared removal budget (`max_remove`),
 * the `remaining` accumulator and the removed elements are threaded
 * through the recursion in an `Outcome`.
 */
module ListReduce {

  import opened Checker

  /** One call of try_without: the slice offered, the budget before it, and the answer. */
  datatype Probe<T> = Probe(batch: seq<T>, budget: int, answer: Answer)

  /**
   * The reducer's state: the budget left (`max_remove`), the elements kept
   * (`remaining`, in the order appended), the elements of accepted
   * removals (in the order removed), every probe made, and whether an
   * exception is unwinding the search.
   */
  datatype Outcome<T> = Outcome(left: int, kept: seq<T>, removed: seq<T>, probes: seq<Probe<T>>, unwound: bool)

  /** The answer to the i-th probe; a script that has run out says No. */
  function Ask(script: seq<Answer>, i: nat): Answer
  {
    if i < |script| then script[i] else No
  }

  /** `wo`: remove the whole slice if the budget allows and the probe is accepted, else divide it. */
  function Wo<T>(l: seq<T>, o: Outcome<T>, script: seq<Answer>): Outcome<T>
    decreases |l|, 1
  {
    if o.left < |l| then Divide(l, o, script)
    else
      var ans := Ask(script, |o.probes|);
      var o1 := o.(probes := o.probes + [Probe(l, o.left, ans)]);
      match ans
      case Unwind => o1.(unwound := true)
      case Yes => o1.(left := o.left - |l|, removed := o.removed + l)
      case No => Divide(l, o1, script)
  }

  /**
   * `devide`: a single element is offered alone for removal (when the
   * budget allows) and kept otherwise; a longer slice is split at its
   * midpoint and the second half is handled before the first.
   */
  function Divide<T>(l: seq<T>, o: Outcome<T>, script: seq<Answer>): Outcome<T>
    decreases |l|, 0
  {
    if l == [] then o
    else if |l| == 1 then
      if o.left >= 1 then
        var ans := Ask(script, |o.probes|);
        var o1 := o.(probes := o.probes + [Probe(l, o.left, ans)]);
        match ans
        case Unwind => o1.(unwound := true)
        case Yes => o1.(left := o.left - 1, removed := o.removed + l)
        case No => o1.(kept := o.kept + l)
      else o.(kept := o.kept + l)
    else
      var mid := |l| / 2;
      var o1 := Wo(l[mid..], o, script);
      if o1.unwound then o1 else Wo(l[..mid], o1, script)
  }

  /** A slice of two or more rows: the second half first, then the first half unless unwinding. */
  lemma DivideSplit<T>(l: seq<T>, o: Outcome<T>, script: seq<Answer>)
    requires |l| > 1
    ensures var o1 := Wo(l[|l| / 2..], o, script);
      Divide(l, o, script) == if o1.unwound then o1 else Wo(l[..|l| / 2], o1, script)
  {
  }

  /** A single row: offered alone when the budget allows, kept otherwise. */
  lemma DivideSingle<T>(l: seq<T>, o: Outcome<T>, script: seq<Answer>)
    requires |l| == 1
    ensures var ans := Ask(script, |o.probes|);
      var o1 := o.(probes := o.probes + [Probe(l, o.left, ans)]);
      Divide(l, o, script) ==
        if o.left < 1 then o.(kept := o.kept + l)
        else if ans == Unwind then o1.(unwound := true)
        else if ans == Yes then o1.(left := o.left - 1, removed := o.removed + l)
        else o1.(kept := o.kept + l)
  {
  }

  /** A slice within the budget is offered whole; a rejected one is divided. */
  lemma WoUnfold<T>(l: seq<T>, o: Outcome<T>, script: seq<Answer>)
    ensures var ans := Ask(script, |o.probes|);
      var o1 := o.(probes := o.probes + [Probe(l, o.left, ans)]);
      Wo(l, o, script) ==
        if o.left < |l| then Divide(l, o, script)
        else if ans == Unwind then o1.(unwound := true)
        else if ans == Yes then o1.(left := o.left - |l|, removed := o.removed + l)
        else Divide(l, o1, script)
  {
  }

  /** The answers the probes received, in order: the script that replays them. */
  function AnswersOf<T>(ps: seq<Probe<T>>): (r: seq<Answer>)
    ensures |r| == |ps|
    ensures forall i :: 0 <= i < |ps| ==> r[i] == ps[i].answer
  {
    seq(|ps|, i requires 0 <= i < |ps| => ps[i].answer)
  }

  lemma AnswersPrefix<T>(ps: seq<Probe<T>>, qs: seq<Probe<T>>)
    requires ps <= qs
    ensures AnswersOf(ps) <= AnswersOf(qs)
  {
    assert AnswersOf(qs)[..|ps|] == AnswersOf(ps);
  }

  function Start<T>(budget: int): Outcome<T> { Outcome(budget, [], [], [], false) }

  /** The reducer run on l with removal budget `len(l) - minimal`. */
  function Reduce<T>(l: seq<T>, minimal: int, script: seq<Answer>): Outcome<T>
  {
    Divide(l, Start(|l| - minimal), script)
  }

  function Reverse<T>(s: seq<T>): (r: seq<T>)
    ensures |r| == |s|
  {
    if s == [] then [] else Reverse(s[1..]) + [s[0]]
  }

  /** a is an order-preserving subsequence of b. */
  ghost predicate IsSubseq<T>(a: seq<T>, b: seq<T>)
    decreases |b|
  {
    a == [] || (b != [] && ((a[0] == b[0] && IsSubseq(a[1..], b[1..])) || IsSubseq(a, b[1..])))
  }

  /** The elements that were offered alone for removal and rejected. */
  ghost function RejectedAlone<T>(ps: seq<Probe<T>>): set<T>
  {
    set i | 0 <= i < |ps| && |ps[i].batch| == 1 && ps[i].answer == No :: ps[i].batch[0]
  }

  // ---------------------------------------------------------------------
  // Sequence facts

  lemma {:induction false} ReverseAppend<T>(a: seq<T>, b: seq<T>)
    ensures Reverse(a + b) == Reverse(b) + Reverse(a)
    decreases |a|
  {
    if a == [] {
      assert a + b == b;
    } else {
      assert (a + b)[1..] == a[1..] + b;
      ReverseAppend(a[1..], b);
    }
  }

  lemma ReverseSplit<T>(l: seq<T>, mid: nat)
    requires mid <= |l|
    ensures Reverse(l) == Reverse(l[mid..]) + Reverse(l[..mid])
  {
    assert l == l[..mid] + l[mid..];
    ReverseAppend(l[..mid], l[mid..]);
  }

  lemma {:induction false} SubseqPrepend<T>(a: seq<T>, b: seq<T>, c: seq<T>)
    requires IsSubseq(a, c)
    ensures IsSubseq(a, b + c)
    decreases |b|
  {
    if b == [] {
      assert b + c == c;
    } else if a != [] {
      SubseqPrepend(a, b[1..], c);
      assert (b + c)[1..] == b[1..] + c;
      assert IsSubseq(a, (b + c)[1..]);
    }
  }

  lemma {:induction false} SubseqConcat<T>(a: seq<T>, b: seq<T>, c: seq<T>, d: seq<T>)
    requires IsSubseq(a, b) && IsSubseq(c, d)
    ensures IsSubseq(a + c, b + d)
    decreases |b|
  {
    if a == [] {
      assert a + c == c;
      SubseqPrepend(c, b, d);
    } else {
      assert (a + c)[0] == a[0] && (a + c)[1..] == a[1..] + c;
      assert (b + d)[0] == b[0] && (b + d)[1..] == b[1..] + d;
      if a[0] == b[0] && IsSubseq(a[1..], b[1..]) {
        SubseqConcat(a[1..], b[1..], c, d);
      } else {
        SubseqConcat(a, b[1..], c, d);
      }
    }
  }

  lemma {:induction false} SubseqRefl<T>(a: seq<T>)
    ensures IsSubseq(a, a)
    decreases |a|
  {
    if a != [] { SubseqRefl(a[1..]); }
  }

  lemma {:induction false} SubseqTrans<T>(a: seq<T>, b: seq<T>, c: seq<T>)
    requires IsSubseq(a, b) && IsSubseq(b, c)
    ensures IsSubseq(a, c)
    decreases |c|
  {
    if a != [] {
      if b[0] == c[0] && IsSubseq(b[1..], c[1..]) {
        if a[0] == b[0] && IsSubseq(a[1..], b[1..]) {
          SubseqTrans(a[1..], b[1..], c[1..]);
        } else {
          SubseqTrans(a, b[1..], c[1..]);
        }
      } else {
        SubseqTrans(a, b, c[1..]);
      }
    }
  }

  lemma RejectedAloneGrows<T>(ps: seq<Probe<T>>, qs: seq<Probe<T>>)
    requires ps <= qs
    ensures RejectedAlone(ps) <= RejectedAlone(qs)
  {
    forall x | x in RejectedAlone(ps) ensures x in RejectedAlone(qs) {
      var i :| 0 <= i < |ps| && |ps[i].batch| == 1 && ps[i].answer == No && ps[i].batch[0] == x;
      assert qs[i] == ps[i];
    }
  }

  // ---------------------------------------------------------------------
  // Accounting: what a call adds, the budget it spends, the probes it makes

  /** The facts every call keeps about the budget, the accumulators and the probes. */
  ghost predicate Accounted<T>(l: seq<T>, o: Outcome<T>, r: Outcome<T>)
  {
    && o.kept <= r.kept && o.removed <= r.removed && o.probes <= r.probes
    && r.left <= o.left
    && |r.removed| - |o.removed| == o.left - r.left
    && (o.left >= 0 ==> r.left >= 0)
    && (forall i :: |o.probes| <= i < |r.probes| ==>
          0 < |r.probes[i].batch| <= r.probes[i].budget <= o.left)
    && (forall i :: |o.probes| <= i < |r.probes| - 1 ==> r.probes[i].answer != Unwind)
    && (r.unwound <==> (|r.probes| > |o.probes| && r.probes[|r.probes| - 1].answer == Unwind))
  }

  lemma {:induction false} WoAccounted<T>(l: seq<T>, o: Outcome<T>, script: seq<Answer>)
    requires !o.unwound && |l| > 0
    ensures Accounted(l, o, Wo(l, o, script))
    decreases |l|, 1
  {
    if o.left < |l| {
      DivideAccounted(l, o, script);
    } else {
      var ans := Ask(script, |o.probes|);
      var o1 := o.(probes := o.probes + [Probe(l, o.left, ans)]);
      if ans == No {
        DivideAccounted(l, o1, script);
      }
    }
  }

  lemma {:induction false} DivideAccounted<T>(l: seq<T>, o: Outcome<T>, script: seq<Answer>)
    requires !o.unwound
    ensures Accounted(l, o, Divide(l, o, script))
    decreases |l|, 0
  {
    if |l| > 1 {
      var mid := |l| / 2;
      DivideSplit(l, o, script);
      WoAccounted(l[mid..], o, script);
      var o1 := Wo(l[mid..], o, script);
      if !o1.unwound {
        WoAccounted(l[..mid], o1, script);
        AccountedThen(l[mid..], l[..mid], l, o, o1, Wo(l[..mid], o1, script));
      }
    }
  }

  /** Two calls in a row, the first not unwound, are accounted for as one. */
  lemma AccountedThen<T>(a: seq<T>, b: seq<T>, l: seq<T>, o: Outcome<T>, o1: Outcome<T>, r: Outcome<T>)
    requires Accounted(a, o, o1) && !o1.unwound && Accounted(b, o1, r)
    ensures Accounted(l, o, r)
  {
    forall i | |o.probes| <= i < |r.probes| - 1
      ensures r.probes[i].answer != Unwind
    {
      if i < |o1.probes| {
        assert r.probes[i] == o1.probes[i];
      }
    }
    forall i | |o.probes| <= i < |r.probes|
      ensures 0 < |r.probes[i].batch| <= r.probes[i].budget <= o.left
    {
      if i < |o1.probes| {
        assert r.probes[i] == o1.probes[i];
      }
    }
  }

  /** No probe offers more elements than the budget left at that moment, and the budget never goes negative. */
  lemma ReduceWithinBudget<T>(l: seq<T>, minimal: int, script: seq<Answer>)
    requires minimal <= |l|
    ensures var r := Reduce(l, minimal, script);
      && 0 <= r.left
      && |r.removed| == |l| - minimal - r.left
      && forall p :: p in r.probes ==> 0 < |p.batch| <= p.budget <= |l| - minimal
  {
    DivideAccounted(l, Start(|l| - minimal), script);
  }

  // ---------------------------------------------------------------------
  // Removed rows: exactly the batches of the accepted probes

  /** The batches of the accepted probes, in order: what those probes removed. */
  function Accepted<T>(ps: seq<Probe<T>>): seq<T>
  {
    if ps == [] then []
    else Accepted(ps[..|ps| - 1]) + (if ps[|ps| - 1].answer == Yes then ps[|ps| - 1].batch else [])
  }

  lemma AcceptedStep<T>(ps: seq<Probe<T>>, p: Probe<T>)
    ensures Accepted(ps + [p]) == Accepted(ps) + (if p.answer == Yes then p.batch else [])
  {
    assert (ps + [p])[..|ps|] == ps;
  }

  lemma {:induction false} WoRemovesAccepted<T>(l: seq<T>, o: Outcome<T>, script: seq<Answer>)
    requires !o.unwound && o.removed == Accepted(o.probes)
    ensures Wo(l, o, script).removed == Accepted(Wo(l, o, script).probes)
    decreases |l|, 1
  {
    if o.left < |l| {
      DivideRemovesAccepted(l, o, script);
    } else {
      var p := Probe(l, o.left, Ask(script, |o.probes|));
      AcceptedStep(o.probes, p);
      if p.answer == No {
        DivideRemovesAccepted(l, o.(probes := o.probes + [p]), script);
      }
    }
  }

  lemma {:induction false} DivideRemovesAccepted<T>(l: seq<T>, o: Outcome<T>, script: seq<Answer>)
    requires !o.unwound && o.removed == Accepted(o.probes)
    ensures Divide(l, o, script).removed == Accepted(Divide(l, o, script).probes)
    decreases |l|, 0
  {
    if |l| == 1 {
      if o.left >= 1 {
        AcceptedStep(o.probes, Probe(l, o.left, Ask(script, |o.probes|)));
      }
    } else if |l| > 1 {
      var mid := |l| / 2;
      WoRemovesAccepted(l[mid..], o, script);
      var o1 := Wo(l[mid..], o, script);
      if !o1.unwound {
        WoRemovesAccepted(l[..mid], o1, script);
      }
    }
  }

  /** The removed elements are exactly those of the accepted probes, in order, even when unwinding. */
  lemma ReduceRemovesAccepted<T>(l: seq<T>, minimal: int, script: seq<Answer>)
    ensures Reduce(l, minimal, script).removed == Accepted(Reduce(l, minimal, script).probes)
  {
    DivideRemovesAccepted(l, Start(|l| - minimal), script);
  }

  // ---------------------------------------------------------------------
  // Partition: every element is kept or removed, exactly once

  lemma {:induction false} WoPartition<T>(l: seq<T>, o: Outcome<T>, script: seq<Answer>)
    requires !o.unwound && |l| > 0
    ensures var r := Wo(l, o, script);
      o.kept <= r.kept && o.removed <= r.removed &&
      (if r.unwound then multiset(r.kept[|o.kept|..]) + multiset(r.removed[|o.removed|..]) <= multiset(l)
       else multiset(r.kept[|o.kept|..]) + multiset(r.removed[|o.removed|..]) == multiset(l))
    decreases |l|, 1
  {
    if o.left < |l| {
      DividePartition(l, o, script);
    } else {
      var ans := Ask(script, |o.probes|);
      var o1 := o.(probes := o.probes + [Probe(l, o.left, ans)]);
      if ans == No {
        DividePartition(l, o1, script);
      } else if ans == Yes {
        var r := Wo(l, o, script);
        assert r.removed[|o.removed|..] == l;
        assert r.kept[|o.kept|..] == [];
      } else {
        var r := Wo(l, o, script);
        assert r.removed[|o.removed|..] == [];
        assert r.kept[|o.kept|..] == [];
      }
    }
  }

  lemma DivideOnePartition<T>(l: seq<T>, o: Outcome<T>, script: seq<Answer>)
    requires !o.unwound && |l| == 1
    ensures var r := Divide(l, o, script);
      o.kept <= r.kept && o.removed <= r.removed &&
      (if r.unwound then multiset(r.kept[|o.kept|..]) + multiset(r.removed[|o.removed|..]) <= multiset(l)
       else multiset(r.kept[|o.kept|..]) + multiset(r.removed[|o.removed|..]) == multiset(l))
  {
    var r := Divide(l, o, script);
    if o.left >= 1 && Ask(script, |o.probes|) == Yes {
      assert r.removed[|o.removed|..] == l;
      assert r.kept[|o.kept|..] == [];
    } else if o.left >= 1 && Ask(script, |o.probes|) == Unwind {
      assert r.kept[|o.kept|..] == [] && r.removed[|o.removed|..] == [];
    } else {
      assert r.kept[|o.kept|..] == l;
      assert r.removed[|o.removed|..] == [];
    }
  }

  lemma {:induction false} DividePartition<T>(l: seq<T>, o: Outcome<T>, script: seq<Answer>)
    requires !o.unwound
    ensures var r := Divide(l, o, script);
      o.kept <= r.kept && o.removed <= r.removed &&
      (if r.unwound then multiset(r.kept[|o.kept|..]) + multiset(r.removed[|o.removed|..]) <= multiset(l)
       else multiset(r.kept[|o.kept|..]) + multiset(r.removed[|o.removed|..]) == multiset(l))
    decreases |l|, 0
  {
    if |l| == 1 {
      DivideOnePartition(l, o, script);
    } else if |l| > 1 {
      var mid := |l| / 2;
      assert l == l[..mid] + l[mid..];
      WoPartition(l[mid..], o, script);
      var o1 := Wo(l[mid..], o, script);
      if !o1.unwound {
        WoPartition(l[..mid], o1, script);
        var o2 := Wo(l[..mid], o1, script);
        assert o2 == Divide(l, o, script);
        assert o2.kept[|o.kept|..] == o1.kept[|o.kept|..] + o2.kept[|o1.kept|..];
        assert o2.removed[|o.removed|..] == o1.removed[|o.removed|..] + o2.removed[|o1.removed|..];
      }
    }
  }

  /** Each input element ends up either removed or kept, never both and never twice. */
  lemma ReducePartition<T>(l: seq<T>, minimal: int, script: seq<Answer>)
    ensures var r := Reduce(l, minimal, script);
      !r.unwound ==> multiset(r.kept) + multiset(r.removed) == multiset(l)
    ensures var r := Reduce(l, minimal, script);
      multiset(r.kept) + multiset(r.removed) <= multiset(l)
  {
    DividePartition(l, Start(|l| - minimal), script);
  }

  // ---------------------------------------------------------------------
  // Order: kept elements are appended in reverse input order

  lemma {:induction false} WoOrder<T>(l: seq<T>, o: Outcome<T>, script: seq<Answer>)
    requires !o.unwound && |l| > 0
    ensures var r := Wo(l, o, script); o.kept <= r.kept && IsSubseq(Reverse(r.kept[|o.kept|..]), l)
    decreases |l|, 1
  {
    if o.left < |l| {
      DivideOrder(l, o, script);
    } else {
      var ans := Ask(script, |o.probes|);
      var o1 := o.(probes := o.probes + [Probe(l, o.left, ans)]);
      if ans == No {
        DivideOrder(l, o1, script);
      } else {
        assert Wo(l, o, script).kept[|o.kept|..] == [];
      }
    }
  }

  lemma {:induction false} DivideOrder<T>(l: seq<T>, o: Outcome<T>, script: seq<Answer>)
    requires !o.unwound
    ensures var r := Divide(l, o, script); o.kept <= r.kept && IsSubseq(Reverse(r.kept[|o.kept|..]), l)
    decreases |l|, 0, 1
  {
    var r := Divide(l, o, script);
    if l == [] {
      assert r.kept[|o.kept|..] == [];
    } else if |l| == 1 {
      if r.kept == o.kept {
        assert r.kept[|o.kept|..] == [];
      } else {
        assert r.kept[|o.kept|..] == l;
        assert Reverse(l) == l;
        SubseqRefl(l);
      }
    } else {
      DivideOrderSplit(l, o, script);
    }
  }

  /** The split case of DivideOrder: the second half's kept elements come first. */
  lemma {:induction false} DivideOrderSplit<T>(l: seq<T>, o: Outcome<T>, script: seq<Answer>)
    requires !o.unwound && |l| >= 2
    ensures var r := Divide(l, o, script); o.kept <= r.kept && IsSubseq(Reverse(r.kept[|o.kept|..]), l)
    decreases |l|, 0, 0
  {
    var r := Divide(l, o, script);
    var mid := |l| / 2;
    WoOrder(l[mid..], o, script);
    var o1 := Wo(l[mid..], o, script);
    var k1 := o1.kept[|o.kept|..];
    assert l == l[..mid] + l[mid..];
    if o1.unwound {
      assert r == o1;
      assert IsSubseq([], l[..mid]);
      SubseqConcat([], l[..mid], Reverse(k1), l[mid..]);
      assert [] + Reverse(k1) == Reverse(k1);
    } else {
      WoOrder(l[..mid], o1, script);
      var k2 := r.kept[|o1.kept|..];
      assert r.kept[|o.kept|..] == k1 + k2;
      ReverseAppend(k1, k2);
      SubseqConcat(Reverse(k2), l[..mid], Reverse(k1), l[mid..]);
    }
  }

  /** `remaining` lists the surviving elements in reverse of their input order. */
  lemma ReduceOrder<T>(l: seq<T>, minimal: int, script: seq<Answer>)
    ensures IsSubseq(Reverse(Reduce(l, minimal, script).kept), l)
  {
    DivideOrder(l, Start(|l| - minimal), script);
  }

  // ---------------------------------------------------------------------
  // Local minimality: a kept element was offered alone and rejected

  lemma {:induction false} WoMinimal<T>(l: seq<T>, o: Outcome<T>, script: seq<Answer>)
    requires !o.unwound && |l| > 0
    ensures var r := Wo(l, o, script);
      o.kept <= r.kept && o.probes <= r.probes && r.left <= o.left &&
      forall x :: x in r.kept[|o.kept|..] ==> x in RejectedAlone(r.probes) || r.left < 1
    decreases |l|, 2
  {
    WoAccounted(l, o, script);
    if o.left < |l| {
      DivideMinimal(l, o, script);
    } else {
      var ans := Ask(script, |o.probes|);
      var o1 := o.(probes := o.probes + [Probe(l, o.left, ans)]);
      if ans == No {
        DivideMinimal(l, o1, script);
      } else {
        assert Wo(l, o, script).kept[|o.kept|..] == [];
      }
    }
  }

  lemma {:induction false} DivideMinimal<T>(l: seq<T>, o: Outcome<T>, script: seq<Answer>)
    requires !o.unwound
    ensures var r := Divide(l, o, script);
      o.kept <= r.kept && o.probes <= r.probes && r.left <= o.left &&
      forall x :: x in r.kept[|o.kept|..] ==> x in RejectedAlone(r.probes) || r.left < 1
    decreases |l|, 1
  {
    DivideAccounted(l, o, script);
    if l == [] {
      assert Divide(l, o, script).kept[|o.kept|..] == [];
    } else if |l| == 1 {
      DivideMinimalSingle(l, o, script);
    } else {
      DivideMinimalSplit(l, o, script);
    }
  }

  /** DivideMinimal for a single row: kept only after it was rejected alone, or without budget. */
  lemma DivideMinimalSingle<T>(l: seq<T>, o: Outcome<T>, script: seq<Answer>)
    requires !o.unwound && |l| == 1
    ensures var r := Divide(l, o, script);
      forall x :: x in r.kept[|o.kept|..] ==> x in RejectedAlone(r.probes) || r.left < 1
  {
    DivideAccounted(l, o, script);
    var r := Divide(l, o, script);
    if o.left >= 1 {
      var ans := Ask(script, |o.probes|);
      if ans == No {
        assert r.kept[|o.kept|..] == l;
        var i := |o.probes|;
        assert r.probes[i] == Probe(l, o.left, No);
        assert l[0] in RejectedAlone(r.probes);
      } else {
        assert r.kept[|o.kept|..] == [];
      }
    } else {
      assert r.left == o.left;
    }
  }

  /** DivideMinimal for two rows or more: the back half, then the front half. */
  lemma {:induction false} DivideMinimalSplit<T>(l: seq<T>, o: Outcome<T>, script: seq<Answer>)
    requires !o.unwound && |l| >= 2
    ensures var r := Divide(l, o, script);
      o.kept <= r.kept && o.probes <= r.probes && r.left <= o.left &&
      forall x :: x in r.kept[|o.kept|..] ==> x in RejectedAlone(r.probes) || r.left < 1
    decreases |l|, 0
  {
    DivideAccounted(l, o, script);
    var r := Divide(l, o, script);
    var mid := |l| / 2;
    DivideSplit(l, o, script);
    WoMinimal(l[mid..], o, script);
    var o1 := Wo(l[mid..], o, script);
    if !o1.unwound {
      WoMinimal(l[..mid], o1, script);
      assert r.kept[|o.kept|..] == o1.kept[|o.kept|..] + r.kept[|o1.kept|..];
      RejectedAloneGrows(o1.probes, r.probes);
    }
  }

  /**
   * The result is locally irreducible: unless the budget ran out, every
   * kept element was offered for removal on its own and rejected.
   */
  lemma ReduceLocallyMinimal<T>(l: seq<T>, minimal: int, script: seq<Answer>)
    ensures var r := Reduce(l, minimal, script);
      forall x :: x in r.kept ==> x in RejectedAlone(r.probes) || r.left < 1
  {
    DivideMinimal(l, Start(|l| - minimal), script);
  }

  // ---------------------------------------------------------------------
  // Edge cases: empty input, no budget

  /** An empty list is returned as it is, without consulting the checker. */
  lemma ReduceEmpty<T>(minimal: int, script: seq<Answer>)
    ensures Reduce<T>([], minimal, script) == Start(-minimal)
  {
  }

  lemma {:induction false} DivideNoBudget<T>(l: seq<T>, o: Outcome<T>, script: seq<Answer>)
    requires o.left <= 0 && !o.unwound
    ensures Divide(l, o, script) == o.(kept := o.kept + Reverse(l))
    decreases |l|, 1
  {
    if l == [] {
      assert o.kept + Reverse(l) == o.kept;
    } else if |l| == 1 {
      assert Reverse(l) == l;
    } else {
      DivideNoBudgetSplit(l, o, script);
    }
  }

  /** Without budget, both halves are kept whole: the back half first, then the front half. */
  lemma {:induction false} DivideNoBudgetSplit<T>(l: seq<T>, o: Outcome<T>, script: seq<Answer>)
    requires o.left <= 0 && !o.unwound && |l| >= 2
    ensures Divide(l, o, script) == o.(kept := o.kept + Reverse(l))
    decreases |l|, 0
  {
    var mid := |l| / 2;
    var back, front := l[mid..], l[..mid];
    DivideSplit(l, o, script);
    DivideNoBudget(back, o, script);
    var o1 := o.(kept := o.kept + Reverse(back));
    assert Wo(back, o, script) == o1;
    DivideNoBudget(front, o1, script);
    assert Wo(front, o1, script) == o1.(kept := o1.kept + Reverse(front));
    ReverseSplit(l, mid);
    assert o1.kept + Reverse(front) == o.kept + (Reverse(back) + Reverse(front));
  }

  /**
   * With `minimal >= len(l)` the budget is not positive: no probe is made,
   * nothing is removed, and every element is returned (in reverse order).
   */
  lemma ReduceNoBudget<T>(l: seq<T>, minimal: int, script: seq<Answer>)
    requires minimal >= |l|
    ensures Reduce(l, minimal, script) == Outcome(|l| - minimal, Reverse(l), [], [], false)
  {
    DivideNoBudget(l, Start(|l| - minimal), script);
  }

  /**
   * The floor: unless the search is unwound, at least `minimal` elements
   * remain (all of them when the list is no longer than `minimal`).
   */
  lemma ReduceKeepsMinimal<T>(l: seq<T>, minimal: int, script: seq<Answer>)
    ensures var r := Reduce(l, minimal, script);
      !r.unwound ==> |r.kept| >= (if minimal <= |l| then minimal else |l|)
  {
    var r := Reduce(l, minimal, script);
    if minimal >= |l| {
      ReduceNoBudget(l, minimal, script);
    } else {
      ReduceWithinBudget(l, minimal, script);
      ReducePartition(l, minimal, script);
      if !r.unwound {
        assert |multiset(r.kept)| + |multiset(r.removed)| == |multiset(l)|;
      }
    }
  }

  // ---------------------------------------------------------------------
  // Answers beyond those consulted do not matter

  lemma {:induction false} WoExtend<T>(l: seq<T>, o: Outcome<T>, s: seq<Answer>, s': seq<Answer>)
    requires !o.unwound && |l| > 0 && s <= s' && |Wo(l, o, s).probes| <= |s|
    ensures Wo(l, o, s') == Wo(l, o, s)
    decreases |l|, 1
  {
    WoAccounted(l, o, s);
    if o.left < |l| {
      DivideExtend(l, o, s, s');
    } else {
      var ans := Ask(s, |o.probes|);
      var o1 := o.(probes := o.probes + [Probe(l, o.left, ans)]);
      if ans == No {
        DivideAccounted(l, o1, s);
        DivideExtend(l, o1, s, s');
      }
      assert Ask(s, |o.probes|) == Ask(s', |o.probes|);
    }
  }

  lemma {:induction false} DivideExtend<T>(l: seq<T>, o: Outcome<T>, s: seq<Answer>, s': seq<Answer>)
    requires !o.unwound && s <= s' && |Divide(l, o, s).probes| <= |s|
    ensures Divide(l, o, s') == Divide(l, o, s)
    decreases |l|, 0
  {
    DivideAccounted(l, o, s);
    if l == [] {
    } else if |l| == 1 {
      if o.left >= 1 {
        assert Ask(s, |o.probes|) == Ask(s', |o.probes|);
      }
    } else {
      var mid := |l| / 2;
      var o1 := Wo(l[mid..], o, s);
      WoAccounted(l[mid..], o, s);
      if !o1.unwound {
        WoAccounted(l[..mid], o1, s);
        WoExtend(l[..mid], o1, s, s');
      }
      WoExtend(l[mid..], o, s, s');
    }
  }
}
