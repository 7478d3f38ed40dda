/**
 * `construct_eureka_tuple`: the set of predecessor offsets the iterative
 * loop has to keep.  Starting from {0}, each round drops 0, adds every
 * normalised step and shifts the set down by its minimum; the loop stops at
 * the first fixed point and returns the fixed point shifted up by one.
 */
module Eureka {
  import opened Wrappers
  import opened Syntax
  import opened Numeric
  import opened Plans
  import opened RecursiveCalls

  /** The cached `(BTreeSet<u128>, StepOperator, u128)` triple. */
  datatype EurekaTuple = EurekaTuple(tuple: set<int>, operator: StepOperator, stepSize: nat)

  lemma NonEmpty(s: set<int>)
    requires s != {}
    ensures exists x :: x in s
  {
    if forall x :: x !in s {
      assert false;
    }
  }

  lemma {:induction false} MinExists(s: set<int>)
    requires s != {}
    ensures exists m :: m in s && forall y :: y in s ==> m <= y
    decreases |s|
  {
    NonEmpty(s);
    var x :| x in s;
    if s != {x} {
      MinExists(s - {x});
      var m :| m in s - {x} && forall y :: y in s - {x} ==> m <= y;
      var lo := if x < m then x else m;
      forall y | y in s ensures lo <= y {
        if y != x { assert y in s - {x}; }
      }
      assert lo in s;
    } else {
      assert forall y :: y in s ==> x <= y;
    }
  }

  lemma {:induction false} MaxExists(s: set<int>)
    requires s != {}
    ensures exists m :: m in s && forall y :: y in s ==> y <= m
    decreases |s|
  {
    NonEmpty(s);
    var x :| x in s;
    if s != {x} {
      MaxExists(s - {x});
      var m :| m in s - {x} && forall y :: y in s - {x} ==> y <= m;
      var hi := if x > m then x else m;
      forall y | y in s ensures y <= hi {
        if y != x { assert y in s - {x}; }
      }
      assert hi in s;
    } else {
      assert forall y :: y in s ==> y <= x;
    }
  }

  /** The first element of a BTreeSet. */
  function SetMin(s: set<int>): (m: int)
    requires s != {}
    ensures m in s && forall y :: y in s ==> m <= y
  {
    MinExists(s);
    var m :| m in s && forall y :: y in s ==> m <= y;
    m
  }

  function SetMax(s: set<int>): (m: int)
    requires s != {}
    ensures m in s && forall y :: y in s ==> y <= m
  {
    MaxExists(s);
    var m :| m in s && forall y :: y in s ==> y <= m;
    m
  }

  /** `s.into_iter().map(|e| e - k).collect()` */
  function Shift(s: set<int>, k: int): set<int> {
    set e | e in s :: e - k
  }

  lemma ShiftMember(s: set<int>, k: int, x: int)
    ensures x in Shift(s, k) <==> x + k in s
  {
    if x + k in s {
      assert x == (x + k) - k;
    }
  }

  /** The integers lo, lo + 1, ..., hi - 1. */
  function Range(lo: int, hi: int): (r: set<int>)
    ensures forall x :: x in r <==> lo <= x < hi
    decreases hi - lo
  {
    if lo >= hi then {} else Range(lo, hi - 1) + {hi - 1}
  }

  lemma {:induction false} RangeSize(lo: int, hi: int)
    requires lo <= hi
    ensures |Range(lo, hi)| == hi - lo
    decreases hi - lo
  {
    if lo < hi {
      RangeSize(lo, hi - 1);
      assert Range(lo, hi) == Range(lo, hi - 1) + {hi - 1};
    } else {
      assert Range(lo, hi) == {};
    }
  }

  /** The normalised steps of the self-calls. */
  function StepSet(calls: seq<RecursiveCall>): set<int> {
    set i | 0 <= i < |calls| :: calls[i].steps as int
  }

  predicate DividesAll(m: int, d: set<int>) {
    forall x :: x in d ==> Dvd(m, x)
  }

  /** Positive steps whose only common positive divisor is 1. */
  ghost predicate NormalisedSteps(d: set<int>) {
    d != {} && (forall x :: x in d ==> x >= 1) && forall m :: m >= 1 && DividesAll(m, d) ==> m == 1
  }

  /** One round of the loop body: drop 0, add the steps, shift down by the minimum. */
  function EurekaStep(prev: set<int>, d: set<int>): (r: set<int>)
    requires d != {}
  {
    var t := (prev - {0}) + d;
    Shift(t, SetMin(t))
  }

  /**
   * The `loop` of `construct_eureka_tuple`, given at most `fuel` rounds; None
   * when no fixed point was met within them.
   */
  function EurekaIterate(prev: set<int>, d: set<int>, fuel: nat): Option<set<int>>
    requires d != {}
    decreases fuel
  {
    if fuel == 0 then None
    else
      var next := EurekaStep(prev, d);
      if next == prev then Some(Shift(next, -1)) else EurekaIterate(next, d, fuel - 1)
  }

  function Pow2(n: nat): nat {
    if n == 0 then 1 else 2 * Pow2(n - 1)
  }

  /**
   * The number of rounds the model allows: every round's set lies within
   * {0, ..., M - 1} for the largest step M, so after 2^M rounds a state must
   * repeat.
   */
  function EurekaFuel(d: set<int>): nat
    requires d != {}
  {
    var m := SetMax(d);
    Pow2(if m < 0 then 0 else m) + 1
  }

  /** What `construct_eureka_tuple` computes from the call analysis. */
  function EurekaOf(a: CallAnalysis): Result<EurekaTuple, Error>
    requires |a.calls| > 0
  {
    var d := StepSet(a.calls);
    assert a.calls[0].steps as int in d;
    match EurekaIterate({0}, d, EurekaFuel(d))
    case None => Err(NoFixedPoint)
    case Some(t) => Ok(EurekaTuple(t, a.operator, a.stepSize))
  }

  /** `construct_eureka_tuple` on the formula, including the errors of `find_recursive_calls`. */
  function EurekaFor(formula: Expr, name: string, parameter: string): Result<EurekaTuple, Error> {
    var a :- AnalyseCalls(formula, name, parameter);
    AnalyseCallsProperties(formula, name, parameter);
    EurekaOf(a)
  }

  // ---------------------------------------------------------------------------
  // The shape of a fixed point

  /** A set that every round keeps: it holds 0 and lies within [0, M). */
  predicate Confined(s: set<int>, m: int) {
    0 in s && forall x :: x in s ==> 0 <= x < m
  }

  lemma EurekaStepWindow(prev: set<int>, d: set<int>)
    requires NormalisedSteps(d)
    requires Confined(prev, SetMax(d))
    ensures Confined(EurekaStep(prev, d), SetMax(d))
  {
    var t := (prev - {0}) + d;
    var lo := SetMin(t);
    var r := EurekaStep(prev, d);
    var m := SetMax(d);
    assert lo >= 1;
    ShiftMember(t, lo, 0);
    forall x | x in r ensures 0 <= x < m {
      ShiftMember(t, lo, x);
      assert x + lo in t;
    }
  }

  /** Every element of a set closed under `x > 0 ==> x - step in s` is a multiple of step. */
  lemma {:induction false} ClosedDownMultiple(s: set<int>, step: int, x: int)
    requires step >= 1 && x in s
    requires forall y :: y in s ==> y >= 0
    requires forall y :: y in s && y > 0 ==> y - step in s
    ensures Dvd(step, x)
    decreases x
  {
    if x > 0 {
      ClosedDownMultiple(s, step, x - step);
      DvdCombine(step, x - step, step, 1);
    }
  }

  /** Downward closure under 1 from M - 1 gives every integer of [0, M). */
  lemma {:induction false} ClosedDownRange(s: set<int>, top: int, x: int)
    requires top in s && 0 <= x <= top
    requires forall y :: y in s && y > 0 ==> y - 1 in s
    ensures x in s
    decreases top - x
  {
    if x < top {
      ClosedDownRange(s, top, x + 1);
    }
  }

  /**
   * With gcd-normalised steps, the only fixed point of a round that holds 0
   * is {0, ..., M - 1}, M the largest step.
   */
  lemma FixedPointShape(s: set<int>, d: set<int>)
    requires NormalisedSteps(d)
    requires Confined(s, SetMax(d))
    requires EurekaStep(s, d) == s
    ensures s == Range(0, SetMax(d))
  {
    var t := (s - {0}) + d;
    var lo := SetMin(t);
    var m := SetMax(d);
    assert lo >= 1;
    forall y | y in s && y > 0 ensures y - lo in s {
      ShiftMember(t, lo, y - lo);
    }
    forall x | x in d ensures Dvd(lo, x) {
      ShiftMember(t, lo, x - lo);
      ClosedDownMultiple(s, lo, x - lo);
      DvdCombine(lo, x - lo, lo, 1);
    }
    assert DividesAll(lo, d);
    assert lo == 1;
    ShiftMember(t, 1, m - 1);
    forall x | 0 <= x < m ensures x in s {
      ClosedDownRange(s, m - 1, x);
    }
    assert s == Range(0, m);
  }

  /** Conversely, {0, ..., M - 1} is a fixed point, so the loop stops there. */
  lemma RangeIsFixedPoint(d: set<int>)
    requires NormalisedSteps(d)
    ensures EurekaStep(Range(0, SetMax(d)), d) == Range(0, SetMax(d))
  {
    var m := SetMax(d);
    var s := Range(0, m);
    var t := (s - {0}) + d;
    assert 1 in t by {
      if m > 1 { assert 1 in s; } else { assert m == 1; }
    }
    var lo := SetMin(t);
    assert lo == 1;
    forall x ensures x in Shift(t, 1) <==> x in s {
      ShiftMember(t, 1, x);
    }
  }

  /** Whenever the loop stops, its result is {1, ..., M}. */
  lemma {:induction false} IterateResult(prev: set<int>, d: set<int>, fuel: nat)
    requires NormalisedSteps(d)
    requires Confined(prev, SetMax(d))
    requires EurekaIterate(prev, d, fuel).Some?
    ensures EurekaIterate(prev, d, fuel).value == Range(1, SetMax(d) + 1)
    decreases fuel
  {
    var next := EurekaStep(prev, d);
    EurekaStepWindow(prev, d);
    if next == prev {
      FixedPointShape(prev, d);
      var m := SetMax(d);
      forall x ensures x in Shift(next, -1) <==> x in Range(1, m + 1) {
        ShiftMember(next, -1, x);
      }
    } else {
      IterateResult(next, d, fuel - 1);
    }
  }

  lemma StepSetNormalised(formula: Expr, name: string, parameter: string)
    requires AnalyseCalls(formula, name, parameter).Ok?
    ensures var a := AnalyseCalls(formula, name, parameter).value;
      |a.calls| > 0 && NormalisedSteps(StepSet(a.calls)) &&
      SetMax(StepSet(a.calls)) == a.calls[|a.calls| - 1].steps
  {
    AnalyseCallsProperties(formula, name, parameter);
    var a := AnalyseCalls(formula, name, parameter).value;
    var d := StepSet(a.calls);
    var n := |a.calls|;
    assert a.calls[0].steps as int in d;
    forall m | m >= 1 && DividesAll(m, d) ensures m == 1 {
      forall i | 0 <= i < n ensures Dvd(m, a.calls[i].steps) {
        assert a.calls[i].steps as int in d;
      }
      assert DividesAllSteps(m, a.calls);
    }
    var top := a.calls[n - 1].steps as int;
    assert top in d;
    forall x | x in d ensures x <= top {
      var i :| 0 <= i < n && a.calls[i].steps as int == x;
      if i < n - 1 {
        assert a.calls[i].steps <= a.calls[n - 1].steps;
      }
    }
  }

  /**
   * The eureka tuple is exactly (1, 2, ..., L), where L is the largest
   * normalised step: the contiguity check of `get_initial_constants` never
   * fires, and the tuple length is the number of values the loop keeps.
   */
  lemma EurekaTupleContiguous(formula: Expr, name: string, parameter: string)
    requires EurekaFor(formula, name, parameter).Ok?
    ensures var a := AnalyseCalls(formula, name, parameter).value;
      var l := a.calls[|a.calls| - 1].steps as int;
      var e := EurekaFor(formula, name, parameter).value;
      e.tuple == Range(1, l + 1) && |e.tuple| == l && l >= 1 &&
      e.operator == a.operator && e.stepSize == a.stepSize
  {
    StepSetNormalised(formula, name, parameter);
    var a := AnalyseCalls(formula, name, parameter).value;
    var d := StepSet(a.calls);
    assert Confined({0}, SetMax(d));
    IterateResult({0}, d, EurekaFuel(d));
    RangeSize(1, SetMax(d) + 1);
  }

  /** The eureka tuple's step size is the analysis's common step size, which is positive. */
  lemma EurekaStepPositive(formula: Expr, name: string, parameter: string)
    requires EurekaFor(formula, name, parameter).Ok?
    ensures EurekaFor(formula, name, parameter).value.stepSize > 0
  {
    AnalyseCallsProperties(formula, name, parameter);
  }

  // ---------------------------------------------------------------------------
  // The loop itself

  /** The inner `for call in &recursive_calls { new.insert(call.steps); }` */
  method InsertSteps(start: set<int>, calls: seq<RecursiveCall>) returns (s: set<int>)
    ensures s == start + StepSet(calls)
  {
    s := start;
    var k := 0;
    while k < |calls|
      invariant 0 <= k <= |calls|
      invariant s == start + StepSet(calls[..k])
    {
      assert StepSet(calls[..k + 1]) == StepSet(calls[..k]) + {calls[k].steps as int} by {
        assert forall i :: 0 <= i < k ==> calls[..k + 1][i] == calls[..k][i];
      }
      s := s + {calls[k].steps as int};
      k := k + 1;
    }
    assert calls[..k] == calls;
  }

  /** `construct_eureka_tuple`, with its `loop` bounded by `EurekaFuel`. */
  method ConstructEurekaTuple(formula: Expr, name: string, parameter: string) returns (r: Result<EurekaTuple, Error>)
    ensures r == EurekaFor(formula, name, parameter)
  {
    var analysis := FindRecursiveCalls(formula, name, parameter);
    if analysis.Err? {
      return Err(analysis.error);
    }
    var a := analysis.value;
    AnalyseCallsProperties(formula, name, parameter);
    ghost var d := StepSet(a.calls);
    assert a.calls[0].steps as int in d;
    var fuel := EurekaFuel(StepSet(a.calls));
    var prev: set<int> := {0};
    while fuel > 0
      invariant EurekaIterate(prev, d, fuel) == EurekaIterate({0}, d, EurekaFuel(d))
      decreases fuel
    {
      var next := InsertSteps(prev - {0}, a.calls);
      var first := SetMin(next);
      next := Shift(next, first);
      if next == prev {
        return Ok(EurekaTuple(Shift(next, -1), a.operator, a.stepSize));
      }
      prev := next;
      fuel := fuel - 1;
    }
    return Err(NoFixedPoint);
  }

  /** From {0}, the steps {1, 2} take one round to {0, 1}. */
  lemma FibonacciFirstRound()
    ensures EurekaStep({0}, {1, 2}) == {0, 1}
  {
    var t := ({0} - {0}) + {1, 2};
    assert t == {1, 2};
    assert SetMin(t) == 1;
    forall x ensures x in Shift(t, 1) <==> x in {0, 1} { ShiftMember(t, 1, x); }
  }

  /** {0, 1} is a fixed point of the round for the steps {1, 2}. */
  lemma FibonacciSecondRound()
    ensures EurekaStep({0, 1}, {1, 2}) == {0, 1}
  {
    var t := ({0, 1} - {0}) + {1, 2};
    assert t == {1, 2};
    assert SetMin(t) == 1;
    forall x ensures x in Shift(t, 1) <==> x in {0, 1} { ShiftMember(t, 1, x); }
  }

  lemma FibonacciShiftBack()
    ensures Shift({0, 1}, -1) == {1, 2}
  {
    forall x ensures x in Shift({0, 1}, -1) <==> x in {1, 2} { ShiftMember({0, 1}, -1, x); }
  }

  /** The steps {1, 2}, as in a Fibonacci formula, give the eureka tuple {1, 2}. */
  lemma FibonacciTuple()
    ensures EurekaIterate({0}, {1, 2}, 3) == Some({1, 2})
  {
    FibonacciFirstRound();
    FibonacciSecondRound();
    FibonacciShiftBack();
    assert 1 in {0, 1} && 1 !in {0};
  }
}
