/**
 * `fib_match` of the basic tests: the body the macro synthesizes is the
 * hand-written `fib_result`, and for every argument it returns the
 * Fibonacci number.
 */
module FibExample {
  import opened Wrappers
  import opened Syntax
  import opened Plans
  import opened SortedMap
  import opened RecursiveCalls
  import Eureka
  import Seeds
  import opened Synthesis
  import opened Generated
  import opened Reference
  import Examples

  // fib_match(n) = match n { 0 => 0, 1 => 1, _ => fib_match(n - 1) + fib_match(n - 2) }

  function FibCall(k: int): Expr {
    Call(Ident("fib_match"), [Binary(Ident("n"), Sub, IntExpr(k))])
  }

  function FibFormula(): Expr {
    Binary(FibCall(1), Add, FibCall(2))
  }

  function Fib(): MatchFunction {
    MatchFunction("fib_match", "n", [(0, 0), (1, 1)], FibFormula(), Type("u64"))
  }

  /** The Fibonacci numbers. */
  function Fibonacci(n: nat): nat {
    if n < 2 then n else Fibonacci(n - 1) + Fibonacci(n - 2)
  }

  /** `fib_result`: fast paths for 0 and 1, then one block from 1 with the buffer [0, 1]. */
  function FibBranch(): Branch {
    Branch(Guard(StepSub, 1, 1), [0, 1], 1, 2, CurrentArgument(1, Add, 1, 1, Type("u64")), [],
      Binary(TupleAccess(1, 2), Add, TupleAccess(2, 2)))
  }

  function FibPlan(): Plan {
    Plan("n", [ConstantCheck(0, 0), ConstantCheck(1, 1)], [FibBranch()])
  }

  lemma FibCalls()
    ensures RawCalls(FibFormula(), "fib_match", "n") == Ok([RecursiveCall(1, StepSub, 1), RecursiveCall(2, StepSub, 1)])
  {
    var a1, a2 := Binary(Ident("n"), Sub, IntExpr(1)), Binary(Ident("n"), Sub, IntExpr(2));
    var c1, c2 := ExprCall(Ident("fib_match"), [a1]), ExprCall(Ident("fib_match"), [a2]);
    assert FindCalls(FibFormula()) == Ok([c1] + [c2]);
    assert CallName(Ident("fib_match")) == Ok("fib_match");
    var calls := [c1, c2];
    assert calls[1..] == [c2] && [c2][1..] == [];
    assert [c1] + [c2] == calls && [c2] + [] == [c2];
    assert FilterSelfCalls([c2], "fib_match") == Ok([c2]);
    assert FilterSelfCalls(calls, "fib_match") == Ok(calls);
    assert calls[..1] == [c1] && [c1][..0] == [];
    assert AllArgs([c1]) == [] + [a1];
    assert AllArgs(calls) == [a1] + [a2];
    var r1, r2 := RecursiveCall(1, StepSub, 1), RecursiveCall(2, StepSub, 1);
    assert ArgStep(a1, "n") == Ok(r1) && ArgStep(a2, "n") == Ok(r2);
    assert [a1, a2][1..] == [a2] && [a2][1..] == [];
    assert ArgSteps([a2], "n") == Ok([r2] + []);
    assert [r2] + [] == [r2] && [] + [a1] == [a1] && [a1] + [a2] == [a1, a2];
    assert ArgSteps([a1, a2], "n") == Ok([r1] + [r2]);
    assert [r1] + [r2] == [r1, r2];
  }

  /** The steps 1 and 2 give the eureka tuple {1, 2}: a buffer of two values. */
  lemma FibEureka()
    ensures Eureka.EurekaFor(FibFormula(), "fib_match", "n") == Ok(Eureka.EurekaTuple({1, 2}, StepSub, 1))
  {
    var raw := [RecursiveCall(1, StepSub, 1), RecursiveCall(2, StepSub, 1)];
    FibAnalysis();
    var d := Eureka.StepSet(raw);
    assert d == {1, 2} by {
      assert raw[0].steps as int in d && raw[1].steps as int in d;
    }
    assert Eureka.SetMax(d) == 2;
    assert Eureka.EurekaFuel(d) == 5;
    FibFixedPoint();
  }

  /** Both calls step down, with common step size 1. */
  lemma FibAnalysis()
    ensures AnalyseCalls(FibFormula(), "fib_match", "n") ==
      Ok(CallAnalysis([RecursiveCall(1, StepSub, 1), RecursiveCall(2, StepSub, 1)], StepSub, 1))
  {
    var raw := [RecursiveCall(1, StepSub, 1), RecursiveCall(2, StepSub, 1)];
    FibCalls();
    FibGcd();
    FibSorted();
    Examples.AnalysisOf(FibFormula(), "fib_match", "n", raw, 1, raw);
  }

  lemma FibGcd()
    ensures Numeric.GcdFold(1, Steps([RecursiveCall(1, StepSub, 1), RecursiveCall(2, StepSub, 1)])) == 1
  {
    assert Steps([RecursiveCall(1, StepSub, 1), RecursiveCall(2, StepSub, 1)]) == [1, 2];
    assert [1, 2][1..] == [2] && [2][1..] == [];
    assert Numeric.Gcd(1, 1) == 1 && Numeric.Gcd(1, 2) == 1;
  }

  lemma FibSorted()
    ensures var raw := [RecursiveCall(1, StepSub, 1), RecursiveCall(2, StepSub, 1)];
      SortBySteps(Normalize(raw, 1)) == raw
  {
    var r1, r2 := RecursiveCall(1, StepSub, 1), RecursiveCall(2, StepSub, 1);
    var raw := [r1, r2];
    assert Normalize(raw, 1) == raw;
    assert raw[1..] == [r2] && [r2][1..] == [];
    assert SortBySteps([r2]) == [r2];
  }

  lemma FibFixedPoint()
    ensures Eureka.EurekaIterate({0}, {1, 2}, 5) == Some({1, 2})
  {
    FibFirstRound();
    FibSecondRound();
    assert 1 in {0, 1} && 1 !in {0};
    assert Eureka.Shift({0, 1}, -1) == {1, 2} by {
      forall x ensures x in Eureka.Shift({0, 1}, -1) <==> x in {1, 2} { Eureka.ShiftMember({0, 1}, -1, x); }
    }
  }

  lemma FibFirstRound()
    ensures Eureka.EurekaStep({0}, {1, 2}) == {0, 1}
  {
    var t := ({0} - {0}) + {1, 2};
    assert t == {1, 2};
    assert Eureka.SetMin(t) == 1;
    assert Eureka.Shift(t, 1) == {0, 1} by {
      forall x ensures x in Eureka.Shift(t, 1) <==> x in {0, 1} { Eureka.ShiftMember(t, 1, x); }
    }
  }

  lemma FibSecondRound()
    ensures Eureka.EurekaStep({0, 1}, {1, 2}) == {0, 1}
  {
    var t := ({0, 1} - {0}) + {1, 2};
    assert t == {1, 2};
    assert Eureka.SetMin(t) == 1;
    assert Eureka.Shift(t, 1) == {0, 1} by {
      forall x ensures x in Eureka.Shift(t, 1) <==> x in {0, 1} { Eureka.ShiftMember(t, 1, x); }
    }
  }

  /** A single seed window, [0, 1]. */
  lemma FibSeeds()
    ensures Seeds.SeedsFor([(0, 0), (1, 1)], {1, 2}, 1, StepSub) == Ok([[0, 1]])
  {
    assert |{1, 2}| == 2;
    assert {1, 2} == Eureka.Range(1, 3);
    assert Seeds.Contiguous({1, 2});
    var keys := Keys([(0, 0), (1, 1)]);
    assert keys == [0, 1];
    assert Seeds.IsFullWindow(keys, 0, 2, 1) by {
      assert 0 + 0 * 1 in keys && 0 + 1 * 1 in keys;
    }
    assert !Seeds.IsFullWindow(keys, 1, 2, 1) by {
      assert 1 + 1 * 1 !in keys;
    }
    assert Seeds.Progression(0, 2, 1) == [0, 1];
    assert keys[1..] == [1] && [1][1..] == [];
    assert Seeds.CandidatesFrom(keys, [1], 2, 1) == [] + [];
    assert Seeds.Candidates(keys, 2, 1) == [[0, 1]] + [];
    assert [[0, 1]] + [] == [[0, 1]];
    assert !Seeds.HasEarlier([[0, 1]], 1, 0);
    assert Seeds.KeepFirstUpTo([[0, 1]], 1, 0) == [];
    assert Seeds.KeepFirst([[0, 1]], 1) == [] + [[0, 1]];
    assert [] + [[0, 1]] == [[0, 1]];
    assert Seeds.Survivors(keys, 2, 1, StepSub) == [[0, 1]];
  }

  lemma FibSynthesis()
    ensures Synthesize(Fib(), Eureka.EurekaTuple({1, 2}, StepSub, 1), KeepParameter) == Ok(FibPlan())
  {
    var f, e := Fib(), Eureka.EurekaTuple({1, 2}, StepSub, 1);
    FibSeeds();
    assert |e.tuple| == 2;
    FibBranchFor();
    assert [[0, 1]][1..] == [];
    assert BranchesFor(f, e, [[0, 1]], KeepParameter) == Ok([FibBranch()] + []);
    assert [FibBranch()] + [] == [FibBranch()];
    assert ConstantChecks(f.constants) == [ConstantCheck(0, 0), ConstantCheck(1, 1)];
  }

  /** `create_loop` on the window [0, 1]. */
  lemma FibBranchFor()
    ensures forall x :: x in [0, 1] ==> x in ToMap(Fib().constants)
    ensures BranchFor(Fib(), Eureka.EurekaTuple({1, 2}, StepSub, 1), [0, 1], KeepParameter) == Ok(FibBranch())
  {
    var f, e := Fib(), Eureka.EurekaTuple({1, 2}, StepSub, 1);
    var arg := CurrentArgument(1, Add, 1, 1, Type("u64"));
    assert |e.tuple| == 2;
    FibRewrite();
    var cs: BTreeMap := [(0, 0), (1, 1)];
    FibConstants();
    assert !ArmKey(StepSub, 1, 1, 0) && !ArmKey(StepSub, 1, 1, 1);
    assert ArmsUpTo(cs, 1, 1, StepSub, 1) == [] + [];
    assert Arms(cs, 1, 1, StepSub) == [] + [];
    assert TmpTuple(cs, [0, 1]) == [0, 1];
    assert CurrentArgumentOf(1, e, Type("u64")) == arg;
  }

  /** Each self-call becomes a read one or two slots back. */
  lemma FibRewrite()
    ensures Rewrite(FibFormula(), RewriteContext("fib_match", "n", 1, 2, Ident("n"))) == Ok(FibBranch().body)
  {
    var ctx := RewriteContext("fib_match", "n", 1, 2, Ident("n"));
    assert CallName(Ident("fib_match")) == Ok("fib_match");
    assert Rewrite(FibCall(1), ctx) == Ok(TupleAccess(1, 2));
    assert Rewrite(FibCall(2), ctx) == Ok(TupleAccess(2, 2));
  }

  /** `construct_iterative_stmts` on fib_match gives `fib_result`. */
  lemma FibBody()
    ensures IterativeBody(Fib(), KeepParameter) == Ok(FibPlan())
  {
    FibEureka();
    FibSynthesis();
  }

  lemma FibConstants()
    ensures ToMap(Fib().constants) == map[0 := 0, 1 := 1]
  {
    var cs := Fib().constants;
    assert cs[0].0 in KeySet(cs) && cs[1].0 in KeySet(cs);
    assert KeySet(cs) == {0, 1} by {
      forall x | x in KeySet(cs) ensures x in {0, 1} {
        var i :| 0 <= i < |cs| && cs[i].0 == x;
      }
    }
  }

  /** One unfolding of the formula at a non-key argument m. */
  lemma FibUnfold(m: int, fuel: nat, a: int, b: int)
    requires m != 0 && m != 1
    requires NaiveAt(Fib(), fuel, m - 1) == Some(a) && NaiveAt(Fib(), fuel, m - 2) == Some(b)
    ensures NaiveAt(Fib(), fuel + 1, m) == Some(a + b)
  {
    FibConstants();
    assert m !in ToMap(Fib().constants);
    Examples.NaiveUnfold(Fib(), fuel, m);
    Examples.NaiveSubCall(Fib(), 1, fuel, m);
    Examples.NaiveSubCall(Fib(), 2, fuel, m);
    Examples.NaiveBinary(Fib(), FibCall(1), Add, FibCall(2), fuel, m, a, b);
  }

  /** The recursive definition computes the Fibonacci numbers, unfolding the formula at most n times. */
  lemma {:induction false} FibNaive(n: nat)
    ensures NaiveAt(Fib(), n, n) == Some(Fibonacci(n))
  {
    FibConstants();
    if n < 2 {
      assert n in ToMap(Fib().constants) && ToMap(Fib().constants)[n] == n;
    } else {
      FibNaive(n - 1);
      FibNaive(n - 2);
      NaiveAtMonotone(Fib(), n - 2, n - 1, n - 2);
      FibUnfold(n, n - 1, Fibonacci(n - 1), Fibonacci(n - 2));
    }
  }

  lemma FibParameterInCallsOnly()
    ensures ParameterOnlyInCalls(FibFormula(), "fib_match", "n")
  {
    assert CallName(Ident("fib_match")) == Ok("fib_match");
  }

  /** The synthesized body returns the n-th Fibonacci number for every n. */
  lemma FibComputesFibonacci(n: nat)
    ensures RunPlan(FibPlan(), n) == Value(Fibonacci(n))
  {
    FibBody();
    FibNaive(n);
    FibParameterInCallsOnly();
    FibConstants();
    if n >= 1 {
      assert GuardHolds(FibBranch().guard, n);
    }
    AsWrittenBodyAgrees(Fib(), FibPlan(), n, n, Fibonacci(n));
  }

  /** `test_fib_result`: 55 for 10, 1 for 1 and 1 for 2. */
  lemma FibValues()
    ensures RunPlan(FibPlan(), 10) == Value(55)
    ensures RunPlan(FibPlan(), 1) == Value(1) && RunPlan(FibPlan(), 2) == Value(1)
  {
    FibComputesFibonacci(10);
    FibComputesFibonacci(1);
    FibComputesFibonacci(2);
  }
}
