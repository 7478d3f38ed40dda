/**
 * `two_starts` of the basic tests: a single self-call two steps back, so a
 * buffer of one value and one block per residue class modulo 2. The key 2
 * lies in the class of 0 above that block's start, so it becomes a
 * correction arm there.
 */
module TwoStartsExample {
  import opened Wrappers
  import opened Syntax
  import opened Plans
  import opened SortedMap
  import opened RecursiveCalls
  import Eureka
  import Seeds
  import opened Synthesis
  import opened Generated
  import opened Reference
  import Examples

  // two_starts(n) = match n { 0 => 0, 1 => 2, 2 => 1, _ => two_starts(n - 2) + 1 }

  function TwoCall(): Expr {
    Call(Ident("two_starts"), [Binary(Ident("n"), Sub, IntExpr(2))])
  }

  function TwoFormula(): Expr {
    Binary(TwoCall(), Add, IntExpr(1))
  }

  function TwoConstants(): BTreeMap {
    [(0, 0), (1, 2), (2, 1)]
  }

  function TwoStarts(): MatchFunction {
    MatchFunction("two_starts", "n", TwoConstants(), TwoFormula(), Type("u64"))
  }

  function TwoTuple(): Eureka.EurekaTuple {
    Eureka.EurekaTuple({1}, StepSub, 2)
  }

  /** The function the recursion denotes on the naturals. */
  function TwoValue(n: nat): int {
    if n == 0 then 0 else if n == 1 then 2 else if n == 2 then 1 else TwoValue(n - 2) + 1
  }

  function TwoBody(): Expr {
    Binary(TupleAccess(1, 1), Add, IntExpr(1))
  }

  /** The even block: from 0 with the buffer [0]; the key 2 is a correction arm. */
  function EvenBranch(): Branch {
    Branch(Guard(StepSub, 0, 2), [0], 0, 1, CurrentArgument(0, Add, 0, 2, Type("u64")), [LoopArm(2, 1)], TwoBody())
  }

  /** The odd block: from 1 with the buffer [2]. */
  function OddBranch(): Branch {
    Branch(Guard(StepSub, 1, 2), [2], 0, 1, CurrentArgument(1, Add, 0, 2, Type("u64")), [], TwoBody())
  }

  function TwoPlan(): Plan {
    Plan("n", [ConstantCheck(0, 0), ConstantCheck(1, 2), ConstantCheck(2, 1)], [EvenBranch(), OddBranch()])
  }

  lemma TwoCalls()
    ensures RawCalls(TwoFormula(), "two_starts", "n") == Ok([RecursiveCall(2, StepSub, 1)])
  {
    var a := Binary(Ident("n"), Sub, IntExpr(2));
    var c := ExprCall(Ident("two_starts"), [a]);
    assert FindCalls(TwoFormula()) == Ok([c] + []);
    assert [c] + [] == [c];
    assert CallName(Ident("two_starts")) == Ok("two_starts");
    Examples.FilterCons(c, [], "two_starts", []);
    Examples.AllArgsSnoc([], c);
    assert [] + [c] == [c];
    assert AllArgs([c]) == [a];
    var r := RecursiveCall(2, StepSub, 1);
    assert ArgStep(a, "n") == Ok(r);
    assert [a] + [] == [a] && [r] + [] == [r];
    Examples.ArgStepsCons(a, [], "n", r, []);
  }

  /** The single step 2 normalises to 1 with common step size 2: the eureka tuple {1}. */
  lemma TwoEureka()
    ensures Eureka.EurekaFor(TwoFormula(), "two_starts", "n") == Ok(TwoTuple())
  {
    var raw := [RecursiveCall(2, StepSub, 1)];
    var norm := [RecursiveCall(1, StepSub, 2)];
    TwoCalls();
    assert Steps(raw) == [2] && [2][1..] == [];
    assert Numeric.GcdFold(2, Steps(raw)) == 2 by {
      assert Numeric.Gcd(2, 2) == 2;
    }
    assert Normalize(raw, 2) == norm;
    assert SortBySteps(norm) == norm;
    Examples.AnalysisOf(TwoFormula(), "two_starts", "n", raw, 2, norm);
    var d := Eureka.StepSet(norm);
    assert d == {1} by {
      assert norm[0].steps as int in d;
    }
    assert Eureka.SetMax(d) == 1;
    assert Eureka.EurekaFuel(d) == 3;
    TwoFixedPoint();
  }

  /** One round reaches the fixed point {0}, shifted back to {1}. */
  lemma TwoFixedPoint()
    ensures Eureka.EurekaIterate({0}, {1}, 3) == Some({1})
  {
    var t := ({0} - {0}) + {1};
    assert t == {1};
    assert Eureka.SetMin(t) == 1;
    assert Eureka.Shift(t, 1) == {0} by {
      forall x ensures x in Eureka.Shift(t, 1) <==> x in {0} { Eureka.ShiftMember(t, 1, x); }
    }
    assert Eureka.EurekaStep({0}, {1}) == {0};
    assert Eureka.Shift({0}, -1) == {1} by {
      forall x ensures x in Eureka.Shift({0}, -1) <==> x in {1} { Eureka.ShiftMember({0}, -1, x); }
    }
  }

  lemma TwoConstantValues()
    ensures 0 in ToMap(TwoConstants()) && 1 in ToMap(TwoConstants()) && 2 in ToMap(TwoConstants())
    ensures ToMap(TwoConstants())[0] == 0 && ToMap(TwoConstants())[1] == 2 && ToMap(TwoConstants())[2] == 1
  {
    var cs := TwoConstants();
    assert cs[0].0 in KeySet(cs) && cs[1].0 in KeySet(cs) && cs[2].0 in KeySet(cs);
  }

  lemma TwoConstantsMap()
    ensures forall k :: k in ToMap(TwoConstants()) <==> k == 0 || k == 1 || k == 2
    ensures ToMap(TwoConstants())[0] == 0 && ToMap(TwoConstants())[1] == 2 && ToMap(TwoConstants())[2] == 1
  {
    var cs := TwoConstants();
    TwoConstantValues();
    forall x | x in KeySet(cs) ensures x == 0 || x == 1 || x == 2 {
      var i :| 0 <= i < |cs| && cs[i].0 == x;
    }
  }

  /** A key at the head of the starts contributes the window of one [c]. */
  lemma CandidatesConsSingle(keys: seq<int>, c: int, rest: seq<int>, q: nat)
    requires c in keys
    ensures Seeds.CandidatesFrom(keys, [c] + rest, 1, q) == [[c]] + Seeds.CandidatesFrom(keys, rest, 1, q)
  {
    assert Seeds.IsFullWindow(keys, c, 1, q) by {
      forall j | 0 <= j < 1 ensures c + j * q in keys {
        assert j == 0;
      }
    }
    assert Seeds.Progression(c, 1, q) == [c];
    assert ([c] + rest)[0] == c && ([c] + rest)[1..] == rest;
  }

  /** Every key starts a window of one. */
  lemma TwoCandidates()
    ensures Seeds.Candidates([0, 1, 2], 1, 2) == [[0], [1], [2]]
  {
    var keys := [0, 1, 2];
    assert [2] + [] == [2] && [1] + [2] == [1, 2] && [0] + [1, 2] == keys;
    CandidatesConsSingle(keys, 2, [], 2);
    CandidatesConsSingle(keys, 1, [2], 2);
    CandidatesConsSingle(keys, 0, [1, 2], 2);
    assert [[2]] + [] == [[2]] && [[1]] + [[2]] == [[1], [2]] && [[0]] + [[1], [2]] == [[0], [1], [2]];
  }

  /** [2] falls in the class of [0] and is dropped. */
  lemma TwoKeepFirst()
    ensures Seeds.KeepFirst([[0], [1], [2]], 2) == [[0], [1]]
  {
    var ws := [[0], [1], [2]];
    assert !Seeds.HasEarlier(ws, 2, 0);
    assert !Seeds.HasEarlier(ws, 2, 1) by {
      assert !Seeds.SameClass(2, ws[0][0], ws[1][0]);
    }
    assert Seeds.HasEarlier(ws, 2, 2) by {
      assert Seeds.SameClass(2, ws[0][0], ws[2][0]);
    }
    assert Seeds.KeepFirstUpTo(ws, 2, 1) == [] + [[0]];
    assert Seeds.KeepFirstUpTo(ws, 2, 2) == [[0]] + [[1]];
    assert Seeds.KeepFirstUpTo(ws, 2, 3) == [[0], [1]] + [];
  }

  /** Two seed windows, [0] and [1], one per class modulo 2. */
  lemma TwoSeeds()
    ensures Seeds.SeedsFor(TwoConstants(), {1}, 2, StepSub) == Ok([[0], [1]])
  {
    assert |{1}| == 1;
    assert {1} == Eureka.Range(1, 2);
    assert Seeds.Contiguous({1});
    assert Keys(TwoConstants()) == [0, 1, 2];
    TwoCandidates();
    TwoKeepFirst();
    assert Seeds.Survivors([0, 1, 2], 1, 2, StepSub) == [[0], [1]];
  }

  /** The self-call becomes a read of the single buffer slot. */
  lemma TwoRewrite()
    ensures Rewrite(TwoFormula(), RewriteContext("two_starts", "n", 2, 1, Ident("n"))) == Ok(TwoBody())
  {
    var ctx := RewriteContext("two_starts", "n", 2, 1, Ident("n"));
    assert CallName(Ident("two_starts")) == Ok("two_starts");
    assert Rewrite(TwoCall(), ctx) == Ok(TupleAccess(1, 1));
    assert Rewrite(IntExpr(1), ctx) == Ok(IntExpr(1));
  }

  /** Above 0 the even key 2 is an arm; above 1 no key is odd. */
  lemma TwoArms()
    ensures Arms(TwoConstants(), 0, 2, StepSub) == [LoopArm(2, 1)]
    ensures Arms(TwoConstants(), 1, 2, StepSub) == []
  {
    var cs := TwoConstants();
    assert !ArmKey(StepSub, 0, 2, 0) && !ArmKey(StepSub, 0, 2, 1) && ArmKey(StepSub, 0, 2, 2);
    assert ArmsUpTo(cs, 0, 2, StepSub, 1) == [] + [];
    assert ArmsUpTo(cs, 0, 2, StepSub, 2) == [] + [];
    assert ArmsUpTo(cs, 0, 2, StepSub, 3) == [] + [LoopArm(2, 1)];
    assert !ArmKey(StepSub, 1, 2, 0) && !ArmKey(StepSub, 1, 2, 1) && !ArmKey(StepSub, 1, 2, 2);
    assert ArmsUpTo(cs, 1, 2, StepSub, 1) == [] + [];
    assert ArmsUpTo(cs, 1, 2, StepSub, 2) == [] + [];
    assert ArmsUpTo(cs, 1, 2, StepSub, 3) == [] + [];
  }

  lemma TwoTmpTuples()
    ensures forall x :: x in [0] ==> x in ToMap(TwoConstants())
    ensures forall x :: x in [1] ==> x in ToMap(TwoConstants())
    ensures TmpTuple(TwoConstants(), [0]) == [0] && TmpTuple(TwoConstants(), [1]) == [2]
  {
    TwoConstantValues();
    assert TmpTuple(TwoConstants(), [0])[0] == 0;
    assert TmpTuple(TwoConstants(), [1])[0] == 2;
  }

  /** `create_loop` on the window [0]. */
  lemma EvenBranchFor()
    ensures forall x :: x in [0] ==> x in ToMap(TwoConstants())
    ensures BranchFor(TwoStarts(), TwoTuple(), [0], KeepParameter) == Ok(EvenBranch())
  {
    var e, f := TwoTuple(), TwoStarts();
    TwoTmpTuples();
    assert CurrentArgumentOf(0, e, f.argType) == CurrentArgument(0, Add, 0, 2, Type("u64"));
    assert Rewrite(f.recursiveExpr, RewriteContext("two_starts", "n", 2, 1, Ident("n"))) == Ok(TwoBody()) by { TwoRewrite(); }
    assert Arms(f.constants, 0, 2, StepSub) == EvenBranch().arms by { TwoArms(); }
    Examples.BranchForParts(f, e, [0], TwoBody(), EvenBranch());
  }

  /** `create_loop` on the window [1]. */
  lemma OddBranchFor()
    ensures forall x :: x in [1] ==> x in ToMap(TwoConstants())
    ensures BranchFor(TwoStarts(), TwoTuple(), [1], KeepParameter) == Ok(OddBranch())
  {
    var e, f := TwoTuple(), TwoStarts();
    TwoTmpTuples();
    assert CurrentArgumentOf(1, e, f.argType) == CurrentArgument(1, Add, 0, 2, Type("u64"));
    assert Rewrite(f.recursiveExpr, RewriteContext("two_starts", "n", 2, 1, Ident("n"))) == Ok(TwoBody()) by { TwoRewrite(); }
    assert Arms(f.constants, 1, 2, StepSub) == OddBranch().arms by { TwoArms(); }
    Examples.BranchForParts(f, e, [1], TwoBody(), OddBranch());
  }

  lemma TwoSynthesis()
    ensures Synthesize(TwoStarts(), TwoTuple(), KeepParameter) == Ok(TwoPlan())
  {
    var f, e := TwoStarts(), TwoTuple();
    TwoSeeds();
    assert |e.tuple| == 1;
    EvenBranchFor();
    OddBranchFor();
    var seeds := [[0], [1]];
    assert seeds[1..] == [[1]] && [[1]][1..] == [];
    assert BranchesFor(f, e, [[1]], KeepParameter) == Ok([OddBranch()] + []);
    assert [OddBranch()] + [] == [OddBranch()];
    assert BranchesFor(f, e, seeds, KeepParameter) == Ok([EvenBranch()] + [OddBranch()]);
    assert [EvenBranch()] + [OddBranch()] == TwoPlan().branches;
    assert ConstantChecks(f.constants) == TwoPlan().checks;
  }

  /** `construct_iterative_stmts` on two_starts: the three fast paths, then the even and the odd block. */
  lemma TwoIterativeBody()
    ensures IterativeBody(TwoStarts(), KeepParameter) == Ok(TwoPlan())
  {
    TwoEureka();
    TwoSynthesis();
  }

  /** One unfolding of the formula at a non-key argument m. */
  lemma FormulaUnfold(f: MatchFunction, m: int, fuel: nat, a: int)
    requires f.name == "two_starts" && f.recursionParameter == "n" && f.recursiveExpr == TwoFormula()
    requires m !in ToMap(f.constants) && NaiveAt(f, fuel, m - 2) == Some(a)
    ensures NaiveAt(f, fuel + 1, m) == Some(a + 1)
  {
    Examples.NaiveUnfold(f, fuel, m);
    Examples.NaiveSubCall(f, 2, fuel, m);
    assert NaiveEval(f, IntExpr(1), fuel, m) == Some(1);
    Examples.NaiveBinary(f, TwoCall(), Add, IntExpr(1), fuel, m, a, 1);
  }

  /** What the induction uses of two_starts: its name, parameter and formula, and its constants as a map. */
  ghost predicate TwoShape(f: MatchFunction) {
    f.name == "two_starts" && f.recursionParameter == "n" && f.recursiveExpr == TwoFormula() &&
    (forall k :: k in ToMap(f.constants) <==> k == 0 || k == 1 || k == 2) &&
    ToMap(f.constants)[0] == 0 && ToMap(f.constants)[1] == 2 && ToMap(f.constants)[2] == 1
  }

  lemma NaiveTwoKey(f: MatchFunction, fuel: nat, n: nat)
    requires TwoShape(f) && n <= 2
    ensures NaiveAt(f, fuel, n) == Some(TwoValue(n))
  {
    assert n == 0 || n == 1 || n == 2;
  }

  lemma NaiveTwoStep(f: MatchFunction, n: nat)
    requires f.name == "two_starts" && f.recursionParameter == "n" && f.recursiveExpr == TwoFormula()
    requires n > 2 && n !in ToMap(f.constants) && NaiveAt(f, n - 2, n - 2) == Some(TwoValue(n - 2))
    ensures NaiveAt(f, n, n) == Some(TwoValue(n))
  {
    NaiveAtMonotone(f, n - 2, n - 1, n - 2);
    FormulaUnfold(f, n, n - 1, TwoValue(n - 2));
  }

  /** The recursion computes TwoValue, unfolding the formula at most n times. */
  lemma {:induction false} NaiveTwoValue(f: MatchFunction, n: nat)
    requires TwoShape(f)
    ensures NaiveAt(f, n, n) == Some(TwoValue(n))
  {
    if n <= 2 {
      NaiveTwoKey(f, n, n);
    } else {
      NaiveTwoValue(f, n - 2);
      assert n !in ToMap(f.constants);
      NaiveTwoStep(f, n);
    }
  }

  lemma TwoNaive(n: nat)
    ensures NaiveAt(TwoStarts(), n, n) == Some(TwoValue(n))
  {
    TwoConstantsMap();
    NaiveTwoValue(TwoStarts(), n);
  }

  /** The two arithmetic progressions: n / 2 on the even arguments from 2, (n + 3) / 2 on the odd ones. */
  lemma {:induction false} TwoClosedForm(n: nat)
    ensures n == 0 ==> TwoValue(n) == 0
    ensures n > 0 && n % 2 == 0 ==> TwoValue(n) == n / 2
    ensures n % 2 == 1 ==> TwoValue(n) == (n + 3) / 2
  {
    if n > 2 {
      TwoClosedForm(n - 2);
    }
  }

  lemma TwoParameterInCallsOnly()
    ensures ParameterOnlyInCalls(TwoFormula(), "two_starts", "n")
  {
    assert CallName(Ident("two_starts")) == Ok("two_starts");
  }

  /** Every argument other than a key passes one of the two guards. */
  lemma TwoGuards(n: int)
    requires n > 2
    ensures FirstBranch(TwoPlan().branches, n).Some?
  {
    if n % 2 == 0 {
      assert GuardHolds(EvenBranch().guard, n);
    } else {
      assert GuardHolds(OddBranch().guard, n);
    }
  }

  /** The synthesized body agrees with two_starts for every argument. */
  lemma TwoComputes(n: nat)
    ensures RunPlan(TwoPlan(), n) == Value(TwoValue(n))
  {
    assert IterativeBody(TwoStarts(), KeepParameter) == Ok(TwoPlan()) by { TwoIterativeBody(); }
    assert NaiveAt(TwoStarts(), n, n) == Some(TwoValue(n)) by { TwoNaive(n); }
    assert ParameterOnlyInCalls(TwoStarts().recursiveExpr, TwoStarts().name, TwoStarts().recursionParameter) by {
      TwoParameterInCallsOnly();
    }
    if n <= 2 {
      assert n in ToMap(TwoStarts().constants) by { TwoConstantValues(); }
    } else {
      TwoGuards(n);
    }
    AsWrittenBodyAgrees(TwoStarts(), TwoPlan(), n, n, TwoValue(n));
  }

  /** `test_two_starts`: 5 for 10 and 6 for 9. */
  lemma TwoValues()
    ensures RunPlan(TwoPlan(), 10) == Value(5) && RunPlan(TwoPlan(), 9) == Value(6)
  {
    TwoComputes(10);
    TwoComputes(9);
    TwoClosedForm(10);
    TwoClosedForm(9);
  }
}
