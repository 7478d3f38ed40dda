/**
 * `evil` of the basic tests: self-calls that step up by 2, 4 and 6, a
 * constant (99) outside every window, and a window read backwards.
 */
module EvilExample {
  import opened Wrappers
  import opened Syntax
  import opened Plans
  import opened SortedMap
  import opened RecursiveCalls
  import Eureka
  import Seeds
  import opened Synthesis
  import opened Generated
  import opened Reference
  import Examples

  // evil(n) = match n { 100 => 1, 102 => 2, 104 => 3, 99 => 9, _ => evil(n + 4) + evil(n + 2) + evil(n + 6) - 1 }

  function EvilCall(k: int): Expr {
    Call(Ident("evil"), [Binary(Ident("n"), Add, IntExpr(k))])
  }

  function EvilFormula(): Expr {
    Binary(Binary(Binary(EvilCall(4), Add, EvilCall(2)), Add, EvilCall(6)), Sub, IntExpr(1))
  }

  /** The constants as `convert_constants` orders them: by key. */
  function EvilConstants(): BTreeMap {
    [(99, 9), (100, 1), (102, 2), (104, 3)]
  }

  function Evil(): MatchFunction {
    MatchFunction("evil", "n", EvilConstants(), EvilFormula(), Type("u64"))
  }

  function EvilTuple(): Eureka.EurekaTuple {
    Eureka.EurekaTuple({1, 2, 3}, StepAdd, 2)
  }

  /**
   * `evil_result`: a block from 100 down in steps of 2, reading the window
   * [104, 102, 100] into its buffer. The synthesized body also has a fast
   * path for 99, which the hand-written `evil_result` leaves out.
   */
  function EvilBranch(): Branch {
    Branch(Guard(StepAdd, 100, 2), [3, 2, 1], 2, 3, CurrentArgument(100, Sub, 2, 2, Type("u64")), [],
      Binary(Binary(Binary(TupleAccess(2, 3), Add, TupleAccess(1, 3)), Add, TupleAccess(3, 3)), Sub, IntExpr(1)))
  }

  function EvilPlan(): Plan {
    Plan("n", [ConstantCheck(99, 9), ConstantCheck(100, 1), ConstantCheck(102, 2), ConstantCheck(104, 3)], [EvilBranch()])
  }

  function Raw(): seq<RecursiveCall> {
    [RecursiveCall(4, StepAdd, 1), RecursiveCall(2, StepAdd, 1), RecursiveCall(6, StepAdd, 1)]
  }

  function Normalised(): seq<RecursiveCall> {
    [RecursiveCall(1, StepAdd, 2), RecursiveCall(2, StepAdd, 2), RecursiveCall(3, StepAdd, 2)]
  }

  lemma EvilCalls()
    ensures RawCalls(EvilFormula(), "evil", "n") == Ok(Raw())
  {
    var a1, a2, a3 := Binary(Ident("n"), Add, IntExpr(4)), Binary(Ident("n"), Add, IntExpr(2)), Binary(Ident("n"), Add, IntExpr(6));
    var c1, c2, c3 := ExprCall(Ident("evil"), [a1]), ExprCall(Ident("evil"), [a2]), ExprCall(Ident("evil"), [a3]);
    assert FindCalls(EvilFormula()) == Ok(([c1] + [c2]) + [c3] + []);
    assert ([c1] + [c2]) + [c3] + [] == [c1, c2, c3];
    var r := Raw();
    assert ArgStep(a1, "n") == Ok(r[0]) && ArgStep(a2, "n") == Ok(r[1]) && ArgStep(a3, "n") == Ok(r[2]);
    Examples.ThreeSelfCalls(EvilFormula(), "evil", "n", a1, a2, a3, r);
  }

  /** gcd(4, 2, 6) = 2, and the steps normalise to 2, 1, 3. */
  lemma EvilGcd()
    ensures Numeric.GcdFold(4, Steps(Raw())) == 2
  {
    assert Steps(Raw()) == [4, 2, 6];
    assert [4, 2, 6][1..] == [2, 6] && [2, 6][1..] == [6] && [6][1..] == [];
    assert Numeric.Gcd(4, 4) == 4;
    assert Numeric.Gcd(4, 2) == 2 by {
      assert Numeric.Gcd(2, 4 % 2) == 2;
    }
    assert Numeric.Gcd(2, 6) == 2 by {
      assert Numeric.Gcd(6, 2 % 6) == 2;
    }
  }

  lemma EvilSorted()
    ensures SortBySteps(Normalize(Raw(), 2)) == Normalised()
  {
    var n1, n2, n3 := RecursiveCall(2, StepAdd, 2), RecursiveCall(1, StepAdd, 2), RecursiveCall(3, StepAdd, 2);
    assert Normalize(Raw(), 2) == [n1, n2, n3];
    EvilSortTail();
    EvilInsert();
    assert [n1, n2, n3][1..] == [n2, n3];
  }

  lemma EvilSortTail()
    ensures SortBySteps([RecursiveCall(1, StepAdd, 2), RecursiveCall(3, StepAdd, 2)]) ==
      [RecursiveCall(1, StepAdd, 2), RecursiveCall(3, StepAdd, 2)]
  {
    var n2, n3 := RecursiveCall(1, StepAdd, 2), RecursiveCall(3, StepAdd, 2);
    assert [n2, n3][1..] == [n3] && [n3][1..] == [];
    assert SortBySteps([n3]) == [n3];
    assert InsertBySteps(n2, [n3]) == [n2] + [n3];
  }

  lemma EvilInsert()
    ensures InsertBySteps(RecursiveCall(2, StepAdd, 2), [RecursiveCall(1, StepAdd, 2), RecursiveCall(3, StepAdd, 2)]) == Normalised()
  {
    var n1, n2, n3 := RecursiveCall(2, StepAdd, 2), RecursiveCall(1, StepAdd, 2), RecursiveCall(3, StepAdd, 2);
    assert InsertBySteps(n1, [n3]) == [n1] + [n3];
    assert [n2, n3][1..] == [n3];
    assert [n2] + [n1, n3] == Normalised();
  }

  lemma EvilAnalysis()
    ensures AnalyseCalls(EvilFormula(), "evil", "n") == Ok(CallAnalysis(Normalised(), StepAdd, 2))
  {
    var r := Raw();
    assert RawCalls(EvilFormula(), "evil", "n") == Ok(r) by { EvilCalls(); }
    assert Numeric.GcdFold(r[0].steps, Steps(r)) == 2 by { EvilGcd(); }
    assert SortBySteps(Normalize(r, 2)) == Normalised() by { EvilSorted(); }
    Examples.SameOperatorThree(r);
    Examples.AnalysisOf(EvilFormula(), "evil", "n", r, 2, Normalised());
  }

  /** The steps 1, 2 and 3 give the eureka tuple {1, 2, 3}: a buffer of three values. */
  lemma EvilEureka()
    ensures Eureka.EurekaFor(EvilFormula(), "evil", "n") == Ok(EvilTuple())
  {
    EvilAnalysis();
    var d := Eureka.StepSet(Normalised());
    assert d == {1, 2, 3} by {
      assert Normalised()[0].steps as int in d && Normalised()[1].steps as int in d && Normalised()[2].steps as int in d;
    }
    assert Eureka.SetMax(d) == 3;
    assert Eureka.EurekaFuel(d) == 9;
    EvilFixedPoint();
  }

  lemma EvilFixedPoint()
    ensures Eureka.EurekaIterate({0}, {1, 2, 3}, 9) == Some({1, 2, 3})
  {
    EvilFirstRound();
    EvilSecondRound();
    assert 1 in {0, 1, 2} && 1 !in {0};
    assert Eureka.Shift({0, 1, 2}, -1) == {1, 2, 3} by {
      forall x ensures x in Eureka.Shift({0, 1, 2}, -1) <==> x in {1, 2, 3} { Eureka.ShiftMember({0, 1, 2}, -1, x); }
    }
  }

  lemma EvilFirstRound()
    ensures Eureka.EurekaStep({0}, {1, 2, 3}) == {0, 1, 2}
  {
    var t := ({0} - {0}) + {1, 2, 3};
    assert t == {1, 2, 3};
    assert Eureka.SetMin(t) == 1;
    assert Eureka.Shift(t, 1) == {0, 1, 2} by {
      forall x ensures x in Eureka.Shift(t, 1) <==> x in {0, 1, 2} { Eureka.ShiftMember(t, 1, x); }
    }
  }

  lemma EvilSecondRound()
    ensures Eureka.EurekaStep({0, 1, 2}, {1, 2, 3}) == {0, 1, 2}
  {
    var t := ({0, 1, 2} - {0}) + {1, 2, 3};
    assert t == {1, 2, 3};
    assert Eureka.SetMin(t) == 1;
    assert Eureka.Shift(t, 1) == {0, 1, 2} by {
      forall x ensures x in Eureka.Shift(t, 1) <==> x in {0, 1, 2} { Eureka.ShiftMember(t, 1, x); }
    }
  }

  lemma EvilConstantsMap()
    ensures forall k :: k in ToMap(EvilConstants()) <==> k == 99 || k == 100 || k == 102 || k == 104
    ensures ToMap(EvilConstants())[99] == 9 && ToMap(EvilConstants())[100] == 1
    ensures ToMap(EvilConstants())[102] == 2 && ToMap(EvilConstants())[104] == 3
  {
    var cs := EvilConstants();
    assert cs[0].0 in KeySet(cs) && cs[1].0 in KeySet(cs) && cs[2].0 in KeySet(cs) && cs[3].0 in KeySet(cs);
    forall x | x in KeySet(cs) ensures x == 99 || x == 100 || x == 102 || x == 104 {
      var i :| 0 <= i < |cs| && cs[i].0 == x;
    }
  }

  function EvilKeys(): seq<int> {
    [99, 100, 102, 104]
  }

  /** Only 100 starts a full window, [100, 102, 104]. */
  lemma EvilCandidates()
    ensures Seeds.Candidates(EvilKeys(), 3, 2) == [[100, 102, 104]]
  {
    var keys := EvilKeys();
    assert !Seeds.IsFullWindow(keys, 104, 3, 2) by { assert 104 + 1 * 2 !in keys; }
    assert !Seeds.IsFullWindow(keys, 102, 3, 2) by { assert 102 + 2 * 2 !in keys; }
    assert Seeds.IsFullWindow(keys, 100, 3, 2) by {
      assert 100 + 0 * 2 in keys && 100 + 1 * 2 in keys && 100 + 2 * 2 in keys;
    }
    assert !Seeds.IsFullWindow(keys, 99, 3, 2) by { assert 99 + 1 * 2 !in keys; }
    assert Seeds.Progression(100, 3, 2) == [100, 102, 104];
    assert keys[1..] == [100, 102, 104] && [100, 102, 104][1..] == [102, 104] && [102, 104][1..] == [104] && [104][1..] == [];
    assert Seeds.CandidatesFrom(keys, [104], 3, 2) == [];
    assert Seeds.CandidatesFrom(keys, [102, 104], 3, 2) == [];
    assert Seeds.CandidatesFrom(keys, [100, 102, 104], 3, 2) == [[100, 102, 104]] + [];
  }

  /** A single seed window, [104, 102, 100]: the highest full window, reversed. */
  lemma EvilSeeds()
    ensures Seeds.SeedsFor(EvilConstants(), {1, 2, 3}, 2, StepAdd) == Ok([[104, 102, 100]])
  {
    var w := [100, 102, 104];
    assert Keys(EvilConstants()) == EvilKeys();
    assert Seeds.Contiguous({1, 2, 3}) by { Examples.ContiguousThree(); }
    assert Seeds.Candidates(EvilKeys(), 3, 2) == [w] by { EvilCandidates(); }
    assert Seeds.Reversed(w) == [104, 102, 100];
    Examples.SingleSeed(EvilConstants(), {1, 2, 3}, 2, StepAdd, w);
  }

  /** Each self-call becomes a read k / 2 slots back. */
  lemma EvilRewrite()
    ensures Rewrite(EvilFormula(), RewriteContext("evil", "n", 2, 3, Ident("n"))) == Ok(EvilBranch().body)
  {
    var ctx := RewriteContext("evil", "n", 2, 3, Ident("n"));
    assert CallName(Ident("evil")) == Ok("evil");
    assert Rewrite(EvilCall(4), ctx) == Ok(TupleAccess(2, 3));
    assert Rewrite(EvilCall(2), ctx) == Ok(TupleAccess(1, 3));
    assert Rewrite(EvilCall(6), ctx) == Ok(TupleAccess(3, 3));
  }

  /** No key lies below 100 in its class: 99 is odd. */
  lemma EvilArms()
    ensures Arms(EvilConstants(), 100, 2, StepAdd) == []
  {
    var cs := EvilConstants();
    assert !ArmKey(StepAdd, 100, 2, 99) && !ArmKey(StepAdd, 100, 2, 100);
    assert !ArmKey(StepAdd, 100, 2, 102) && !ArmKey(StepAdd, 100, 2, 104);
    assert ArmsUpTo(cs, 100, 2, StepAdd, 1) == [] + [];
    assert ArmsUpTo(cs, 100, 2, StepAdd, 2) == [] + [];
    assert ArmsUpTo(cs, 100, 2, StepAdd, 3) == [] + [];
    assert ArmsUpTo(cs, 100, 2, StepAdd, 4) == [] + [];
  }

  /** The buffer read from the window [104, 102, 100]. */
  lemma EvilTmpTuple()
    ensures forall x :: x in [104, 102, 100] ==> x in ToMap(EvilConstants())
    ensures TmpTuple(EvilConstants(), [104, 102, 100]) == [3, 2, 1]
  {
    var cs := EvilConstants();
    assert cs[1].0 in KeySet(cs) && cs[2].0 in KeySet(cs) && cs[3].0 in KeySet(cs);
    assert ToMap(cs)[cs[1].0] == 1 && ToMap(cs)[cs[2].0] == 2 && ToMap(cs)[cs[3].0] == 3;
    var t := TmpTuple(cs, [104, 102, 100]);
    assert t[0] == 3 && t[1] == 2 && t[2] == 1;
  }

  /** `create_loop` on the window [104, 102, 100]. */
  lemma EvilBranchFor(f: MatchFunction)
    requires f == Evil()
    ensures |EvilTuple().tuple| == 3
    ensures forall x :: x in [104, 102, 100] ==> x in ToMap(f.constants)
    ensures BranchFor(f, EvilTuple(), [104, 102, 100], KeepParameter) == Ok(EvilBranch())
  {
    var e, w := EvilTuple(), [104, 102, 100];
    Examples.ContiguousThree();
    EvilTmpTuple();
    assert Rewrite(f.recursiveExpr, RewriteContext(f.name, f.recursionParameter, 2, 3, Ident(f.recursionParameter))) == Ok(EvilBranch().body) by {
      EvilRewrite();
    }
    assert Arms(f.constants, 100, 2, StepAdd) == [] by { EvilArms(); }
    Examples.BranchForParts(f, e, w, EvilBranch().body, EvilBranch());
  }

  /** The fast paths of evil, in key order. */
  lemma EvilChecks()
    ensures ConstantChecks(EvilConstants()) == EvilPlan().checks
  {
  }

  lemma EvilSynthesis()
    ensures Synthesize(Evil(), EvilTuple(), KeepParameter) == Ok(EvilPlan())
  {
    var f, e, w := Evil(), EvilTuple(), [104, 102, 100];
    EvilSeeds();
    EvilBranchFor(f);
    Examples.OneBranchFor(f, e, w, EvilBranch());
    Examples.SynthesisOf(f, e, [w], [EvilBranch()]);
    EvilChecks();
  }

  /** `construct_iterative_stmts` on evil: the fast paths for every key, then `evil_result`'s block. */
  lemma EvilBody()
    ensures IterativeBody(Evil(), KeepParameter) == Ok(EvilPlan())
  {
    EvilEureka();
    EvilSynthesis();
  }

  /** One unfolding of the formula at a non-key argument m. */
  lemma EvilUnfold(m: int, fuel: nat, a: int, b: int, c: int)
    requires m != 99 && m != 100 && m != 102 && m != 104
    requires NaiveAt(Evil(), fuel, m + 4) == Some(a) && NaiveAt(Evil(), fuel, m + 2) == Some(b)
    requires NaiveAt(Evil(), fuel, m + 6) == Some(c)
    ensures NaiveAt(Evil(), fuel + 1, m) == Some(a + b + c - 1)
  {
    EvilConstantsMap();
    FormulaUnfold(Evil(), m, fuel, a, b, c);
  }

  /** The same for any function with evil's name, parameter and formula. */
  lemma FormulaUnfold(f: MatchFunction, m: int, fuel: nat, a: int, b: int, c: int)
    requires f.name == "evil" && f.recursionParameter == "n" && f.recursiveExpr == EvilFormula()
    requires m !in ToMap(f.constants)
    requires NaiveAt(f, fuel, m + 4) == Some(a) && NaiveAt(f, fuel, m + 2) == Some(b) && NaiveAt(f, fuel, m + 6) == Some(c)
    ensures NaiveAt(f, fuel + 1, m) == Some(a + b + c - 1)
  {
    Examples.NaiveUnfold(f, fuel, m);
    Examples.NaiveAddCall(f, 4, fuel, m);
    Examples.NaiveAddCall(f, 2, fuel, m);
    Examples.NaiveAddCall(f, 6, fuel, m);
    var s1 := Binary(EvilCall(4), Add, EvilCall(2));
    var s2 := Binary(s1, Add, EvilCall(6));
    Examples.NaiveBinary(f, EvilCall(4), Add, EvilCall(2), fuel, m, a, b);
    assert NaiveEval(f, s1, fuel, m) == Some(a + b);
    Examples.NaiveBinary(f, s1, Add, EvilCall(6), fuel, m, a + b, c);
    assert NaiveEval(f, s2, fuel, m) == Some(a + b + c);
    assert NaiveEval(f, IntExpr(1), fuel, m) == Some(1);
    Examples.NaiveBinary(f, s2, Sub, IntExpr(1), fuel, m, a + b + c, 1);
  }

  /** The keys return their constants whatever the fuel. */
  lemma EvilKeyValues(fuel: nat)
    ensures NaiveAt(Evil(), fuel, 100) == Some(1) && NaiveAt(Evil(), fuel, 102) == Some(2)
    ensures NaiveAt(Evil(), fuel, 104) == Some(3)
  {
    EvilConstantsMap();
  }

  /** The recursive definition: evil(98) = 5, evil(96) = 7, evil(94) = 12, evil(92) = 23, evil(90) = 41. */
  lemma EvilReference()
    ensures NaiveAt(Evil(), 1, 98) == Some(5) && NaiveAt(Evil(), 5, 90) == Some(41)
  {
    var f := Evil();
    EvilKeyValues(0);
    EvilKeyValues(1);
    EvilKeyValues(2);
    EvilUnfold(98, 0, 2, 1, 3);
    EvilUnfold(96, 1, 1, 5, 2);
    NaiveAtMonotone(f, 1, 2, 98);
    EvilUnfold(94, 2, 5, 7, 1);
    NaiveAtMonotone(f, 2, 3, 96);
    NaiveAtMonotone(f, 1, 3, 98);
    EvilUnfold(92, 3, 7, 12, 5);
    NaiveAtMonotone(f, 3, 4, 94);
    NaiveAtMonotone(f, 2, 4, 96);
    EvilUnfold(90, 4, 12, 23, 7);
  }

  lemma EvilParameterInCallsOnly()
    ensures ParameterOnlyInCalls(EvilFormula(), "evil", "n")
  {
    assert CallName(Ident("evil")) == Ok("evil");
  }

  /** Where the block's guard holds, the synthesized body returns what the recursion returns. */
  lemma EvilCovered(n: int, fuel: nat, v: int)
    requires GuardHolds(EvilBranch().guard, n)
    requires NaiveAt(Evil(), fuel, n) == Some(v)
    ensures RunPlan(EvilPlan(), n) == Value(v)
  {
    var f, p := Evil(), EvilPlan();
    assert IterativeBody(f, KeepParameter) == Ok(p) by { EvilBody(); }
    assert ParameterOnlyInCalls(f.recursiveExpr, f.name, f.recursionParameter) && f.recursionParameter != "i" by {
      EvilParameterInCallsOnly();
    }
    assert FirstBranch(p.branches, n).Some? by { assert GuardHolds(p.branches[0].guard, n); }
    Examples.CoveredAgrees(f, p, n, fuel, v);
  }

  /** `test_evil`: the synthesized body returns 5 for 98 and 41 for 90. */
  lemma EvilValues()
    ensures RunPlan(EvilPlan(), 98) == Value(5) && RunPlan(EvilPlan(), 90) == Value(41)
  {
    EvilReference();
    EvilCovered(98, 1, 5);
    EvilCovered(90, 5, 41);
  }
}
