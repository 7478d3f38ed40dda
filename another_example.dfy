/**
 * `another` of the basic tests: steps 1, 3 and 4. The eureka rounds need
 * the value at n - 2 as well, so the buffer holds four values, seeded from
 * the keys 0 to 3.
 */
module AnotherExample {
  import opened Wrappers
  import opened Syntax
  import opened Plans
  import opened SortedMap
  import opened RecursiveCalls
  import Eureka
  import Seeds
  import opened Synthesis
  import opened Generated
  import opened Reference
  import Examples

  // another(n) = match n { 0 => 0, 1 => 1, 2 => 2, 3 => 3, _ => another(n - 1) + another(n - 3) + another(n - 4) }

  function AnotherCall(k: int): Expr {
    Call(Ident("another"), [Binary(Ident("n"), Sub, IntExpr(k))])
  }

  function AnotherFormula(): Expr {
    Binary(Binary(AnotherCall(1), Add, AnotherCall(3)), Add, AnotherCall(4))
  }

  function AnotherConstants(): BTreeMap {
    [(0, 0), (1, 1), (2, 2), (3, 3)]
  }

  function Another(): MatchFunction {
    MatchFunction("another", "n", AnotherConstants(), AnotherFormula(), Type("u64"))
  }

  function AnotherTuple(): Eureka.EurekaTuple {
    Eureka.EurekaTuple({1, 2, 3, 4}, StepSub, 1)
  }

  /** The function the recursion denotes on the naturals. */
  function AnotherValue(n: nat): int {
    if n <= 3 then n else AnotherValue(n - 1) + AnotherValue(n - 3) + AnotherValue(n - 4)
  }

  function AnotherBody(): Expr {
    Binary(Binary(TupleAccess(1, 4), Add, TupleAccess(3, 4)), Add, TupleAccess(4, 4))
  }

  /** A single block from 3, with the buffer [0, 1, 2, 3]; the slot two back is carried but never read. */
  function AnotherBranch(): Branch {
    Branch(Guard(StepSub, 3, 1), [0, 1, 2, 3], 3, 4, CurrentArgument(3, Add, 3, 1, Type("u64")), [], AnotherBody())
  }

  function AnotherPlan(): Plan {
    Plan("n", [ConstantCheck(0, 0), ConstantCheck(1, 1), ConstantCheck(2, 2), ConstantCheck(3, 3)], [AnotherBranch()])
  }

  function Raw(): seq<RecursiveCall> {
    [RecursiveCall(1, StepSub, 1), RecursiveCall(3, StepSub, 1), RecursiveCall(4, StepSub, 1)]
  }

  lemma AnotherCalls()
    ensures RawCalls(AnotherFormula(), "another", "n") == Ok(Raw())
  {
    var a1, a2, a3 := Binary(Ident("n"), Sub, IntExpr(1)), Binary(Ident("n"), Sub, IntExpr(3)), Binary(Ident("n"), Sub, IntExpr(4));
    var c1, c2, c3 := ExprCall(Ident("another"), [a1]), ExprCall(Ident("another"), [a2]), ExprCall(Ident("another"), [a3]);
    assert FindCalls(AnotherFormula()) == Ok(([c1] + [c2]) + [c3]);
    assert ([c1] + [c2]) + [c3] == [c1, c2, c3];
    var r := Raw();
    assert ArgStep(a1, "n") == Ok(r[0]) && ArgStep(a2, "n") == Ok(r[1]) && ArgStep(a3, "n") == Ok(r[2]);
    Examples.ThreeSelfCalls(AnotherFormula(), "another", "n", a1, a2, a3, r);
  }

  /** gcd(1, 3, 4) = 1. */
  lemma AnotherGcd()
    ensures Numeric.GcdFold(1, Steps(Raw())) == 1
  {
    assert Steps(Raw()) == [1, 3, 4];
    assert [1, 3, 4][1..] == [3, 4] && [3, 4][1..] == [4] && [4][1..] == [];
    assert Numeric.Gcd(1, 1) == 1 && Numeric.Gcd(1, 3) == 1 && Numeric.Gcd(1, 4) == 1;
  }

  /** With step size 1 the steps stay as they are, already in order. */
  lemma AnotherSorted()
    ensures SortBySteps(Normalize(Raw(), 1)) == Raw()
  {
    var r := Raw();
    assert Normalize(r, 1) == r;
    Examples.SortedThree(r);
  }

  lemma AnotherAnalysis()
    ensures AnalyseCalls(AnotherFormula(), "another", "n") == Ok(CallAnalysis(Raw(), StepSub, 1))
  {
    var r := Raw();
    assert RawCalls(AnotherFormula(), "another", "n") == Ok(r) by { AnotherCalls(); }
    assert Numeric.GcdFold(r[0].steps, Steps(r)) == 1 by { AnotherGcd(); }
    assert SortBySteps(Normalize(r, 1)) == r by { AnotherSorted(); }
    Examples.SameOperatorThree(r);
    Examples.AnalysisOf(AnotherFormula(), "another", "n", r, 1, r);
  }

  /** Steps 1, 3 and 4 give the eureka tuple {1, 2, 3, 4}. */
  lemma AnotherEureka()
    ensures Eureka.EurekaFor(AnotherFormula(), "another", "n") == Ok(AnotherTuple())
  {
    AnotherAnalysis();
    var d := Eureka.StepSet(Raw());
    assert d == {1, 3, 4} by {
      assert Raw()[0].steps as int in d && Raw()[1].steps as int in d && Raw()[2].steps as int in d;
    }
    assert Eureka.SetMax(d) == 4;
    assert Eureka.Pow2(4) == 16;
    assert Eureka.EurekaFuel(d) == 17;
    AnotherFixedPoint();
  }

  /** {0} -> {0, 2, 3} -> {0, 1, 2, 3}, which the third round keeps. */
  lemma AnotherFixedPoint()
    ensures Eureka.EurekaIterate({0}, {1, 3, 4}, 17) == Some({1, 2, 3, 4})
  {
    AnotherFirstRound();
    AnotherSecondRound();
    AnotherThirdRound();
    assert 2 in {0, 2, 3} && 2 !in {0};
    assert 1 in {0, 1, 2, 3} && 1 !in {0, 2, 3};
    assert Eureka.EurekaIterate({0, 1, 2, 3}, {1, 3, 4}, 15) == Some(Eureka.Shift({0, 1, 2, 3}, -1));
    assert Eureka.Shift({0, 1, 2, 3}, -1) == {1, 2, 3, 4} by {
      forall x ensures x in Eureka.Shift({0, 1, 2, 3}, -1) <==> x in {1, 2, 3, 4} { Eureka.ShiftMember({0, 1, 2, 3}, -1, x); }
    }
  }

  lemma AnotherFirstRound()
    ensures Eureka.EurekaStep({0}, {1, 3, 4}) == {0, 2, 3}
  {
    var t := ({0} - {0}) + {1, 3, 4};
    assert t == {1, 3, 4};
    assert Eureka.SetMin(t) == 1;
    assert Eureka.Shift(t, 1) == {0, 2, 3} by {
      forall x ensures x in Eureka.Shift(t, 1) <==> x in {0, 2, 3} { Eureka.ShiftMember(t, 1, x); }
    }
  }

  lemma AnotherSecondRound()
    ensures Eureka.EurekaStep({0, 2, 3}, {1, 3, 4}) == {0, 1, 2, 3}
  {
    var t := ({0, 2, 3} - {0}) + {1, 3, 4};
    assert t == {1, 2, 3, 4};
    assert Eureka.SetMin(t) == 1;
    assert Eureka.Shift(t, 1) == {0, 1, 2, 3} by {
      forall x ensures x in Eureka.Shift(t, 1) <==> x in {0, 1, 2, 3} { Eureka.ShiftMember(t, 1, x); }
    }
  }

  lemma AnotherThirdRound()
    ensures Eureka.EurekaStep({0, 1, 2, 3}, {1, 3, 4}) == {0, 1, 2, 3}
  {
    var t := ({0, 1, 2, 3} - {0}) + {1, 3, 4};
    assert t == {1, 2, 3, 4};
    assert Eureka.SetMin(t) == 1;
    assert Eureka.Shift(t, 1) == {0, 1, 2, 3} by {
      forall x ensures x in Eureka.Shift(t, 1) <==> x in {0, 1, 2, 3} { Eureka.ShiftMember(t, 1, x); }
    }
  }

  lemma AnotherConstantValues()
    ensures 0 in ToMap(AnotherConstants()) && 1 in ToMap(AnotherConstants())
    ensures 2 in ToMap(AnotherConstants()) && 3 in ToMap(AnotherConstants())
    ensures ToMap(AnotherConstants())[0] == 0 && ToMap(AnotherConstants())[1] == 1
    ensures ToMap(AnotherConstants())[2] == 2 && ToMap(AnotherConstants())[3] == 3
  {
    var cs := AnotherConstants();
    assert cs[0].0 in KeySet(cs) && cs[1].0 in KeySet(cs) && cs[2].0 in KeySet(cs) && cs[3].0 in KeySet(cs);
  }

  /** Four entries (b, 0), ..., (b + 3, 3): the keys are b, ..., b + 3. */
  lemma ConsecutiveKeySet(cs: BTreeMap, b: int)
    requires cs == [(b, 0), (b + 1, 1), (b + 2, 2), (b + 3, 3)]
    ensures forall k :: k in ToMap(cs) <==> k == b || k == b + 1 || k == b + 2 || k == b + 3
  {
    assert cs[0].0 in KeySet(cs) && cs[1].0 in KeySet(cs) && cs[2].0 in KeySet(cs) && cs[3].0 in KeySet(cs);
    forall x | x in KeySet(cs) ensures x == b || x == b + 1 || x == b + 2 || x == b + 3 {
      var i :| 0 <= i < |cs| && cs[i].0 == x;
    }
  }

  lemma AnotherConstantsMap()
    ensures forall k :: k in ToMap(AnotherConstants()) <==> k == 0 || k == 1 || k == 2 || k == 3
  {
    ConsecutiveKeySet(AnotherConstants(), 0);
  }

  /** Four consecutive keys from b form one full window of four, [b, b + 1, b + 2, b + 3]. */
  lemma ConsecutiveWindow(keys: seq<int>, b: int)
    requires keys == [b, b + 1, b + 2, b + 3]
    ensures Seeds.IsFullWindow(keys, b, 4, 1) && Seeds.Progression(b, 4, 1) == keys
  {
    forall j | 0 <= j < 4 ensures b + j * 1 in keys {
      assert keys[j] == b + j;
    }
    var p := Seeds.Progression(b, 4, 1);
    assert p[0] == b && p[1] == b + 1 && p[2] == b + 2 && p[3] == b + 3;
  }

  /** Starting at b + 1, b + 2 or b + 3, a window of four leaves the keys. */
  lemma ConsecutiveLateStarts(keys: seq<int>, b: int)
    requires keys == [b, b + 1, b + 2, b + 3]
    ensures !Seeds.IsFullWindow(keys, b + 3, 4, 1) && !Seeds.IsFullWindow(keys, b + 2, 4, 1) && !Seeds.IsFullWindow(keys, b + 1, 4, 1)
  {
    assert b + 3 + 1 * 1 !in keys;
    assert b + 2 + 2 * 1 !in keys;
    assert b + 1 + 3 * 1 !in keys;
  }

  /** Four starts of which only the first opens a full window w. */
  lemma FirstStartOnly(keys: seq<int>, c0: int, c1: int, c2: int, c3: int, w: seq<int>)
    requires Seeds.IsFullWindow(keys, c0, 4, 1) && Seeds.Progression(c0, 4, 1) == w
    requires !Seeds.IsFullWindow(keys, c1, 4, 1) && !Seeds.IsFullWindow(keys, c2, 4, 1) && !Seeds.IsFullWindow(keys, c3, 4, 1)
    ensures Seeds.CandidatesFrom(keys, [c0, c1, c2, c3], 4, 1) == [w]
  {
    var r3, r2, r1 := [c3], [c2, c3], [c1, c2, c3];
    assert r3 == [c3] + [] && r2 == [c2] + r3 && r1 == [c1] + r2 && [c0, c1, c2, c3] == [c0] + r1;
    Examples.CandidatesCons(keys, c3, [], 4, 1);
    Examples.CandidatesCons(keys, c2, r3, 4, 1);
    Examples.CandidatesCons(keys, c1, r2, 4, 1);
    Examples.CandidatesCons(keys, c0, r1, 4, 1);
    assert [w] + [] == [w];
  }

  /** Only the lowest of four consecutive keys starts a full window of four. */
  lemma ConsecutiveCandidates(keys: seq<int>, b: int)
    requires keys == [b, b + 1, b + 2, b + 3]
    ensures Seeds.Candidates(keys, 4, 1) == [keys]
  {
    ConsecutiveLateStarts(keys, b);
    ConsecutiveWindow(keys, b);
    FirstStartOnly(keys, b, b + 1, b + 2, b + 3, keys);
  }

  lemma ReversedFour(keys: seq<int>, b: int)
    requires keys == [b, b + 1, b + 2, b + 3]
    ensures Seeds.Reversed(keys) == [b + 3, b + 2, b + 1, b]
  {
    var r := Seeds.Reversed(keys);
    assert r[0] == keys[3] && r[1] == keys[2] && r[2] == keys[1] && r[3] == keys[0];
  }

  /** Four consecutive keys from b: one seed window, ascending for StepSub and descending for StepAdd. */
  lemma ConsecutiveSeeds(cs: BTreeMap, b: int)
    requires Keys(cs) == [b, b + 1, b + 2, b + 3]
    ensures Seeds.SeedsFor(cs, {1, 2, 3, 4}, 1, StepSub) == Ok([[b, b + 1, b + 2, b + 3]])
    ensures Seeds.SeedsFor(cs, {1, 2, 3, 4}, 1, StepAdd) == Ok([[b + 3, b + 2, b + 1, b]])
  {
    var keys := Keys(cs);
    Examples.ContiguousFour();
    ConsecutiveCandidates(keys, b);
    ReversedFour(keys, b);
    Examples.SingleSeed(cs, {1, 2, 3, 4}, 1, StepSub, keys);
    Examples.SingleSeed(cs, {1, 2, 3, 4}, 1, StepAdd, keys);
  }

  /** A single seed window, [0, 1, 2, 3]. */
  lemma AnotherSeeds()
    ensures Seeds.SeedsFor(AnotherConstants(), {1, 2, 3, 4}, 1, StepSub) == Ok([[0, 1, 2, 3]])
  {
    assert Keys(AnotherConstants()) == [0, 1, 2, 3];
    ConsecutiveSeeds(AnotherConstants(), 0);
  }

  /** Each self-call `another(n - k)` becomes a read k slots back. */
  lemma AnotherRewrite()
    ensures Rewrite(AnotherFormula(), RewriteContext("another", "n", 1, 4, Ident("n"))) == Ok(AnotherBody())
  {
    var ctx := RewriteContext("another", "n", 1, 4, Ident("n"));
    assert CallName(Ident("another")) == Ok("another");
    assert Rewrite(AnotherCall(1), ctx) == Ok(TupleAccess(1, 4));
    assert Rewrite(AnotherCall(3), ctx) == Ok(TupleAccess(3, 4));
    assert Rewrite(AnotherCall(4), ctx) == Ok(TupleAccess(4, 4));
  }

  /** The constant values read into the buffer from the window [b, b + 1, b + 2, b + 3]. */
  lemma AscendingTmpTuple(cs: BTreeMap, b: int)
    requires cs == [(b, 0), (b + 1, 1), (b + 2, 2), (b + 3, 3)]
    ensures forall x :: x in [b, b + 1, b + 2, b + 3] ==> x in ToMap(cs)
    ensures TmpTuple(cs, [b, b + 1, b + 2, b + 3]) == [0, 1, 2, 3]
  {
    assert cs[0].0 in KeySet(cs) && cs[1].0 in KeySet(cs) && cs[2].0 in KeySet(cs) && cs[3].0 in KeySet(cs);
    assert ToMap(cs)[cs[0].0] == 0 && ToMap(cs)[cs[1].0] == 1 && ToMap(cs)[cs[2].0] == 2 && ToMap(cs)[cs[3].0] == 3;
    var t := TmpTuple(cs, [b, b + 1, b + 2, b + 3]);
    assert t[0] == 0 && t[1] == 1 && t[2] == 2 && t[3] == 3;
  }

  /** No key of (b, 0), ..., (b + 3, 3) lies above b + 3. */
  lemma AscendingArms(cs: BTreeMap, b: int)
    requires cs == [(b, 0), (b + 1, 1), (b + 2, 2), (b + 3, 3)]
    ensures Arms(cs, b + 3, 1, StepSub) == []
  {
    assert !ArmKey(StepSub, b + 3, 1, b) && !ArmKey(StepSub, b + 3, 1, b + 1);
    assert !ArmKey(StepSub, b + 3, 1, b + 2) && !ArmKey(StepSub, b + 3, 1, b + 3);
    assert ArmsUpTo(cs, b + 3, 1, StepSub, 1) == [] + [];
    assert ArmsUpTo(cs, b + 3, 1, StepSub, 2) == [] + [];
    assert ArmsUpTo(cs, b + 3, 1, StepSub, 3) == [] + [];
    assert ArmsUpTo(cs, b + 3, 1, StepSub, 4) == [] + [];
  }

  /** `create_loop` on the window [b, b + 1, b + 2, b + 3] with a downward tuple of step 1. */
  lemma AscendingBranchFor(f: MatchFunction, b: int, body: Expr)
    requires f.constants == [(b, 0), (b + 1, 1), (b + 2, 2), (b + 3, 3)]
    requires Rewrite(f.recursiveExpr, RewriteContext(f.name, f.recursionParameter, 1, 4, Ident(f.recursionParameter))) == Ok(body)
    ensures forall x :: x in [b, b + 1, b + 2, b + 3] ==> x in ToMap(f.constants)
    ensures BranchFor(f, AnotherTuple(), [b, b + 1, b + 2, b + 3], KeepParameter) ==
      Ok(Branch(Guard(StepSub, b + 3, 1), [0, 1, 2, 3], 3, 4, CurrentArgument(b + 3, Add, 3, 1, f.argType), [], body))
  {
    var e, w := AnotherTuple(), [b, b + 1, b + 2, b + 3];
    assert |e.tuple| == 4;
    AscendingTmpTuple(f.constants, b);
    AscendingArms(f.constants, b);
    Examples.BranchForParts(f, e, w, body,
      Branch(Guard(StepSub, b + 3, 1), [0, 1, 2, 3], 3, 4, CurrentArgument(b + 3, Add, 3, 1, f.argType), [], body));
  }

  /** `create_loop` on the window [0, 1, 2, 3]. */
  lemma AnotherBranchFor(f: MatchFunction)
    requires f == Another()
    ensures |AnotherTuple().tuple| == 4
    ensures forall x :: x in [0, 1, 2, 3] ==> x in ToMap(f.constants)
    ensures BranchFor(f, AnotherTuple(), [0, 1, 2, 3], KeepParameter) == Ok(AnotherBranch())
  {
    Examples.SizeFour();
    assert f.constants == [(0, 0), (0 + 1, 1), (0 + 2, 2), (0 + 3, 3)];
    assert Rewrite(f.recursiveExpr, RewriteContext(f.name, f.recursionParameter, 1, 4, Ident(f.recursionParameter))) == Ok(AnotherBody()) by {
      AnotherRewrite();
    }
    AscendingBranchFor(f, 0, AnotherBody());
  }

  lemma AnotherSynthesis()
    ensures Synthesize(Another(), AnotherTuple(), KeepParameter) == Ok(AnotherPlan())
  {
    var f, e := Another(), AnotherTuple();
    assert |e.tuple| == 4;
    AnotherSeeds();
    AnotherBranchFor(f);
    assert [[0, 1, 2, 3]][1..] == [];
    assert BranchesFor(f, e, [[0, 1, 2, 3]], KeepParameter) == Ok([AnotherBranch()] + []);
    assert [AnotherBranch()] + [] == [AnotherBranch()];
    assert ConstantChecks(f.constants) == AnotherPlan().checks;
  }

  /** `construct_iterative_stmts` on another: four fast paths and one block. */
  lemma AnotherIterativeBody()
    ensures IterativeBody(Another(), KeepParameter) == Ok(AnotherPlan())
  {
    AnotherEureka();
    AnotherSynthesis();
  }

  /** One unfolding of the formula at a non-key argument m. */
  lemma FormulaUnfold(f: MatchFunction, m: int, fuel: nat, a: int, b: int, c: int)
    requires f.name == "another" && f.recursionParameter == "n" && f.recursiveExpr == AnotherFormula()
    requires m !in ToMap(f.constants)
    requires NaiveAt(f, fuel, m - 1) == Some(a) && NaiveAt(f, fuel, m - 3) == Some(b) && NaiveAt(f, fuel, m - 4) == Some(c)
    ensures NaiveAt(f, fuel + 1, m) == Some(a + b + c)
  {
    Examples.NaiveUnfold(f, fuel, m);
    Examples.NaiveSubCall(f, 1, fuel, m);
    Examples.NaiveSubCall(f, 3, fuel, m);
    Examples.NaiveSubCall(f, 4, fuel, m);
    var s1 := Binary(AnotherCall(1), Add, AnotherCall(3));
    Examples.NaiveBinary(f, AnotherCall(1), Add, AnotherCall(3), fuel, m, a, b);
    Examples.NaiveBinary(f, s1, Add, AnotherCall(4), fuel, m, a + b, c);
  }

  /** What the induction uses of another: its name, parameter and formula, and its constants as a map. */
  ghost predicate AnotherShape(f: MatchFunction) {
    f.name == "another" && f.recursionParameter == "n" && f.recursiveExpr == AnotherFormula() &&
    (forall k :: k in ToMap(f.constants) <==> k == 0 || k == 1 || k == 2 || k == 3) &&
    ToMap(f.constants)[0] == 0 && ToMap(f.constants)[1] == 1 && ToMap(f.constants)[2] == 2 && ToMap(f.constants)[3] == 3
  }

  lemma NaiveAnotherKey(f: MatchFunction, fuel: nat, n: nat)
    requires AnotherShape(f) && n <= 3
    ensures NaiveAt(f, fuel, n) == Some(AnotherValue(n))
  {
    assert n == 0 || n == 1 || n == 2 || n == 3;
  }

  lemma NaiveAnotherStep(f: MatchFunction, n: nat)
    requires f.name == "another" && f.recursionParameter == "n" && f.recursiveExpr == AnotherFormula()
    requires n > 3 && n !in ToMap(f.constants)
    requires NaiveAt(f, n - 1, n - 1) == Some(AnotherValue(n - 1)) && NaiveAt(f, n - 3, n - 3) == Some(AnotherValue(n - 3))
    requires NaiveAt(f, n - 4, n - 4) == Some(AnotherValue(n - 4))
    ensures NaiveAt(f, n, n) == Some(AnotherValue(n))
  {
    NaiveAtMonotone(f, n - 3, n - 1, n - 3);
    NaiveAtMonotone(f, n - 4, n - 1, n - 4);
    FormulaUnfold(f, n, n - 1, AnotherValue(n - 1), AnotherValue(n - 3), AnotherValue(n - 4));
  }

  /** The recursion computes AnotherValue, unfolding the formula at most n times. */
  lemma {:induction false} NaiveAnotherValue(f: MatchFunction, n: nat)
    requires AnotherShape(f)
    ensures NaiveAt(f, n, n) == Some(AnotherValue(n))
  {
    if n <= 3 {
      NaiveAnotherKey(f, n, n);
    } else {
      NaiveAnotherValue(f, n - 1);
      NaiveAnotherValue(f, n - 3);
      NaiveAnotherValue(f, n - 4);
      assert n !in ToMap(f.constants);
      NaiveAnotherStep(f, n);
    }
  }

  lemma AnotherNaive(n: nat)
    ensures NaiveAt(Another(), n, n) == Some(AnotherValue(n))
  {
    AnotherConstantsMap();
    AnotherConstantValues();
    NaiveAnotherValue(Another(), n);
  }

  lemma AnotherParameterInCallsOnly()
    ensures ParameterOnlyInCalls(AnotherFormula(), "another", "n")
  {
    assert CallName(Ident("another")) == Ok("another");
  }

  /** The synthesized body agrees with another for every argument. */
  lemma AnotherComputes(n: nat)
    ensures RunPlan(AnotherPlan(), n) == Value(AnotherValue(n))
  {
    var f, p, fuel, v := Another(), AnotherPlan(), n, AnotherValue(n);
    assert IterativeBody(f, KeepParameter) == Ok(p) by { AnotherIterativeBody(); }
    assert NaiveAt(f, fuel, n) == Some(v) by { AnotherNaive(n); }
    assert ParameterOnlyInCalls(f.recursiveExpr, f.name, f.recursionParameter) && f.recursionParameter != "i" by {
      AnotherParameterInCallsOnly();
    }
    if n <= 3 {
      assert n in ToMap(f.constants) by { AnotherConstantValues(); }
    } else {
      assert FirstBranch(p.branches, n).Some? by { assert GuardHolds(p.branches[0].guard, n); }
    }
    Examples.CoveredAgrees(f, p, n, fuel, v);
  }

  /** another(4), ..., another(20) = 4, 7, 12, 19, 30, 49, 80, 129, 208, 337, 546, 883, 1428, 2311, 3740, 6051, 9790. */
  lemma AnotherTwenty()
    ensures AnotherValue(20) == 9790
  {
    assert AnotherValue(4) == 4;
    assert AnotherValue(5) == 7;
    assert AnotherValue(6) == 12;
    assert AnotherValue(7) == 19;
    assert AnotherValue(8) == 30;
    assert AnotherValue(9) == 49;
    assert AnotherValue(10) == 80;
    assert AnotherValue(11) == 129;
    assert AnotherValue(12) == 208;
    assert AnotherValue(13) == 337;
    assert AnotherValue(14) == 546;
    assert AnotherValue(15) == 883;
    assert AnotherValue(16) == 1428;
    assert AnotherValue(17) == 2311;
    assert AnotherValue(18) == 3740;
    assert AnotherValue(19) == 6051;
  }

  /** `test_another`: 9790 for 20. */
  lemma AnotherValues()
    ensures RunPlan(AnotherPlan(), 20) == Value(9790)
  {
    AnotherComputes(20);
    AnotherTwenty();
  }
}
