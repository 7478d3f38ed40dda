/**
 * `another2` of the basic tests: `another` mirrored, with the self-calls
 * stepping up from the keys 1000 to 1003. The seed window is taken from the
 * top and reversed, and the block counts the argument down from 1000.
 */
module Another2Example {
  import opened Wrappers
  import opened Syntax
  import opened Plans
  import opened SortedMap
  import opened RecursiveCalls
  import Eureka
  import Seeds
  import opened Synthesis
  import opened Generated
  import opened Reference
  import Examples
  import AnotherExample

  // another2(n) = match n { 1000 => 0, 1001 => 1, 1002 => 2, 1003 => 3,
  //                         _ => another2(n + 1) + another2(n + 3) + another2(n + 4) }

  function UpCall(k: int): Expr {
    Call(Ident("another2"), [Binary(Ident("n"), Add, IntExpr(k))])
  }

  function Another2Formula(): Expr {
    Binary(Binary(UpCall(1), Add, UpCall(3)), Add, UpCall(4))
  }

  function Another2Constants(): BTreeMap {
    [(1000, 0), (1001, 1), (1002, 2), (1003, 3)]
  }

  function Another2(): MatchFunction {
    MatchFunction("another2", "n", Another2Constants(), Another2Formula(), Type("u64"))
  }

  function Another2Tuple(): Eureka.EurekaTuple {
    Eureka.EurekaTuple({1, 2, 3, 4}, StepAdd, 1)
  }

  /** The function the recursion denotes at and below 1003; above, the recursion never reaches a key (Another2DivergesAbove). */
  function Another2Value(n: int): int
    requires n <= 1003
    decreases 1003 - n
  {
    if n >= 1000 then n - 1000 else Another2Value(n + 1) + Another2Value(n + 3) + Another2Value(n + 4)
  }

  function Another2Body(): Expr {
    Binary(Binary(TupleAccess(1, 4), Add, TupleAccess(3, 4)), Add, TupleAccess(4, 4))
  }

  /** A single block from 1000 downwards, with the buffer holding the constants of 1003, 1002, 1001, 1000. */
  function Another2Branch(): Branch {
    Branch(Guard(StepAdd, 1000, 1), [3, 2, 1, 0], 3, 4, CurrentArgument(1000, Sub, 3, 1, Type("u64")), [], Another2Body())
  }

  function Another2Plan(): Plan {
    Plan("n", [ConstantCheck(1000, 0), ConstantCheck(1001, 1), ConstantCheck(1002, 2), ConstantCheck(1003, 3)], [Another2Branch()])
  }

  function Raw(): seq<RecursiveCall> {
    [RecursiveCall(1, StepAdd, 1), RecursiveCall(3, StepAdd, 1), RecursiveCall(4, StepAdd, 1)]
  }

  lemma Another2Calls()
    ensures RawCalls(Another2Formula(), "another2", "n") == Ok(Raw())
  {
    var a1, a2, a3 := Binary(Ident("n"), Add, IntExpr(1)), Binary(Ident("n"), Add, IntExpr(3)), Binary(Ident("n"), Add, IntExpr(4));
    var c1, c2, c3 := ExprCall(Ident("another2"), [a1]), ExprCall(Ident("another2"), [a2]), ExprCall(Ident("another2"), [a3]);
    assert FindCalls(Another2Formula()) == Ok(([c1] + [c2]) + [c3]);
    assert ([c1] + [c2]) + [c3] == [c1, c2, c3];
    var r := Raw();
    assert ArgStep(a1, "n") == Ok(r[0]) && ArgStep(a2, "n") == Ok(r[1]) && ArgStep(a3, "n") == Ok(r[2]);
    Examples.ThreeSelfCalls(Another2Formula(), "another2", "n", a1, a2, a3, r);
  }

  lemma Another2Gcd()
    ensures Numeric.GcdFold(1, Steps(Raw())) == 1
  {
    assert Steps(Raw()) == [1, 3, 4];
    assert [1, 3, 4][1..] == [3, 4] && [3, 4][1..] == [4] && [4][1..] == [];
    assert Numeric.Gcd(1, 1) == 1 && Numeric.Gcd(1, 3) == 1 && Numeric.Gcd(1, 4) == 1;
  }

  lemma Another2Sorted()
    ensures SortBySteps(Normalize(Raw(), 1)) == Raw()
  {
    var r := Raw();
    assert Normalize(r, 1) == r;
    Examples.SortedThree(r);
  }

  /** All three self-calls step up, with common step size 1. */
  lemma Another2Analysis()
    ensures AnalyseCalls(Another2Formula(), "another2", "n") == Ok(CallAnalysis(Raw(), StepAdd, 1))
  {
    var r := Raw();
    assert RawCalls(Another2Formula(), "another2", "n") == Ok(r) by { Another2Calls(); }
    assert Numeric.GcdFold(r[0].steps, Steps(r)) == 1 by { Another2Gcd(); }
    assert SortBySteps(Normalize(r, 1)) == r by { Another2Sorted(); }
    Examples.SameOperatorThree(r);
    Examples.AnalysisOf(Another2Formula(), "another2", "n", r, 1, r);
  }

  /** The same rounds as for `another`: the eureka tuple {1, 2, 3, 4}, stepping up. */
  lemma Another2Eureka()
    ensures Eureka.EurekaFor(Another2Formula(), "another2", "n") == Ok(Another2Tuple())
  {
    Another2Analysis();
    var d := Eureka.StepSet(Raw());
    assert d == {1, 3, 4} by {
      assert Raw()[0].steps as int in d && Raw()[1].steps as int in d && Raw()[2].steps as int in d;
    }
    assert Eureka.SetMax(d) == 4;
    assert Eureka.Pow2(4) == 16;
    assert Eureka.EurekaFuel(d) == 17;
    AnotherExample.AnotherFixedPoint();
  }

  lemma Another2ConstantValues()
    ensures 1000 in ToMap(Another2Constants()) && 1001 in ToMap(Another2Constants())
    ensures 1002 in ToMap(Another2Constants()) && 1003 in ToMap(Another2Constants())
    ensures ToMap(Another2Constants())[1000] == 0 && ToMap(Another2Constants())[1001] == 1
    ensures ToMap(Another2Constants())[1002] == 2 && ToMap(Another2Constants())[1003] == 3
  {
    var cs := Another2Constants();
    assert cs[0].0 in KeySet(cs) && cs[1].0 in KeySet(cs) && cs[2].0 in KeySet(cs) && cs[3].0 in KeySet(cs);
  }

  lemma Another2ConstantsMap()
    ensures forall k :: k in ToMap(Another2Constants()) <==> k == 1000 || k == 1001 || k == 1002 || k == 1003
  {
    AnotherExample.ConsecutiveKeySet(Another2Constants(), 1000);
  }

  /** The single window, reversed: [1003, 1002, 1001, 1000]. */
  lemma Another2Seeds()
    ensures Seeds.SeedsFor(Another2Constants(), {1, 2, 3, 4}, 1, StepAdd) == Ok([[1003, 1002, 1001, 1000]])
  {
    assert Keys(Another2Constants()) == [1000, 1001, 1002, 1003];
    AnotherExample.ConsecutiveSeeds(Another2Constants(), 1000);
  }

  /** Each self-call `another2(n + k)` becomes a read k slots back. */
  lemma Another2Rewrite()
    ensures Rewrite(Another2Formula(), RewriteContext("another2", "n", 1, 4, Ident("n"))) == Ok(Another2Body())
  {
    var ctx := RewriteContext("another2", "n", 1, 4, Ident("n"));
    assert CallName(Ident("another2")) == Ok("another2");
    assert Rewrite(UpCall(1), ctx) == Ok(TupleAccess(1, 4));
    assert Rewrite(UpCall(3), ctx) == Ok(TupleAccess(3, 4));
    assert Rewrite(UpCall(4), ctx) == Ok(TupleAccess(4, 4));
  }

  /** The buffer of the window [b + 3, b + 2, b + 1, b] over the constants (b, 0), ..., (b + 3, 3). */
  lemma DescendingTmpTuple(cs: BTreeMap, b: int)
    requires cs == [(b, 0), (b + 1, 1), (b + 2, 2), (b + 3, 3)]
    ensures forall x :: x in [b + 3, b + 2, b + 1, b] ==> x in ToMap(cs)
    ensures TmpTuple(cs, [b + 3, b + 2, b + 1, b]) == [3, 2, 1, 0]
  {
    assert cs[0].0 in KeySet(cs) && cs[1].0 in KeySet(cs) && cs[2].0 in KeySet(cs) && cs[3].0 in KeySet(cs);
    assert ToMap(cs)[cs[0].0] == 0 && ToMap(cs)[cs[1].0] == 1 && ToMap(cs)[cs[2].0] == 2 && ToMap(cs)[cs[3].0] == 3;
    var t := TmpTuple(cs, [b + 3, b + 2, b + 1, b]);
    assert t[0] == 3 && t[1] == 2 && t[2] == 1 && t[3] == 0;
  }

  /** No key of (b, 0), ..., (b + 3, 3) lies below b. */
  lemma DescendingArms(cs: BTreeMap, b: int)
    requires cs == [(b, 0), (b + 1, 1), (b + 2, 2), (b + 3, 3)]
    ensures Arms(cs, b, 1, StepAdd) == []
  {
    assert !ArmKey(StepAdd, b, 1, b) && !ArmKey(StepAdd, b, 1, b + 1);
    assert !ArmKey(StepAdd, b, 1, b + 2) && !ArmKey(StepAdd, b, 1, b + 3);
    assert ArmsUpTo(cs, b, 1, StepAdd, 1) == [] + [];
    assert ArmsUpTo(cs, b, 1, StepAdd, 2) == [] + [];
    assert ArmsUpTo(cs, b, 1, StepAdd, 3) == [] + [];
    assert ArmsUpTo(cs, b, 1, StepAdd, 4) == [] + [];
  }

  /** `create_loop` on the window [b + 3, b + 2, b + 1, b] with an upward tuple of step 1. */
  lemma DescendingBranchFor(f: MatchFunction, b: int, body: Expr)
    requires f.constants == [(b, 0), (b + 1, 1), (b + 2, 2), (b + 3, 3)]
    requires Rewrite(f.recursiveExpr, RewriteContext(f.name, f.recursionParameter, 1, 4, Ident(f.recursionParameter))) == Ok(body)
    ensures forall x :: x in [b + 3, b + 2, b + 1, b] ==> x in ToMap(f.constants)
    ensures BranchFor(f, Another2Tuple(), [b + 3, b + 2, b + 1, b], KeepParameter) ==
      Ok(Branch(Guard(StepAdd, b, 1), [3, 2, 1, 0], 3, 4, CurrentArgument(b, Sub, 3, 1, f.argType), [], body))
  {
    var e, w := Another2Tuple(), [b + 3, b + 2, b + 1, b];
    assert |e.tuple| == 4;
    DescendingTmpTuple(f.constants, b);
    DescendingArms(f.constants, b);
    Examples.BranchForParts(f, e, w, body,
      Branch(Guard(StepAdd, b, 1), [3, 2, 1, 0], 3, 4, CurrentArgument(b, Sub, 3, 1, f.argType), [], body));
  }

  /** `create_loop` on the window [1003, 1002, 1001, 1000]. */
  lemma Another2BranchFor(f: MatchFunction)
    requires f == Another2()
    ensures |Another2Tuple().tuple| == 4
    ensures forall x :: x in [1003, 1002, 1001, 1000] ==> x in ToMap(f.constants)
    ensures BranchFor(f, Another2Tuple(), [1003, 1002, 1001, 1000], KeepParameter) == Ok(Another2Branch())
  {
    Examples.SizeFour();
    assert f.constants == [(1000, 0), (1000 + 1, 1), (1000 + 2, 2), (1000 + 3, 3)];
    assert Rewrite(f.recursiveExpr, RewriteContext(f.name, f.recursionParameter, 1, 4, Ident(f.recursionParameter))) == Ok(Another2Body()) by {
      Another2Rewrite();
    }
    DescendingBranchFor(f, 1000, Another2Body());
  }

  lemma Another2Synthesis()
    ensures Synthesize(Another2(), Another2Tuple(), KeepParameter) == Ok(Another2Plan())
  {
    var f, e := Another2(), Another2Tuple();
    assert |e.tuple| == 4;
    Another2Seeds();
    Another2BranchFor(f);
    assert [[1003, 1002, 1001, 1000]][1..] == [];
    assert BranchesFor(f, e, [[1003, 1002, 1001, 1000]], KeepParameter) == Ok([Another2Branch()] + []);
    assert [Another2Branch()] + [] == [Another2Branch()];
    assert ConstantChecks(f.constants) == Another2Plan().checks;
  }

  /** `construct_iterative_stmts` on another2: four fast paths and one block counting down. */
  lemma Another2IterativeBody()
    ensures IterativeBody(Another2(), KeepParameter) == Ok(Another2Plan())
  {
    Another2Eureka();
    Another2Synthesis();
  }

  /** One unfolding of the formula at a non-key argument m. */
  lemma FormulaUnfold(f: MatchFunction, m: int, fuel: nat, a: int, b: int, c: int)
    requires f.name == "another2" && f.recursionParameter == "n" && f.recursiveExpr == Another2Formula()
    requires m !in ToMap(f.constants)
    requires NaiveAt(f, fuel, m + 1) == Some(a) && NaiveAt(f, fuel, m + 3) == Some(b) && NaiveAt(f, fuel, m + 4) == Some(c)
    ensures NaiveAt(f, fuel + 1, m) == Some(a + b + c)
  {
    Examples.NaiveUnfold(f, fuel, m);
    Examples.NaiveAddCall(f, 1, fuel, m);
    Examples.NaiveAddCall(f, 3, fuel, m);
    Examples.NaiveAddCall(f, 4, fuel, m);
    var s1 := Binary(UpCall(1), Add, UpCall(3));
    Examples.NaiveBinary(f, UpCall(1), Add, UpCall(3), fuel, m, a, b);
    Examples.NaiveBinary(f, s1, Add, UpCall(4), fuel, m, a + b, c);
  }

  /** What the induction uses of another2: its name, parameter and formula, and its constants as a map. */
  ghost predicate Another2Shape(f: MatchFunction) {
    f.name == "another2" && f.recursionParameter == "n" && f.recursiveExpr == Another2Formula() &&
    (forall k :: k in ToMap(f.constants) <==> k == 1000 || k == 1001 || k == 1002 || k == 1003) &&
    ToMap(f.constants)[1000] == 0 && ToMap(f.constants)[1001] == 1 &&
    ToMap(f.constants)[1002] == 2 && ToMap(f.constants)[1003] == 3
  }

  lemma NaiveAnother2Key(f: MatchFunction, fuel: nat, n: int)
    requires Another2Shape(f) && 1000 <= n <= 1003
    ensures NaiveAt(f, fuel, n) == Some(Another2Value(n))
  {
    assert n == 1000 || n == 1001 || n == 1002 || n == 1003;
  }

  lemma NaiveAnother2Step(f: MatchFunction, n: int)
    requires f.name == "another2" && f.recursionParameter == "n" && f.recursiveExpr == Another2Formula()
    requires n < 1000 && n !in ToMap(f.constants)
    requires NaiveAt(f, 1002 - n, n + 1) == Some(Another2Value(n + 1))
    requires NaiveAt(f, 1000 - n, n + 3) == Some(Another2Value(n + 3))
    requires NaiveAt(f, 999 - n, n + 4) == Some(Another2Value(n + 4))
    ensures NaiveAt(f, 1003 - n, n) == Some(Another2Value(n))
  {
    NaiveAtMonotone(f, 1000 - n, 1002 - n, n + 3);
    NaiveAtMonotone(f, 999 - n, 1002 - n, n + 4);
    FormulaUnfold(f, n, 1002 - n, Another2Value(n + 1), Another2Value(n + 3), Another2Value(n + 4));
  }

  /** The recursion computes Another2Value, unfolding the formula at most 1003 - n times. */
  lemma {:induction false} NaiveAnother2Value(f: MatchFunction, n: int)
    requires Another2Shape(f) && n <= 1003
    ensures NaiveAt(f, 1003 - n, n) == Some(Another2Value(n))
    decreases 1003 - n
  {
    if n >= 1000 {
      NaiveAnother2Key(f, 1003 - n, n);
    } else {
      NaiveAnother2Value(f, n + 1);
      NaiveAnother2Value(f, n + 3);
      NaiveAnother2Value(f, n + 4);
      assert n !in ToMap(f.constants);
      NaiveAnother2Step(f, n);
    }
  }

  lemma Another2Naive(n: int)
    requires n <= 1003
    ensures NaiveAt(Another2(), 1003 - n, n) == Some(Another2Value(n))
  {
    Another2ConstantsMap();
    Another2ConstantValues();
    NaiveAnother2Value(Another2(), n);
  }

  lemma Another2ParameterInCallsOnly()
    ensures ParameterOnlyInCalls(Another2Formula(), "another2", "n")
  {
    assert CallName(Ident("another2")) == Ok("another2");
  }

  /** Where a fast path or the block's guard applies, the synthesized body returns what the recursion returns. */
  lemma Another2Covered(n: int, fuel: nat, v: int)
    requires n in ToMap(Another2Constants()) || GuardHolds(Another2Branch().guard, n)
    requires NaiveAt(Another2(), fuel, n) == Some(v)
    ensures RunPlan(Another2Plan(), n) == Value(v)
  {
    var f, p := Another2(), Another2Plan();
    assert IterativeBody(f, KeepParameter) == Ok(p) by { Another2IterativeBody(); }
    assert ParameterOnlyInCalls(f.recursiveExpr, f.name, f.recursionParameter) && f.recursionParameter != "i" by {
      Another2ParameterInCallsOnly();
    }
    if n !in ToMap(f.constants) {
      assert FirstBranch(p.branches, n).Some? by { assert GuardHolds(p.branches[0].guard, n); }
    }
    Examples.CoveredAgrees(f, p, n, fuel, v);
  }

  /** The synthesized body agrees with another2 for every argument up to 1003. */
  lemma Another2Computes(n: int)
    requires n <= 1003
    ensures RunPlan(Another2Plan(), n) == Value(Another2Value(n))
  {
    var fuel, v := 1003 - n, Another2Value(n);
    assert NaiveAt(Another2(), fuel, n) == Some(v) by { Another2Naive(n); }
    if n >= 1000 {
      assert n == 1000 || n == 1001 || n == 1002 || n == 1003;
      Another2ConstantValues();
    } else {
      assert GuardHolds(Another2Branch().guard, n);
    }
    Another2Covered(n, fuel, v);
  }

  /** Above 1003 the recursion never reaches a value: every unfolding calls another2(n + 1), further up. */
  lemma {:induction false} Another2DivergesAbove(fuel: nat, n: int)
    requires n > 1003
    ensures NaiveAt(Another2(), fuel, n) == None
    decreases fuel
  {
    Another2ConstantsMap();
    assert n !in ToMap(Another2Constants());
    if fuel > 0 {
      Another2DivergesAbove(fuel - 1, n + 1);
      Examples.NaiveAddCall(Another2(), 1, fuel - 1, n);
      assert NaiveEval(Another2(), UpCall(1), fuel - 1, n) == None;
      assert NaiveEval(Another2(), Binary(UpCall(1), Add, UpCall(3)), fuel - 1, n) == None;
    }
  }

  /** Above 1003 no fast path and no guard applies: the synthesized body panics, as the recursion has no value there. */
  lemma Another2PanicsAbove(n: int)
    requires n > 1003
    ensures RunPlan(Another2Plan(), n) == Panic
    ensures forall fuel: nat :: NaiveAt(Another2(), fuel, n) == None
  {
    forall fuel: nat ensures NaiveAt(Another2(), fuel, n) == None {
      Another2DivergesAbove(fuel, n);
    }
    assert CheckLookup(Another2Plan().checks, n) == None;
    assert !GuardHolds(Another2Branch().guard, n);
  }

  /** another2(999), ..., another2(990) = 5, 8, 9, 14, 27, 44, 67, 108, 179, 290. */
  lemma Another2NineNinety()
    ensures Another2Value(990) == 290
  {
    assert Another2Value(999) == 5;
    assert Another2Value(998) == 8;
    assert Another2Value(997) == 9;
    assert Another2Value(996) == 14;
    assert Another2Value(995) == 27;
    assert Another2Value(994) == 44;
    assert Another2Value(993) == 67;
    assert Another2Value(992) == 108;
    assert Another2Value(991) == 179;
  }

  /** `test_another2`: 290 for 990. */
  lemma Another2Values()
    ensures RunPlan(Another2Plan(), 990) == Value(290)
  {
    Another2Computes(990);
    Another2NineNinety();
  }
}
