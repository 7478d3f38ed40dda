/**
 * `foo` of the basic tests: steps of 2 and 4, so two residue classes, each
 * with its own block; the constant 51 becomes a correction arm of the odd
 * block only. The synthesized body is `foo_result`, and it agrees with the
 * recursion for every argument.
 */
module FooExample {
  import opened Wrappers
  import opened Syntax
  import opened Plans
  import opened SortedMap
  import opened RecursiveCalls
  import Eureka
  import Seeds
  import opened Synthesis
  import opened Generated
  import opened Reference
  import Examples
  import FibExample

  // foo(n) = match n { 0 => 0, 1 => 1, 2 => 2, 3 => 3, 51 => 0, _ => foo(n - 2) + foo(n - 4) }

  function FooCall(k: int): Expr {
    Call(Ident("foo"), [Binary(Ident("n"), Sub, IntExpr(k))])
  }

  function FooFormula(): Expr {
    Binary(FooCall(2), Add, FooCall(4))
  }

  function FooConstants(): BTreeMap {
    [(0, 0), (1, 1), (2, 2), (3, 3), (51, 0)]
  }

  function Foo(): MatchFunction {
    MatchFunction("foo", "n", FooConstants(), FooFormula(), Type("u32"))
  }

  function FooTuple(): Eureka.EurekaTuple {
    Eureka.EurekaTuple({1, 2}, StepSub, 2)
  }

  /** The function the recursion denotes on the naturals. */
  function FooValue(n: nat): int {
    if n <= 3 then n else if n == 51 then 0 else FooValue(n - 2) + FooValue(n - 4)
  }

  function FooBody(): Expr {
    Binary(TupleAccess(1, 2), Add, TupleAccess(2, 2))
  }

  /** `foo_result`'s even block: from 2 with the buffer [0, 2], no correction arm. */
  function EvenBranch(): Branch {
    Branch(Guard(StepSub, 2, 2), [0, 2], 1, 2, CurrentArgument(2, Add, 1, 2, Type("u32")), [], FooBody())
  }

  /** `foo_result`'s odd block: from 3 with the buffer [1, 3], and the arm `51 => 0`. */
  function OddBranch(): Branch {
    Branch(Guard(StepSub, 3, 2), [1, 3], 1, 2, CurrentArgument(3, Add, 1, 2, Type("u32")), [LoopArm(51, 0)], FooBody())
  }

  function FooPlan(): Plan {
    Plan("n", [ConstantCheck(0, 0), ConstantCheck(1, 1), ConstantCheck(2, 2), ConstantCheck(3, 3), ConstantCheck(51, 0)],
      [EvenBranch(), OddBranch()])
  }

  function Raw(): seq<RecursiveCall> {
    [RecursiveCall(2, StepSub, 1), RecursiveCall(4, StepSub, 1)]
  }

  function Normalised(): seq<RecursiveCall> {
    [RecursiveCall(1, StepSub, 2), RecursiveCall(2, StepSub, 2)]
  }

  lemma FooCalls()
    ensures RawCalls(FooFormula(), "foo", "n") == Ok(Raw())
  {
    var a1, a2 := Binary(Ident("n"), Sub, IntExpr(2)), Binary(Ident("n"), Sub, IntExpr(4));
    var c1, c2 := ExprCall(Ident("foo"), [a1]), ExprCall(Ident("foo"), [a2]);
    var calls := [c1, c2];
    assert FindCalls(FooFormula()) == Ok([c1] + [c2]);
    assert [c1] + [c2] == calls && [c2] + [] == [c2];
    assert CallName(Ident("foo")) == Ok("foo");
    Examples.FilterCons(c2, [], "foo", []);
    Examples.FilterCons(c1, [c2], "foo", [c2]);
    Examples.AllArgsSnoc([], c1);
    Examples.AllArgsSnoc([c1], c2);
    assert [] + [c1] == [c1];
    assert AllArgs(calls) == [a1, a2];
    var r := Raw();
    assert ArgStep(a1, "n") == Ok(r[0]) && ArgStep(a2, "n") == Ok(r[1]);
    assert [a2] + [] == [a2] && [a1] + [a2] == [a1, a2];
    assert [r[1]] + [] == [r[1]] && [r[0]] + [r[1]] == r;
    Examples.ArgStepsCons(a2, [], "n", r[1], []);
    Examples.ArgStepsCons(a1, [a2], "n", r[0], [r[1]]);
  }

  /** gcd(2, 4) = 2, and the steps normalise to 1, 2. */
  lemma FooGcd()
    ensures Numeric.GcdFold(2, Steps(Raw())) == 2
  {
    assert Steps(Raw()) == [2, 4];
    assert [2, 4][1..] == [4] && [4][1..] == [];
    assert Numeric.Gcd(2, 2) == 2;
    assert Numeric.Gcd(2, 4) == 2 by {
      assert Numeric.Gcd(4, 2 % 4) == 2 by {
        assert Numeric.Gcd(2, 4 % 2) == 2;
      }
    }
  }

  lemma FooSorted()
    ensures SortBySteps(Normalize(Raw(), 2)) == Normalised()
  {
    var n1, n2 := RecursiveCall(1, StepSub, 2), RecursiveCall(2, StepSub, 2);
    assert Normalize(Raw(), 2) == [n1, n2];
    assert [n1, n2][1..] == [n2] && [n2][1..] == [];
    assert SortBySteps([n2]) == [n2];
    assert InsertBySteps(n1, [n2]) == [n1] + [n2];
  }

  /** The steps 1 and 2 with common step size 2: the eureka tuple {1, 2}. */
  lemma FooEureka()
    ensures Eureka.EurekaFor(FooFormula(), "foo", "n") == Ok(FooTuple())
  {
    FooCalls();
    FooGcd();
    FooSorted();
    Examples.AnalysisOf(FooFormula(), "foo", "n", Raw(), 2, Normalised());
    var d := Eureka.StepSet(Normalised());
    assert d == {1, 2} by {
      assert Normalised()[0].steps as int in d && Normalised()[1].steps as int in d;
    }
    assert Eureka.SetMax(d) == 2;
    assert Eureka.EurekaFuel(d) == 5;
    FibExample.FibFixedPoint();
  }

  lemma FooConstantsMap()
    ensures forall k :: k in ToMap(FooConstants()) <==> k == 0 || k == 1 || k == 2 || k == 3 || k == 51
    ensures ToMap(FooConstants())[0] == 0 && ToMap(FooConstants())[1] == 1 && ToMap(FooConstants())[2] == 2
    ensures ToMap(FooConstants())[3] == 3 && ToMap(FooConstants())[51] == 0
  {
    var cs := FooConstants();
    assert cs[0].0 in KeySet(cs) && cs[1].0 in KeySet(cs) && cs[2].0 in KeySet(cs) && cs[3].0 in KeySet(cs) && cs[4].0 in KeySet(cs);
    forall x | x in KeySet(cs) ensures x == 0 || x == 1 || x == 2 || x == 3 || x == 51 {
      var i :| 0 <= i < |cs| && cs[i].0 == x;
    }
  }

  /** The five keys and their constants, without the claim that there are no others. */
  lemma FooConstantValues()
    ensures 0 in ToMap(FooConstants()) && 1 in ToMap(FooConstants()) && 2 in ToMap(FooConstants())
    ensures 3 in ToMap(FooConstants()) && 51 in ToMap(FooConstants())
    ensures ToMap(FooConstants())[0] == 0 && ToMap(FooConstants())[1] == 1 && ToMap(FooConstants())[2] == 2
    ensures ToMap(FooConstants())[3] == 3 && ToMap(FooConstants())[51] == 0
  {
    var cs := FooConstants();
    assert cs[0].0 in KeySet(cs) && cs[1].0 in KeySet(cs) && cs[2].0 in KeySet(cs) && cs[3].0 in KeySet(cs) && cs[4].0 in KeySet(cs);
  }

  function FooKeys(): seq<int> {
    [0, 1, 2, 3, 51]
  }

  /** None of 2, 3, 51 starts a full window: 4, 5 and 53 are not keys. */
  lemma FooLateStarts()
    ensures Seeds.CandidatesFrom(FooKeys(), [2, 3, 51], 2, 2) == []
  {
    var keys := FooKeys();
    assert !Seeds.IsFullWindow(keys, 51, 2, 2) by { assert 51 + 1 * 2 !in keys; }
    assert !Seeds.IsFullWindow(keys, 3, 2, 2) by { assert 3 + 1 * 2 !in keys; }
    assert !Seeds.IsFullWindow(keys, 2, 2, 2) by { assert 2 + 1 * 2 !in keys; }
    assert [2, 3, 51][1..] == [3, 51] && [3, 51][1..] == [51] && [51][1..] == [];
    assert Seeds.CandidatesFrom(keys, [51], 2, 2) == [];
    assert Seeds.CandidatesFrom(keys, [3, 51], 2, 2) == [];
  }

  /** A start c with c and c + q among the keys contributes the window [c, c + q]. */
  lemma CandidatesConsPair(keys: seq<int>, c: int, rest: seq<int>, q: nat)
    requires c in keys && c + q in keys
    ensures Seeds.CandidatesFrom(keys, [c] + rest, 2, q) == [[c, c + q]] + Seeds.CandidatesFrom(keys, rest, 2, q)
  {
    forall j | 0 <= j < 2 ensures c + j * q in keys {
      assert j == 0 || j == 1;
    }
    assert Seeds.IsFullWindow(keys, c, 2, q);
    var p := Seeds.Progression(c, 2, q);
    assert p[0] == c && p[1] == c + q;
    assert p == [c, c + q];
    assert ([c] + rest)[0] == c && ([c] + rest)[1..] == rest;
  }

  /** From 1 on, only the window [1, 3]. */
  lemma FooFromOne()
    ensures Seeds.CandidatesFrom(FooKeys(), [1, 2, 3, 51], 2, 2) == [[1, 3]]
  {
    FooLateStarts();
    assert [1] + [2, 3, 51] == [1, 2, 3, 51];
    CandidatesConsPair(FooKeys(), 1, [2, 3, 51], 2);
    assert [[1, 3]] + [] == [[1, 3]];
  }

  /** 0 and 1 start full windows, [0, 2] and [1, 3]. */
  lemma FooCandidates()
    ensures Seeds.Candidates(FooKeys(), 2, 2) == [[0, 2], [1, 3]]
  {
    assert [0] + [1, 2, 3, 51] == FooKeys();
    FooFromOne();
    CandidatesConsPair(FooKeys(), 0, [1, 2, 3, 51], 2);
    assert [[0, 2]] + [[1, 3]] == [[0, 2], [1, 3]];
  }

  /** Both windows survive: their starts lie in different classes modulo 2. */
  lemma FooSeeds()
    ensures Seeds.SeedsFor(FooConstants(), {1, 2}, 2, StepSub) == Ok([[0, 2], [1, 3]])
  {
    Examples.ContiguousTwo();
    assert Seeds.Candidates(Keys(FooConstants()), 2, 2) == [[0, 2], [1, 3]] by {
      assert Keys(FooConstants()) == FooKeys();
      FooCandidates();
    }
    assert !Seeds.SameClass(2, 0, 1);
    Examples.PairSeeds(FooConstants(), {1, 2}, 2, [0, 2], [1, 3]);
  }

  /** Each self-call becomes a read k / 2 slots back. */
  lemma FooRewrite()
    ensures Rewrite(FooFormula(), RewriteContext("foo", "n", 2, 2, Ident("n"))) == Ok(FooBody())
  {
    var ctx := RewriteContext("foo", "n", 2, 2, Ident("n"));
    assert CallName(Ident("foo")) == Ok("foo");
    assert Rewrite(FooCall(2), ctx) == Ok(TupleAccess(1, 2));
    assert Rewrite(FooCall(4), ctx) == Ok(TupleAccess(2, 2));
  }

  /** Above 2 no key is even; above 3 the odd key 51 becomes an arm. */
  lemma FooArms()
    ensures Arms(FooConstants(), 2, 2, StepSub) == []
    ensures Arms(FooConstants(), 3, 2, StepSub) == [LoopArm(51, 0)]
  {
    var cs := FooConstants();
    assert !ArmKey(StepSub, 2, 2, 0) && !ArmKey(StepSub, 2, 2, 1) && !ArmKey(StepSub, 2, 2, 2);
    assert !ArmKey(StepSub, 2, 2, 3) && !ArmKey(StepSub, 2, 2, 51);
    assert ArmsUpTo(cs, 2, 2, StepSub, 1) == [] + [];
    assert ArmsUpTo(cs, 2, 2, StepSub, 2) == [] + [];
    assert ArmsUpTo(cs, 2, 2, StepSub, 3) == [] + [];
    assert ArmsUpTo(cs, 2, 2, StepSub, 4) == [] + [];
    assert ArmsUpTo(cs, 2, 2, StepSub, 5) == [] + [];
    assert !ArmKey(StepSub, 3, 2, 0) && !ArmKey(StepSub, 3, 2, 1) && !ArmKey(StepSub, 3, 2, 2);
    assert !ArmKey(StepSub, 3, 2, 3) && ArmKey(StepSub, 3, 2, 51);
    assert ArmsUpTo(cs, 3, 2, StepSub, 1) == [] + [];
    assert ArmsUpTo(cs, 3, 2, StepSub, 2) == [] + [];
    assert ArmsUpTo(cs, 3, 2, StepSub, 3) == [] + [];
    assert ArmsUpTo(cs, 3, 2, StepSub, 4) == [] + [];
    assert ArmsUpTo(cs, 3, 2, StepSub, 5) == [] + [LoopArm(51, 0)];
  }

  /** The buffer of a two-key window holds the two constants. */
  lemma TmpTuplePair(cs: BTreeMap, a: int, b: int)
    requires a in ToMap(cs) && b in ToMap(cs)
    ensures forall x :: x in [a, b] ==> x in ToMap(cs)
    ensures TmpTuple(cs, [a, b]) == [ToMap(cs)[a], ToMap(cs)[b]]
  {
    var t := TmpTuple(cs, [a, b]);
    assert t[0] == ToMap(cs)[a] && t[1] == ToMap(cs)[b];
  }

  /** The seed buffers hold the constants of the windows, which here equal their keys. */
  lemma FooTmpTuples()
    ensures forall x :: x in [0, 2] ==> x in ToMap(FooConstants())
    ensures forall x :: x in [1, 3] ==> x in ToMap(FooConstants())
    ensures TmpTuple(FooConstants(), [0, 2]) == [0, 2] && TmpTuple(FooConstants(), [1, 3]) == [1, 3]
  {
    FooConstantValues();
    TmpTuplePair(FooConstants(), 0, 2);
    TmpTuplePair(FooConstants(), 1, 3);
  }

  /** `create_loop` on the window [0, 2]. */
  lemma EvenBranchFor()
    ensures |FooTuple().tuple| == 2
    ensures forall x :: x in [0, 2] ==> x in ToMap(FooConstants())
    ensures BranchFor(Foo(), FooTuple(), [0, 2], KeepParameter) == Ok(EvenBranch())
  {
    Examples.ContiguousTwo();
    var e, f, w := FooTuple(), Foo(), [0, 2];
    FooTmpTuples();
    assert CurrentArgumentOf(2, e, f.argType) == CurrentArgument(2, Add, 1, 2, Type("u32"));
    assert Rewrite(f.recursiveExpr, RewriteContext("foo", "n", 2, 2, Ident("n"))) == Ok(FooBody()) by { FooRewrite(); }
    assert Arms(f.constants, 2, 2, StepSub) == EvenBranch().arms by { FooArms(); }
    Examples.BranchForParts(f, e, w, FooBody(), EvenBranch());
  }

  /** `create_loop` on the window [1, 3]. */
  lemma OddBranchFor()
    ensures |FooTuple().tuple| == 2
    ensures forall x :: x in [1, 3] ==> x in ToMap(FooConstants())
    ensures BranchFor(Foo(), FooTuple(), [1, 3], KeepParameter) == Ok(OddBranch())
  {
    Examples.ContiguousTwo();
    var e, f, w := FooTuple(), Foo(), [1, 3];
    FooTmpTuples();
    assert CurrentArgumentOf(3, e, f.argType) == CurrentArgument(3, Add, 1, 2, Type("u32"));
    assert Rewrite(f.recursiveExpr, RewriteContext("foo", "n", 2, 2, Ident("n"))) == Ok(FooBody()) by { FooRewrite(); }
    assert Arms(f.constants, 3, 2, StepSub) == OddBranch().arms by { FooArms(); }
    Examples.BranchForParts(f, e, w, FooBody(), OddBranch());
  }

  /** The fast paths of foo, in key order. */
  lemma FooChecks()
    ensures ConstantChecks(FooConstants()) == FooPlan().checks
  {
  }

  lemma FooSynthesis()
    ensures Synthesize(Foo(), FooTuple(), KeepParameter) == Ok(FooPlan())
  {
    var f, e := Foo(), FooTuple();
    assert |e.tuple| == 2 by { Examples.ContiguousTwo(); }
    FooSeeds();
    EvenBranchFor();
    OddBranchFor();
    Examples.TwoBranchesFor(f, e, [0, 2], [1, 3], EvenBranch(), OddBranch());
    Examples.SynthesisOf(f, e, [[0, 2], [1, 3]], [EvenBranch(), OddBranch()]);
    FooChecks();
  }

  /** `construct_iterative_stmts` on foo gives `foo_result`. */
  lemma FooIterativeBody()
    ensures IterativeBody(Foo(), KeepParameter) == Ok(FooPlan())
  {
    FooEureka();
    FooSynthesis();
  }

  /** One unfolding of the formula at a non-key argument m, for any function with foo's name, parameter and formula. */
  lemma FormulaUnfold(f: MatchFunction, m: int, fuel: nat, a: int, b: int)
    requires f.name == "foo" && f.recursionParameter == "n" && f.recursiveExpr == FooFormula()
    requires m !in ToMap(f.constants)
    requires NaiveAt(f, fuel, m - 2) == Some(a) && NaiveAt(f, fuel, m - 4) == Some(b)
    ensures NaiveAt(f, fuel + 1, m) == Some(a + b)
  {
    Examples.NaiveUnfold(f, fuel, m);
    Examples.NaiveSubCall(f, 2, fuel, m);
    Examples.NaiveSubCall(f, 4, fuel, m);
    Examples.NaiveBinary(f, FooCall(2), Add, FooCall(4), fuel, m, a, b);
  }

  /** What the proofs below use of foo: its name, parameter and formula, and its constants as a map. */
  ghost predicate FooShape(f: MatchFunction) {
    f.name == "foo" && f.recursionParameter == "n" && f.recursiveExpr == FooFormula() &&
    (forall k :: k in ToMap(f.constants) <==> k == 0 || k == 1 || k == 2 || k == 3 || k == 51) &&
    ToMap(f.constants)[0] == 0 && ToMap(f.constants)[1] == 1 && ToMap(f.constants)[2] == 2 &&
    ToMap(f.constants)[3] == 3 && ToMap(f.constants)[51] == 0
  }

  lemma FooShaped()
    ensures FooShape(Foo())
  {
    FooConstantsMap();
  }

  /** The keys return their constants whatever the fuel. */
  lemma NaiveFooKey(f: MatchFunction, fuel: nat, n: nat)
    requires FooShape(f) && (n <= 3 || n == 51)
    ensures NaiveAt(f, fuel, n) == Some(FooValue(n))
  {
    if n == 51 {
      assert NaiveAt(f, fuel, 51) == Some(0);
    } else {
      assert n == 0 || n == 1 || n == 2 || n == 3;
      assert NaiveAt(f, fuel, n) == Some(n);
    }
  }

  /** One step of the induction: the value at n from the values at n - 2 and n - 4. */
  lemma NaiveFooStep(f: MatchFunction, n: nat)
    requires f.name == "foo" && f.recursionParameter == "n" && f.recursiveExpr == FooFormula()
    requires n > 3 && n != 51 && n !in ToMap(f.constants)
    requires NaiveAt(f, n - 2, n - 2) == Some(FooValue(n - 2)) && NaiveAt(f, n - 4, n - 4) == Some(FooValue(n - 4))
    ensures NaiveAt(f, n, n) == Some(FooValue(n))
  {
    var a, b := FooValue(n - 2), FooValue(n - 4);
    assert FooValue(n) == a + b;
    NaiveAtMonotone(f, n - 2, n - 1, n - 2);
    NaiveAtMonotone(f, n - 4, n - 1, n - 4);
    FormulaUnfold(f, n, n - 1, a, b);
  }

  /** The recursion computes FooValue, unfolding the formula at most n times. */
  lemma {:induction false} NaiveFooValue(f: MatchFunction, n: nat)
    requires FooShape(f)
    ensures NaiveAt(f, n, n) == Some(FooValue(n))
  {
    if n <= 3 || n == 51 {
      NaiveFooKey(f, n, n);
    } else {
      NaiveFooValue(f, n - 2);
      NaiveFooValue(f, n - 4);
      assert n !in ToMap(f.constants);
      NaiveFooStep(f, n);
    }
  }

  /** The recursive definition of foo computes FooValue. */
  lemma FooNaive(n: nat)
    ensures NaiveAt(Foo(), n, n) == Some(FooValue(n))
  {
    FooShaped();
    NaiveFooValue(Foo(), n);
  }

  lemma FooParameterInCallsOnly()
    ensures ParameterOnlyInCalls(FooFormula(), "foo", "n")
  {
    assert CallName(Ident("foo")) == Ok("foo");
  }

  /** Every argument other than a key passes one of the two guards: the even ones the first, the odd ones the second. */
  lemma FooGuards(n: int)
    requires n > 3
    ensures FirstBranch(FooPlan().branches, n).Some?
  {
    if n % 2 == 0 {
      assert GuardHolds(EvenBranch().guard, n);
    } else {
      assert GuardHolds(OddBranch().guard, n);
    }
  }

  /** `foo_result` agrees with `foo` for every argument. */
  lemma FooComputes(n: nat)
    ensures RunPlan(FooPlan(), n) == Value(FooValue(n))
  {
    assert IterativeBody(Foo(), KeepParameter) == Ok(FooPlan()) by { FooIterativeBody(); }
    assert NaiveAt(Foo(), n, n) == Some(FooValue(n)) by { FooNaive(n); }
    assert ParameterOnlyInCalls(Foo().recursiveExpr, Foo().name, Foo().recursionParameter) by { FooParameterInCallsOnly(); }
    if n <= 3 || n == 51 {
      assert n in ToMap(Foo().constants) by { FooConstantValues(); }
    } else {
      FooGuards(n);
    }
    AsWrittenBodyAgrees(Foo(), FooPlan(), n, n, FooValue(n));
  }
}
