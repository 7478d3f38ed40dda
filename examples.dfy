/**
 * Concrete instances: a formula that uses its parameter outside the
 * self-calls, on which the body as the source writes it disagrees with the
 * recursive definition while the corrected body agrees.
 */
module Examples {
  import opened Wrappers
  import opened Syntax
  import opened Plans
  import opened SortedMap
  import opened RecursiveCalls
  import Eureka
  import Seeds
  import opened Synthesis
  import opened Generated
  import opened Reference

  // ---------------------------------------------------------------------------
  // sum(n) = match n { 0 => 0, _ => sum(n - 1) + n }

  function SumFormula(): Expr {
    Binary(Call(Ident("sum"), [Binary(Ident("n"), Sub, IntExpr(1))]), Add, Ident("n"))
  }

  function Sum(): MatchFunction {
    MatchFunction("sum", "n", [(0, 0)], SumFormula(), Type("u64"))
  }

  function SumTuple(): Eureka.EurekaTuple {
    Eureka.EurekaTuple({1}, StepSub, 1)
  }

  lemma SumCalls()
    ensures RawCalls(SumFormula(), "sum", "n") == Ok([RecursiveCall(1, StepSub, 1)])
  {
    var arg := Binary(Ident("n"), Sub, IntExpr(1));
    var call := ExprCall(Ident("sum"), [arg]);
    assert FindCalls(Call(Ident("sum"), [arg])) == Ok([call]);
    assert FindCalls(Ident("n")) == Ok([]);
    assert FindCalls(SumFormula()) == Ok([call] + []);
    assert CallName(Ident("sum")) == Ok("sum");
    assert [call][1..] == [];
    assert FilterSelfCalls([call], "sum") == Ok([call] + []);
    assert [call][..0] == [];
    assert AllArgs([call]) == [] + [arg];
    assert ArgStep(arg, "n") == Ok(RecursiveCall(1, StepSub, 1));
    assert [arg][1..] == [];
    assert ArgSteps([arg], "n") == Ok([RecursiveCall(1, StepSub, 1)] + []);
    assert [call] + [] == [call] && [] + [arg] == [arg];
    assert [RecursiveCall(1, StepSub, 1)] + [] == [RecursiveCall(1, StepSub, 1)];
  }

  lemma SumEureka()
    ensures Eureka.EurekaFor(SumFormula(), "sum", "n") == Ok(SumTuple())
  {
    SumCalls();
    var raw := [RecursiveCall(1, StepSub, 1)];
    assert Steps(raw) == [1];
    assert Numeric.GcdFold(1, [1]) == 1;
    assert Normalize(raw, 1) == raw;
    assert SortBySteps(raw) == raw;
    var a := CallAnalysis(raw, StepSub, 1);
    assert AnalyseCalls(SumFormula(), "sum", "n") == Ok(a);
    var d := Eureka.StepSet(raw);
    assert d == {1};
    assert Eureka.SetMax(d) == 1;
    assert Eureka.EurekaFuel(d) == 3;
    var t := ({0} - {0}) + d;
    assert Eureka.SetMin(t) == 1;
    assert Eureka.Shift(t, 1) == {0} by {
      forall x ensures x in Eureka.Shift(t, 1) <==> x in {0} { Eureka.ShiftMember(t, 1, x); }
    }
    assert Eureka.Shift({0}, -1) == {1} by {
      forall x ensures x in Eureka.Shift({0}, -1) <==> x in {1} { Eureka.ShiftMember({0}, -1, x); }
    }
    assert Eureka.EurekaIterate({0}, d, 3) == Some({1});
  }

  lemma SumSeeds()
    ensures Seeds.SeedsFor([(0, 0)], {1}, 1, StepSub) == Ok([[0]])
  {
    assert |{1}| == 1;
    assert {1} == Eureka.Range(1, 2);
    assert Seeds.Contiguous({1});
    assert Keys([(0, 0)]) == [0];
    assert Seeds.IsFullWindow([0], 0, 1, 1) by {
      assert 0 + 0 * 1 in [0];
    }
    assert Seeds.Progression(0, 1, 1) == [0];
    assert [0][1..] == [];
    assert Seeds.CandidatesFrom([0], [], 1, 1) == [];
    assert Seeds.Candidates([0], 1, 1) == [[0]] + [];
    assert [[0]] + [] == [[0]];
    assert !Seeds.HasEarlier([[0]], 1, 0);
    assert Seeds.KeepFirstUpTo([[0]], 1, 0) == [];
    assert Seeds.KeepFirst([[0]], 1) == [] + [[0]];
    assert [] + [[0]] == [[0]];
    assert Seeds.Survivors([0], 1, 1, StepSub) == [[0]];
  }

  /** The block `create_loop` builds for sum, with the parameter read as `p`. */
  function SumBranch(p: Expr): Branch {
    Branch(Guard(StepSub, 0, 1), [0], 0, 1, CurrentArgument(0, Add, 0, 1, Type("u64")), [],
      Binary(TupleAccess(1, 1), Add, p))
  }

  function SumPlan(p: Expr): Plan {
    Plan("n", [ConstantCheck(0, 0)], [SumBranch(p)])
  }

  lemma SumSynthesis(reading: ParameterReading)
    ensures Synthesize(Sum(), SumTuple(), reading) ==
      Ok(SumPlan(ContextFor(Sum(), SumTuple(), CurrentArgument(0, Add, 0, 1, Type("u64")), reading).parameterExpr))
  {
    var f, e := Sum(), SumTuple();
    var arg := CurrentArgument(0, Add, 0, 1, Type("u64"));
    var ctx := ContextFor(f, e, arg, reading);
    SumSeeds();
    assert |e.tuple| == 1;
    var arm := Call(Ident("sum"), [Binary(Ident("n"), Sub, IntExpr(1))]);
    assert CallName(Ident("sum")) == Ok("sum");
    assert Rewrite(arm, ctx) == Ok(TupleAccess(1, 1));
    assert Rewrite(Ident("n"), ctx) == Ok(ctx.parameterExpr);
    assert Rewrite(SumFormula(), ctx) == Ok(Binary(TupleAccess(1, 1), Add, ctx.parameterExpr));
    assert ArmKey(StepSub, 0, 1, 0) == false;
    assert Arms([(0, 0)], 0, 1, StepSub) == [] + [];
    assert [(0, 0)][0].0 == 0 && ToMap([(0, 0)])[0] == 0;
    assert TmpTuple([(0, 0)], [0])[0] == 0;
    assert TmpTuple([(0, 0)], [0]) == [0];
    assert CurrentArgumentOf(0, e, Type("u64")) == arg;
    assert BranchFor(f, e, [0], reading) == Ok(SumBranch(ctx.parameterExpr));
    assert [[0]][1..] == [];
    assert BranchesFor(f, e, [[0]], reading) == Ok([SumBranch(ctx.parameterExpr)] + []);
    assert [SumBranch(ctx.parameterExpr)] + [] == [SumBranch(ctx.parameterExpr)];
    assert ConstantChecks([(0, 0)]) == [ConstantCheck(0, 0)];
  }

  /** The loop body's value at counter i against a one-slot buffer holding x: x plus what `p` reads. */
  lemma SumStep(p: Expr, x: int, i: int, pv: int)
    requires i >= 1 && Eval(p, Env([x], i, 3, "n")) == Value(pv)
    ensures StepValue(SumBranch(p), [x], i, 3, "n") == Value(x + pv)
  {
    var env := Env([x], i, 3, "n");
    TupleReadValue(1, 1, env);
    assert (i - 1) % 1 == 0;
  }

  /** Three rounds of sum's block from the buffer [0]: x1, x2, x3 are the values written. */
  lemma SumRounds(p: Expr, x1: int, x2: int, x3: int)
    requires StepValue(SumBranch(p), [0], 1, 3, "n") == Value(x1)
    requires StepValue(SumBranch(p), [x1], 2, 3, "n") == Value(x2)
    requires StepValue(SumBranch(p), [x2], 3, 3, "n") == Value(x3)
    ensures RunPlan(SumPlan(p), 3) == Value(x3)
  {
    var b := SumBranch(p);
    assert GuardHolds(b.guard, 3);
    assert RoundsTo(b.guard, 3) == 3;
    assert [0][0 := x1] == [x1] && [x1][0 := x2] == [x2] && [x2][0 := x3] == [x3];
    assert Rounds(b, 3, "n", [x2], 2, 1) == Rounds(b, 3, "n", [x3], 3, 0) == Value(x3);
    assert Rounds(b, 3, "n", [x1], 1, 2) == Value(x3);
    assert Rounds(b, 3, "n", [0], 0, 3) == Value(x3);
    assert FirstBranch(SumPlan(p).branches, 3) == Some(0);
  }

  /** The recursive definition: sum(3) = 3 + 2 + 1 + 0. */
  lemma SumReference()
    ensures NaiveAt(Sum(), 3, 3) == Some(6)
  {
    var f := Sum();
    var call := Call(Ident("sum"), [Binary(Ident("n"), Sub, IntExpr(1))]);
    assert CallName(Ident("sum")) == Ok("sum");
    assert SelfCall(f, Ident("sum"), [Binary(Ident("n"), Sub, IntExpr(1))]);
    assert [(0, 0)][0].0 == 0 && 0 in ToMap([(0, 0)]) && ToMap([(0, 0)])[0] == 0;
    assert ToMap([(0, 0)]).Keys == {0};
    assert NaiveAt(f, 0, 0) == Some(0);
    assert NaiveEval(f, call, 0, 1) == Some(0);
    assert NaiveAt(f, 1, 1) == Some(1);
    assert NaiveEval(f, call, 1, 2) == Some(1);
    assert NaiveAt(f, 2, 2) == Some(3);
    assert NaiveEval(f, call, 2, 3) == Some(3);
  }

  /** Once the eureka tuple is known, the body is its synthesis. */
  lemma BodyOf(f: MatchFunction, e: Eureka.EurekaTuple, reading: ParameterReading)
    requires Eureka.EurekaFor(f.recursiveExpr, f.name, f.recursionParameter) == Ok(e) && e.stepSize > 0
    ensures IterativeBody(f, reading) == Synthesize(f, e, reading)
  {
  }

  lemma SumBody(reading: ParameterReading)
    ensures IterativeBody(Sum(), reading) ==
      Ok(SumPlan(ContextFor(Sum(), SumTuple(), CurrentArgument(0, Add, 0, 1, Type("u64")), reading).parameterExpr))
  {
    SumEureka();
    BodyOf(Sum(), SumTuple(), reading);
    SumSynthesis(reading);
  }

  /**
   * As written, the emitted sum returns 9 for 3: inside the loop `n` still
   * names the target argument, so every round adds 3 instead of the
   * current argument. The recursive definition gives 6.
   */
  lemma SumAsWrittenDisagrees()
    ensures IterativeBody(Sum(), KeepParameter) == Ok(SumPlan(Ident("n")))
    ensures RunPlan(SumPlan(Ident("n")), 3) == Value(9)
    ensures NaiveAt(Sum(), 3, 3) == Some(6)
  {
    SumBody(KeepParameter);
    SumAsWrittenRun();
    SumReference();
  }

  lemma SumAsWrittenRun()
    ensures RunPlan(SumPlan(Ident("n")), 3) == Value(9)
  {
    SumStep(Ident("n"), 0, 1, 3);
    SumStep(Ident("n"), 3, 2, 3);
    SumStep(Ident("n"), 6, 3, 3);
    SumRounds(Ident("n"), 3, 6, 9);
  }

  /** Reading the current argument instead, the emitted sum returns 6 for 3, as the recursion does. */
  lemma SumCorrectedAgrees()
    ensures IterativeBody(Sum(), ReadCurrentArgument) == Ok(SumPlan(Paren(ArgumentExpr(CurrentArgument(0, Add, 0, 1, Type("u64"))))))
    ensures RunPlan(SumPlan(Paren(ArgumentExpr(CurrentArgument(0, Add, 0, 1, Type("u64"))))), 3) == Value(6)
  {
    SumBody(ReadCurrentArgument);
    SumCorrectedRun();
  }

  lemma SumCorrectedRun()
    ensures RunPlan(SumPlan(Paren(ArgumentExpr(CurrentArgument(0, Add, 0, 1, Type("u64"))))), 3) == Value(6)
  {
    var p := Paren(ArgumentExpr(CurrentArgument(0, Add, 0, 1, Type("u64"))));
    SumArgument(0, 1);
    SumArgument(1, 2);
    SumArgument(3, 3);
    SumStep(p, 0, 1, 1);
    SumStep(p, 1, 2, 2);
    SumStep(p, 3, 3, 3);
    SumRounds(p, 1, 3, 6);
  }

  /** In sum's block the current argument at counter i is i. */
  lemma SumArgument(x: int, i: int)
    ensures Eval(Paren(ArgumentExpr(CurrentArgument(0, Add, 0, 1, Type("u64")))), Env([x], i, 3, "n")) == Value(i)
  {
    ArgumentExprValue(CurrentArgument(0, Add, 0, 1, Type("u64")), Env([x], i, 3, "n"));
  }

  // ---------------------------------------------------------------------------
  // Shared steps of the concrete instances

  /** A self-call `f(p - k)` evaluates to the function at m - k. */
  lemma NaiveSubCall(f: MatchFunction, k: int, fuel: nat, m: int)
    requires k > 0
    ensures NaiveEval(f, Call(Ident(f.name), [Binary(Ident(f.recursionParameter), Sub, IntExpr(k))]), fuel, m) ==
      NaiveAt(f, fuel, m - k)
  {
    assert CallName(Ident(f.name)) == Ok(f.name);
    assert RecursiveCallFrom(Ident(f.recursionParameter), Sub, IntExpr(k), f.recursionParameter) == Ok(RecursiveCall(k, StepSub, 1));
  }

  /** A self-call `f(p + k)` evaluates to the function at m + k. */
  lemma NaiveAddCall(f: MatchFunction, k: int, fuel: nat, m: int)
    requires k > 0
    ensures NaiveEval(f, Call(Ident(f.name), [Binary(Ident(f.recursionParameter), Add, IntExpr(k))]), fuel, m) ==
      NaiveAt(f, fuel, m + k)
  {
    assert CallName(Ident(f.name)) == Ok(f.name);
    assert RecursiveCallFrom(Ident(f.recursionParameter), Add, IntExpr(k), f.recursionParameter) == Ok(RecursiveCall(k, StepAdd, 1));
  }

  /** Three calls already in order of their steps are their own sort. */
  lemma SortedThree(r: seq<RecursiveCall>)
    requires |r| == 3 && r[0].steps <= r[1].steps <= r[2].steps
    ensures SortBySteps(r) == r
  {
    assert r[1..] == [r[1], r[2]] && [r[1], r[2]][1..] == [r[2]] && [r[2]][1..] == [];
    assert SortBySteps([r[2]]) == [r[2]];
    assert InsertBySteps(r[1], [r[2]]) == [r[1]] + [r[2]];
    assert SortBySteps([r[1], r[2]]) == [r[1], r[2]];
    assert InsertBySteps(r[0], [r[1], r[2]]) == [r[0]] + [r[1], r[2]];
    assert [r[0]] + [r[1], r[2]] == r;
  }

  /** Three calls with one operator. */
  lemma SameOperatorThree(r: seq<RecursiveCall>)
    requires |r| == 3 && r[1].operator == r[0].operator && r[2].operator == r[0].operator
    ensures SameOperator(r)
  {
  }

  /** The call analysis, from its parts: the raw calls, their gcd and the sorted normalised calls. */
  lemma AnalysisOf(formula: Expr, name: string, parameter: string, raw: seq<RecursiveCall>, g: nat, sorted: seq<RecursiveCall>)
    requires RawCalls(formula, name, parameter) == Ok(raw) && |raw| > 0 && SameOperator(raw)
    requires Numeric.GcdFold(raw[0].steps, Steps(raw)) == g > 0 && SortBySteps(Normalize(raw, g)) == sorted
    ensures AnalyseCalls(formula, name, parameter) == Ok(CallAnalysis(sorted, raw[0].operator, g))
  {
  }

  /** Away from the keys, one unit of fuel unfolds the formula once. */
  lemma NaiveUnfold(f: MatchFunction, fuel: nat, m: int)
    requires m !in ToMap(f.constants)
    ensures NaiveAt(f, fuel + 1, m) == NaiveEval(f, f.recursiveExpr, fuel, m)
  {
  }

  lemma NaiveBinary(f: MatchFunction, left: Expr, op: BinOp, right: Expr, fuel: nat, m: int, a: int, b: int)
    requires NaiveEval(f, left, fuel, m) == Some(a) && NaiveEval(f, right, fuel, m) == Some(b)
    ensures NaiveEval(f, Binary(left, op, right), fuel, m) == NaiveArith(op, a, b)
  {
  }

  /** `filter` keeps a leading self-call. */
  lemma FilterCons(c: ExprCall, rest: seq<ExprCall>, name: string, kept: seq<ExprCall>)
    requires CallName(c.func) == Ok(name) && FilterSelfCalls(rest, name) == Ok(kept)
    ensures FilterSelfCalls([c] + rest, name) == Ok([c] + kept)
  {
    assert ([c] + rest)[1..] == rest;
  }

  lemma ArgStepsCons(arg: Expr, rest: seq<Expr>, parameter: string, c: RecursiveCall, cs: seq<RecursiveCall>)
    requires ArgStep(arg, parameter) == Ok(c) && ArgSteps(rest, parameter) == Ok(cs)
    ensures ArgSteps([arg] + rest, parameter) == Ok([c] + cs)
  {
    assert ([arg] + rest)[1..] == rest;
  }

  lemma AllArgsSnoc(calls: seq<ExprCall>, c: ExprCall)
    ensures AllArgs(calls + [c]) == AllArgs(calls) + c.args
  {
    assert (calls + [c])[..|calls|] == calls;
  }

  /** Three self-calls all pass the name filter. */
  lemma ThreeFiltered(name: string, c1: ExprCall, c2: ExprCall, c3: ExprCall)
    requires c1.func == Ident(name) && c2.func == Ident(name) && c3.func == Ident(name)
    ensures FilterSelfCalls([c1, c2, c3], name) == Ok([c1, c2, c3])
  {
    assert CallName(Ident(name)) == Ok(name);
    assert [c3] + [] == [c3] && [c2] + [c3] == [c2, c3] && [c1] + [c2, c3] == [c1, c2, c3];
    FilterCons(c3, [], name, []);
    FilterCons(c2, [c3], name, [c3]);
    FilterCons(c1, [c2, c3], name, [c2, c3]);
  }

  /** The arguments of three calls of one argument each. */
  lemma ThreeArgs(a1: Expr, a2: Expr, a3: Expr, c1: ExprCall, c2: ExprCall, c3: ExprCall)
    requires c1.args == [a1] && c2.args == [a2] && c3.args == [a3]
    ensures AllArgs([c1, c2, c3]) == [a1, a2, a3]
  {
    var s1, s2, s3 := [c1], [c1, c2], [c1, c2, c3];
    assert s3[..2] == s2 && s2[..1] == s1 && s1[..0] == [];
    assert AllArgs(s1) == [a1] by { assert [] + [a1] == [a1]; }
    assert AllArgs(s2) == [a1, a2] by { assert [a1] + [a2] == [a1, a2]; }
    assert [a1, a2] + [a3] == [a1, a2, a3];
  }

  /** Three arguments, each one recursive call. */
  lemma ThreeArgSteps(parameter: string, a1: Expr, a2: Expr, a3: Expr, r: seq<RecursiveCall>)
    requires |r| == 3 && ArgStep(a1, parameter) == Ok(r[0]) && ArgStep(a2, parameter) == Ok(r[1]) && ArgStep(a3, parameter) == Ok(r[2])
    ensures ArgSteps([a1, a2, a3], parameter) == Ok(r)
  {
    assert [a3] + [] == [a3] && [a2] + [a3] == [a2, a3] && [a1] + [a2, a3] == [a1, a2, a3];
    assert [r[2]] + [] == [r[2]] && [r[1]] + [r[2]] == [r[1], r[2]] && [r[0]] + [r[1], r[2]] == r;
    ArgStepsCons(a3, [], parameter, r[2], []);
    ArgStepsCons(a2, [a3], parameter, r[1], [r[2]]);
    ArgStepsCons(a1, [a2, a3], parameter, r[0], [r[1], r[2]]);
  }

  /** A formula with three self-calls of one argument each yields one recursive call per argument, in order. */
  lemma ThreeSelfCalls(formula: Expr, name: string, parameter: string, a1: Expr, a2: Expr, a3: Expr, r: seq<RecursiveCall>)
    requires FindCalls(formula) == Ok([ExprCall(Ident(name), [a1]), ExprCall(Ident(name), [a2]), ExprCall(Ident(name), [a3])])
    requires |r| == 3 && ArgStep(a1, parameter) == Ok(r[0]) && ArgStep(a2, parameter) == Ok(r[1]) && ArgStep(a3, parameter) == Ok(r[2])
    ensures RawCalls(formula, name, parameter) == Ok(r)
  {
    var c1, c2, c3 := ExprCall(Ident(name), [a1]), ExprCall(Ident(name), [a2]), ExprCall(Ident(name), [a3]);
    ThreeFiltered(name, c1, c2, c3);
    ThreeArgs(a1, a2, a3, c1, c2, c3);
    ThreeArgSteps(parameter, a1, a2, a3, r);
  }

  /** `create_iterative_stmts` from its seeds and blocks. */
  lemma SynthesisOf(f: MatchFunction, e: Eureka.EurekaTuple, seeds: seq<seq<int>>, branches: seq<Branch>)
    requires e.stepSize > 0 && |e.tuple| <= |f.constants|
    requires Seeds.SeedsFor(f.constants, e.tuple, e.stepSize, e.operator) == Ok(seeds)
    requires SeedWindows(f.constants, seeds, |e.tuple|)
    requires BranchesFor(f, e, seeds, KeepParameter) == Ok(branches)
    ensures Synthesize(f, e, KeepParameter) == Ok(Plan(f.recursionParameter, ConstantChecks(f.constants), branches))
  {
  }

  /** The block of a single seed window. */
  lemma OneBranchFor(f: MatchFunction, e: Eureka.EurekaTuple, w: seq<int>, b: Branch)
    requires e.stepSize > 0 && |w| == |e.tuple| > 0
    requires forall x :: x in w ==> x in ToMap(f.constants)
    requires BranchFor(f, e, w, KeepParameter) == Ok(b)
    ensures SeedWindows(f.constants, [w], |e.tuple|)
    ensures BranchesFor(f, e, [w], KeepParameter) == Ok([b])
  {
    assert [w][0] == w && [w][1..] == [];
    assert [b] + [] == [b];
  }

  /** The blocks of two seed windows, in order. */
  lemma TwoBranchesFor(f: MatchFunction, e: Eureka.EurekaTuple, w1: seq<int>, w2: seq<int>, b1: Branch, b2: Branch)
    requires e.stepSize > 0 && |w1| == |w2| == |e.tuple| > 0
    requires forall x :: x in w1 ==> x in ToMap(f.constants)
    requires forall x :: x in w2 ==> x in ToMap(f.constants)
    requires BranchFor(f, e, w1, KeepParameter) == Ok(b1) && BranchFor(f, e, w2, KeepParameter) == Ok(b2)
    ensures SeedWindows(f.constants, [w1, w2], |e.tuple|)
    ensures BranchesFor(f, e, [w1, w2], KeepParameter) == Ok([b1, b2])
  {
    var seeds := [w1, w2];
    assert seeds[0] == w1 && seeds[1] == w2;
    assert seeds[1..] == [w2] && [w2][1..] == [];
    assert BranchesFor(f, e, [w2], KeepParameter) == Ok([b2] + []);
    assert [b2] + [] == [b2] && [b1] + [b2] == [b1, b2];
  }

  /** `create_loop` assembled from its parts, for a function whose formula rewrites to `body`. */
  lemma BranchForParts(f: MatchFunction, e: Eureka.EurekaTuple, window: seq<int>, body: Expr, b: Branch)
    requires e.stepSize > 0 && |window| == |e.tuple| > 0 && forall x :: x in window ==> x in ToMap(f.constants)
    requires Rewrite(f.recursiveExpr, ContextFor(f, e, CurrentArgumentOf(window[|window| - 1], e, f.argType), KeepParameter)) == Ok(body)
    requires b == Branch(BranchCondition(window, e), TmpTuple(f.constants, window), |e.tuple| - 1, |e.tuple|,
      CurrentArgumentOf(window[|window| - 1], e, f.argType), Arms(f.constants, window[|window| - 1], e.stepSize, e.operator), body)
    ensures BranchFor(f, e, window, KeepParameter) == Ok(b)
  {
  }

  /** A start at the head of the list contributes its window when the window is full, and nothing otherwise. */
  lemma CandidatesCons(keys: seq<int>, c: int, rest: seq<int>, len: nat, q: nat)
    requires len >= 1
    ensures Seeds.IsFullWindow(keys, c, len, q) ==>
      Seeds.CandidatesFrom(keys, [c] + rest, len, q) == [Seeds.Progression(c, len, q)] + Seeds.CandidatesFrom(keys, rest, len, q)
    ensures !Seeds.IsFullWindow(keys, c, len, q) ==>
      Seeds.CandidatesFrom(keys, [c] + rest, len, q) == Seeds.CandidatesFrom(keys, rest, len, q)
  {
    assert ([c] + rest)[0] == c && ([c] + rest)[1..] == rest;
  }

  /** AsWrittenBodyAgrees for an argument that a fast path or a block covers. */
  lemma CoveredAgrees(f: MatchFunction, plan: Plan, n: int, fuel: nat, v: int)
    requires IterativeBody(f, KeepParameter) == Ok(plan)
    requires ParameterOnlyInCalls(f.recursiveExpr, f.name, f.recursionParameter) && f.recursionParameter != "i"
    requires NaiveAt(f, fuel, n) == Some(v)
    requires n in ToMap(f.constants) || FirstBranch(plan.branches, n).Some?
    ensures RunPlan(plan, n) == Value(v)
  {
    AsWrittenBodyAgrees(f, plan, n, fuel, v);
  }

  /** A single window survives the class filter. */
  lemma KeepFirstSingle(w: seq<int>, q: nat)
    requires |w| > 0
    ensures Seeds.KeepFirst([w], q) == [w]
  {
    assert !Seeds.HasEarlier([w], q, 0);
    assert Seeds.KeepFirstUpTo([w], q, 0) == [];
    assert Seeds.KeepFirst([w], q) == [] + [w];
    assert [] + [w] == [w];
  }

  /** Two windows in different classes both survive the class filter. */
  lemma KeepFirstPair(w1: seq<int>, w2: seq<int>, q: nat)
    requires |w1| > 0 && |w2| > 0 && !Seeds.SameClass(q, w1[0], w2[0])
    ensures Seeds.KeepFirst([w1, w2], q) == [w1, w2]
  {
    var ws := [w1, w2];
    assert !Seeds.HasEarlier(ws, q, 0);
    assert !Seeds.HasEarlier(ws, q, 1);
    assert Seeds.KeepFirstUpTo(ws, q, 0) == [];
    assert Seeds.KeepFirstUpTo(ws, q, 1) == [] + [w1];
    assert [] + [w1] == [w1];
    assert Seeds.KeepFirstUpTo(ws, q, 2) == [w1] + [w2];
  }

  /** Two candidate windows in different classes are the seeds of a downward tuple. */
  lemma PairSeeds(constants: BTreeMap, tuple: set<int>, q: nat, w1: seq<int>, w2: seq<int>)
    requires Seeds.Contiguous(tuple) && |w1| > 0 && |w2| > 0 && !Seeds.SameClass(q, w1[0], w2[0])
    requires Seeds.Candidates(Keys(constants), |tuple|, q) == [w1, w2]
    ensures Seeds.SeedsFor(constants, tuple, q, StepSub) == Ok([w1, w2])
  {
    KeepFirstPair(w1, w2, q);
  }

  /** One candidate window is the one seed: as it is for a downward tuple, reversed for an upward one. */
  lemma SingleSeed(constants: BTreeMap, tuple: set<int>, q: nat, op: StepOperator, w: seq<int>)
    requires Seeds.Contiguous(tuple) && |w| > 0
    requires Seeds.Candidates(Keys(constants), |tuple|, q) == [w]
    ensures op == StepSub ==> Seeds.SeedsFor(constants, tuple, q, op) == Ok([w])
    ensures op == StepAdd ==> Seeds.SeedsFor(constants, tuple, q, op) == Ok([Seeds.Reversed(w)])
  {
    KeepFirstSingle(w, q);
    assert Seeds.Reversed([w]) == [w];
    assert Seeds.MapReversed([w]) == [Seeds.Reversed(w)] by {
      assert Seeds.MapReversed([w])[0] == Seeds.Reversed(w);
    }
  }

  lemma ContiguousTwo()
    ensures |{1, 2}| == 2 && Seeds.Contiguous({1, 2})
  {
    assert {1, 2} == Eureka.Range(1, 3);
  }


  lemma ContiguousThree()
    ensures |{1, 2, 3}| == 3 && Seeds.Contiguous({1, 2, 3})
  {
    assert |{1, 2, 3}| == 3;
    assert {1, 2, 3} == Eureka.Range(1, 4);
  }

  lemma SizeFour()
    ensures |{1, 2, 3, 4}| == 4
  {
    assert |{1, 2, 3}| == 3;
  }

  lemma ContiguousFour()
    ensures |{1, 2, 3, 4}| == 4 && Seeds.Contiguous({1, 2, 3, 4})
  {
    SizeFour();
    assert {1, 2, 3, 4} == Eureka.Range(1, 5);
  }
}
