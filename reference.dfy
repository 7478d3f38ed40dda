/**
 * The meaning of the original recursive function, and the proof that the
 * emitted code computes it: wherever the recursion terminates, the fast
 * paths and the guarded ring-buffer loops return the same value.
 */
module Reference {
  import opened Wrappers
  import opened Syntax
  import opened Numeric
  import opened Plans
  import opened SortedMap
  import opened RecursiveCalls
  import Eureka
  import Seeds
  import opened Synthesis
  import opened Generated

  // ---------------------------------------------------------------------------
  // The original function

  /** The argument a self-call at m names: m - k for StepSub, m + k for StepAdd. */
  function Callee(op: StepOperator, m: int, k: int): int {
    if op == StepSub then m - k else m + k
  }

  function NaiveArith(op: BinOp, a: int, b: int): Option<int> {
    match op
    case Add => Some(a + b)
    case Sub => Some(a - b)
    case Mul => Some(a * b)
    case _ => None
  }

  /** A self-call of an accepted shape: `f(p + k)`, `f(k + p)` or `f(p - k)`. */
  predicate SelfCall(f: MatchFunction, func: Expr, args: seq<Expr>) {
    CallName(func) == Ok(f.name) && |args| == 1 && args[0].Binary? &&
    RecursiveCallFrom(args[0].left, args[0].op, args[0].right, f.recursionParameter).Ok?
  }

  /**
   * The original function at m, unfolding the formula at most `fuel`
   * times: a key returns its constant (the match arm), anything else
   * evaluates the wildcard formula with its self-calls evaluated in turn.
   */
  function NaiveAt(f: MatchFunction, fuel: nat, m: int): Option<int>
    decreases fuel, 0
  {
    if m in ToMap(f.constants) then Some(ToMap(f.constants)[m])
    else if fuel == 0 then None
    else NaiveEval(f, f.recursiveExpr, fuel - 1, m)
  }

  /** The formula at argument m: literals, the parameter, `+ - *`, negation, parentheses, casts and self-calls. */
  function NaiveEval(f: MatchFunction, e: Expr, fuel: nat, m: int): Option<int>
    decreases fuel, 1, e
  {
    match e
    case Lit(lit) => if lit.IntLit? then Some(lit.value) else None
    case Path(segments) => if segments == [f.recursionParameter] then Some(m) else None
    case Binary(left, op, right) =>
      (match NaiveEval(f, left, fuel, m)
       case Some(a) => (match NaiveEval(f, right, fuel, m) case Some(b) => NaiveArith(op, a, b) case None => None)
       case None => None)
    case Unary(uop, inner) =>
      if uop != Neg then None
      else (match NaiveEval(f, inner, fuel, m) case Some(a) => Some(-a) case None => None)
    case Cast(inner, _) => NaiveEval(f, inner, fuel, m)
    case Paren(inner) => NaiveEval(f, inner, fuel, m)
    case Call(func, args) =>
      if SelfCall(f, func, args) then
        var rc := RecursiveCallFrom(args[0].left, args[0].op, args[0].right, f.recursionParameter).value;
        NaiveAt(f, fuel, Callee(rc.operator, m, rc.steps))
      else None
    case _ => None
  }

  /** More fuel never changes a value already reached. */
  lemma {:induction false} NaiveAtMonotone(f: MatchFunction, fuel: nat, more: nat, m: int)
    requires fuel <= more && NaiveAt(f, fuel, m).Some?
    ensures NaiveAt(f, more, m) == NaiveAt(f, fuel, m)
    decreases fuel, 0
  {
    if m !in ToMap(f.constants) {
      NaiveEvalMonotone(f, f.recursiveExpr, fuel - 1, more - 1, m);
    }
  }

  lemma {:induction false} NaiveEvalMonotone(f: MatchFunction, e: Expr, fuel: nat, more: nat, m: int)
    requires fuel <= more && NaiveEval(f, e, fuel, m).Some?
    ensures NaiveEval(f, e, more, m) == NaiveEval(f, e, fuel, m)
    decreases fuel, 1, e
  {
    match e
    case Binary(left, _, right) =>
      NaiveEvalMonotone(f, left, fuel, more, m);
      NaiveEvalMonotone(f, right, fuel, more, m);
    case Unary(_, inner) => NaiveEvalMonotone(f, inner, fuel, more, m);
    case Cast(inner, _) => NaiveEvalMonotone(f, inner, fuel, more, m);
    case Paren(inner) => NaiveEvalMonotone(f, inner, fuel, more, m);
    case Call(func, args) =>
      var rc := RecursiveCallFrom(args[0].left, args[0].op, args[0].right, f.recursionParameter).value;
      NaiveAtMonotone(f, fuel, more, Callee(rc.operator, m, rc.steps));
    case _ =>
  }

  /** Two unfoldings that both reach a value reach the same one. */
  lemma NaiveAgree(f: MatchFunction, a: nat, b: nat, m: int)
    requires NaiveAt(f, a, m).Some? && NaiveAt(f, b, m).Some?
    ensures NaiveAt(f, a, m) == NaiveAt(f, b, m)
  {
    if a <= b {
      NaiveAtMonotone(f, a, b, m);
    } else {
      NaiveAtMonotone(f, b, a, m);
    }
  }

  /** The formulas the reference evaluator gives a meaning to. */
  predicate InFragment(f: MatchFunction, e: Expr)
    decreases e
  {
    match e
    case Lit(lit) => lit.IntLit?
    case Path(segments) => segments == [f.recursionParameter]
    case Binary(left, op, right) => (op == Add || op == Sub || op == Mul) && InFragment(f, left) && InFragment(f, right)
    case Unary(uop, inner) => uop == Neg && InFragment(f, inner)
    case Cast(inner, _) => InFragment(f, inner)
    case Paren(inner) => InFragment(f, inner)
    case Call(func, args) => SelfCall(f, func, args)
    case _ => false
  }

  /** A formula that evaluates lies in the fragment. */
  lemma {:induction false} NaiveDefinedInFragment(f: MatchFunction, e: Expr, fuel: nat, m: int)
    requires NaiveEval(f, e, fuel, m).Some?
    ensures InFragment(f, e)
    decreases e
  {
    match e
    case Binary(left, op, right) =>
      NaiveDefinedInFragment(f, left, fuel, m);
      NaiveDefinedInFragment(f, right, fuel, m);
    case Unary(_, inner) => NaiveDefinedInFragment(f, inner, fuel, m);
    case Cast(inner, _) => NaiveDefinedInFragment(f, inner, fuel, m);
    case Paren(inner) => NaiveDefinedInFragment(f, inner, fuel, m);
    case _ =>
  }

  // ---------------------------------------------------------------------------
  // What the call analysis guarantees about every self-call

  /** Every recorded call goes the common direction, is a multiple of q, and normalises into 1..L. */
  predicate CallsBounded(raw: seq<RecursiveCall>, op: StepOperator, q: nat, len: nat) {
    forall r :: r in raw ==> r.operator == op && Dvd(q, r.steps) && 1 <= r.steps / q <= len
  }

  /** The sorted normalised calls bound every raw call: its normalised step lies between 1 and the last one. */
  lemma NormalisedBounded(raw: seq<RecursiveCall>, calls: seq<RecursiveCall>, q: nat)
    requires q > 0 && |calls| > 0 && SortedBySteps(calls) && multiset(calls) == multiset(Normalize(raw, q))
    requires forall i :: 0 <= i < |calls| ==> calls[i].steps >= 1
    ensures forall r :: r in raw ==> 1 <= r.steps / q <= calls[|calls| - 1].steps
  {
    var norm := Normalize(raw, q);
    var top := |calls| - 1;
    forall r | r in raw ensures 1 <= r.steps / q <= calls[top].steps {
      var i :| 0 <= i < |raw| && raw[i] == r;
      assert norm[i] in multiset(norm);
      var j :| 0 <= j < |calls| && calls[j] == norm[i];
      if j < top {
        assert calls[j].steps <= calls[top].steps;
      }
    }
  }

  lemma AnalysisBounds(formula: Expr, name: string, parameter: string)
    requires Eureka.EurekaFor(formula, name, parameter).Ok?
    ensures RawCalls(formula, name, parameter).Ok?
    ensures CallsBounded(RawCalls(formula, name, parameter).value,
      Eureka.EurekaFor(formula, name, parameter).value.operator,
      Eureka.EurekaFor(formula, name, parameter).value.stepSize,
      |Eureka.EurekaFor(formula, name, parameter).value.tuple|)
  {
    AnalyseCallsProperties(formula, name, parameter);
    Eureka.EurekaTupleContiguous(formula, name, parameter);
    var raw := RawCalls(formula, name, parameter).value;
    var a := AnalyseCalls(formula, name, parameter).value;
    var e := Eureka.EurekaFor(formula, name, parameter).value;
    NormalisedBounded(raw, a.calls, a.stepSize);
    forall r | r in raw ensures r.operator == e.operator && Dvd(e.stepSize, r.steps) {
      var i :| 0 <= i < |raw| && raw[i] == r;
    }
  }

  lemma {:induction false} FilterKeeps(calls: seq<ExprCall>, name: string, c: ExprCall)
    requires c in calls && CallName(c.func) == Ok(name) && FilterSelfCalls(calls, name).Ok?
    ensures c in FilterSelfCalls(calls, name).value
    decreases |calls|
  {
    if calls[0] != c {
      FilterKeeps(calls[1..], name, c);
    }
  }

  lemma {:induction false} AllArgsHas(calls: seq<ExprCall>, c: ExprCall, x: Expr)
    requires c in calls && x in c.args
    ensures x in AllArgs(calls)
    decreases |calls|
  {
    if c != calls[|calls| - 1] {
      assert c in calls[..|calls| - 1];
      AllArgsHas(calls[..|calls| - 1], c, x);
    }
  }

  lemma {:induction false} ArgStepsHas(args: seq<Expr>, parameter: string, x: Expr)
    requires x in args && ArgSteps(args, parameter).Ok?
    ensures ArgStep(x, parameter).Ok? && ArgStep(x, parameter).value in ArgSteps(args, parameter).value
    decreases |args|
  {
    if args[0] != x {
      ArgStepsHas(args[1..], parameter, x);
    }
  }

  /** A self-call reached by `find_calls` is one of the recorded calls. */
  lemma SelfCallRecorded(formula: Expr, name: string, parameter: string, func: Expr, args: seq<Expr>)
    requires RawCalls(formula, name, parameter).Ok? && HasCall(formula, ExprCall(func, args))
    requires CallName(func) == Ok(name) && |args| == 1
    ensures ArgStep(args[0], parameter).Ok? && ArgStep(args[0], parameter).value in RawCalls(formula, name, parameter).value
  {
    FindCallsCorrect(formula);
    var calls := FindCalls(formula).value;
    var selfCalls := FilterSelfCalls(calls, name).value;
    FilterKeeps(calls, name, ExprCall(func, args));
    AllArgsHas(selfCalls, ExprCall(func, args), args[0]);
    ArgStepsHas(AllArgs(selfCalls), parameter, args[0]);
  }

  // ---------------------------------------------------------------------------
  // One guarded block

  /** The rewriting context in which a path naming the parameter reads the current argument. */
  function CorrectedContext(f: MatchFunction, b: Branch): RewriteContext {
    RewriteContext(f.name, f.recursionParameter, b.guard.stepSize, b.tupleLen, Paren(ArgumentExpr(b.argument)))
  }

  /** What the proof needs of a block: its shape, its arms, its body and the bounds of the formula's steps. */
  predicate FaithfulBranch(f: MatchFunction, b: Branch) {
    WellFormed(b) &&
    b.arms == Arms(f.constants, b.guard.start, b.guard.stepSize, b.guard.operator) &&
    Rewrite(f.recursiveExpr, CorrectedContext(f, b)) == Ok(b.body) &&
    RawCalls(f.recursiveExpr, f.name, f.recursionParameter).Ok? &&
    CallsBounded(RawCalls(f.recursiveExpr, f.name, f.recursionParameter).value, b.guard.operator, b.guard.stepSize, b.tupleLen)
  }

  /** The buffer starts with the constants at the arguments of counters 0, ..., L - 1. */
  predicate SeededBy(f: MatchFunction, b: Branch) {
    |b.tuple| == b.tupleLen &&
    forall j :: 0 <= j < b.tupleLen ==>
      ArgValue(b.argument, j) in ToMap(f.constants) && b.tuple[j] == ToMap(f.constants)[ArgValue(b.argument, j)]
  }

  /** At counter i, slot j mod L holds the function at the argument of counter j, for each of the last L counters j. */
  predicate RingHolds(f: MatchFunction, b: Branch, ring: seq<int>, i: int, fuel: nat) {
    b.tupleLen > 0 && |ring| == b.tupleLen && i >= b.tupleLen - 1 &&
    forall j :: i - b.tupleLen < j <= i ==> NaiveAt(f, fuel, ArgValue(b.argument, j)) == Some(ring[j % b.tupleLen])
  }

  /** Walking j steps of q back along the loop's direction is taking a self-call of j q steps. */
  lemma CalleeShift(b: Branch, x: int, j: int)
    requires WellFormed(b)
    ensures Callee(b.guard.operator, ArgValue(b.argument, x), j * b.guard.stepSize) == ArgValue(b.argument, x - j)
  {
    var a := b.argument;
    assert (x - j - a.startIndex) * a.stepSize == (x - a.startIndex) * a.stepSize - j * a.stepSize;
  }

  /** A key d >= 1 steps of q beyond the start, in the loop's direction, has an arm. */
  lemma ArmKeyAt(op: StepOperator, start: int, q: nat, d: int, key: int)
    requires q > 0 && d >= 1
    requires op == StepSub ==> key == start + q * d
    requires op == StepAdd ==> key == start - q * d
    ensures ArmKey(op, start, q, key)
  {
    assert q * d >= q * 1;
    if op == StepSub {
      DvdMultiple(q, d);
    } else {
      DvdMultiple(q, -d);
      assert q * (-d) == -(q * d);
    }
  }

  /** Every argument after the start shares the start's residue and lies beyond it: a key there has an arm. */
  lemma ArmKeyOfWalk(b: Branch, x: int)
    requires WellFormed(b) && x > b.startIndex
    ensures ArmKey(b.guard.operator, b.guard.start, b.guard.stepSize, ArgValue(b.argument, x))
  {
    var a, q := b.argument, b.guard.stepSize;
    var d := x - a.startIndex;
    assert (x - a.startIndex) * a.stepSize == q * d;
    ArmKeyAt(b.guard.operator, b.guard.start, q, d, ArgValue(a, x));
  }

  /**
   * The rewritten body, evaluated at counter i + 1 against a buffer that
   * holds the last L values, computes the formula at the current argument.
   */
  lemma {:induction false} BodyAgrees(f: MatchFunction, b: Branch, e: Expr, ring: seq<int>, i: int, n: int, fuel: nat)
    requires FaithfulBranch(f, b) && f.recursionParameter != "i"
    requires InFragment(f, e) && Rewrite(e, CorrectedContext(f, b)).Ok?
    requires forall c :: HasCall(e, c) ==> HasCall(f.recursiveExpr, c)
    requires RingHolds(f, b, ring, i, fuel)
    ensures NaiveEval(f, e, fuel, ArgValue(b.argument, i + 1)).Some?
    ensures Eval(Rewrite(e, CorrectedContext(f, b)).value, Env(ring, i + 1, n, f.recursionParameter)) ==
      Value(NaiveEval(f, e, fuel, ArgValue(b.argument, i + 1)).value)
    decreases e
  {
    var env := Env(ring, i + 1, n, f.recursionParameter);
    match e
    case Lit(_) =>
    case Path(_) =>
      ArgumentExprValue(b.argument, env);
    case Binary(left, _, right) =>
      forall c | HasCall(left, c) ensures HasCall(f.recursiveExpr, c) {
        assert HasCall(e, c);
      }
      forall c | HasCall(right, c) ensures HasCall(f.recursiveExpr, c) {
        assert HasCall(e, c);
      }
      BodyAgrees(f, b, left, ring, i, n, fuel);
      BodyAgrees(f, b, right, ring, i, n, fuel);
    case Unary(_, inner) =>
      forall c | HasCall(inner, c) ensures HasCall(f.recursiveExpr, c) {
        assert HasCall(e, c);
      }
      BodyAgrees(f, b, inner, ring, i, n, fuel);
    case Cast(inner, _) =>
      forall c | HasCall(inner, c) ensures HasCall(f.recursiveExpr, c) {
        assert HasCall(e, c);
      }
      BodyAgrees(f, b, inner, ring, i, n, fuel);
    case Paren(inner) =>
      forall c | HasCall(inner, c) ensures HasCall(f.recursiveExpr, c) {
        assert HasCall(e, c);
      }
      BodyAgrees(f, b, inner, ring, i, n, fuel);
    case Call(func, args) =>
      CallAgrees(f, b, func, args, ring, i, n, fuel);
  }

  /** A self-call of j q steps, rewritten to the buffer read at (i + 1 - j) mod L, reads the function at its callee. */
  lemma CallAgrees(f: MatchFunction, b: Branch, func: Expr, args: seq<Expr>, ring: seq<int>, i: int, n: int, fuel: nat)
    requires FaithfulBranch(f, b)
    requires SelfCall(f, func, args) && HasCall(f.recursiveExpr, ExprCall(func, args))
    requires RingHolds(f, b, ring, i, fuel)
    ensures NaiveEval(f, Call(func, args), fuel, ArgValue(b.argument, i + 1)).Some?
    ensures Rewrite(Call(func, args), CorrectedContext(f, b)).Ok?
    ensures Eval(Rewrite(Call(func, args), CorrectedContext(f, b)).value, Env(ring, i + 1, n, f.recursionParameter)) ==
      Value(NaiveEval(f, Call(func, args), fuel, ArgValue(b.argument, i + 1)).value)
  {
    var env := Env(ring, i + 1, n, f.recursionParameter);
    SelfCallRecorded(f.recursiveExpr, f.name, f.recursionParameter, func, args);
    var rc := RecursiveCallFrom(args[0].left, args[0].op, args[0].right, f.recursionParameter).value;
    assert rc in RawCalls(f.recursiveExpr, f.name, f.recursionParameter).value;
    var q, len := b.guard.stepSize, b.tupleLen;
    var j := rc.steps / q;
    assert rc.steps == j * q;
    assert Rewrite(Call(func, args), CorrectedContext(f, b)) == Ok(Synthesis.TupleAccess(j, len));
    TupleReadValue(j, len, env);
    CalleeShift(b, i + 1, j);
    assert NaiveAt(f, fuel, ArgValue(b.argument, i + 1 - j)) == Some(ring[(i + 1 - j) % len]);
  }

  /** One round: the value written at counter i + 1 is the function at the current argument. */
  lemma StepAgrees(f: MatchFunction, b: Branch, ring: seq<int>, i: int, n: int, fuel: nat)
    requires FaithfulBranch(f, b) && f.recursionParameter != "i" && InFragment(f, f.recursiveExpr)
    requires RingHolds(f, b, ring, i, fuel)
    ensures StepValue(b, ring, i + 1, n, f.recursionParameter).Value?
    ensures NaiveAt(f, fuel + 1, ArgValue(b.argument, i + 1)) == Some(StepValue(b, ring, i + 1, n, f.recursionParameter).v)
  {
    var a := ArgValue(b.argument, i + 1);
    var m := ToMap(f.constants);
    ArmsExactly(f.constants, b.guard.start, b.guard.stepSize, b.guard.operator);
    if a in m {
      ArmKeyOfWalk(b, i + 1);
      assert LoopArm(a, m[a]) in b.arms;
      var k :| 0 <= k < |b.arms| && b.arms[k] == LoopArm(a, m[a]);
      assert b.arms[k].key == a;
    } else {
      forall k | 0 <= k < |b.arms| ensures b.arms[k].key != a {
        assert LoopArm(b.arms[k].key, b.arms[k].value) in b.arms;
      }
      BodyAgrees(f, b, f.recursiveExpr, ring, i, n, fuel);
    }
  }

  lemma ModShiftDistinct(x: int, d: int, len: int)
    requires 0 < d < len
    ensures (x - d) % len != x % len
  {
    var a, c := x / len, (x - d) / len;
    assert x == len * a + x % len;
    assert x - d == len * c + (x - d) % len;
    var k := a - c;
    assert x % len - (x - d) % len == d - len * k;
    if k <= 0 {
      assert len * k <= 0;
    } else {
      assert len * k >= len;
    }
  }

  /** Writing the new value keeps the buffer invariant one counter further. */
  lemma RingAdvance(f: MatchFunction, b: Branch, ring: seq<int>, i: int, fuel: nat, x: int)
    requires RingHolds(f, b, ring, i, fuel)
    requires NaiveAt(f, fuel + 1, ArgValue(b.argument, i + 1)) == Some(x)
    ensures RingHolds(f, b, ring[(i + 1) % b.tupleLen := x], i + 1, fuel + 1)
  {
    var len := b.tupleLen;
    var ring' := ring[(i + 1) % len := x];
    forall j | i + 1 - len < j <= i + 1
      ensures NaiveAt(f, fuel + 1, ArgValue(b.argument, j)) == Some(ring'[j % len])
    {
      if j <= i {
        ModShiftDistinct(i + 1, i + 1 - j, len);
        NaiveAtMonotone(f, fuel, fuel + 1, ArgValue(b.argument, j));
      }
    }
  }

  lemma {:induction false} RoundsAgree(f: MatchFunction, b: Branch, n: int, ring: seq<int>, i: nat, left: nat, fuel: nat, total: nat, v: int)
    requires FaithfulBranch(f, b) && f.recursionParameter != "i" && InFragment(f, f.recursiveExpr)
    requires RingHolds(f, b, ring, i, fuel)
    requires ArgValue(b.argument, i + left) == n && NaiveAt(f, total, n) == Some(v)
    ensures Rounds(b, n, f.recursionParameter, ring, i, left) == Value(v)
    decreases left
  {
    if left == 0 {
      assert NaiveAt(f, fuel, ArgValue(b.argument, i)) == Some(ring[i % b.tupleLen]);
      NaiveAgree(f, fuel, total, n);
    } else {
      StepAgrees(f, b, ring, i, n, fuel);
      var x := StepValue(b, ring, i + 1, n, f.recursionParameter).v;
      RingAdvance(f, b, ring, i, fuel, x);
      RoundsAgree(f, b, n, ring[(i + 1) % b.tupleLen := x], i + 1, left - 1, fuel + 1, total, v);
    }
  }

  lemma RingStart(f: MatchFunction, b: Branch)
    requires WellFormed(b) && SeededBy(f, b)
    ensures RingHolds(f, b, b.tuple, b.startIndex, 0)
  {
    forall j | b.startIndex - b.tupleLen < j <= b.startIndex
      ensures NaiveAt(f, 0, ArgValue(b.argument, j)) == Some(b.tuple[j % b.tupleLen])
    {
      assert j % b.tupleLen == j;
    }
  }

  /** Under its guard, a block returns the function's value at n. */
  lemma BranchAgrees(f: MatchFunction, b: Branch, n: int, fuel: nat, v: int)
    requires FaithfulBranch(f, b) && SeededBy(f, b) && f.recursionParameter != "i" && InFragment(f, f.recursiveExpr)
    requires GuardHolds(b.guard, n) && NaiveAt(f, fuel, n) == Some(v)
    ensures BranchOutcome(b, n, f.recursionParameter) == Value(v)
  {
    RoundsFromStart(f, b, n, fuel, v);
  }

  lemma RoundsFromStart(f: MatchFunction, b: Branch, n: int, fuel: nat, v: int)
    requires FaithfulBranch(f, b) && SeededBy(f, b) && f.recursionParameter != "i" && InFragment(f, f.recursiveExpr)
    requires GuardHolds(b.guard, n) && NaiveAt(f, fuel, n) == Some(v)
    ensures Rounds(b, n, f.recursionParameter, b.tuple, b.startIndex, RoundsTo(b.guard, n)) == Value(v)
  {
    RingStart(f, b);
    LoopStopsAt(b, n, RoundsTo(b.guard, n));
    RoundsAgree(f, b, n, b.tuple, b.startIndex, RoundsTo(b.guard, n), 0, fuel, v);
  }

  // ---------------------------------------------------------------------------
  // The synthesized body

  /** The counter j of a walk upward from w0 in steps of q, started at counter L - 1, is at w0 + j * q. */
  lemma UpwardWalkAt(w0: int, q: nat, top: nat, j: nat, argType: Type)
    ensures ArgValue(CurrentArgument(w0 + top * q, Add, top, q, argType), j) == w0 + j * q
  {
    assert (j - top) * q == j * q - top * q;
  }

  /** The counter j of a walk downward to w0 in steps of q, started at counter L - 1, is at w0 + (L - 1 - j) * q. */
  lemma DownwardWalkAt(w0: int, q: nat, top: nat, j: nat, argType: Type)
    requires j <= top
    ensures ArgValue(CurrentArgument(w0, Sub, top, q, argType), j) == w0 + (top - j) * q
  {
    assert (j - top) * q == -((top - j) * q);
  }

  /** An ascending window of step q is the walk upward from its first element. */
  lemma UpwardSeedWalk(w: seq<int>, e: Eureka.EurekaTuple, argType: Type)
    requires e.operator == StepSub && |w| == |e.tuple| > 0
    requires w == Seeds.Progression(w[0], |e.tuple|, e.stepSize)
    ensures forall j :: 0 <= j < |e.tuple| ==> ArgValue(CurrentArgumentOf(w[|e.tuple| - 1], e, argType), j) == w[j]
  {
    var len, q := |e.tuple|, e.stepSize;
    assert w[len - 1] == w[0] + (len - 1) * q;
    forall j | 0 <= j < len ensures ArgValue(CurrentArgumentOf(w[len - 1], e, argType), j) == w[j] {
      assert w[j] == w[0] + j * q;
      UpwardWalkAt(w[0], q, len - 1, j, argType);
    }
  }

  /** A descending window of step q is the walk downward from its first element. */
  lemma DownwardSeedWalk(w: seq<int>, e: Eureka.EurekaTuple, argType: Type)
    requires e.operator == StepAdd && |w| == |e.tuple| > 0
    requires w == Seeds.Reversed(Seeds.Progression(w[|e.tuple| - 1], |e.tuple|, e.stepSize))
    ensures forall j :: 0 <= j < |e.tuple| ==> ArgValue(CurrentArgumentOf(w[|e.tuple| - 1], e, argType), j) == w[j]
  {
    var len, q := |e.tuple|, e.stepSize;
    var p := Seeds.Progression(w[len - 1], len, q);
    forall j | 0 <= j < len ensures ArgValue(CurrentArgumentOf(w[len - 1], e, argType), j) == w[j] {
      assert w[j] == p[len - 1 - j] == w[len - 1] + (len - 1 - j) * q;
      DownwardWalkAt(w[len - 1], q, len - 1, j, argType);
    }
  }

  /** The seed window lists the arguments of counters 0, ..., L - 1 of the walk its block runs. */
  lemma SeedIsWalk(constants: BTreeMap, e: Eureka.EurekaTuple, seeds: seq<seq<int>>, k: nat, argType: Type)
    requires e.stepSize >= 1 && Seeds.SeedsFor(constants, e.tuple, e.stepSize, e.operator) == Ok(seeds) && k < |seeds|
    ensures |seeds[k]| == |e.tuple| > 0
    ensures forall j :: 0 <= j < |e.tuple| ==> ArgValue(CurrentArgumentOf(seeds[k][|e.tuple| - 1], e, argType), j) == seeds[k][j]
  {
    if e.operator == StepSub {
      Seeds.SubSeedsAreWindows(constants, e.tuple, e.stepSize, seeds, k);
      UpwardSeedWalk(seeds[k], e, argType);
    } else {
      Seeds.AddSeedsAreWindows(constants, e.tuple, e.stepSize, seeds, k);
      DownwardSeedWalk(seeds[k], e, argType);
    }
  }

  /** The shape, arms and body of a block `create_loop` builds reading the current argument. */
  lemma BuiltBranchShape(f: MatchFunction, e: Eureka.EurekaTuple, w: seq<int>)
    requires e.stepSize > 0 && |w| == |e.tuple| > 0
    requires forall x :: x in w ==> x in ToMap(f.constants)
    requires BranchFor(f, e, w, ReadCurrentArgument).Ok?
    ensures WellFormed(BranchFor(f, e, w, ReadCurrentArgument).value)
    ensures BranchFor(f, e, w, ReadCurrentArgument).value.guard == Guard(e.operator, w[|w| - 1], e.stepSize)
    ensures BranchFor(f, e, w, ReadCurrentArgument).value.argument == CurrentArgumentOf(w[|w| - 1], e, f.argType)
    ensures BranchFor(f, e, w, ReadCurrentArgument).value.tuple == TmpTuple(f.constants, w)
    ensures BranchFor(f, e, w, ReadCurrentArgument).value.tupleLen == |w|
    ensures BranchFor(f, e, w, ReadCurrentArgument).value.arms == Arms(f.constants, w[|w| - 1], e.stepSize, e.operator)
    ensures Rewrite(f.recursiveExpr, CorrectedContext(f, BranchFor(f, e, w, ReadCurrentArgument).value)) ==
      Ok(BranchFor(f, e, w, ReadCurrentArgument).value.body)
  {
    var b := BranchFor(f, e, w, ReadCurrentArgument).value;
    assert CorrectedContext(f, b) == ContextFor(f, e, b.argument, ReadCurrentArgument);
  }

  /** Every block `create_loop` builds (reading the current argument) is faithful and seeded by its window. */
  lemma SynthesizedBranchFaithful(f: MatchFunction, e: Eureka.EurekaTuple, seeds: seq<seq<int>>, k: nat)
    requires Eureka.EurekaFor(f.recursiveExpr, f.name, f.recursionParameter) == Ok(e)
    requires Seeds.SeedsFor(f.constants, e.tuple, e.stepSize, e.operator) == Ok(seeds) && k < |seeds|
    requires e.stepSize > 0 && SeedWindows(f.constants, seeds, |e.tuple|)
    requires BranchFor(f, e, seeds[k], ReadCurrentArgument).Ok?
    ensures FaithfulBranch(f, BranchFor(f, e, seeds[k], ReadCurrentArgument).value)
    ensures SeededBy(f, BranchFor(f, e, seeds[k], ReadCurrentArgument).value)
  {
    var w := seeds[k];
    var b := BranchFor(f, e, w, ReadCurrentArgument).value;
    BuiltBranchShape(f, e, w);
    AnalysisBounds(f.recursiveExpr, f.name, f.recursionParameter);
    SeedIsWalk(f.constants, e, seeds, k, f.argType);
    forall j | 0 <= j < b.tupleLen
      ensures ArgValue(b.argument, j) in ToMap(f.constants) && b.tuple[j] == ToMap(f.constants)[ArgValue(b.argument, j)]
    {
      assert ArgValue(b.argument, j) == w[j];
      assert w[j] in w;
    }
  }

  /** A key takes its fast path. */
  lemma FastPathHit(constants: BTreeMap, n: int)
    requires n in ToMap(constants)
    ensures CheckLookup(ConstantChecks(constants), n) == Some(ToMap(constants)[n])
  {
    var checks, m := ConstantChecks(constants), ToMap(constants);
    ConstantChecksExactly(constants);
    assert ConstantCheck(n, m[n]) in checks;
    var c :| 0 <= c < |checks| && checks[c] == ConstantCheck(n, m[n]);
    assert checks[c].key == n;
  }

  /** Any other argument passes every fast path. */
  lemma FastPathMiss(constants: BTreeMap, n: int)
    requires n !in ToMap(constants)
    ensures CheckLookup(ConstantChecks(constants), n) == None
  {
    var checks := ConstantChecks(constants);
    ConstantChecksExactly(constants);
    forall c | 0 <= c < |checks| ensures checks[c].key != n {
      assert ConstantCheck(checks[c].key, checks[c].value) in checks;
    }
  }

  /**
   * The iterative body agrees with the recursive definition: wherever the
   * recursion reaches a value v at n, the body returns v through its fast
   * path or the first block whose guard admits n, and panics when neither
   * applies.
   */
  lemma IterativeAgreesWithRecursive(f: MatchFunction, e: Eureka.EurekaTuple, plan: Plan, n: int, fuel: nat, v: int)
    requires Eureka.EurekaFor(f.recursiveExpr, f.name, f.recursionParameter) == Ok(e) && e.stepSize > 0
    requires Synthesize(f, e, ReadCurrentArgument) == Ok(plan)
    requires f.recursionParameter != "i"
    requires NaiveAt(f, fuel, n) == Some(v)
    ensures n in ToMap(f.constants) ==> RunPlan(plan, n) == Value(v)
    ensures FirstBranch(plan.branches, n).Some? ==> RunPlan(plan, n) == Value(v)
    ensures n !in ToMap(f.constants) && FirstBranch(plan.branches, n).None? ==> RunPlan(plan, n) == Panic
  {
    PlanHeader(f, e, plan);
    if n in ToMap(f.constants) {
      FastPathHit(f.constants, n);
    } else {
      FastPathMiss(f.constants, n);
      if FirstBranch(plan.branches, n).Some? {
        GuardedCase(f, e, plan, FirstBranch(plan.branches, n).value, n, fuel, v);
      }
    }
  }

  /** The k-th block of the synthesized body is faithful and seeded. */
  lemma PlannedBranchFaithful(f: MatchFunction, e: Eureka.EurekaTuple, plan: Plan, k: nat)
    requires Eureka.EurekaFor(f.recursiveExpr, f.name, f.recursionParameter) == Ok(e) && e.stepSize > 0
    requires Synthesize(f, e, ReadCurrentArgument) == Ok(plan) && k < |plan.branches|
    ensures FaithfulBranch(f, plan.branches[k]) && SeededBy(f, plan.branches[k])
  {
    var seeds := Seeds.SeedsFor(f.constants, e.tuple, e.stepSize, e.operator).value;
    SeedsAreKeyWindows(f.constants, e.tuple, e.stepSize, e.operator, seeds);
    assert plan.branches == BranchesFor(f, e, seeds, ReadCurrentArgument).value;
    BranchesForShape(f, e, seeds, ReadCurrentArgument);
    SynthesizedBranchFaithful(f, e, seeds, k);
  }

  lemma PlanHeader(f: MatchFunction, e: Eureka.EurekaTuple, plan: Plan)
    requires e.stepSize > 0 && Synthesize(f, e, ReadCurrentArgument) == Ok(plan)
    ensures plan.parameter == f.recursionParameter && plan.checks == ConstantChecks(f.constants)
  {
    SynthesizeOutcome(f, e, ReadCurrentArgument);
  }

  /** The block chosen for a non-key argument returns the function's value there. */
  lemma GuardedCase(f: MatchFunction, e: Eureka.EurekaTuple, plan: Plan, k: nat, n: int, fuel: nat, v: int)
    requires Eureka.EurekaFor(f.recursiveExpr, f.name, f.recursionParameter) == Ok(e) && e.stepSize > 0
    requires Synthesize(f, e, ReadCurrentArgument) == Ok(plan) && k < |plan.branches|
    requires f.recursionParameter != "i" && n !in ToMap(f.constants)
    requires GuardHolds(plan.branches[k].guard, n) && NaiveAt(f, fuel, n) == Some(v)
    ensures BranchOutcome(plan.branches[k], n, f.recursionParameter) == Value(v)
  {
    NaiveDefinedInFragment(f, f.recursiveExpr, fuel - 1, n);
    PlannedBranchFaithful(f, e, plan, k);
    BranchAgrees(f, plan.branches[k], n, fuel, v);
  }

  // ---------------------------------------------------------------------------
  // The parameter outside the self-calls

  /** No path naming the parameter lies outside the arguments of a self-call. */
  predicate ParameterOnlyInCalls(e: Expr, name: string, parameter: string)
    decreases e
  {
    match e
    case Path(segments) => segments != [parameter]
    case Call(func, args) => CallName(func) == Ok(name) || forall x :: x in args ==> ParameterOnlyInCalls(x, name, parameter)
    case Array(elems) => forall x :: x in elems ==> ParameterOnlyInCalls(x, name, parameter)
    case Tuple(elems) => forall x :: x in elems ==> ParameterOnlyInCalls(x, name, parameter)
    case Binary(left, _, right) => ParameterOnlyInCalls(left, name, parameter) && ParameterOnlyInCalls(right, name, parameter)
    case Index(base, index) => ParameterOnlyInCalls(base, name, parameter) && ParameterOnlyInCalls(index, name, parameter)
    case Cast(inner, _) => ParameterOnlyInCalls(inner, name, parameter)
    case Paren(inner) => ParameterOnlyInCalls(inner, name, parameter)
    case Reference(_, inner) => ParameterOnlyInCalls(inner, name, parameter)
    case Unary(_, inner) => ParameterOnlyInCalls(inner, name, parameter)
    case _ => true
  }

  /** Then what a path naming the parameter becomes does not matter. */
  lemma {:induction false} ReadingIrrelevant(e: Expr, c1: RewriteContext, c2: RewriteContext)
    requires c1.stepSize > 0 && c2 == c1.(parameterExpr := c2.parameterExpr)
    requires ParameterOnlyInCalls(e, c1.name, c1.parameter)
    ensures Rewrite(e, c1) == Rewrite(e, c2)
    decreases e, 1
  {
    match e
    case Call(func, args) =>
      if CallName(func) != Ok(c1.name) {
        ReadingIrrelevantSeq(args, c1, c2);
      }
    case Array(elems) => ReadingIrrelevantSeq(elems, c1, c2);
    case Tuple(elems) => ReadingIrrelevantSeq(elems, c1, c2);
    case Binary(left, _, right) => ReadingIrrelevant(left, c1, c2); ReadingIrrelevant(right, c1, c2);
    case Index(base, index) => ReadingIrrelevant(base, c1, c2); ReadingIrrelevant(index, c1, c2);
    case Cast(inner, _) => ReadingIrrelevant(inner, c1, c2);
    case Paren(inner) => ReadingIrrelevant(inner, c1, c2);
    case Reference(_, inner) => ReadingIrrelevant(inner, c1, c2);
    case Unary(_, inner) => ReadingIrrelevant(inner, c1, c2);
    case _ =>
  }

  lemma {:induction false} ReadingIrrelevantSeq(es: seq<Expr>, c1: RewriteContext, c2: RewriteContext)
    requires c1.stepSize > 0 && c2 == c1.(parameterExpr := c2.parameterExpr)
    requires forall x :: x in es ==> ParameterOnlyInCalls(x, c1.name, c1.parameter)
    ensures RewriteSeq(es, c1) == RewriteSeq(es, c2)
    decreases es, 0
  {
    if es != [] {
      ReadingIrrelevant(es[0], c1, c2);
      ReadingIrrelevantSeq(es[1..], c1, c2);
    }
  }

  lemma {:induction false} BranchesReadingIrrelevant(f: MatchFunction, e: Eureka.EurekaTuple, seeds: seq<seq<int>>)
    requires e.stepSize > 0 && SeedWindows(f.constants, seeds, |e.tuple|)
    requires ParameterOnlyInCalls(f.recursiveExpr, f.name, f.recursionParameter)
    ensures BranchesFor(f, e, seeds, KeepParameter) == BranchesFor(f, e, seeds, ReadCurrentArgument)
    decreases |seeds|
  {
    if seeds != [] {
      var w := seeds[0];
      var arg := CurrentArgumentOf(w[|w| - 1], e, f.argType);
      ReadingIrrelevant(f.recursiveExpr, ContextFor(f, e, arg, KeepParameter), ContextFor(f, e, arg, ReadCurrentArgument));
      BranchesReadingIrrelevant(f, e, seeds[1..]);
    }
  }

  /** Where the parameter occurs only inside self-call arguments, the body as written and the corrected body coincide. */
  lemma SynthesisReadingIrrelevant(f: MatchFunction, e: Eureka.EurekaTuple)
    requires e.stepSize > 0 && ParameterOnlyInCalls(f.recursiveExpr, f.name, f.recursionParameter)
    ensures Synthesize(f, e, KeepParameter) == Synthesize(f, e, ReadCurrentArgument)
  {
    if |e.tuple| <= |f.constants| {
      var seeds := Seeds.SeedsFor(f.constants, e.tuple, e.stepSize, e.operator);
      if seeds.Ok? {
        SeedsAreKeyWindows(f.constants, e.tuple, e.stepSize, e.operator, seeds.value);
        BranchesReadingIrrelevant(f, e, seeds.value);
      }
    }
  }

  /** The corrected body of `construct_iterative_stmts` agrees with the recursive definition. */
  lemma CorrectedBodyAgrees(f: MatchFunction, plan: Plan, n: int, fuel: nat, v: int)
    requires IterativeBody(f, ReadCurrentArgument) == Ok(plan)
    requires f.recursionParameter != "i"
    requires NaiveAt(f, fuel, n) == Some(v)
    ensures n in ToMap(f.constants) ==> RunPlan(plan, n) == Value(v)
    ensures FirstBranch(plan.branches, n).Some? ==> RunPlan(plan, n) == Value(v)
    ensures n !in ToMap(f.constants) && FirstBranch(plan.branches, n).None? ==> RunPlan(plan, n) == Panic
  {
    var e := Eureka.EurekaFor(f.recursiveExpr, f.name, f.recursionParameter).value;
    Eureka.EurekaStepPositive(f.recursiveExpr, f.name, f.recursionParameter);
    IterativeAgreesWithRecursive(f, e, plan, n, fuel, v);
  }

  /**
   * The body as the source writes it agrees with the recursive definition
   * whenever the parameter occurs only inside the arguments of self-calls.
   */
  lemma AsWrittenBodyAgrees(f: MatchFunction, plan: Plan, n: int, fuel: nat, v: int)
    requires IterativeBody(f, KeepParameter) == Ok(plan)
    requires ParameterOnlyInCalls(f.recursiveExpr, f.name, f.recursionParameter) && f.recursionParameter != "i"
    requires NaiveAt(f, fuel, n) == Some(v)
    ensures n in ToMap(f.constants) ==> RunPlan(plan, n) == Value(v)
    ensures FirstBranch(plan.branches, n).Some? ==> RunPlan(plan, n) == Value(v)
    ensures n !in ToMap(f.constants) && FirstBranch(plan.branches, n).None? ==> RunPlan(plan, n) == Panic
  {
    var e := Eureka.EurekaFor(f.recursiveExpr, f.name, f.recursionParameter).value;
    Eureka.EurekaStepPositive(f.recursiveExpr, f.name, f.recursionParameter);
    SynthesisReadingIrrelevant(f, e);
    CorrectedBodyAgrees(f, plan, n, fuel, v);
  }

  // ---------------------------------------------------------------------------
  // The converse: a value the emitted body returns is the recursion's value

  /**
   * On the fragment, every round of a block produces a value, and the value
   * returned after `left` rounds is the function at the argument reached.
   */
  lemma {:induction false} RoundsValue(f: MatchFunction, b: Branch, n: int, ring: seq<int>, i: nat, left: nat, fuel: nat)
    requires FaithfulBranch(f, b) && f.recursionParameter != "i" && InFragment(f, f.recursiveExpr)
    requires RingHolds(f, b, ring, i, fuel)
    ensures Rounds(b, n, f.recursionParameter, ring, i, left).Value?
    ensures NaiveAt(f, fuel + left, ArgValue(b.argument, i + left)) == Some(Rounds(b, n, f.recursionParameter, ring, i, left).v)
    decreases left
  {
    if left == 0 {
      assert NaiveAt(f, fuel, ArgValue(b.argument, i)) == Some(ring[i % b.tupleLen]);
    } else {
      StepAgrees(f, b, ring, i, n, fuel);
      var x := StepValue(b, ring, i + 1, n, f.recursionParameter).v;
      RingAdvance(f, b, ring, i, fuel, x);
      RoundsValue(f, b, n, ring[(i + 1) % b.tupleLen := x], i + 1, left - 1, fuel + 1);
    }
  }

  /** Under its guard, a faithful block seeded by the constants returns the function's value at n. */
  lemma BranchValue(f: MatchFunction, b: Branch, n: int)
    requires FaithfulBranch(f, b) && SeededBy(f, b) && f.recursionParameter != "i" && InFragment(f, f.recursiveExpr)
    requires GuardHolds(b.guard, n)
    ensures Rounds(b, n, f.recursionParameter, b.tuple, b.startIndex, RoundsTo(b.guard, n)).Value?
    ensures NaiveAt(f, RoundsTo(b.guard, n), n) == Some(Rounds(b, n, f.recursionParameter, b.tuple, b.startIndex, RoundsTo(b.guard, n)).v)
  {
    var t := RoundsTo(b.guard, n);
    RingStart(f, b);
    RoundsValue(f, b, n, b.tuple, b.startIndex, t, 0);
    var x := ArgValue(b.argument, b.startIndex + t);
    assert NaiveAt(f, t, x) == Some(Rounds(b, n, f.recursionParameter, b.tuple, b.startIndex, t).v);
    LoopStopsAt(b, n, t);
    assert x == n;
  }

  /**
   * The converse of IterativeAgreesWithRecursive: on the fragment, a value
   * the iterative body returns at n is the value the recursion reaches at n.
   */
  lemma IterativeValueIsRecursive(f: MatchFunction, e: Eureka.EurekaTuple, plan: Plan, n: int, v: int)
    requires Eureka.EurekaFor(f.recursiveExpr, f.name, f.recursionParameter) == Ok(e) && e.stepSize > 0
    requires Synthesize(f, e, ReadCurrentArgument) == Ok(plan)
    requires f.recursionParameter != "i" && InFragment(f, f.recursiveExpr)
    requires RunPlan(plan, n) == Value(v)
    ensures exists fuel: nat :: NaiveAt(f, fuel, n) == Some(v)
  {
    PlanHeader(f, e, plan);
    if n in ToMap(f.constants) {
      FastPathHit(f.constants, n);
      assert NaiveAt(f, 0, n) == Some(v);
    } else {
      FastPathMiss(f.constants, n);
      var k := FirstBranch(plan.branches, n).value;
      PlannedBranchFaithful(f, e, plan, k);
      BranchValue(f, plan.branches[k], n);
      assert NaiveAt(f, RoundsTo(plan.branches[k].guard, n), n) == Some(v);
    }
  }

  /** The corrected body returns a value only where the recursion reaches that value. */
  lemma CorrectedBodyValueIsRecursive(f: MatchFunction, plan: Plan, n: int, v: int)
    requires IterativeBody(f, ReadCurrentArgument) == Ok(plan)
    requires f.recursionParameter != "i" && InFragment(f, f.recursiveExpr)
    requires RunPlan(plan, n) == Value(v)
    ensures exists fuel: nat :: NaiveAt(f, fuel, n) == Some(v)
  {
    var e := Eureka.EurekaFor(f.recursiveExpr, f.name, f.recursionParameter).value;
    Eureka.EurekaStepPositive(f.recursiveExpr, f.name, f.recursionParameter);
    IterativeValueIsRecursive(f, e, plan, n, v);
  }

  /** The same for the body as the source writes it, where the parameter occurs only inside self-call arguments. */
  lemma AsWrittenBodyValueIsRecursive(f: MatchFunction, plan: Plan, n: int, v: int)
    requires IterativeBody(f, KeepParameter) == Ok(plan)
    requires ParameterOnlyInCalls(f.recursiveExpr, f.name, f.recursionParameter)
    requires f.recursionParameter != "i" && InFragment(f, f.recursiveExpr)
    requires RunPlan(plan, n) == Value(v)
    ensures exists fuel: nat :: NaiveAt(f, fuel, n) == Some(v)
  {
    var e := Eureka.EurekaFor(f.recursiveExpr, f.name, f.recursionParameter).value;
    Eureka.EurekaStepPositive(f.recursiveExpr, f.name, f.recursionParameter);
    SynthesisReadingIrrelevant(f, e);
    CorrectedBodyValueIsRecursive(f, plan, n, v);
  }

  /**
   * Both directions together: on the fragment, the corrected body returns v
   * at n exactly when the recursion reaches v at n and n is a key or some
   * block admits it.
   */
  lemma CorrectedBodyExactly(f: MatchFunction, plan: Plan, n: int, v: int)
    requires IterativeBody(f, ReadCurrentArgument) == Ok(plan)
    requires f.recursionParameter != "i" && InFragment(f, f.recursiveExpr)
    ensures RunPlan(plan, n) == Value(v) <==>
      (exists fuel: nat :: NaiveAt(f, fuel, n) == Some(v)) && (n in ToMap(f.constants) || FirstBranch(plan.branches, n).Some?)
  {
    if RunPlan(plan, n) == Value(v) {
      CorrectedBodyValueIsRecursive(f, plan, n, v);
      var fuel: nat :| NaiveAt(f, fuel, n) == Some(v);
      CorrectedBodyAgrees(f, plan, n, fuel, v);
    }
    if exists fuel: nat :: NaiveAt(f, fuel, n) == Some(v) {
      var fuel: nat :| NaiveAt(f, fuel, n) == Some(v);
      CorrectedBodyAgrees(f, plan, n, fuel, v);
    }
  }
}
