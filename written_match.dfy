/**
 * The function as Rust runs it. A `match` tries its arms from the top and
 * runs the first one whose pattern admits the argument. `read_match` and
 * `convert_constants` instead read every literal arm into a map, in which
 * a later arm overrides an earlier one, and they ignore guards. The two
 * readings agree on a plain match: no guard, the wildcard as the last arm,
 * and no key named twice. On the other matches the macro changes the
 * function, as the two examples at the end show.
 */
module WrittenMatch {
  import opened Wrappers
  import opened Syntax
  import opened Plans
  import opened SortedMap
  import opened RecursiveCalls
  import opened Synthesis
  import opened Optimizable
  import opened Generated
  import opened Reference
  import FibExample

  // ---------------------------------------------------------------------------
  // The match as written

  /** What the first admitting arm gives: a constant, the formula, or nothing the model gives a meaning to. */
  datatype Chosen = ChosenConstant(value: int) | ChosenFormula(body: Expr) | ChosenOutside

  /**
   * The arm Rust runs for the argument m: a literal pattern that names
   * another value passes on to the next arm. A guard's condition, a binding
   * or any other pattern, and running out of arms, are outside the model.
   */
  function FirstMatch(arms: seq<Arm>, m: int): Chosen
    decreases |arms|
  {
    if arms == [] then ChosenOutside
    else
      var a := arms[0];
      if a.pat.PatLit? && TryGetIntLit(a.pat.expr) != Some(m) then FirstMatch(arms[1..], m)
      else if a.guard.Some? then ChosenOutside
      else if a.pat.PatWild? then ChosenFormula(a.body)
      else if a.pat.PatLit? && TryGetIntLit(a.body).Some? then ChosenConstant(TryGetIntLit(a.body).value)
      else ChosenOutside
  }

  /**
   * The function as written at m, unfolding a formula at most `fuel`
   * times. `f` gives the function's name and parameter; the arms give
   * everything else.
   */
  function WrittenAt(f: MatchFunction, arms: seq<Arm>, fuel: nat, m: int): Option<int>
    decreases fuel, 0
  {
    match FirstMatch(arms, m)
    case ChosenConstant(v) => Some(v)
    case ChosenFormula(body) => if fuel == 0 then None else WrittenEval(f, arms, body, fuel - 1, m)
    case ChosenOutside => None
  }

  /** A formula at m, as `Reference.NaiveEval` evaluates it, with each self-call run through the arms. */
  function WrittenEval(f: MatchFunction, arms: seq<Arm>, e: Expr, fuel: nat, m: int): Option<int>
    decreases fuel, 1, e
  {
    match e
    case Lit(lit) => if lit.IntLit? then Some(lit.value) else None
    case Path(segments) => if segments == [f.recursionParameter] then Some(m) else None
    case Binary(left, op, right) =>
      (match WrittenEval(f, arms, left, fuel, m)
       case Some(a) => (match WrittenEval(f, arms, right, fuel, m) case Some(b) => NaiveArith(op, a, b) case None => None)
       case None => None)
    case Unary(uop, inner) =>
      if uop != Neg then None
      else (match WrittenEval(f, arms, inner, fuel, m) case Some(a) => Some(-a) case None => None)
    case Cast(inner, _) => WrittenEval(f, arms, inner, fuel, m)
    case Paren(inner) => WrittenEval(f, arms, inner, fuel, m)
    case Call(func, args) =>
      if SelfCall(f, func, args) then
        var rc := RecursiveCallFrom(args[0].left, args[0].op, args[0].right, f.recursionParameter).value;
        WrittenAt(f, arms, fuel, Callee(rc.operator, m, rc.steps))
      else None
    case _ => None
  }

  /**
   * A match `read_match` accepts whose readings agree: integer literal arms
   * and then the wildcard as the last arm, no guard, and no literal pattern
   * written twice.
   */
  predicate Plain(arms: seq<Arm>) {
    |arms| > 0 && arms[|arms| - 1].pat.PatWild? &&
    (forall j :: 0 <= j < |arms| ==> ArmOk(arms[j]) && arms[j].guard.None?) &&
    (forall j :: 0 <= j < |arms| - 1 ==> !arms[j].pat.PatWild?) &&
    (forall i, j :: 0 <= i < j < |arms| - 1 ==> arms[i].pat != arms[j].pat)
  }

  // ---------------------------------------------------------------------------
  // A plain match

  /** The literal pairs of a plain match are its arms but the last, in order. */
  lemma {:induction false} PlainPairs(arms: seq<Arm>)
    requires Plain(arms)
    ensures forall a :: a in arms ==> ArmOk(a)
    ensures |LitPairs(arms)| == |arms| - 1
    ensures forall i :: 0 <= i < |arms| - 1 ==>
      LitPairs(arms)[i] == (TryGetIntLit(arms[i].pat.expr).value, TryGetIntLit(arms[i].body).value)
    ensures FirstWild(arms) == Some(arms[|arms| - 1].body)
    decreases |arms|
  {
    assert forall a :: a in arms ==> ArmOk(a) by {
      forall a | a in arms ensures ArmOk(a) {
        var j :| 0 <= j < |arms| && arms[j] == a;
      }
    }
    if |arms| > 1 {
      var t := arms[1..];
      assert Plain(t) by {
        forall i, j | 0 <= i < j < |t| - 1 ensures t[i].pat != t[j].pat {
          assert t[i] == arms[i + 1] && t[j] == arms[j + 1];
        }
      }
      PlainPairs(t);
      assert !arms[0].pat.PatWild?;
      var pair := (TryGetIntLit(arms[0].pat.expr).value, TryGetIntLit(arms[0].body).value);
      assert LitPairs(arms) == [pair] + LitPairs(t);
    }
  }

  /** On a plain match Rust runs the arm naming m, and the wildcard when none does. */
  lemma {:induction false} PlainFirstMatch(arms: seq<Arm>, m: int)
    requires Plain(arms)
    ensures forall i :: 0 <= i < |arms| - 1 && TryGetIntLit(arms[i].pat.expr) == Some(m) ==>
      FirstMatch(arms, m) == ChosenConstant(TryGetIntLit(arms[i].body).value)
    ensures (forall i :: 0 <= i < |arms| - 1 ==> TryGetIntLit(arms[i].pat.expr) != Some(m)) ==>
      FirstMatch(arms, m) == ChosenFormula(arms[|arms| - 1].body)
    decreases |arms|
  {
    assert ArmOk(arms[0]);
    if |arms| > 1 {
      var t := arms[1..];
      assert Plain(t) by {
        forall i, j | 0 <= i < j < |t| - 1 ensures t[i].pat != t[j].pat {
          assert t[i] == arms[i + 1] && t[j] == arms[j + 1];
        }
      }
      if TryGetIntLit(arms[0].pat.expr) != Some(m) {
        PlainFirstMatch(t, m);
        assert forall i :: 0 < i < |arms| ==> arms[i] == t[i - 1];
      }
    }
  }

  /** The map `convert_constants` builds from a plain match holds exactly the literal arms' pairs. */
  lemma {:induction false} PlainTable(arms: seq<Arm>, m: int)
    requires Plain(arms)
    ensures forall a :: a in arms ==> ArmOk(a)
    ensures m in ToMap(BuildConstants(LitPairs(arms))) <==>
      exists i :: 0 <= i < |arms| - 1 && TryGetIntLit(arms[i].pat.expr) == Some(m)
    ensures forall i :: 0 <= i < |arms| - 1 && TryGetIntLit(arms[i].pat.expr) == Some(m) ==>
      ToMap(BuildConstants(LitPairs(arms)))[m] == TryGetIntLit(arms[i].body).value
  {
    PlainPairs(arms);
    var cs := LitPairs(arms);
    ConstantsKeys(cs);
    forall i | 0 <= i < |arms| - 1 && TryGetIntLit(arms[i].pat.expr) == Some(m)
      ensures m in ToMap(BuildConstants(cs)) && ToMap(BuildConstants(cs))[m] == TryGetIntLit(arms[i].body).value
    {
      forall j | i < j < |cs| ensures cs[j].0 != cs[i].0 {
        assert ArmOk(arms[i]) && ArmOk(arms[j]);
      }
      ConstantsLastWins(cs, i);
    }
    if m in ToMap(BuildConstants(cs)) {
      assert m in KeySet(BuildConstants(cs));
      var i :| 0 <= i < |cs| && cs[i].0 == m;
      assert TryGetIntLit(arms[i].pat.expr) == Some(m);
    }
  }

  /** The two readings choose alike: a key of the map takes its constant, any other argument the formula. */
  lemma {:induction false} PlainChoice(arms: seq<Arm>, m: int)
    requires Plain(arms)
    ensures forall a :: a in arms ==> ArmOk(a)
    ensures FirstMatch(arms, m) ==
      if m in ToMap(BuildConstants(LitPairs(arms))) then ChosenConstant(ToMap(BuildConstants(LitPairs(arms)))[m])
      else ChosenFormula(arms[|arms| - 1].body)
  {
    PlainTable(arms, m);
    PlainFirstMatch(arms, m);
  }

  /**
   * On a plain match, the function as written is the function the macro
   * reads: the same value, or none, for every argument and fuel.
   */
  lemma {:induction false} WrittenIsNaive(f: MatchFunction, arms: seq<Arm>, fuel: nat, m: int)
    requires Plain(arms)
    requires (PlainPairs(arms); f.constants == BuildConstants(LitPairs(arms)))
    requires f.recursiveExpr == arms[|arms| - 1].body
    ensures WrittenAt(f, arms, fuel, m) == NaiveAt(f, fuel, m)
    decreases fuel, 0
  {
    PlainChoice(arms, m);
    if m !in ToMap(f.constants) && fuel > 0 {
      WrittenEvalIsNaive(f, arms, f.recursiveExpr, fuel - 1, m);
    }
  }

  lemma {:induction false} WrittenEvalIsNaive(f: MatchFunction, arms: seq<Arm>, e: Expr, fuel: nat, m: int)
    requires Plain(arms)
    requires (PlainPairs(arms); f.constants == BuildConstants(LitPairs(arms)))
    requires f.recursiveExpr == arms[|arms| - 1].body
    ensures WrittenEval(f, arms, e, fuel, m) == NaiveEval(f, e, fuel, m)
    decreases fuel, 1, e
  {
    match e
    case Binary(left, _, right) =>
      WrittenEvalIsNaive(f, arms, left, fuel, m);
      WrittenEvalIsNaive(f, arms, right, fuel, m);
    case Unary(_, inner) => WrittenEvalIsNaive(f, arms, inner, fuel, m);
    case Cast(inner, _) => WrittenEvalIsNaive(f, arms, inner, fuel, m);
    case Paren(inner) => WrittenEvalIsNaive(f, arms, inner, fuel, m);
    case Call(func, args) =>
      if SelfCall(f, func, args) {
        var rc := RecursiveCallFrom(args[0].left, args[0].op, args[0].right, f.recursionParameter).value;
        WrittenIsNaive(f, arms, fuel, Callee(rc.operator, m, rc.steps));
      }
    case _ =>
  }

  // ---------------------------------------------------------------------------
  // The corrected reading

  /**
   * `read_match` as it would have to be for the macro to keep the
   * function's meaning: besides its own aborts, it refuses a guard, and a
   * literal arm that Rust never reaches because an earlier arm names the
   * same key or the wildcard comes before it.
   */
  function CheckedMatchParts(block: seq<Stmt>): Result<(seq<(int, int)>, Expr), Error> {
    var parts :- MatchParts(block);
    var arms := block[0].expr.arms;
    if exists j :: 0 <= j < |arms| && arms[j].guard.Some? then Err(GuardedArm)
    else if !Plain(arms) then Err(UnreachableArm)
    else Ok(parts)
  }

  /** The corrected reading accepts exactly the plain matches `read_match` accepts, and reads them alike. */
  lemma CheckedMatchPartsExactly(block: seq<Stmt>)
    ensures CheckedMatchParts(block).Ok? <==>
      MatchParts(block).Ok? && |block| == 1 && block[0].ExprStmt? && block[0].expr.Match? && Plain(block[0].expr.arms)
    ensures CheckedMatchParts(block).Ok? ==> CheckedMatchParts(block) == MatchParts(block)
    ensures MatchParts(block).Ok? && (exists j :: 0 <= j < |block[0].expr.arms| && block[0].expr.arms[j].guard.Some?) ==>
      CheckedMatchParts(block) == Err(GuardedArm)
  {
  }

  /**
   * The iterative body agrees with the function as written, for a match the
   * corrected reading accepts: where the written function reaches a value
   * v at n, the body returns v through a fast path or the first block whose
   * guard admits n, and panics when neither applies. `f` is the descriptor
   * `create_from` builds from the block; the body as the source writes it
   * needs the parameter to occur only inside self-calls.
   */
  lemma WrittenBodyAgrees(block: seq<Stmt>, f: MatchFunction, reading: ParameterReading, plan: Plan, n: int, fuel: nat, v: int)
    requires |block| == 1 && block[0].ExprStmt? && block[0].expr.Match?
    requires CheckedMatchParts(block).Ok?
    requires f.constants == BuildConstants(CheckedMatchParts(block).value.0) && f.recursiveExpr == CheckedMatchParts(block).value.1
    requires IterativeBody(f, reading) == Ok(plan) && f.recursionParameter != "i"
    requires reading == KeepParameter ==> ParameterOnlyInCalls(f.recursiveExpr, f.name, f.recursionParameter)
    requires WrittenAt(f, block[0].expr.arms, fuel, n) == Some(v)
    ensures n in ToMap(f.constants) ==> RunPlan(plan, n) == Value(v)
    ensures FirstBranch(plan.branches, n).Some? ==> RunPlan(plan, n) == Value(v)
    ensures n !in ToMap(f.constants) && FirstBranch(plan.branches, n).None? ==> RunPlan(plan, n) == Panic
  {
    var arms := block[0].expr.arms;
    CheckedMatchPartsExactly(block);
    ReadMatchExactly(block);
    PlainPairs(arms);
    WrittenIsNaive(f, arms, fuel, n);
    if reading == KeepParameter {
      AsWrittenBodyAgrees(f, plan, n, fuel, v);
    } else {
      CorrectedBodyAgrees(f, plan, n, fuel, v);
    }
  }
  /**
   * The converse: for a match the corrected reading accepts and a formula in
   * the fragment, a value the iterative body returns at n is the value the
   * written function reaches at n. A value where the written function has
   * none, as in LateLiteralDisagrees, is ruled out.
   */
  lemma WrittenBodyValueIsWritten(block: seq<Stmt>, f: MatchFunction, reading: ParameterReading, plan: Plan, n: int, v: int)
    requires |block| == 1 && block[0].ExprStmt? && block[0].expr.Match?
    requires CheckedMatchParts(block).Ok?
    requires f.constants == BuildConstants(CheckedMatchParts(block).value.0) && f.recursiveExpr == CheckedMatchParts(block).value.1
    requires IterativeBody(f, reading) == Ok(plan) && f.recursionParameter != "i" && InFragment(f, f.recursiveExpr)
    requires reading == KeepParameter ==> ParameterOnlyInCalls(f.recursiveExpr, f.name, f.recursionParameter)
    requires RunPlan(plan, n) == Value(v)
    ensures exists fuel: nat :: WrittenAt(f, block[0].expr.arms, fuel, n) == Some(v)
  {
    var arms := block[0].expr.arms;
    CheckedMatchPartsExactly(block);
    ReadMatchExactly(block);
    PlainPairs(arms);
    if reading == KeepParameter {
      AsWrittenBodyValueIsRecursive(f, plan, n, v);
    } else {
      CorrectedBodyValueIsRecursive(f, plan, n, v);
    }
    var fuel: nat :| NaiveAt(f, fuel, n) == Some(v);
    WrittenIsNaive(f, arms, fuel, n);
  }


  // ---------------------------------------------------------------------------
  // Two matches that are not plain, both read as fib_match

  function NumberArm(k: int, v: int): Arm {
    Arm(PatLit(IntExpr(k)), None, IntExpr(v))
  }

  function FibWildcard(): Arm {
    Arm(PatWild, None, FibExample.FibFormula())
  }

  /** `match n { 0 => 7, 0 => 0, 1 => 1, _ => fib(n - 1) + fib(n - 2) }`: Rust never reaches `0 => 0`. */
  function RepeatedKeyArms(): seq<Arm> {
    [NumberArm(0, 7), NumberArm(0, 0), NumberArm(1, 1), FibWildcard()]
  }

  /** `match n { 0 => 0, _ => fib(n - 1) + fib(n - 2), 1 => 1 }`: Rust never reaches `1 => 1`. */
  function LateLiteralArms(): seq<Arm> {
    [NumberArm(0, 0), FibWildcard(), NumberArm(1, 1)]
  }

  function MatchBlock(arms: seq<Arm>): seq<Stmt> {
    [ExprStmt(Match(Ident("n"), arms))]
  }

  /** fib_match as the basic tests write it: a plain match, which the corrected reading accepts. */
  function FibArms(): seq<Arm> {
    [NumberArm(0, 0), NumberArm(1, 1), FibWildcard()]
  }

  /** The corrected reading accepts fib_match's match, so `WrittenBodyAgrees` applies to it. */
  lemma FibMatchAccepted()
    ensures CheckedMatchParts(MatchBlock(FibArms())) == Ok(([(0, 0), (1, 1)], FibExample.FibFormula()))
  {
    var arms := FibArms();
    assert MatchBlock(arms)[0].expr.arms == arms;
    assert Plain(arms);
    PlainPairs(arms);
    ScanAccepts(arms, [], None);
    assert [] + LitPairs(arms) == LitPairs(arms);
    assert WildCount(arms) == 1 by {
      assert arms[1..][1..] == [FibWildcard()] && [FibWildcard()][1..] == [];
    }
    assert LitPairs(arms) == [(0, 0), (1, 1)];
    assert !exists j :: 0 <= j < |arms| && arms[j].guard.Some?;
  }

  /** `read_match` on the repeated key: every literal arm in order, then the formula. */
  lemma RepeatedKeyRead()
    ensures MatchParts(MatchBlock(RepeatedKeyArms())) == Ok(([(0, 7), (0, 0), (1, 1)], FibExample.FibFormula()))
  {
    var arms := RepeatedKeyArms();
    assert forall a :: a in arms ==> ArmOk(a);
    assert MatchBlock(arms)[0].expr.arms == arms;
    assert WildCount(arms) == 1 by {
      assert arms[1..][1..][1..] == [FibWildcard()] && [FibWildcard()][1..] == [];
    }
    ScanAccepts(arms, [], None);
    assert [] + LitPairs(arms) == LitPairs(arms);
    assert LitPairs([FibWildcard()]) == [] by { assert [FibWildcard()][1..] == []; }
    assert LitPairs(arms) == [(0, 7), (0, 0), (1, 1)] by {
      assert arms[1..] == [NumberArm(0, 0), NumberArm(1, 1), FibWildcard()];
      assert arms[1..][1..] == [NumberArm(1, 1), FibWildcard()];
      assert arms[1..][1..][1..] == [FibWildcard()];
    }
    assert FirstWild(arms) == Some(FibExample.FibFormula()) by {
      assert arms[1..][1..][1..] == [FibWildcard()];
    }
  }

  /** The corrected reading refuses it: `0 => 0` is unreachable. */
  lemma RepeatedKeyRefused()
    requires MatchParts(MatchBlock(RepeatedKeyArms())).Ok?
    ensures CheckedMatchParts(MatchBlock(RepeatedKeyArms())) == Err(UnreachableArm)
  {
    var arms := RepeatedKeyArms();
    assert MatchBlock(arms)[0].expr.arms == arms;
    assert arms[0].pat == arms[1].pat;
    assert !exists j :: 0 <= j < |arms| && arms[j].guard.Some?;
  }

  /** `convert_constants` keeps the later `0 => 0`. */
  lemma RepeatedKeyTable()
    ensures BuildConstants([(0, 7), (0, 0), (1, 1)]) == FibExample.Fib().constants
  {
    var cs: seq<(int, int)> := [(0, 7), (0, 0), (1, 1)];
    assert cs[..2] == [(0, 7), (0, 0)] && cs[..2][..1] == [(0, 7)] && |cs[..2][..1][..0]| == 0;
    assert BuildConstants([(0, 7)]) == [(0, 7)];
    assert BuildConstants([(0, 7), (0, 0)]) == [(0, 0)];
    assert Insert([(0, 0)], 1, 1) == [(0, 0), (1, 1)];
  }

  /** `fib_result` returns the constant 0 at 0 and 1 at 1, on its fast paths. */
  lemma FibFastPaths()
    ensures RunPlan(FibExample.FibPlan(), 0) == Value(0) && RunPlan(FibExample.FibPlan(), 1) == Value(1)
  {
    var checks := FibExample.FibPlan().checks;
    assert checks[1..] == [ConstantCheck(1, 1)];
  }

  /**
   * A repeated key: the function as written returns 7 at 0, while the
   * macro keeps the later `0 => 0`, reads fib_match and emits `fib_result`,
   * which returns 0.
   */
  lemma RepeatedKeyDisagrees()
    ensures MatchParts(MatchBlock(RepeatedKeyArms())) == Ok(([(0, 7), (0, 0), (1, 1)], FibExample.FibFormula()))
    ensures BuildConstants([(0, 7), (0, 0), (1, 1)]) == FibExample.Fib().constants
    ensures IterativeBody(FibExample.Fib(), KeepParameter) == Ok(FibExample.FibPlan())
    ensures WrittenAt(FibExample.Fib(), RepeatedKeyArms(), 0, 0) == Some(7)
    ensures RunPlan(FibExample.FibPlan(), 0) == Value(0)
    ensures CheckedMatchParts(MatchBlock(RepeatedKeyArms())) == Err(UnreachableArm)
  {
    RepeatedKeyRead();
    RepeatedKeyRefused();
    RepeatedKeyTable();
    FibExample.FibBody();
    FibFastPaths();
  }

  /** Below zero the written function never reaches a value: each self-call steps further down. */
  lemma {:induction false} LateLiteralBelowZero(fuel: nat, m: int)
    requires m < 0
    ensures WrittenAt(FibExample.Fib(), LateLiteralArms(), fuel, m) == None
    decreases fuel
  {
    var arms := LateLiteralArms();
    assert arms[1..] == [FibWildcard(), NumberArm(1, 1)];
    assert FirstMatch(arms, m) == ChosenFormula(FibExample.FibFormula());
    if fuel > 0 {
      LateLiteralBelowZero(fuel - 1, m - 1);
      LateLiteralSubCall(1, fuel - 1, m);
    }
  }

  lemma LateLiteralSubCall(k: int, fuel: nat, m: int)
    requires k > 0
    ensures WrittenEval(FibExample.Fib(), LateLiteralArms(), FibExample.FibCall(k), fuel, m) ==
      WrittenAt(FibExample.Fib(), LateLiteralArms(), fuel, m - k)
  {
    assert CallName(Ident("fib_match")) == Ok("fib_match");
    assert RecursiveCallFrom(Ident("n"), Sub, IntExpr(k), "n") == Ok(RecursiveCall(k, StepSub, 1));
  }

  /** `read_match` on the late literal: the literal arms in order, wherever they stand, and the formula. */
  lemma LateLiteralRead()
    ensures MatchParts(MatchBlock(LateLiteralArms())) == Ok(([(0, 0), (1, 1)], FibExample.FibFormula()))
  {
    var arms := LateLiteralArms();
    assert forall a :: a in arms ==> ArmOk(a);
    assert MatchBlock(arms)[0].expr.arms == arms;
    assert arms[1..] == [FibWildcard(), NumberArm(1, 1)];
    assert arms[1..][1..] == [NumberArm(1, 1)] && [NumberArm(1, 1)][1..] == [];
    assert WildCount(arms) == 1;
    ScanAccepts(arms, [], None);
    assert [] + LitPairs(arms) == LitPairs(arms);
    assert LitPairs(arms) == [(0, 0), (1, 1)];
    assert FirstWild(arms) == Some(FibExample.FibFormula());
  }

  /** The corrected reading refuses it: `1 => 1` is unreachable. */
  lemma LateLiteralRefused()
    requires MatchParts(MatchBlock(LateLiteralArms())).Ok?
    ensures CheckedMatchParts(MatchBlock(LateLiteralArms())) == Err(UnreachableArm)
  {
    var arms := LateLiteralArms();
    assert MatchBlock(arms)[0].expr.arms == arms;
    assert !arms[|arms| - 1].pat.PatWild?;
    assert !exists j :: 0 <= j < |arms| && arms[j].guard.Some?;
  }

  /** The written function at 1 runs the wildcard, and its call at -1 never returns. */
  lemma LateLiteralWritten(fuel: nat)
    ensures WrittenAt(FibExample.Fib(), LateLiteralArms(), fuel, 1) == None
  {
    var arms := LateLiteralArms();
    assert arms[1..] == [FibWildcard(), NumberArm(1, 1)];
    assert FirstMatch(arms, 1) == ChosenFormula(FibExample.FibFormula());
    if fuel > 0 {
      LateLiteralBelowZero(fuel - 1, -1);
      LateLiteralSubCall(2, fuel - 1, 1);
    }
  }

  /**
   * A literal arm after the wildcard: at 1 the function as written runs the
   * wildcard and never reaches a value, while the macro reads the `1 => 1`
   * arm as a constant, reads fib_match and emits `fib_result`, which
   * returns 1.
   */
  lemma LateLiteralDisagrees(fuel: nat)
    ensures MatchParts(MatchBlock(LateLiteralArms())) == Ok(([(0, 0), (1, 1)], FibExample.FibFormula()))
    ensures BuildConstants([(0, 0), (1, 1)]) == FibExample.Fib().constants
    ensures IterativeBody(FibExample.Fib(), KeepParameter) == Ok(FibExample.FibPlan())
    ensures WrittenAt(FibExample.Fib(), LateLiteralArms(), fuel, 1) == None
    ensures RunPlan(FibExample.FibPlan(), 1) == Value(1)
    ensures CheckedMatchParts(MatchBlock(LateLiteralArms())) == Err(UnreachableArm)
  {
    LateLiteralRead();
    LateLiteralRefused();
    assert [(0, 0), (1, 1)][..1] == [(0, 0)] && [(0, 0)][..0] == [];
    FibExample.FibBody();
    LateLiteralWritten(fuel);
    FibFastPaths();
  }
}
