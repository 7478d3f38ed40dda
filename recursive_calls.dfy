/**
 * Recurrence analysis of `abstract_recursive_match.rs`: finding the calls of
 * the formula, parsing each self-call argument into a step and an operator,
 * and normalising the steps by their gcd (`find_recursive_calls`).
 */
module RecursiveCalls {
  import opened Wrappers
  import opened Syntax
  import opened Numeric
  import opened Plans

  /** `RecursiveCall`: a self-call `f(p ± steps)`. */
  datatype RecursiveCall = RecursiveCall(steps: nat, operator: StepOperator, commonStepSize: nat)

  /** `syn::ExprCall`: callee and arguments. */
  datatype ExprCall = ExprCall(func: Expr, args: seq<Expr>)

  /** The result of `find_recursive_calls`: the normalised calls, sorted by step, the common operator and the gcd. */
  datatype CallAnalysis = CallAnalysis(calls: seq<RecursiveCall>, operator: StepOperator, stepSize: nat)

  /** `call_name`: the last path segment of the callee; any other callee is refused. */
  function CallName(func: Expr): Result<string, Error> {
    if func.Path? && |func.segments| > 0 then Ok(func.segments[|func.segments| - 1])
    else Err(CallConvention)
  }

  /** A callee path names its last segment, whatever qualifies it (`Self::f`, `crate::m::f`). */
  lemma CallNameQualified(prefix: seq<string>, name: string)
    ensures CallName(Path(prefix + [name])) == Ok(name)
  {
  }

  /** Any other callee, such as a closure, a field or a method, is refused. */
  lemma CallNameRefused(func: Expr)
    requires !func.Path? || func.segments == []
    ensures CallName(func) == Err(CallConvention)
  {
  }

  /** `recursion_parameter_ok`: the first operand that is a path decides. */
  function RecursionParameterOk(left: Expr, right: Expr, parameter: string): bool {
    match TryGetIdent(left)
    case Some(ident) => ident == parameter
    case None =>
      match TryGetIdent(right)
      case Some(ident) => ident == parameter
      case None => false
  }

  /** `recursive_call_from` on the binary argument `left op right`. */
  function RecursiveCallFrom(left: Expr, op: BinOp, right: Expr, parameter: string): Result<RecursiveCall, Error> {
    if op != Add && op != Sub then Err(UnsupportedStepOperator)
    else
      var operator := if op == Add then StepAdd else StepSub;
      var lit: Result<int, Error> :=
        if TryGetIntLit(left).Some? then
          (if operator == StepSub then Err(LiteralMinusParameter) else Ok(TryGetIntLit(left).value))
        else if TryGetIntLit(right).Some? then Ok(TryGetIntLit(right).value)
        else Err(MissingStepLiteral);
      if lit.Err? then Err(lit.error)
      else if !RecursionParameterOk(left, right, parameter) then Err(ParameterMismatch)
      else if lit.value <= 0 then Err(NonPositiveStep)
      else Ok(RecursiveCall(lit.value, operator, 1))
  }

  /** The argument shapes `p + k`, `k + p` and `p - k` with an integer literal k > 0. */
  predicate AcceptedShape(left: Expr, op: BinOp, right: Expr, parameter: string, k: int) {
    k > 0 &&
    ((op in {Add, Sub} && TryGetIdent(left) == Some(parameter) && right == IntExpr(k)) ||
     (op == Add && left == IntExpr(k) && TryGetIdent(right) == Some(parameter)))
  }

  lemma AcceptedCallShapes(left: Expr, op: BinOp, right: Expr, parameter: string)
    ensures RecursiveCallFrom(left, op, right, parameter).Ok? <==>
      exists k :: AcceptedShape(left, op, right, parameter, k)
    ensures forall k :: AcceptedShape(left, op, right, parameter, k) ==>
      RecursiveCallFrom(left, op, right, parameter) ==
        Ok(RecursiveCall(k, if op == Add then StepAdd else StepSub, 1))
  {
    var r := RecursiveCallFrom(left, op, right, parameter);
    if r.Ok? {
      var k := r.value.steps;
      if TryGetIntLit(left).Some? {
        assert AcceptedShape(left, op, right, parameter, k);
      } else {
        assert AcceptedShape(left, op, right, parameter, k);
      }
    }
  }

  /** The rejected shapes, one error each. */
  lemma RejectedCallShapes(left: Expr, op: BinOp, right: Expr, parameter: string, k: int)
    ensures op !in {Add, Sub} ==> RecursiveCallFrom(left, op, right, parameter) == Err(UnsupportedStepOperator)
    ensures left == IntExpr(k) && op == Sub ==> RecursiveCallFrom(left, op, right, parameter) == Err(LiteralMinusParameter)
    ensures op in {Add, Sub} && TryGetIntLit(left).None? && TryGetIntLit(right).None? ==>
      RecursiveCallFrom(left, op, right, parameter) == Err(MissingStepLiteral)
    ensures op in {Add, Sub} && right == IntExpr(k) && left.Path? && |left.segments| > 0 && left.segments[0] != parameter ==>
      RecursiveCallFrom(left, op, right, parameter) == Err(ParameterMismatch)
    ensures op in {Add, Sub} && TryGetIdent(left) == Some(parameter) && right == IntExpr(0) ==>
      RecursiveCallFrom(left, op, right, parameter) == Err(NonPositiveStep)
  {
  }

  /** `find_calls`: the calls of an expression; call arguments are not searched. */
  function FindCalls(e: Expr): Result<seq<ExprCall>, Error>
    decreases e, 1
  {
    match e
    case Array(elems) => FindCallsSeq(elems)
    case Binary(left, _, right) =>
      var l :- FindCalls(left);
      var r :- FindCalls(right);
      Ok(l + r)
    case Call(func, args) => Ok([ExprCall(func, args)])
    case Cast(inner, _) => FindCalls(inner)
    case Field(_, _) => Ok([])
    case Index(base, index) =>
      var l :- FindCalls(base);
      var r :- FindCalls(index);
      Ok(l + r)
    case Paren(inner) => FindCalls(inner)
    case Path(_) => Ok([])
    case Reference(_, inner) => FindCalls(inner)
    case Tuple(elems) => FindCallsSeq(elems)
    case TypeAscription(_, _) => Ok([])
    case Unary(_, inner) => FindCalls(inner)
    case Lit(_) => Ok([])
    case _ => Err(UnsupportedExpr)
  }

  function FindCallsSeq(es: seq<Expr>): Result<seq<ExprCall>, Error>
    decreases es, 0
  {
    if es == [] then Ok([])
    else
      var h :- FindCalls(es[0]);
      var t :- FindCallsSeq(es[1..]);
      Ok(h + t)
  }

  /** The node kinds `find_calls` accepts, everywhere it looks. */
  predicate Searchable(e: Expr)
    decreases e
  {
    match e
    case Array(elems) => forall x :: x in elems ==> Searchable(x)
    case Tuple(elems) => forall x :: x in elems ==> Searchable(x)
    case Binary(left, _, right) => Searchable(left) && Searchable(right)
    case Index(base, index) => Searchable(base) && Searchable(index)
    case Cast(inner, _) => Searchable(inner)
    case Paren(inner) => Searchable(inner)
    case Reference(_, inner) => Searchable(inner)
    case Unary(_, inner) => Searchable(inner)
    case Call(_, _) => true
    case Field(_, _) => true
    case Path(_) => true
    case TypeAscription(_, _) => true
    case Lit(_) => true
    case Match(_, _) => false
    case Unsupported(_) => false
  }

  /** c is a call of e reached without entering a call, a field access or a type ascription. */
  predicate HasCall(e: Expr, c: ExprCall)
    decreases e
  {
    match e
    case Array(elems) => exists x :: x in elems && HasCall(x, c)
    case Tuple(elems) => exists x :: x in elems && HasCall(x, c)
    case Binary(left, _, right) => HasCall(left, c) || HasCall(right, c)
    case Index(base, index) => HasCall(base, c) || HasCall(index, c)
    case Cast(inner, _) => HasCall(inner, c)
    case Paren(inner) => HasCall(inner, c)
    case Reference(_, inner) => HasCall(inner, c)
    case Unary(_, inner) => HasCall(inner, c)
    case Call(func, args) => c == ExprCall(func, args)
    case _ => false
  }

  /** find_calls fails exactly on an unsupported node, and otherwise returns exactly the calls of e. */
  lemma {:induction false} FindCallsCorrect(e: Expr)
    ensures FindCalls(e).Ok? <==> Searchable(e)
    ensures FindCalls(e).Ok? ==> forall c :: c in FindCalls(e).value <==> HasCall(e, c)
    decreases e, 1
  {
    match e
    case Array(elems) => FindCallsSeqCorrect(elems);
    case Tuple(elems) => FindCallsSeqCorrect(elems);
    case Binary(left, _, right) => FindCallsCorrect(left); FindCallsCorrect(right);
    case Index(base, index) => FindCallsCorrect(base); FindCallsCorrect(index);
    case Cast(inner, _) => FindCallsCorrect(inner);
    case Paren(inner) => FindCallsCorrect(inner);
    case Reference(_, inner) => FindCallsCorrect(inner);
    case Unary(_, inner) => FindCallsCorrect(inner);
    case _ =>
  }

  lemma {:induction false} FindCallsSeqCorrect(es: seq<Expr>)
    ensures FindCallsSeq(es).Ok? <==> forall x :: x in es ==> Searchable(x)
    ensures FindCallsSeq(es).Ok? ==>
      forall c :: c in FindCallsSeq(es).value <==> exists x :: x in es && HasCall(x, c)
    decreases es, 0
  {
    if es != [] {
      FindCallsCorrect(es[0]);
      FindCallsSeqCorrect(es[1..]);
      assert forall x :: x in es <==> x == es[0] || x in es[1..];
      if FindCallsSeq(es).Ok? {
        var h, t := FindCalls(es[0]).value, FindCallsSeq(es[1..]).value;
        assert FindCallsSeq(es).value == h + t;
        forall c ensures c in h + t <==> exists x :: x in es && HasCall(x, c) {
          if c in h + t {
            if c in h {
              assert es[0] in es && HasCall(es[0], c);
            } else {
              var x :| x in es[1..] && HasCall(x, c);
              assert x in es;
            }
          }
        }
      }
    }
  }

  /** The `filter` of `find_recursive_calls`: keeps the calls whose callee is named `name`. */
  function FilterSelfCalls(calls: seq<ExprCall>, name: string): Result<seq<ExprCall>, Error>
    decreases |calls|
  {
    if calls == [] then Ok([])
    else
      var n :- CallName(calls[0].func);
      var rest :- FilterSelfCalls(calls[1..], name);
      Ok(if n == name then [calls[0]] + rest else rest)
  }

  /** The arguments of the calls, in order: each argument of a self-call is analysed as one call. */
  function AllArgs(calls: seq<ExprCall>): seq<Expr>
    decreases |calls|
  {
    if calls == [] then [] else AllArgs(calls[..|calls| - 1]) + calls[|calls| - 1].args
  }

  /** One `RecursiveCall` per argument, or the first argument's error. */
  function ArgSteps(args: seq<Expr>, parameter: string): Result<seq<RecursiveCall>, Error>
    decreases |args|
  {
    if args == [] then Ok([])
    else
      var c :- ArgStep(args[0], parameter);
      var rest :- ArgSteps(args[1..], parameter);
      Ok([c] + rest)
  }

  function ArgStep(arg: Expr, parameter: string): Result<RecursiveCall, Error> {
    match arg
    case Binary(left, op, right) => RecursiveCallFrom(left, op, right, parameter)
    case _ => Err(NonBinaryArgument)
  }

  lemma {:induction false} ArgStepsAppend(xs: seq<Expr>, ys: seq<Expr>, parameter: string)
    ensures ArgSteps(xs + ys, parameter) ==
      (match ArgSteps(xs, parameter)
       case Err(e) => Err(e)
       case Ok(a) =>
         match ArgSteps(ys, parameter)
         case Err(e) => Err(e)
         case Ok(b) => Ok(a + b))
    decreases |xs|
  {
    if xs != [] {
      assert (xs + ys)[0] == xs[0];
      assert (xs + ys)[1..] == xs[1..] + ys;
      ArgStepsAppend(xs[1..], ys, parameter);
      var c := ArgStep(xs[0], parameter);
      if c.Ok? && ArgSteps(xs[1..], parameter).Ok? && ArgSteps(ys, parameter).Ok? {
        var a', b := ArgSteps(xs[1..], parameter).value, ArgSteps(ys, parameter).value;
        assert [c.value] + (a' + b) == ([c.value] + a') + b;
      }
    } else {
      assert xs + ys == ys;
      if ArgSteps(ys, parameter).Ok? {
        assert [] + ArgSteps(ys, parameter).value == ArgSteps(ys, parameter).value;
      }
    }
  }

  function Steps(calls: seq<RecursiveCall>): (r: seq<nat>)
    ensures |r| == |calls| && forall i :: 0 <= i < |calls| ==> r[i] == calls[i].steps
  {
    seq(|calls|, i requires 0 <= i < |calls| => calls[i].steps)
  }

  /** The loop `c.steps /= gcd; c.common_step_size = gcd`. */
  function Normalize(calls: seq<RecursiveCall>, g: nat): (r: seq<RecursiveCall>)
    requires g > 0
    ensures |r| == |calls|
    ensures forall i :: 0 <= i < |calls| ==> r[i] == RecursiveCall(calls[i].steps / g, calls[i].operator, g)
  {
    seq(|calls|, i requires 0 <= i < |calls| => RecursiveCall(calls[i].steps / g, calls[i].operator, g))
  }

  predicate SortedBySteps(s: seq<RecursiveCall>) {
    forall i, j :: 0 <= i < j < |s| ==> s[i].steps <= s[j].steps
  }

  /** A call no larger than the head of a sorted list keeps it sorted when put in front. */
  lemma ConsSorted(x: RecursiveCall, t: seq<RecursiveCall>)
    requires SortedBySteps(t) && (t != [] ==> x.steps <= t[0].steps)
    ensures SortedBySteps([x] + t)
  {
    var r := [x] + t;
    forall i, j | 0 <= i < j < |r| ensures r[i].steps <= r[j].steps {
      assert r[j] == t[j - 1];
      if i > 0 {
        assert r[i] == t[i - 1];
      } else if j > 1 {
        assert t[0].steps <= t[j - 1].steps;
      }
    }
  }

  /** Insertion into a list sorted by steps, before the entries with equal steps, so that the sort is stable. */
  function InsertBySteps(c: RecursiveCall, s: seq<RecursiveCall>): (r: seq<RecursiveCall>)
    requires SortedBySteps(s)
    ensures SortedBySteps(r) && multiset(r) == multiset(s) + multiset{c}
    ensures |r| > 0 && (r[0] == c || (s != [] && r[0] == s[0]))
    decreases |s|
  {
    if s == [] then [c]
    else if c.steps <= s[0].steps then
      ConsSorted(c, s);
      [c] + s
    else
      assert s == [s[0]] + s[1..];
      var t := InsertBySteps(c, s[1..]);
      assert t[0] != c ==> s[1..] != [] && t[0] == s[1..][0] == s[1];
      ConsSorted(s[0], t);
      [s[0]] + t
  }

  /** `result.sort_by(|a, b| a.steps.cmp(&b.steps))` */
  function SortBySteps(s: seq<RecursiveCall>): (r: seq<RecursiveCall>)
    ensures SortedBySteps(r) && multiset(r) == multiset(s)
    decreases |s|
  {
    if s == [] then []
    else
      assert s == [s[0]] + s[1..];
      InsertBySteps(s[0], SortBySteps(s[1..]))
  }

  predicate SameOperator(calls: seq<RecursiveCall>)
    requires |calls| > 0
  {
    forall i :: 0 <= i < |calls| ==> calls[i].operator == calls[0].operator
  }

  /** The raw self-call records, before the operator check and normalisation. */
  function RawCalls(formula: Expr, name: string, parameter: string): Result<seq<RecursiveCall>, Error> {
    var calls :- FindCalls(formula);
    var selfCalls :- FilterSelfCalls(calls, name);
    ArgSteps(AllArgs(selfCalls), parameter)
  }

  /** What `find_recursive_calls` computes, stated as a function of the formula. */
  function AnalyseCalls(formula: Expr, name: string, parameter: string): Result<CallAnalysis, Error> {
    var raw :- RawCalls(formula, name, parameter);
    if |raw| == 0 then Err(NoRecursiveCall)
    else if !SameOperator(raw) then Err(MixedOperators)
    else
      var g := GcdFold(raw[0].steps, Steps(raw));
      assert raw[0].steps in Steps(raw);
      GcdFoldDivides(raw[0].steps, Steps(raw));
      Ok(CallAnalysis(SortBySteps(Normalize(raw, g)), raw[0].operator, g))
  }

  predicate DividesAllSteps(m: int, calls: seq<RecursiveCall>) {
    forall i :: 0 <= i < |calls| ==> Dvd(m, calls[i].steps)
  }

  /** Every accepted argument has a positive step and a common step size of 1. */
  lemma {:induction false} ArgStepsPositive(args: seq<Expr>, parameter: string)
    requires ArgSteps(args, parameter).Ok?
    ensures var r := ArgSteps(args, parameter).value;
      |r| == |args| && forall i :: 0 <= i < |r| ==> r[i].steps > 0 && r[i].commonStepSize == 1
    decreases |args|
  {
    if args != [] {
      ArgStepsPositive(args[1..], parameter);
      var r := ArgSteps(args, parameter).value;
      var rest := ArgSteps(args[1..], parameter).value;
      assert r == [r[0]] + rest;
      assert forall i :: 0 < i < |r| ==> r[i] == rest[i - 1];
    }
  }

  /** The error cases of `find_recursive_calls`, in the order the source checks them. */
  lemma AnalyseCallsErrors(formula: Expr, name: string, parameter: string)
    ensures RawCalls(formula, name, parameter).Err? ==>
      AnalyseCalls(formula, name, parameter) == Err(RawCalls(formula, name, parameter).error)
    ensures RawCalls(formula, name, parameter) == Ok([]) ==>
      AnalyseCalls(formula, name, parameter) == Err(NoRecursiveCall)
    ensures var raw := RawCalls(formula, name, parameter);
      raw.Ok? && |raw.value| > 0 && !SameOperator(raw.value) ==>
      AnalyseCalls(formula, name, parameter) == Err(MixedOperators)
    ensures var raw := RawCalls(formula, name, parameter);
      AnalyseCalls(formula, name, parameter).Ok? <==> raw.Ok? && |raw.value| > 0 && SameOperator(raw.value)
  {
  }

  predicate PositiveSteps(calls: seq<RecursiveCall>) {
    forall i :: 0 <= i < |calls| ==> calls[i].steps > 0
  }

  /** The gcd of the raw steps divides each of them and is the greatest such divisor. */
  lemma StepGcd(raw: seq<RecursiveCall>)
    requires |raw| > 0 && PositiveSteps(raw)
    ensures var g := GcdFold(raw[0].steps, Steps(raw));
      g > 0 && DividesAllSteps(g, raw) &&
      forall d :: d >= 1 && DividesAllSteps(d, raw) ==> Dvd(d, g)
  {
    var st := Steps(raw);
    var g := GcdFold(raw[0].steps, st);
    assert raw[0].steps in st;
    GcdFoldDivides(raw[0].steps, st);
    forall i | 0 <= i < |raw| ensures Dvd(g, raw[i].steps) {
      assert raw[i].steps in st;
    }
    forall d | d >= 1 && DividesAllSteps(d, raw) ensures Dvd(d, g) {
      forall x | x in st ensures Dvd(d, x) {
        var i :| 0 <= i < |st| && st[i] == x;
      }
      GcdFoldGreatest(raw[0].steps, st, d);
    }
  }

  /** Any permutation of the normalised calls keeps positive steps, the common operator and the step size. */
  lemma NormalizedShape(raw: seq<RecursiveCall>, g: nat, calls: seq<RecursiveCall>)
    requires |raw| > 0 && SameOperator(raw) && g > 0 && DividesAllSteps(g, raw) && PositiveSteps(raw)
    requires multiset(calls) == multiset(Normalize(raw, g))
    ensures forall j :: 0 <= j < |calls| ==>
      calls[j].steps >= 1 && calls[j].operator == raw[0].operator && calls[j].commonStepSize == g
  {
    var norm := Normalize(raw, g);
    forall j | 0 <= j < |calls|
      ensures calls[j].steps >= 1 && calls[j].operator == raw[0].operator && calls[j].commonStepSize == g
    {
      assert calls[j] in multiset(norm);
      var i :| 0 <= i < |norm| && norm[i] == calls[j];
      DvdBound(g, raw[i].steps);
    }
  }

  /** After division by the gcd, the only common positive divisor of the steps is 1. */
  lemma NormalizedCoprime(raw: seq<RecursiveCall>, calls: seq<RecursiveCall>, m: int)
    requires |raw| > 0 && PositiveSteps(raw)
    requires GcdFold(raw[0].steps, Steps(raw)) > 0
    requires multiset(calls) == multiset(Normalize(raw, GcdFold(raw[0].steps, Steps(raw))))
    requires m >= 1 && DividesAllSteps(m, calls)
    ensures m == 1
  {
    var st := Steps(raw);
    var g := GcdFold(raw[0].steps, st);
    var norm := Normalize(raw, g);
    forall x | x in st ensures x > 0 && Dvd(m, x / g) {
      var i :| 0 <= i < |st| && st[i] == x;
      assert norm[i] in multiset(calls);
      var j :| 0 <= j < |calls| && calls[j] == norm[i];
    }
    QuotientsCoprime(st, g, m);
  }

  /**
   * A successful analysis: one common operator, a step size that is the
   * greatest common divisor of the raw steps, and normalised calls that are
   * sorted, positive and coprime.
   */
  lemma AnalyseCallsProperties(formula: Expr, name: string, parameter: string)
    requires AnalyseCalls(formula, name, parameter).Ok?
    ensures var raw := RawCalls(formula, name, parameter).value;
      var a := AnalyseCalls(formula, name, parameter).value;
      |raw| > 0 && SameOperator(raw) && a.operator == raw[0].operator && a.stepSize > 0 &&
      DividesAllSteps(a.stepSize, raw) &&
      (forall d :: d >= 1 && DividesAllSteps(d, raw) ==> Dvd(d, a.stepSize)) &&
      SortedBySteps(a.calls) && multiset(a.calls) == multiset(Normalize(raw, a.stepSize)) &&
      |a.calls| == |raw| &&
      (forall i :: 0 <= i < |a.calls| ==>
        a.calls[i].steps >= 1 && a.calls[i].operator == a.operator && a.calls[i].commonStepSize == a.stepSize) &&
      (forall m :: m >= 1 && DividesAllSteps(m, a.calls) ==> m == 1)
  {
    var raw := RawCalls(formula, name, parameter).value;
    var a := AnalyseCalls(formula, name, parameter).value;
    var selfCalls := FilterSelfCalls(FindCalls(formula).value, name).value;
    ArgStepsPositive(AllArgs(selfCalls), parameter);
    assert PositiveSteps(raw);
    StepGcd(raw);
    NormalizedShape(raw, a.stepSize, a.calls);
    assert |multiset(a.calls)| == |multiset(Normalize(raw, a.stepSize))|;
    forall m | m >= 1 && DividesAllSteps(m, a.calls) ensures m == 1 {
      NormalizedCoprime(raw, a.calls, m);
    }
  }

  lemma {:induction false} AllArgsSplit(calls: seq<ExprCall>, k: nat)
    requires k <= |calls|
    ensures AllArgs(calls) == AllArgs(calls[..k]) + AllArgs(calls[k..])
    decreases |calls|
  {
    if k == |calls| {
      assert calls[..k] == calls;
      assert AllArgs(calls[k..]) == [];
    } else {
      var n := |calls| - 1;
      AllArgsSplit(calls[..n], k);
      assert calls[..n][..k] == calls[..k];
      assert calls[k..][..|calls[k..]| - 1] == calls[..n][k..];
      assert calls[k..][|calls[k..]| - 1] == calls[n];
    }
  }

  lemma ArgErrorPropagates(calls: seq<ExprCall>, ci: nat, ai: nat, parameter: string, e: Error)
    requires ci < |calls| && ai < |calls[ci].args|
    requires ArgSteps(AllArgs(calls[..ci]) + calls[ci].args[..ai + 1], parameter) == Err(e)
    ensures ArgSteps(AllArgs(calls), parameter) == Err(e)
  {
    var args := calls[ci].args;
    var done := AllArgs(calls[..ci]);
    AllArgsSplit(calls, ci + 1);
    assert calls[..ci + 1][..ci] == calls[..ci];
    assert AllArgs(calls[..ci + 1]) == done + args;
    assert args == args[..ai + 1] + args[ai + 1..];
    var rest := args[ai + 1..] + AllArgs(calls[ci + 1..]);
    assert AllArgs(calls) == (done + args[..ai + 1]) + rest;
    ArgStepsAppend(done + args[..ai + 1], rest, parameter);
  }

  /** The nested loop of `find_recursive_calls` that turns every argument of every self-call into a `RecursiveCall`. */
  method CollectCalls(recursiveCalls: seq<ExprCall>, parameter: string) returns (r: Result<seq<RecursiveCall>, Error>)
    ensures r == ArgSteps(AllArgs(recursiveCalls), parameter)
  {
    var result: seq<RecursiveCall> := [];
    ghost var done: seq<Expr> := [];
    var ci := 0;
    while ci < |recursiveCalls|
      invariant 0 <= ci <= |recursiveCalls|
      invariant done == AllArgs(recursiveCalls[..ci])
      invariant ArgSteps(done, parameter) == Ok(result)
    {
      var args := recursiveCalls[ci].args;
      var ai := 0;
      assert done + args[..0] == done;
      while ai < |args|
        invariant 0 <= ai <= |args|
        invariant ArgSteps(done + args[..ai], parameter) == Ok(result)
      {
        var arg := args[ai];
        var c := ArgStep(arg, parameter);
        assert [arg][1..] == [];
        ArgStepsAppend(done + args[..ai], [arg], parameter);
        assert args[..ai + 1] == args[..ai] + [arg];
        assert done + args[..ai + 1] == done + args[..ai] + [arg];
        if c.Err? {
          ArgErrorPropagates(recursiveCalls, ci, ai, parameter, c.error);
          return Err(c.error);
        }
        assert [arg][0] == arg;
        assert ArgSteps([arg][1..], parameter) == Ok([]);
        assert ArgSteps([arg], parameter) == Ok([c.value] + []);
        assert [c.value] + [] == [c.value];
        assert ArgSteps(done + args[..ai + 1], parameter) == Ok(result + [c.value]);
        result := result + [c.value];
        ai := ai + 1;
      }
      assert args[..ai] == args;
      assert recursiveCalls[..ci + 1][..ci] == recursiveCalls[..ci];
      done := done + args;
      ci := ci + 1;
    }
    assert recursiveCalls[..ci] == recursiveCalls;
    return Ok(result);
  }

  /** The loop of `find_recursive_calls` that refuses a call whose operator differs from the first. */
  method CheckOperators(calls: seq<RecursiveCall>) returns (same: bool)
    requires |calls| > 0
    ensures same == SameOperator(calls)
  {
    var k := 0;
    while k < |calls|
      invariant 0 <= k <= |calls|
      invariant forall j :: 0 <= j < k ==> calls[j].operator == calls[0].operator
    {
      if calls[k].operator != calls[0].operator {
        return false;
      }
      k := k + 1;
    }
    return true;
  }

  /** The loop `gcd = gcd(gcd, c.steps)` over the calls, from the first call's step. */
  method CommonStepSize(calls: seq<RecursiveCall>) returns (gcd: nat)
    requires |calls| > 0
    ensures gcd == GcdFold(calls[0].steps, Steps(calls))
  {
    gcd := calls[0].steps;
    var k := 0;
    while k < |calls|
      invariant 0 <= k <= |calls|
      invariant GcdFold(calls[0].steps, Steps(calls)) == GcdFold(gcd, Steps(calls)[k..])
    {
      assert Steps(calls)[k..][0] == calls[k].steps;
      assert Steps(calls)[k..][1..] == Steps(calls)[k + 1..];
      gcd := Gcd(gcd, calls[k].steps);
      k := k + 1;
    }
    assert Steps(calls)[k..] == [];
  }

  /** The loop `c.steps /= gcd; c.common_step_size = gcd`, in place over the list. */
  method NormalizeSteps(calls: seq<RecursiveCall>, gcd: nat) returns (result: seq<RecursiveCall>)
    requires gcd > 0
    ensures result == Normalize(calls, gcd)
  {
    result := calls;
    var k := 0;
    while k < |result|
      invariant 0 <= k <= |result| == |calls|
      invariant result[..k] == Normalize(calls, gcd)[..k]
      invariant result[k..] == calls[k..]
    {
      result := result[k := RecursiveCall(result[k].steps / gcd, result[k].operator, gcd)];
      k := k + 1;
    }
    assert result == result[..k];
    assert Normalize(calls, gcd) == Normalize(calls, gcd)[..k];
  }

  /** `find_recursive_calls`, with its loops over the operators, the gcd and the normalisation. */
  method FindRecursiveCalls(formula: Expr, name: string, parameter: string) returns (r: Result<CallAnalysis, Error>)
    ensures r == AnalyseCalls(formula, name, parameter)
  {
    var found := FindCalls(formula);
    if found.Err? {
      return Err(found.error);
    }
    var filtered := FilterSelfCalls(found.value, name);
    if filtered.Err? {
      return Err(filtered.error);
    }
    var collected := CollectCalls(filtered.value, parameter);
    if collected.Err? {
      return Err(collected.error);
    }
    var result := collected.value;
    if |result| == 0 {
      return Err(NoRecursiveCall);
    }
    var commonOperator := result[0].operator;
    var same := CheckOperators(result);
    if !same {
      return Err(MixedOperators);
    }
    var gcd := CommonStepSize(result);
    assert result[0].steps in Steps(result);
    GcdFoldDivides(result[0].steps, Steps(result));
    result := NormalizeSteps(result, gcd);
    result := SortBySteps(result);
    return Ok(CallAnalysis(result, commonOperator, gcd));
  }
}
