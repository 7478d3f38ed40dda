/**
 * The behaviour of the code the macro emits, over unbounded integers: the
 * constant fast paths, the guarded blocks that run a ring buffer of the
 * last L values with a `while` loop, and the final `panic!`.
 */
module Generated {
  import opened Wrappers
  import opened Syntax
  import opened Plans

  /** A call of the emitted function returns a value, panics, or reaches an expression outside the evaluated fragment. */
  datatype Outcome = Value(v: int) | Panic | Stuck

  /** The locals the loop body sees: the buffer, the counter `i`, the function's argument and its name. */
  datatype Env = Env(ring: seq<int>, i: int, n: int, parameter: string)

  /** Rust's `%`: the remainder takes the sign of the dividend. */
  function TruncRem(a: int, b: int): (r: int)
    requires b != 0
    ensures a >= 0 ==> 0 <= r < if b > 0 then b else -b
    ensures a >= 0 && b > 0 ==> r == a % b
  {
    if a >= 0 then a % b else -((-a) % b)
  }

  function Arith(op: BinOp, a: int, b: int): Outcome {
    match op
    case Add => Value(a + b)
    case Sub => Value(a - b)
    case Mul => Value(a * b)
    case Rem => if b == 0 then Panic else Value(TruncRem(a, b))
    case _ => Stuck
  }

  /**
   * Evaluation of the loop body. `i` names the counter even when the
   * parameter has the same name, as the `let mut i` shadows it; a read of
   * `tuple` outside its bounds panics.
   */
  function Eval(e: Expr, env: Env): Outcome
    decreases e
  {
    match e
    case Lit(lit) => if lit.IntLit? then Value(lit.value) else Stuck
    case Path(segments) =>
      if segments == ["i"] then Value(env.i)
      else if segments == [env.parameter] then Value(env.n)
      else Stuck
    case Binary(left, op, right) =>
      (match Eval(left, env)
       case Value(a) => (match Eval(right, env) case Value(b) => Arith(op, a, b) case o => o)
       case o => o)
    case Unary(uop, inner) =>
      if uop != Neg then Stuck
      else (match Eval(inner, env) case Value(a) => Value(-a) case o => o)
    case Index(base, index) =>
      if base != Ident("tuple") then Stuck
      else
        (match Eval(index, env)
         case Value(k) => if 0 <= k < |env.ring| then Value(env.ring[k]) else Panic
         case o => o)
    case Cast(inner, _) => Eval(inner, env)
    case Paren(inner) => Eval(inner, env)
    case _ => Stuck
  }

  /** The value of the current argument `start op ((i - startIndex) as T) * stepSize` at counter i. */
  function ArgValue(a: CurrentArgument, i: int): int {
    if a.stepOp == Add then a.start + (i - a.startIndex) * a.stepSize
    else a.start - (i - a.startIndex) * a.stepSize
  }

  /** The emitted argument expression evaluates to ArgValue. */
  lemma ArgumentExprValue(a: CurrentArgument, env: Env)
    requires a.stepOp == Add || a.stepOp == Sub
    ensures Eval(ArgumentExpr(a), env) == Value(ArgValue(a, env.i))
  {
    var offset := Binary(Ident("i"), Sub, IntExpr(a.startIndex));
    assert Eval(offset, env) == Value(env.i - a.startIndex);
    assert Eval(Paren(offset), env) == Value(env.i - a.startIndex);
    assert Eval(Cast(Paren(offset), a.argType), env) == Value(env.i - a.startIndex);
    assert Eval(Paren(Cast(Paren(offset), a.argType)), env) == Value(env.i - a.startIndex);
    var scaled := Binary(Paren(Cast(Paren(offset), a.argType)), Mul, IntExpr(a.stepSize));
    assert Eval(scaled, env) == Value((env.i - a.startIndex) * a.stepSize);
  }

  /** The ring-buffer read of `create_tuple_expr` evaluates to the buffer slot (i - k) mod L. */
  lemma TupleReadValue(k: int, len: nat, env: Env)
    requires len == |env.ring| > 0 && env.i >= k
    ensures Eval(Index(Ident("tuple"), Binary(Paren(Binary(Ident("i"), Sub, IntExpr(k))), Rem, IntExpr(len))), env) ==
      Value(env.ring[(env.i - k) % len])
  {
    var offset := Binary(Ident("i"), Sub, IntExpr(k));
    assert Eval(offset, env) == Value(env.i - k);
    assert Eval(Binary(Paren(offset), Rem, IntExpr(len)), env) == Value((env.i - k) % len);
  }

  /** The value of the first arm whose key is x. */
  function ArmLookup(arms: seq<LoopArm>, x: int): (r: Option<int>)
    ensures r.Some? ==> LoopArm(x, r.value) in arms
    ensures r.None? <==> forall k :: 0 <= k < |arms| ==> arms[k].key != x
  {
    if arms == [] then None
    else if arms[0].key == x then Some(arms[0].value)
    else ArmLookup(arms[1..], x)
  }

  /** `match current_argument { key => value, ..., _ => body }` at counter i. */
  function StepValue(b: Branch, ring: seq<int>, i: int, n: int, parameter: string): Outcome {
    match ArmLookup(b.arms, ArgValue(b.argument, i))
    case Some(v) => Value(v)
    case None => Eval(b.body, Env(ring, i, n, parameter))
  }

  /** The shape `create_loop` gives a block: buffer of L values, counter from L - 1, argument walking from the guard's start. */
  predicate WellFormed(b: Branch) {
    b.tupleLen > 0 && |b.tuple| == b.tupleLen && b.startIndex == b.tupleLen - 1 &&
    b.argument.startIndex == b.startIndex && b.argument.start == b.guard.start &&
    b.argument.stepSize == b.guard.stepSize && b.guard.stepSize > 0 &&
    (b.argument.stepOp == Add || b.argument.stepOp == Sub) &&
    (b.argument.stepOp == Add <==> b.guard.operator == StepSub)
  }

  /** `left` more rounds of `i += 1; tuple[i % L] = match ...`, then `return tuple[i % L]`. */
  function Rounds(b: Branch, n: int, parameter: string, ring: seq<int>, i: nat, left: nat): Outcome
    requires |ring| == b.tupleLen > 0
    decreases left
  {
    if left == 0 then Value(ring[i % b.tupleLen])
    else
      match StepValue(b, ring, i + 1, n, parameter)
      case Value(x) => Rounds(b, n, parameter, ring[(i + 1) % b.tupleLen := x], i + 1, left - 1)
      case o => o
  }

  /** The number of rounds after which the current argument reaches n: |n - start| / q. */
  function RoundsTo(g: Guard, n: int): nat
    requires GuardHolds(g, n)
  {
    if g.operator == StepSub then (n - g.start) / g.stepSize else (g.start - n) / g.stepSize
  }

  lemma MulCancel(q: int, a: int, b: int)
    requires q > 0 && a * q == b * q
    ensures a == b
  {
  }

  /** Under the guard, the `while` condition first fails after exactly RoundsTo rounds. */
  lemma LoopStopsAt(b: Branch, n: int, j: nat)
    requires WellFormed(b) && GuardHolds(b.guard, n)
    ensures ArgValue(b.argument, b.startIndex + j) == n <==> j == RoundsTo(b.guard, n)
  {
    var g, t := b.guard, RoundsTo(b.guard, n);
    var q := g.stepSize;
    if g.operator == StepSub {
      assert n - g.start == t * q;
      if ArgValue(b.argument, b.startIndex + j) == n {
        assert j * q == t * q;
        MulCancel(q, j, t);
      }
    } else {
      assert g.start - n == t * q;
      if ArgValue(b.argument, b.startIndex + j) == n {
        assert j * q == t * q;
        MulCancel(q, j, t);
      }
    }
  }

  /** What a guarded block returns for n: the buffer slot of the last round. */
  function BranchOutcome(b: Branch, n: int, parameter: string): Outcome {
    if WellFormed(b) && GuardHolds(b.guard, n) then Rounds(b, n, parameter, b.tuple, b.startIndex, RoundsTo(b.guard, n))
    else Stuck
  }

  /** The value of the first fast path for n. */
  function CheckLookup(checks: seq<ConstantCheck>, n: int): (r: Option<int>)
    ensures r.Some? ==> ConstantCheck(n, r.value) in checks
    ensures r.None? <==> forall k :: 0 <= k < |checks| ==> checks[k].key != n
  {
    if checks == [] then None
    else if checks[0].key == n then Some(checks[0].value)
    else CheckLookup(checks[1..], n)
  }

  /** The first block whose guard admits n. */
  function FirstBranch(branches: seq<Branch>, n: int): (r: Option<nat>)
    ensures r.Some? ==> r.value < |branches| && GuardHolds(branches[r.value].guard, n)
    ensures r.Some? ==> forall k :: 0 <= k < r.value ==> !GuardHolds(branches[k].guard, n)
    ensures r.None? <==> forall k :: 0 <= k < |branches| ==> !GuardHolds(branches[k].guard, n)
  {
    if branches == [] then None
    else if GuardHolds(branches[0].guard, n) then Some(0)
    else
      match FirstBranch(branches[1..], n)
      case Some(k) => Some(k + 1)
      case None => None
  }

  /** The emitted function called with n: a fast path, else the first admitting block, else the panic. */
  function RunPlan(p: Plan, n: int): Outcome {
    match CheckLookup(p.checks, n)
    case Some(v) => Value(v)
    case None =>
      match FirstBranch(p.branches, n)
      case Some(k) => BranchOutcome(p.branches[k], n, p.parameter)
      case None => Panic
  }

  /** A block run as the emitted code runs it: an array buffer and a `while` loop on the current argument. */
  method RunBranch(b: Branch, n: int, parameter: string) returns (o: Outcome)
    requires WellFormed(b) && GuardHolds(b.guard, n)
    ensures o == BranchOutcome(b, n, parameter)
  {
    var len := b.tupleLen;
    var tuple := new int[len];
    var j := 0;
    while j < len
      invariant 0 <= j <= len
      invariant tuple[..j] == b.tuple[..j]
    {
      tuple[j] := b.tuple[j];
      j := j + 1;
    }
    assert tuple[..] == b.tuple;
    ghost var t := RoundsTo(b.guard, n);
    var i: nat := b.startIndex;
    ghost var done: nat := 0;
    while ArgValue(b.argument, i) != n
      invariant i == b.startIndex + done && done <= t
      invariant BranchOutcome(b, n, parameter) == Rounds(b, n, parameter, tuple[..], i, t - done)
      decreases t - done
    {
      LoopStopsAt(b, n, done);
      i := i + 1;
      var x := StepValue(b, tuple[..], i, n, parameter);
      if !x.Value? {
        return x;
      }
      tuple[i % len] := x.v;
      done := done + 1;
    }
    LoopStopsAt(b, n, done);
    return Value(tuple[i % len]);
  }

  /** The emitted statements in order: the fast paths, the guarded blocks, the panic. */
  method Run(p: Plan, n: int) returns (o: Outcome)
    requires forall k :: 0 <= k < |p.branches| ==> WellFormed(p.branches[k])
    ensures o == RunPlan(p, n)
  {
    var c := 0;
    while c < |p.checks|
      invariant 0 <= c <= |p.checks|
      invariant CheckLookup(p.checks, n) == CheckLookup(p.checks[c..], n)
    {
      assert p.checks[c..][1..] == p.checks[c + 1..];
      if p.checks[c].key == n {
        return Value(p.checks[c].value);
      }
      c := c + 1;
    }
    var k := 0;
    while k < |p.branches|
      invariant 0 <= k <= |p.branches|
      invariant forall m :: 0 <= m < k ==> !GuardHolds(p.branches[m].guard, n)
    {
      if GuardHolds(p.branches[k].guard, n) {
        o := RunBranch(p.branches[k], n, p.parameter);
        return;
      }
      k := k + 1;
    }
    return Panic;
  }
}
