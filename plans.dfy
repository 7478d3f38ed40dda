/**
 * The statement sequence the macro emits in place of the original match,
 * kept as an abstract plan: the constant fast paths, then one guarded
 * block per seed window, then `panic!("result for argument not defined")`.
 */
module Plans {
  import opened Syntax

  /** `StepOperator`: whether the self-calls are `n + k` (StepAdd) or `n - k` (StepSub). */
  datatype StepOperator = StepAdd | StepSub

  /** `if n == key { return value; }` */
  datatype ConstantCheck = ConstantCheck(key: int, value: int)

  /**
   * The branch condition of `get_branch_condition`: for StepSub
   * `start <= n && (n - start) % stepSize == 0`, for StepAdd
   * `start >= n && (start - n) % stepSize == 0`.
   */
  datatype Guard = Guard(operator: StepOperator, start: int, stepSize: nat)

  /** Whether the generated condition admits n: n lies at a whole number of steps from start, on the loop's side. */
  predicate GuardHolds(g: Guard, n: int) {
    g.stepSize > 0 &&
    match g.operator
    case StepAdd => g.start >= n && (g.start - n) % g.stepSize == 0
    case StepSub => g.start <= n && (n - g.start) % g.stepSize == 0
  }

  /** d further from start in the loop's direction: up for StepSub, down for StepAdd. */
  function Walk(op: StepOperator, start: int, d: int): int {
    if op == StepSub then start + d else start - d
  }

  /** `start op ((i - startIndex) as argType) * stepSize`, where op is `+` for StepSub and `-` for StepAdd. */
  datatype CurrentArgument = CurrentArgument(start: int, stepOp: BinOp, startIndex: nat, stepSize: nat, argType: Type)

  /** The expression `start op ((i - startIndex) as argType) * stepSize` the loop compares with the parameter. */
  function ArgumentExpr(a: CurrentArgument): Expr {
    Binary(
      IntExpr(a.start), a.stepOp,
      Binary(Paren(Cast(Paren(Binary(Ident("i"), Sub, IntExpr(a.startIndex))), a.argType)), Mul, IntExpr(a.stepSize)))
  }

  /** A correction arm `key => value` of the match inside the loop. */
  datatype LoopArm = LoopArm(key: int, value: int)

  /**
   * One guarded block of `create_loop`:
   *   let mut tuple = [0; tupleLen]; tuple[j] = tuple_j; ...
   *   let mut i: usize = startIndex;
   *   while argument(i) != n { i += 1; tuple[i % tupleLen] = match argument(i) { arms..., _ => body }; }
   *   return tuple[i % tupleLen];
   */
  datatype Branch = Branch(
    guard: Guard,
    tuple: seq<int>,
    startIndex: nat,
    tupleLen: nat,
    argument: CurrentArgument,
    arms: seq<LoopArm>,
    body: Expr)

  /** The generated function body; the trailing `panic!` is implicit. */
  datatype Plan = Plan(parameter: string, checks: seq<ConstantCheck>, branches: seq<Branch>)
}
