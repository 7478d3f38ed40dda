/**
 * The part of the `syn` syntax tree that the macro inspects and produces.
 * Spans, attributes and punctuation tokens are not modelled; an integer
 * literal is represented by the value it parses to.
 */
module Syntax {
  import opened Wrappers

  /** A Rust type, kept opaque: the macro only copies types around. */
  datatype Type = Type(name: string)

  /**
   * A literal. `syn` never yields a negative integer literal (a minus sign
   * is a `Unary(Neg, ...)` node), so the value is in practice a natural
   * number; it is kept an `int` because the parsed constants are.
   */
  datatype Literal = IntLit(value: int) | OtherLit(text: string)

  datatype BinOp = Add | Sub | Mul | Div | Rem | And | Or | Eq | Ne | Lt | Le | Gt | Ge | OtherBinOp

  datatype UnOp = Neg | Not | Deref

  /**
   * Expression nodes (`syn::Expr`). The kinds the macro supports are listed
   * one by one; every other kind (if, block, method call, closure, ...) is
   * `Unsupported`.
   */
  datatype Expr =
    | Lit(lit: Literal)
    | Path(segments: seq<string>)
    | Binary(left: Expr, op: BinOp, right: Expr)
    | Unary(uop: UnOp, inner: Expr)
    | Call(func: Expr, args: seq<Expr>)
    | Index(base: Expr, index: Expr)
    | Cast(inner: Expr, ty: Type)
    | Paren(inner: Expr)
    | Array(elems: seq<Expr>)
    | Tuple(elems: seq<Expr>)
    | Reference(mutable: bool, inner: Expr)
    | Field(base: Expr, member: string)
    | TypeAscription(inner: Expr, ty: Type)
    | Match(scrutinee: Expr, arms: seq<Arm>)
    | Unsupported(kind: string)

  /** Match-arm patterns (`syn::Pat`). */
  datatype Pat = PatLit(expr: Expr) | PatWild | PatIdent(ident: string) | PatOther(kind: string)

  /** A match arm: its pattern, its `if` guard if any, and its body. */
  datatype Arm = Arm(pat: Pat, guard: Option<Expr>, body: Expr)

  /** Statements of a function body (`syn::Stmt`): an expression without semicolon, or anything else. */
  datatype Stmt = ExprStmt(expr: Expr) | OtherStmt(kind: string)

  /** A typed function parameter (`syn::PatType`). */
  datatype PatType = PatType(pat: Pat, ty: Type)

  datatype FnArg = Receiver | Typed(arg: PatType)

  datatype ReturnType = DefaultReturn | ReturnTy(ty: Type)

  datatype Signature = Signature(ident: string, inputs: seq<FnArg>, output: ReturnType)

  /** `try_get_int_lit`: the value of an integer literal expression, and nothing for any other expression. */
  function TryGetIntLit(e: Expr): (r: Option<int>)
    ensures r.Some? <==> e.Lit? && e.lit.IntLit?
    ensures r.Some? ==> e == Lit(IntLit(r.value))
  {
    if e.Lit? && e.lit.IntLit? then Some(e.lit.value) else None
  }

  /** `try_get_ident`: the first segment of a path expression, and nothing otherwise. */
  function TryGetIdent(e: Expr): (r: Option<string>)
    ensures r.Some? <==> e.Path? && |e.segments| > 0
    ensures r.Some? ==> r.value == e.segments[0]
  {
    match e
    case Path(segments) => if |segments| > 0 then Some(segments[0]) else None
    case _ => None
  }

  /** A single-path identifier expression such as `n` or `tuple`. */
  function Ident(name: string): Expr {
    Path([name])
  }

  function IntExpr(v: int): Expr {
    Lit(IntLit(v))
  }

  /**
   * The function descriptor extracted from the annotated function
   * (`OptimizableRecursiveFunction`): its name, typed parameters in order,
   * return type, the literal arms as (key, value) pairs in arm order, and
   * the wildcard arm's body.
   */
  datatype OptimizableRecursiveFunction = OptimizableRecursiveFunction(
    name: string,
    inputArgs: seq<PatType>,
    output: Type,
    constants: seq<(int, int)>,
    recursiveFormula: Expr)

  /** Every diagnostic with which the macro aborts, by the place that raises it. */
  datatype Error =
    // optimizable_function.rs
    | ReceiverNotAllowed | NoArguments | NoReturnValue
    | NotSingleStatement | NotAMatch | MultipleWildcards | UnsupportedPattern | NoWildcard
    | NotIntLiteral
    // abstract_recursive_match.rs: descriptor
    | NotExactlyOneArgument | ParameterNotIdent
    // call analysis
    | UnsupportedExpr | CallConvention | NonBinaryArgument | UnsupportedStepOperator
    | LiteralMinusParameter | MissingStepLiteral | ParameterMismatch | NonPositiveStep
    | NoRecursiveCall | MixedOperators
    // eureka tuple, seeds; NoFixedPoint is no `abort!`: it ends the model's bounded
    // search for the fixed point, where the source's `loop` would run on
    | NoFixedPoint | InsufficientConstants | NotContiguous | NoSeedWindow
    // rewriting
    | RecursiveArity | RecursiveNonBinary | UnsupportedRewrite
    // raised only by the corrected reading of the match, which the source does not have
    | GuardedArm | UnreachableArm
}
