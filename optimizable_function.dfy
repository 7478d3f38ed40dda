/**
 * Reading an annotated function: the signature checks, the single `match`
 * whose literal arms become constants and whose wildcard arm becomes the
 * recursive formula, and the replacement of the function's block by the
 * synthesized iterative body.
 */
module Optimizable {
  import opened Wrappers
  import opened Syntax
  import opened Plans
  import opened Synthesis

  /** A function item (`syn::ItemFn`) whose block is of type B: its attributes, visibility, signature and block. */
  datatype ItemFn<B> = ItemFn(attrs: seq<string>, vis: string, sig: Signature, block: B)

  /** `OptimizableFunction`: the original function and the descriptor read from it. */
  datatype OptimizableFunction = OptimizableFunction(
    origFunction: ItemFn<seq<Stmt>>,
    recursiveRepresentation: OptimizableRecursiveFunction)

  // ---------------------------------------------------------------------------
  // Literals

  /** `get_int_lit`: the value of an integer literal; any other expression aborts. */
  function GetIntLit(e: Expr): (r: Result<int, Error>)
    ensures r.Ok? <==> TryGetIntLit(e).Some?
    ensures r.Ok? ==> e == IntExpr(r.value)
    ensures r.Err? ==> r.error == NotIntLiteral
  {
    match TryGetIntLit(e)
    case Some(v) => Ok(v)
    case None => Err(NotIntLiteral)
  }

  // ---------------------------------------------------------------------------
  // read_match

  /**
   * The `for arm in match_expr.arms` loop from the current arm on, given the
   * constants and the formula collected so far.
   */
  function ScanArms(arms: seq<Arm>, constants: seq<(int, int)>, formula: Option<Expr>): Result<(seq<(int, int)>, Option<Expr>), Error>
    decreases |arms|
  {
    if arms == [] then Ok((constants, formula))
    else
      match arms[0].pat
      case PatLit(e) =>
        var key :- GetIntLit(e);
        var value :- GetIntLit(arms[0].body);
        ScanArms(arms[1..], constants + [(key, value)], formula)
      case PatWild =>
        if formula.None? then ScanArms(arms[1..], constants, Some(arms[0].body)) else Err(MultipleWildcards)
      case _ => Err(UnsupportedPattern)
  }

  /** `read_match` as a function of the block's statements. */
  function MatchParts(block: seq<Stmt>): Result<(seq<(int, int)>, Expr), Error> {
    if |block| != 1 then Err(NotSingleStatement)
    else if !(block[0].ExprStmt? && block[0].expr.Match?) then Err(NotAMatch)
    else
      var parts :- ScanArms(block[0].expr.arms, [], None);
      if parts.1.None? then Err(NoWildcard) else Ok((parts.0, parts.1.value))
  }

  /** `read_match`: the arm loop pushing constants and setting the formula once. */
  method ReadMatch(block: seq<Stmt>) returns (r: Result<(seq<(int, int)>, Expr), Error>)
    ensures r == MatchParts(block)
  {
    if |block| != 1 {
      return Err(NotSingleStatement);
    }
    if !(block[0].ExprStmt? && block[0].expr.Match?) {
      return Err(NotAMatch);
    }
    var arms := block[0].expr.arms;
    var constants: seq<(int, int)> := [];
    var formula: Option<Expr> := None;
    var k := 0;
    while k < |arms|
      invariant 0 <= k <= |arms|
      invariant ScanArms(arms, [], None) == ScanArms(arms[k..], constants, formula)
    {
      assert arms[k..][1..] == arms[k + 1..];
      var arm := arms[k];
      match arm.pat {
        case PatLit(e) =>
          var key := GetIntLit(e);
          if key.Err? {
            return Err(key.error);
          }
          var value := GetIntLit(arm.body);
          if value.Err? {
            return Err(value.error);
          }
          constants := constants + [(key.value, value.value)];
        case PatWild =>
          if formula.Some? {
            return Err(MultipleWildcards);
          }
          formula := Some(arm.body);
        case _ =>
          return Err(UnsupportedPattern);
      }
      k := k + 1;
    }
    if formula.None? {
      return Err(NoWildcard);
    }
    return Ok((constants, formula.value));
  }

  /** An arm `read_match` accepts: an integer literal mapped to an integer literal, or the wildcard. */
  predicate ArmOk(a: Arm) {
    (a.pat.PatLit? && TryGetIntLit(a.pat.expr).Some? && TryGetIntLit(a.body).Some?) || a.pat.PatWild?
  }

  function WildCount(arms: seq<Arm>): nat {
    if arms == [] then 0 else (if arms[0].pat.PatWild? then 1 else 0) + WildCount(arms[1..])
  }

  /** The body of the first wildcard arm. */
  function FirstWild(arms: seq<Arm>): Option<Expr> {
    if arms == [] then None else if arms[0].pat.PatWild? then Some(arms[0].body) else FirstWild(arms[1..])
  }

  /** The (key, value) pairs of the literal arms, in arm order. */
  function LitPairs(arms: seq<Arm>): seq<(int, int)>
    requires forall a :: a in arms ==> ArmOk(a)
  {
    if arms == [] then []
    else if arms[0].pat.PatWild? then LitPairs(arms[1..])
    else
      assert arms[0] in arms && ArmOk(arms[0]);
      [(TryGetIntLit(arms[0].pat.expr).value, TryGetIntLit(arms[0].body).value)] + LitPairs(arms[1..])
  }

  function Count(o: Option<Expr>): nat {
    if o.Some? then 1 else 0
  }

  /** Arms that are all accepted, with at most one wildcard in total, add their pairs and keep the one formula. */
  lemma {:induction false} ScanAccepts(arms: seq<Arm>, cs: seq<(int, int)>, fm: Option<Expr>)
    requires forall a :: a in arms ==> ArmOk(a)
    requires WildCount(arms) + Count(fm) <= 1
    ensures ScanArms(arms, cs, fm) == Ok((cs + LitPairs(arms), if fm.Some? then fm else FirstWild(arms)))
    decreases |arms|
  {
    if arms == [] {
      assert cs + [] == cs;
    } else {
      assert arms[0] in arms;
      if arms[0].pat.PatWild? {
        ScanAccepts(arms[1..], cs, Some(arms[0].body));
      } else {
        var pair := (TryGetIntLit(arms[0].pat.expr).value, TryGetIntLit(arms[0].body).value);
        ScanAccepts(arms[1..], cs + [pair], fm);
        assert cs + [pair] + LitPairs(arms[1..]) == cs + ([pair] + LitPairs(arms[1..]));
      }
    }
  }

  /** A scan that succeeds saw only accepted arms and at most one wildcard in total. */
  lemma {:induction false} ScanOkShape(arms: seq<Arm>, cs: seq<(int, int)>, fm: Option<Expr>)
    requires ScanArms(arms, cs, fm).Ok?
    ensures forall a :: a in arms ==> ArmOk(a)
    ensures WildCount(arms) + Count(fm) <= 1
    decreases |arms|
  {
    if arms != [] {
      if arms[0].pat.PatWild? {
        ScanOkShape(arms[1..], cs, Some(arms[0].body));
      } else {
        var pair := (TryGetIntLit(arms[0].pat.expr).value, TryGetIntLit(arms[0].body).value);
        ScanOkShape(arms[1..], cs + [pair], fm);
      }
      assert forall a :: a in arms ==> a == arms[0] || a in arms[1..];
    }
  }

  /**
   * The first arm that is not accepted decides the error, provided the arms
   * before it hold at most one wildcard; a wildcard after the first one is
   * the multiple-wildcard error.
   */
  lemma {:induction false} ScanRejects(arms: seq<Arm>, cs: seq<(int, int)>, fm: Option<Expr>, k: nat)
    requires k < |arms| && forall j :: 0 <= j < k ==> ArmOk(arms[j])
    requires WildCount(arms[..k]) + Count(fm) <= 1
    requires !ArmOk(arms[k]) || (arms[k].pat.PatWild? && WildCount(arms[..k]) + Count(fm) == 1)
    ensures ScanArms(arms, cs, fm) == Err(
      if arms[k].pat.PatWild? then MultipleWildcards
      else if arms[k].pat.PatLit? then NotIntLiteral
      else UnsupportedPattern)
    decreases k
  {
    if k > 0 {
      assert arms[..k][1..] == arms[1..][..k - 1];
      assert ArmOk(arms[0]);
      if arms[0].pat.PatWild? {
        ScanRejects(arms[1..], cs, Some(arms[0].body), k - 1);
      } else {
        var pair := (TryGetIntLit(arms[0].pat.expr).value, TryGetIntLit(arms[0].body).value);
        ScanRejects(arms[1..], cs + [pair], fm, k - 1);
      }
    } else {
      assert arms[..0] == [];
    }
  }

  /**
   * `read_match` succeeds exactly on one `match` whose arms are integer
   * literal arms and exactly one wildcard: the constants are the literal
   * arms in order and the formula is the wildcard's body.
   */
  lemma ReadMatchExactly(block: seq<Stmt>)
    ensures MatchParts(block).Ok? <==>
      |block| == 1 && block[0].ExprStmt? && block[0].expr.Match? &&
      (forall a :: a in block[0].expr.arms ==> ArmOk(a)) && WildCount(block[0].expr.arms) == 1
    ensures MatchParts(block).Ok? ==>
      MatchParts(block).value.0 == LitPairs(block[0].expr.arms) &&
      Some(MatchParts(block).value.1) == FirstWild(block[0].expr.arms)
  {
    if |block| == 1 && block[0].ExprStmt? && block[0].expr.Match? {
      var arms := block[0].expr.arms;
      if ScanArms(arms, [], None).Ok? {
        ScanOkShape(arms, [], None);
      }
      if (forall a :: a in arms ==> ArmOk(a)) && WildCount(arms) <= 1 {
        ScanAccepts(arms, [], None);
        FirstWildCount(arms);
        assert [] + LitPairs(arms) == LitPairs(arms);
      }
    }
  }

  lemma {:induction false} FirstWildCount(arms: seq<Arm>)
    ensures FirstWild(arms).Some? <==> WildCount(arms) > 0
  {
    if arms != [] {
      FirstWildCount(arms[1..]);
    }
  }

  /** Accepted arms without a wildcard abort with the missing-wildcard error. */
  lemma ReadMatchNoWildcard(block: seq<Stmt>)
    requires |block| == 1 && block[0].ExprStmt? && block[0].expr.Match?
    requires (forall a :: a in block[0].expr.arms ==> ArmOk(a)) && WildCount(block[0].expr.arms) == 0
    ensures MatchParts(block) == Err(NoWildcard)
  {
    ScanAccepts(block[0].expr.arms, [], None);
    FirstWildCount(block[0].expr.arms);
  }

  /** The arms with their guards dropped. */
  function Unguarded(arms: seq<Arm>): (r: seq<Arm>)
    ensures |r| == |arms| && forall i :: 0 <= i < |arms| ==> r[i] == arms[i].(guard := None)
  {
    seq(|arms|, i requires 0 <= i < |arms| => arms[i].(guard := None))
  }

  /** The arm loop never looks at a guard: a guarded arm is read as if it had none. */
  lemma {:induction false} ScanIgnoresGuards(arms: seq<Arm>, cs: seq<(int, int)>, fm: Option<Expr>)
    ensures ScanArms(arms, cs, fm) == ScanArms(Unguarded(arms), cs, fm)
    decreases |arms|
  {
    if arms != [] {
      var u := Unguarded(arms);
      assert u[0] == arms[0].(guard := None);
      assert u[1..] == Unguarded(arms[1..]);
      match arms[0].pat
      case PatLit(e) =>
        if GetIntLit(e).Ok? && GetIntLit(arms[0].body).Ok? {
          ScanIgnoresGuards(arms[1..], cs + [(GetIntLit(e).value, GetIntLit(arms[0].body).value)], fm);
        }
      case PatWild =>
        if fm.None? {
          ScanIgnoresGuards(arms[1..], cs, Some(arms[0].body));
        }
      case _ =>
    }
  }

  /** `read_match` gives a match with guards the same constants and formula as the match without them. */
  lemma MatchPartsIgnoresGuards(scrutinee: Expr, arms: seq<Arm>)
    ensures MatchParts([ExprStmt(Match(scrutinee, arms))]) == MatchParts([ExprStmt(Match(scrutinee, Unguarded(arms)))])
  {
    ScanIgnoresGuards(arms, [], None);
  }

  // ---------------------------------------------------------------------------
  // create_from

  predicate NoReceiver(inputs: seq<FnArg>) {
    forall j :: 0 <= j < |inputs| ==> inputs[j].Typed?
  }

  function TypedArgs(inputs: seq<FnArg>): (r: seq<PatType>)
    requires NoReceiver(inputs)
    ensures |r| == |inputs| && forall j :: 0 <= j < |inputs| ==> inputs[j] == Typed(r[j])
  {
    seq(|inputs|, j requires 0 <= j < |inputs| => inputs[j].arg)
  }

  /** `OptimizableRecursiveFunction::create_from` as a function of the item. */
  function DescriptorOf(f: ItemFn<seq<Stmt>>): Result<OptimizableRecursiveFunction, Error> {
    if !NoReceiver(f.sig.inputs) then Err(ReceiverNotAllowed)
    else if |f.sig.inputs| == 0 then Err(NoArguments)
    else if f.sig.output.DefaultReturn? then Err(NoReturnValue)
    else
      var parts :- MatchParts(f.block);
      Ok(OptimizableRecursiveFunction(f.sig.ident, TypedArgs(f.sig.inputs), f.sig.output.ty, parts.0, parts.1))
  }

  /** `create_from`: the parameter loop, the return-type check, then `read_match`. */
  method CreateFrom(f: ItemFn<seq<Stmt>>) returns (r: Result<OptimizableRecursiveFunction, Error>)
    ensures r == DescriptorOf(f)
  {
    var inputs := f.sig.inputs;
    var inputArgs: seq<PatType> := [];
    var k := 0;
    while k < |inputs|
      invariant 0 <= k <= |inputs| && |inputArgs| == k
      invariant forall j :: 0 <= j < k ==> inputs[j] == Typed(inputArgs[j])
    {
      match inputs[k] {
        case Receiver =>
          return Err(ReceiverNotAllowed);
        case Typed(t) =>
          inputArgs := inputArgs + [t];
      }
      k := k + 1;
    }
    assert inputArgs == TypedArgs(inputs);
    if |inputArgs| == 0 {
      return Err(NoArguments);
    }
    if f.sig.output.DefaultReturn? {
      return Err(NoReturnValue);
    }
    var parts := ReadMatch(f.block);
    if parts.Err? {
      return Err(parts.error);
    }
    return Ok(OptimizableRecursiveFunction(f.sig.ident, inputArgs, f.sig.output.ty, parts.value.0, parts.value.1));
  }

  /**
   * The signature checks in their order, and what a descriptor keeps: the
   * name, the typed parameters in order, the return type, and the parts of
   * the `match`.
   */
  lemma DescriptorShape(f: ItemFn<seq<Stmt>>)
    ensures (exists j :: 0 <= j < |f.sig.inputs| && f.sig.inputs[j] == Receiver) ==> DescriptorOf(f) == Err(ReceiverNotAllowed)
    ensures f.sig.inputs == [] ==> DescriptorOf(f) == Err(NoArguments)
    ensures NoReceiver(f.sig.inputs) && f.sig.inputs != [] && f.sig.output == DefaultReturn ==> DescriptorOf(f) == Err(NoReturnValue)
    ensures NoReceiver(f.sig.inputs) && f.sig.inputs != [] && f.sig.output.ReturnTy? && MatchParts(f.block).Err? ==>
      DescriptorOf(f) == Err(MatchParts(f.block).error)
    ensures DescriptorOf(f).Ok? ==> DescriptorOf(f).value.name == f.sig.ident
    ensures DescriptorOf(f).Ok? ==> f.sig.output == ReturnTy(DescriptorOf(f).value.output)
    ensures DescriptorOf(f).Ok? ==> |DescriptorOf(f).value.inputArgs| == |f.sig.inputs| > 0
    ensures DescriptorOf(f).Ok? ==> forall j :: 0 <= j < |f.sig.inputs| ==> f.sig.inputs[j] == Typed(DescriptorOf(f).value.inputArgs[j])
    ensures DescriptorOf(f).Ok? ==> MatchParts(f.block) == Ok((DescriptorOf(f).value.constants, DescriptorOf(f).value.recursiveFormula))
  {
  }

  // ---------------------------------------------------------------------------
  // optimize

  /** `From<ItemFn>`: the descriptor is read once, when the function is wrapped. */
  function FromItemFn(f: ItemFn<seq<Stmt>>): Result<OptimizableFunction, Error> {
    var d :- DescriptorOf(f);
    Ok(OptimizableFunction(f, d))
  }

  /** The iterative body `OptimizableRecursiveFunction::optimize` builds. */
  function OptimizedBlock(d: OptimizableRecursiveFunction): Result<Plan, Error> {
    var m :- MatchFunctionOf(d);
    IterativeBody(m, KeepParameter)
  }

  /** `optimize`: a clone of the original function whose block is the synthesized body. */
  method Optimize(o: OptimizableFunction) returns (r: Result<ItemFn<Plan>, Error>)
    ensures OptimizedBlock(o.recursiveRepresentation).Err? ==> r == Err(OptimizedBlock(o.recursiveRepresentation).error)
    ensures OptimizedBlock(o.recursiveRepresentation).Ok? ==> r.Ok? && r.value.block == OptimizedBlock(o.recursiveRepresentation).value
    ensures r.Ok? ==> r.value.attrs == o.origFunction.attrs && r.value.vis == o.origFunction.vis && r.value.sig == o.origFunction.sig
  {
    var a := AbstractRecursiveMatchFunction.CreateFrom(o.recursiveRepresentation);
    if a.Err? {
      return Err(a.error);
    }
    var block := a.value.ConstructIterativeStmts();
    if block.Err? {
      return Err(block.error);
    }
    var orig := o.origFunction;
    return Ok(ItemFn(orig.attrs, orig.vis, orig.sig, block.value));
  }
}
