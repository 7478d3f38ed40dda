/**
 * Synthesis of `abstract_recursive_match.rs`: the constant map, the
 * constant fast paths, the branch guards, the correction arms, the
 * rewriting of self-calls into ring-buffer reads, and the assembly of the
 * iterative body by `AbstractRecursiveMatchFunction`.
 */
module Synthesis {
  import opened Wrappers
  import opened Syntax
  import opened Numeric
  import opened Plans
  import opened SortedMap
  import opened RecursiveCalls
  import Eureka
  import Seeds

  // ---------------------------------------------------------------------------
  // convert_constants

  /** The map built by inserting the arms' (key, value) pairs in arm order. */
  function BuildConstants(cs: seq<(int, int)>): BTreeMap
    decreases |cs|
  {
    if cs == [] then []
    else Insert(BuildConstants(cs[..|cs| - 1]), cs[|cs| - 1].0, cs[|cs| - 1].1)
  }

  /** `convert_constants`: `b.insert(constant, value)` for every arm. */
  method ConvertConstants(cs: seq<(int, int)>) returns (b: BTreeMap)
    ensures b == BuildConstants(cs)
  {
    b := [];
    var k := 0;
    while k < |cs|
      invariant 0 <= k <= |cs|
      invariant b == BuildConstants(cs[..k])
    {
      assert cs[..k + 1][..k] == cs[..k];
      b := Insert(b, cs[k].0, cs[k].1);
      k := k + 1;
    }
    assert cs[..k] == cs;
  }

  /** The keys of the constant map are exactly the arm keys. */
  lemma {:induction false} ConstantsKeys(cs: seq<(int, int)>)
    ensures KeySet(BuildConstants(cs)) == set i | 0 <= i < |cs| :: cs[i].0
    decreases |cs|
  {
    if cs != [] {
      var init := cs[..|cs| - 1];
      ConstantsKeys(init);
      InsertKeys(BuildConstants(init), cs[|cs| - 1].0, cs[|cs| - 1].1);
      assert forall i :: 0 <= i < |init| ==> init[i] == cs[i];
    }
  }

  /** A key keeps the value of the last arm that names it. */
  lemma {:induction false} ConstantsLastWins(cs: seq<(int, int)>, i: nat)
    requires i < |cs| && forall j :: i < j < |cs| ==> cs[j].0 != cs[i].0
    ensures cs[i].0 in ToMap(BuildConstants(cs)) && ToMap(BuildConstants(cs))[cs[i].0] == cs[i].1
    decreases |cs|
  {
    var init := cs[..|cs| - 1];
    InsertMap(BuildConstants(init), cs[|cs| - 1].0, cs[|cs| - 1].1);
    if i < |cs| - 1 {
      assert init[i] == cs[i];
      ConstantsLastWins(init, i);
    }
  }

  // ---------------------------------------------------------------------------
  // create_constant_checks

  /** `create_constant_checks`: one `if n == key { return value; }` per entry, in key order. */
  function ConstantChecks(constants: BTreeMap): (r: seq<ConstantCheck>)
    ensures |r| == |constants|
  {
    seq(|constants|, j requires 0 <= j < |constants| => ConstantCheck(constants[j].0, constants[j].1))
  }

  /** The fast paths are exactly the entries of the map, in ascending key order. */
  lemma ConstantChecksExactly(constants: BTreeMap)
    ensures forall k, v :: ConstantCheck(k, v) in ConstantChecks(constants) <==>
      k in ToMap(constants) && ToMap(constants)[k] == v
    ensures forall a, b :: 0 <= a < b < |constants| ==> ConstantChecks(constants)[a].key < ConstantChecks(constants)[b].key
  {
    var r := ConstantChecks(constants);
    forall k, v ensures ConstantCheck(k, v) in r <==> k in ToMap(constants) && ToMap(constants)[k] == v {
      if k in ToMap(constants) && ToMap(constants)[k] == v {
        var i :| 0 <= i < |constants| && constants[i].0 == k;
        assert r[i] == ConstantCheck(k, v);
      }
    }
  }

  // ---------------------------------------------------------------------------
  // get_branch_condition

  /** `get_branch_condition`: the guard of a seed window, whose start is the window's last element. */
  function BranchCondition(window: seq<int>, e: Eureka.EurekaTuple): (g: Guard)
    requires |window| > 0
  {
    Guard(e.operator, window[|window| - 1], e.stepSize)
  }

  /** A guard admits exactly the arguments a whole number t of steps from its start, in the loop's direction. */
  lemma GuardMeaning(g: Guard, n: int)
    requires g.stepSize > 0
    ensures GuardHolds(g, n) <==> exists t: nat :: n == Walk(g.operator, g.start, g.stepSize * t)
  {
    var q := g.stepSize;
    if GuardHolds(g, n) {
      var d := if g.operator == StepSub then n - g.start else g.start - n;
      var t: nat := d / q;
      assert d == q * t;
      assert n == Walk(g.operator, g.start, q * t);
    }
    if exists t: nat :: n == Walk(g.operator, g.start, q * t) {
      var t: nat :| n == Walk(g.operator, g.start, q * t);
      DvdMultiple(q, t);
      if g.operator == StepSub {
        assert n - g.start == q * t;
      } else {
        assert g.start - n == q * t;
      }
    }
  }

  /** A number on a guard's path shares the residue of its start. */
  lemma GuardClass(g: Guard, n: int)
    requires GuardHolds(g, n)
    ensures Seeds.SameClass(g.stepSize, n, g.start)
  {
    var q := g.stepSize;
    var d := if g.operator == StepSub then n - g.start else g.start - n;
    DvdMultiple(q, d / q);
    assert d == q * (d / q);
    Seeds.SameClassDivides(q, n, g.start);
    if g.operator == StepAdd {
      DvdCombine(q, d, d, -2);
      assert n - g.start == d + -2 * d;
    }
  }

  /** No argument passes the guards of two different seeds: the seeds' residues are distinct. */
  lemma GuardsExclusive(constants: BTreeMap, e: Eureka.EurekaTuple, seeds: seq<seq<int>>, a: nat, b: nat, n: int)
    requires e.stepSize >= 1 && Seeds.SeedsFor(constants, e.tuple, e.stepSize, e.operator) == Ok(seeds)
    requires a < b < |seeds|
    ensures |seeds[a]| > 0 && |seeds[b]| > 0
    ensures !(GuardHolds(BranchCondition(seeds[a], e), n) && GuardHolds(BranchCondition(seeds[b], e), n))
  {
    var q, len := e.stepSize, |e.tuple|;
    if e.operator == StepSub {
      Seeds.SubSeedsAreWindows(constants, e.tuple, q, seeds, a);
      Seeds.SubSeedsAreWindows(constants, e.tuple, q, seeds, b);
      Seeds.SubSeedsDistinct(constants, e.tuple, q, seeds);
      var ga, gb := BranchCondition(seeds[a], e), BranchCondition(seeds[b], e);
      if GuardHolds(ga, n) && GuardHolds(gb, n) {
        GuardClass(ga, n);
        GuardClass(gb, n);
        ShiftedClass(q, seeds[a][0], seeds[b][0], len - 1);
        assert false;
      }
    } else {
      Seeds.AddSeedsDistinct(constants, e.tuple, q, seeds, a, b);
      var ga, gb := BranchCondition(seeds[a], e), BranchCondition(seeds[b], e);
      if GuardHolds(ga, n) && GuardHolds(gb, n) {
        GuardClass(ga, n);
        GuardClass(gb, n);
        assert false;
      }
    }
  }

  /** Adding the same multiple of q to two numbers keeps whether they share a residue. */
  lemma ShiftedClass(q: nat, x: int, y: int, j: int)
    requires q >= 1
    ensures Seeds.SameClass(q, x + j * q, y + j * q) <==> Seeds.SameClass(q, x, y)
  {
    Seeds.SameClassDivides(q, x + j * q, y + j * q);
    Seeds.SameClassDivides(q, x, y);
    assert (x + j * q) - (y + j * q) == x - y;
  }

  // ---------------------------------------------------------------------------
  // create_loop: the correction arms

  /** A key gets an arm when it shares the start's residue and lies strictly beyond the start in the loop's direction. */
  predicate ArmKey(op: StepOperator, start: int, q: nat, key: int)
    requires q > 0
  {
    (key - start) % q == 0 && (if op == StepAdd then key < start else key > start)
  }

  /** The arms contributed by the first m entries, in key order. */
  function ArmsUpTo(constants: BTreeMap, start: int, q: nat, op: StepOperator, m: nat): seq<LoopArm>
    requires q > 0 && m <= |constants|
    decreases m
  {
    if m == 0 then []
    else
      ArmsUpTo(constants, start, q, op, m - 1) +
      (if ArmKey(op, start, q, constants[m - 1].0) then [LoopArm(constants[m - 1].0, constants[m - 1].1)] else [])
  }

  function Arms(constants: BTreeMap, start: int, q: nat, op: StepOperator): seq<LoopArm>
    requires q > 0
  {
    ArmsUpTo(constants, start, q, op, |constants|)
  }

  /** The `for (c_a, c_v) in &self.constants` loop of `create_loop` that pushes the arms. */
  method CreateArms(constants: BTreeMap, start: int, q: nat, op: StepOperator) returns (arms: seq<LoopArm>)
    requires q > 0
    ensures arms == Arms(constants, start, q, op)
  {
    arms := [];
    var k := 0;
    while k < |constants|
      invariant 0 <= k <= |constants|
      invariant arms == ArmsUpTo(constants, start, q, op, k)
    {
      var (cA, cV) := constants[k];
      if (cA - start) % q == 0 {
        match op
        case StepAdd =>
          if cA < start {
            arms := arms + [LoopArm(cA, cV)];
          }
        case StepSub =>
          if cA > start {
            arms := arms + [LoopArm(cA, cV)];
          }
      }
      k := k + 1;
    }
  }

  /** The arms among the first m entries are the arm-worthy entries among them. */
  lemma {:induction false} ArmsUpToMembers(constants: BTreeMap, start: int, q: nat, op: StepOperator, m: nat)
    requires q > 0 && m <= |constants|
    ensures forall x :: x in ArmsUpTo(constants, start, q, op, m) <==>
      exists i :: 0 <= i < m && x == LoopArm(constants[i].0, constants[i].1) && ArmKey(op, start, q, constants[i].0)
    ensures forall a :: 0 <= a < |ArmsUpTo(constants, start, q, op, m)| ==>
      exists i :: 0 <= i < m && ArmsUpTo(constants, start, q, op, m)[a].key == constants[i].0
    decreases m
  {
    if m > 0 {
      ArmsUpToMembers(constants, start, q, op, m - 1);
      var prev := ArmsUpTo(constants, start, q, op, m - 1);
      var r := ArmsUpTo(constants, start, q, op, m);
      forall x ensures x in r <==>
        exists i :: 0 <= i < m && x == LoopArm(constants[i].0, constants[i].1) && ArmKey(op, start, q, constants[i].0)
      {
        if x in r && x !in prev {
          assert x == LoopArm(constants[m - 1].0, constants[m - 1].1) && ArmKey(op, start, q, constants[m - 1].0);
        }
        if exists i :: 0 <= i < m && x == LoopArm(constants[i].0, constants[i].1) && ArmKey(op, start, q, constants[i].0) {
          var i :| 0 <= i < m && x == LoopArm(constants[i].0, constants[i].1) && ArmKey(op, start, q, constants[i].0);
          if i == m - 1 {
            assert r[|r| - 1] == x;
          }
        }
      }
      forall a | 0 <= a < |r| ensures exists i :: 0 <= i < m && r[a].key == constants[i].0 {
        if a < |prev| {
          var i :| 0 <= i < m - 1 && prev[a].key == constants[i].0;
          assert r[a] == prev[a];
        } else {
          assert r[a].key == constants[m - 1].0;
        }
      }
    } else {
      assert ArmsUpTo(constants, start, q, op, m) == [];
    }
  }

  /** Arms come in strictly ascending key order, each below the keys of the entries after it. */
  lemma {:induction false} ArmsUpToAscending(constants: BTreeMap, start: int, q: nat, op: StepOperator, m: nat)
    requires q > 0 && m <= |constants|
    ensures forall a, b :: 0 <= a < b < |ArmsUpTo(constants, start, q, op, m)| ==>
      ArmsUpTo(constants, start, q, op, m)[a].key < ArmsUpTo(constants, start, q, op, m)[b].key
    decreases m
  {
    if m > 0 {
      ArmsUpToAscending(constants, start, q, op, m - 1);
      ArmsUpToMembers(constants, start, q, op, m - 1);
      var prev := ArmsUpTo(constants, start, q, op, m - 1);
      var r := ArmsUpTo(constants, start, q, op, m);
      forall a, b | 0 <= a < b < |r| ensures r[a].key < r[b].key {
        if b >= |prev| {
          var i :| 0 <= i < m - 1 && prev[a].key == constants[i].0;
          assert r[a] == prev[a] && r[b].key == constants[m - 1].0;
        } else {
          assert r[a] == prev[a] && r[b] == prev[b];
        }
      }
    }
  }

  /**
   * The arms are exactly the constant entries whose key shares the start's
   * residue and lies beyond the start in the loop's direction, in strictly
   * ascending key order.
   */
  lemma ArmsExactly(constants: BTreeMap, start: int, q: nat, op: StepOperator)
    requires q > 0
    ensures forall k, v :: LoopArm(k, v) in Arms(constants, start, q, op) <==>
      k in ToMap(constants) && ToMap(constants)[k] == v && ArmKey(op, start, q, k)
    ensures forall a, b :: 0 <= a < b < |Arms(constants, start, q, op)| ==>
      Arms(constants, start, q, op)[a].key < Arms(constants, start, q, op)[b].key
  {
    ArmsUpToMembers(constants, start, q, op, |constants|);
    ArmsUpToAscending(constants, start, q, op, |constants|);
    forall k, v ensures LoopArm(k, v) in Arms(constants, start, q, op) <==>
      k in ToMap(constants) && ToMap(constants)[k] == v && ArmKey(op, start, q, k)
    {
      if k in ToMap(constants) && ToMap(constants)[k] == v && ArmKey(op, start, q, k) {
        var i :| 0 <= i < |constants| && constants[i].0 == k;
        assert LoopArm(k, v) == LoopArm(constants[i].0, constants[i].1);
      }
    }
  }

  // ---------------------------------------------------------------------------
  // recursive_to_tuple_based_expr, recursive_punctuated, create_tuple_expr

  /** `create_tuple_expr`: the ring-buffer read `tuple[(i - k) % len]`. */
  function TupleAccess(k: int, len: nat): Expr {
    Index(Ident("tuple"), Binary(Paren(Binary(Ident("i"), Sub, IntExpr(k))), Rem, IntExpr(len)))
  }

  /**
   * What the rewriting consults: the function's name and parameter, the
   * step size, the buffer length, and the expression a path naming the
   * parameter becomes (the path itself in the source).
   */
  datatype RewriteContext = RewriteContext(name: string, parameter: string, stepSize: nat, tupleLen: nat, parameterExpr: Expr)

  /**
   * `recursive_to_tuple_based_expr`: every self-call `f(p op k)` becomes
   * `tuple[(i - k / q) % L]`; other calls keep their callee and have their
   * arguments rewritten; field accesses, type ascriptions and literals are
   * copied; any other node kind is refused.
   */
  function Rewrite(e: Expr, ctx: RewriteContext): Result<Expr, Error>
    requires ctx.stepSize > 0
    decreases e, 1
  {
    match e
    case Call(func, args) =>
      var callee :- CallName(func);
      if callee == ctx.name then
        if |args| != 1 then Err(RecursiveArity)
        else if !args[0].Binary? then Err(RecursiveNonBinary)
        else
          var rc :- RecursiveCallFrom(args[0].left, args[0].op, args[0].right, ctx.parameter);
          Ok(TupleAccess(rc.steps / ctx.stepSize, ctx.tupleLen))
      else
        var args' :- RewriteSeq(args, ctx);
        Ok(Call(func, args'))
    case Array(elems) =>
      var elems' :- RewriteSeq(elems, ctx);
      Ok(Array(elems'))
    case Binary(left, op, right) =>
      var l :- Rewrite(left, ctx);
      var r :- Rewrite(right, ctx);
      Ok(Binary(l, op, r))
    case Cast(inner, ty) =>
      var x :- Rewrite(inner, ctx);
      Ok(Cast(x, ty))
    case Field(_, _) => Ok(e)
    case Index(base, index) =>
      var b :- Rewrite(base, ctx);
      var x :- Rewrite(index, ctx);
      Ok(Index(b, x))
    case Paren(inner) =>
      var x :- Rewrite(inner, ctx);
      Ok(Paren(x))
    case Path(segments) => if segments == [ctx.parameter] then Ok(ctx.parameterExpr) else Ok(e)
    case Reference(mutable, inner) =>
      var x :- Rewrite(inner, ctx);
      Ok(Reference(mutable, x))
    case Tuple(elems) =>
      var elems' :- RewriteSeq(elems, ctx);
      Ok(Tuple(elems'))
    case TypeAscription(_, _) => Ok(e)
    case Unary(op, inner) =>
      var x :- Rewrite(inner, ctx);
      Ok(Unary(op, x))
    case Lit(_) => Ok(e)
    case _ => Err(UnsupportedRewrite)
  }

  /** `recursive_punctuated`: the elements rewritten in order; the first failure wins. */
  function RewriteSeq(es: seq<Expr>, ctx: RewriteContext): Result<seq<Expr>, Error>
    requires ctx.stepSize > 0
    decreases es, 0
  {
    if es == [] then Ok([])
    else
      var h :- Rewrite(es[0], ctx);
      var t :- RewriteSeq(es[1..], ctx);
      Ok([h] + t)
  }

  /**
   * `recursive_punctuated` rewrites each element on its own: it succeeds
   * exactly when every element does, keeping their order, and otherwise
   * fails with the error of the first element that fails.
   */
  lemma {:induction false} RewriteSeqElementwise(es: seq<Expr>, ctx: RewriteContext)
    requires ctx.stepSize > 0
    ensures RewriteSeq(es, ctx).Ok? <==> forall i :: 0 <= i < |es| ==> Rewrite(es[i], ctx).Ok?
    ensures RewriteSeq(es, ctx).Ok? ==> |RewriteSeq(es, ctx).value| == |es|
    ensures RewriteSeq(es, ctx).Ok? ==> forall i :: 0 <= i < |es| ==> Rewrite(es[i], ctx) == Ok(RewriteSeq(es, ctx).value[i])
    ensures forall k :: 0 <= k < |es| && Rewrite(es[k], ctx).Err? && (forall i :: 0 <= i < k ==> Rewrite(es[i], ctx).Ok?) ==>
      RewriteSeq(es, ctx) == Err(Rewrite(es[k], ctx).error)
    decreases |es|
  {
    if es != [] {
      RewriteSeqElementwise(es[1..], ctx);
      assert forall i :: 0 < i < |es| ==> es[i] == es[1..][i - 1];
    }
  }

  /** The context in which the source rewrites: a path naming the parameter stays that path. */
  function AsWritten(name: string, parameter: string, q: nat, len: nat): RewriteContext {
    RewriteContext(name, parameter, q, len, Ident(parameter))
  }

  /** Trees the rewriting leaves alone: supported node kinds, and every call names a function other than `name`. */
  predicate PlainExpr(e: Expr, name: string)
    decreases e
  {
    match e
    case Call(func, args) => CallName(func).Ok? && CallName(func).value != name && forall x :: x in args ==> PlainExpr(x, name)
    case Array(elems) => forall x :: x in elems ==> PlainExpr(x, name)
    case Tuple(elems) => forall x :: x in elems ==> PlainExpr(x, name)
    case Binary(left, _, right) => PlainExpr(left, name) && PlainExpr(right, name)
    case Index(base, index) => PlainExpr(base, name) && PlainExpr(index, name)
    case Cast(inner, _) => PlainExpr(inner, name)
    case Paren(inner) => PlainExpr(inner, name)
    case Reference(_, inner) => PlainExpr(inner, name)
    case Unary(_, inner) => PlainExpr(inner, name)
    case Field(_, _) => true
    case Path(_) => true
    case TypeAscription(_, _) => true
    case Lit(_) => true
    case Match(_, _) => false
    case Unsupported(_) => false
  }

  /** As written, the rewriting is the identity on trees without self-calls. */
  lemma {:induction false} RewritePlainIdentity(e: Expr, ctx: RewriteContext)
    requires ctx.stepSize > 0 && ctx.parameterExpr == Ident(ctx.parameter) && PlainExpr(e, ctx.name)
    ensures Rewrite(e, ctx) == Ok(e)
    decreases e, 1
  {
    match e
    case Call(func, args) => RewritePlainIdentitySeq(args, ctx);
    case Array(elems) => RewritePlainIdentitySeq(elems, ctx);
    case Tuple(elems) => RewritePlainIdentitySeq(elems, ctx);
    case Binary(left, _, right) => RewritePlainIdentity(left, ctx); RewritePlainIdentity(right, ctx);
    case Index(base, index) => RewritePlainIdentity(base, ctx); RewritePlainIdentity(index, ctx);
    case Cast(inner, _) => RewritePlainIdentity(inner, ctx);
    case Paren(inner) => RewritePlainIdentity(inner, ctx);
    case Reference(_, inner) => RewritePlainIdentity(inner, ctx);
    case Unary(_, inner) => RewritePlainIdentity(inner, ctx);
    case _ =>
  }

  lemma {:induction false} RewritePlainIdentitySeq(es: seq<Expr>, ctx: RewriteContext)
    requires ctx.stepSize > 0 && ctx.parameterExpr == Ident(ctx.parameter)
    requires forall x :: x in es ==> PlainExpr(x, ctx.name)
    ensures RewriteSeq(es, ctx) == Ok(es)
    decreases es, 0
  {
    if es != [] {
      RewritePlainIdentity(es[0], ctx);
      RewritePlainIdentitySeq(es[1..], ctx);
      assert [es[0]] + es[1..] == es;
    }
  }

  /** A successful rewriting leaves no self-call behind, provided the parameter's replacement has none. */
  lemma {:induction false} RewriteLeavesNoSelfCall(e: Expr, ctx: RewriteContext)
    requires ctx.stepSize > 0 && PlainExpr(ctx.parameterExpr, ctx.name) && Rewrite(e, ctx).Ok?
    ensures PlainExpr(Rewrite(e, ctx).value, ctx.name)
    decreases e, 1
  {
    match e
    case Call(func, args) =>
      if CallName(func).value != ctx.name {
        RewriteLeavesNoSelfCallSeq(args, ctx);
      } else {
        var rc := RecursiveCallFrom(args[0].left, args[0].op, args[0].right, ctx.parameter).value;
        TupleAccessPlain(rc.steps / ctx.stepSize, ctx.tupleLen, ctx.name);
      }
    case Array(elems) => RewriteLeavesNoSelfCallSeq(elems, ctx);
    case Tuple(elems) => RewriteLeavesNoSelfCallSeq(elems, ctx);
    case Binary(left, _, right) => RewriteLeavesNoSelfCall(left, ctx); RewriteLeavesNoSelfCall(right, ctx);
    case Index(base, index) => RewriteLeavesNoSelfCall(base, ctx); RewriteLeavesNoSelfCall(index, ctx);
    case Cast(inner, _) => RewriteLeavesNoSelfCall(inner, ctx);
    case Paren(inner) => RewriteLeavesNoSelfCall(inner, ctx);
    case Reference(_, inner) => RewriteLeavesNoSelfCall(inner, ctx);
    case Unary(_, inner) => RewriteLeavesNoSelfCall(inner, ctx);
    case _ =>
  }

  lemma {:induction false} RewriteLeavesNoSelfCallSeq(es: seq<Expr>, ctx: RewriteContext)
    requires ctx.stepSize > 0 && PlainExpr(ctx.parameterExpr, ctx.name) && RewriteSeq(es, ctx).Ok?
    ensures forall x :: x in RewriteSeq(es, ctx).value ==> PlainExpr(x, ctx.name)
    decreases es, 0
  {
    if es != [] {
      RewriteLeavesNoSelfCall(es[0], ctx);
      RewriteLeavesNoSelfCallSeq(es[1..], ctx);
    }
  }

  lemma TupleAccessPlain(k: int, len: nat, name: string)
    ensures PlainExpr(TupleAccess(k, len), name)
  {
    var offset := Binary(Ident("i"), Sub, IntExpr(k));
    assert PlainExpr(Ident("i"), name) && PlainExpr(IntExpr(k), name);
    assert PlainExpr(offset, name);
    assert PlainExpr(Binary(Paren(offset), Rem, IntExpr(len)), name);
  }

  /** As written, rewriting a rewritten tree changes nothing. */
  lemma RewriteIdempotent(e: Expr, ctx: RewriteContext)
    requires ctx.stepSize > 0 && ctx.parameterExpr == Ident(ctx.parameter) && Rewrite(e, ctx).Ok?
    ensures Rewrite(Rewrite(e, ctx).value, ctx) == Rewrite(e, ctx)
  {
    RewriteLeavesNoSelfCall(e, ctx);
    RewritePlainIdentity(Rewrite(e, ctx).value, ctx);
  }

  /**
   * A self-call becomes the read of the normalised step `k / q` when its
   * single argument has an accepted shape; a wrong arity or a non-binary
   * argument is refused, as is a node kind outside the supported ones.
   */
  lemma RewriteSelfCall(func: Expr, args: seq<Expr>, ctx: RewriteContext)
    requires ctx.stepSize > 0 && CallName(func) == Ok(ctx.name)
    ensures |args| != 1 ==> Rewrite(Call(func, args), ctx) == Err(RecursiveArity)
    ensures |args| == 1 && !args[0].Binary? ==> Rewrite(Call(func, args), ctx) == Err(RecursiveNonBinary)
    ensures forall left, op, right, k :: args == [Binary(left, op, right)] && AcceptedShape(left, op, right, ctx.parameter, k) ==>
      Rewrite(Call(func, args), ctx) == Ok(TupleAccess(k / ctx.stepSize, ctx.tupleLen))
  {
    forall left, op, right, k | args == [Binary(left, op, right)] && AcceptedShape(left, op, right, ctx.parameter, k)
      ensures Rewrite(Call(func, args), ctx) == Ok(TupleAccess(k / ctx.stepSize, ctx.tupleLen))
    {
      AcceptedCallShapes(left, op, right, ctx.parameter);
    }
  }

  lemma RewriteUnsupported(e: Expr, ctx: RewriteContext)
    requires ctx.stepSize > 0 && (e.Match? || e.Unsupported?)
    ensures Rewrite(e, ctx) == Err(UnsupportedRewrite)
  {
  }

  // ---------------------------------------------------------------------------
  // create_tmp_tuple, create_loop

  /** The fields of `AbstractRecursiveMatchFunction` that the synthesis reads. */
  datatype MatchFunction = MatchFunction(
    name: string,
    recursionParameter: string,
    constants: BTreeMap,
    recursiveExpr: Expr,
    argType: Type)

  /**
   * How a path naming the parameter is rewritten inside the loop body:
   * left alone, as the source does (it then reads the function's argument
   * n), or replaced by the argument of the value being computed.
   */
  datatype ParameterReading = KeepParameter | ReadCurrentArgument

  /** The buffer's initial contents: the constants of the window, in window order. */
  function TmpTuple(constants: BTreeMap, window: seq<int>): (t: seq<int>)
    requires forall x :: x in window ==> x in ToMap(constants)
    ensures |t| == |window|
  {
    seq(|window|, j requires 0 <= j < |window| => ToMap(constants)[window[j]])
  }

  /** `create_tmp_tuple`: `tuple[j] = constants[window[j]]` for every j. */
  method CreateTmpTuple(constants: BTreeMap, window: seq<int>) returns (t: seq<int>)
    requires forall x :: x in window ==> x in ToMap(constants)
    ensures t == TmpTuple(constants, window)
  {
    t := [];
    var j := 0;
    while j < |window|
      invariant 0 <= j <= |window| && t == TmpTuple(constants, window)[..j]
      invariant forall x :: x in window ==> x in ToMap(constants)
    {
      assert window[j] in window;
      t := t + [ToMap(constants)[window[j]]];
      j := j + 1;
    }
  }

  /** The loop's current argument for a window ending at start: it walks away from start by q per step of i. */
  function CurrentArgumentOf(start: int, e: Eureka.EurekaTuple, argType: Type): (a: CurrentArgument)
    requires |e.tuple| > 0
  {
    CurrentArgument(start, if e.operator == StepAdd then Sub else Add, |e.tuple| - 1, e.stepSize, argType)
  }

  /** The rewriting context of a branch. */
  function ContextFor(f: MatchFunction, e: Eureka.EurekaTuple, arg: CurrentArgument, reading: ParameterReading): RewriteContext {
    RewriteContext(
      f.name, f.recursionParameter, e.stepSize, |e.tuple|,
      if reading == KeepParameter then Ident(f.recursionParameter) else Paren(ArgumentExpr(arg)))
  }

  /** What `create_loop` builds for one seed window. */
  function BranchFor(f: MatchFunction, e: Eureka.EurekaTuple, window: seq<int>, reading: ParameterReading): Result<Branch, Error>
    requires e.stepSize > 0 && |window| == |e.tuple| > 0
    requires forall x :: x in window ==> x in ToMap(f.constants)
  {
    var start := window[|window| - 1];
    var arg := CurrentArgumentOf(start, e, f.argType);
    var body :- Rewrite(f.recursiveExpr, ContextFor(f, e, arg, reading));
    Ok(Branch(
      BranchCondition(window, e), TmpTuple(f.constants, window), |e.tuple| - 1, |e.tuple|,
      arg, Arms(f.constants, start, e.stepSize, e.operator), body))
  }

  /** `create_loop`: buffer, counter, correction arms and the rewritten body, for one seed window. */
  method CreateLoop(f: MatchFunction, e: Eureka.EurekaTuple, window: seq<int>, reading: ParameterReading) returns (r: Result<Branch, Error>)
    requires e.stepSize > 0 && |window| == |e.tuple| > 0
    requires forall x :: x in window ==> x in ToMap(f.constants)
    ensures r == BranchFor(f, e, window, reading)
  {
    var tuple := CreateTmpTuple(f.constants, window);
    var start := window[|window| - 1];
    var arms := CreateArms(f.constants, start, e.stepSize, e.operator);
    var arg := CurrentArgumentOf(start, e, f.argType);
    var body := Rewrite(f.recursiveExpr, ContextFor(f, e, arg, reading));
    if body.Err? {
      return Err(body.error);
    }
    r := Ok(Branch(BranchCondition(window, e), tuple, |e.tuple| - 1, |e.tuple|, arg, arms, body.value));
  }

  /** A branch starts at its window's last element, with the window's constants as buffer and the counter at L - 1. */
  lemma BranchShape(f: MatchFunction, e: Eureka.EurekaTuple, window: seq<int>, reading: ParameterReading)
    requires e.stepSize > 0 && |window| == |e.tuple| > 0
    requires forall x :: x in window ==> x in ToMap(f.constants)
    requires BranchFor(f, e, window, reading).Ok?
    ensures var b := BranchFor(f, e, window, reading).value;
      b.guard.start == window[|window| - 1] && b.guard.operator == e.operator && b.guard.stepSize == e.stepSize &&
      b.argument.start == window[|window| - 1] && b.argument.stepSize == e.stepSize &&
      b.startIndex == |window| - 1 && b.tupleLen == |window| && |b.tuple| == |window| &&
      (forall j :: 0 <= j < |window| ==> b.tuple[j] == ToMap(f.constants)[window[j]]) &&
      (b.argument.stepOp == Add <==> e.operator == StepSub) && (b.argument.stepOp == Sub <==> e.operator == StepAdd)
  {
  }

  // ---------------------------------------------------------------------------
  // construct_iterative_stmts

  /** Every seed is a non-empty window of constant keys as long as the tuple. */
  predicate SeedWindows(constants: BTreeMap, seeds: seq<seq<int>>, len: nat) {
    forall k :: 0 <= k < |seeds| ==> |seeds[k]| == len > 0 && forall x :: x in seeds[k] ==> x in ToMap(constants)
  }

  lemma KeyInMap(constants: BTreeMap, x: int)
    requires x in Keys(constants)
    ensures x in ToMap(constants)
  {
    var i :| 0 <= i < |constants| && Keys(constants)[i] == x;
    assert constants[i].0 in KeySet(constants);
  }

  /** The members of a full window are constant keys. */
  lemma ProgressionInMap(constants: BTreeMap, c: int, len: nat, q: nat)
    requires Seeds.IsFullWindow(Keys(constants), c, len, q)
    ensures forall x :: x in Seeds.Progression(c, len, q) ==> x in ToMap(constants)
  {
    var p := Seeds.Progression(c, len, q);
    forall x | x in p ensures x in ToMap(constants) {
      var j :| 0 <= j < len && p[j] == x;
      assert x == c + j * q;
      KeyInMap(constants, x);
    }
  }

  /** A reversed sequence has the same members. */
  lemma ReversedMembers(p: seq<int>)
    ensures forall x :: x in Seeds.Reversed(p) ==> x in p
  {
    var r := Seeds.Reversed(p);
    forall x | x in r ensures x in p {
      var j :| 0 <= j < |r| && r[j] == x;
      assert x == p[|p| - 1 - j];
    }
  }

  /** A window whose members are all constant keys, read forwards or backwards. */
  lemma WindowInMap(constants: BTreeMap, c: int, len: nat, q: nat, w: seq<int>)
    requires Seeds.IsFullWindow(Keys(constants), c, len, q)
    requires w == Seeds.Progression(c, len, q) || w == Seeds.Reversed(Seeds.Progression(c, len, q))
    ensures forall x :: x in w ==> x in ToMap(constants)
  {
    ProgressionInMap(constants, c, len, q);
    ReversedMembers(Seeds.Progression(c, len, q));
  }

  lemma SeedIsKeyWindow(constants: BTreeMap, tuple: set<int>, q: nat, op: StepOperator, seeds: seq<seq<int>>, k: nat)
    requires q >= 1 && Seeds.SeedsFor(constants, tuple, q, op) == Ok(seeds) && k < |seeds|
    ensures |seeds[k]| == |tuple| > 0 && forall x :: x in seeds[k] ==> x in ToMap(constants)
  {
    if op == StepSub {
      Seeds.SubSeedsAreWindows(constants, tuple, q, seeds, k);
      WindowInMap(constants, seeds[k][0], |tuple|, q, seeds[k]);
    } else {
      Seeds.AddSeedsAreWindows(constants, tuple, q, seeds, k);
      WindowInMap(constants, seeds[k][|tuple| - 1], |tuple|, q, seeds[k]);
    }
  }

  lemma SeedsAreKeyWindows(constants: BTreeMap, tuple: set<int>, q: nat, op: StepOperator, seeds: seq<seq<int>>)
    requires q >= 1 && Seeds.SeedsFor(constants, tuple, q, op) == Ok(seeds)
    ensures SeedWindows(constants, seeds, |tuple|)
  {
    forall k | 0 <= k < |seeds|
      ensures |seeds[k]| == |tuple| > 0 && forall x :: x in seeds[k] ==> x in ToMap(constants)
    {
      SeedIsKeyWindow(constants, tuple, q, op, seeds, k);
    }
  }

  /** The branches of the seed windows, in seed order; the first failing rewrite aborts. */
  function BranchesFor(f: MatchFunction, e: Eureka.EurekaTuple, seeds: seq<seq<int>>, reading: ParameterReading): Result<seq<Branch>, Error>
    requires e.stepSize > 0 && SeedWindows(f.constants, seeds, |e.tuple|)
  {
    if seeds == [] then Ok([])
    else
      var b :- BranchFor(f, e, seeds[0], reading);
      var rest :- BranchesFor(f, e, seeds[1..], reading);
      Ok([b] + rest)
  }

  /** Branches for the seed windows, one per window and in the same order. */
  lemma {:induction false} BranchesForShape(f: MatchFunction, e: Eureka.EurekaTuple, seeds: seq<seq<int>>, reading: ParameterReading)
    requires e.stepSize > 0 && SeedWindows(f.constants, seeds, |e.tuple|) && BranchesFor(f, e, seeds, reading).Ok?
    ensures |BranchesFor(f, e, seeds, reading).value| == |seeds|
    ensures forall k :: 0 <= k < |seeds| ==>
      BranchFor(f, e, seeds[k], reading).Ok? && BranchesFor(f, e, seeds, reading).value[k] == BranchFor(f, e, seeds[k], reading).value
  {
    if seeds != [] {
      BranchesForShape(f, e, seeds[1..], reading);
      assert forall k :: 1 <= k < |seeds| ==> seeds[1..][k - 1] == seeds[k];
    }
  }

  /** The iterative body for an eureka tuple: the size check, the fast paths, one branch per seed window. */
  function Synthesize(f: MatchFunction, e: Eureka.EurekaTuple, reading: ParameterReading): Result<Plan, Error>
    requires e.stepSize > 0
  {
    if |e.tuple| > |f.constants| then Err(InsufficientConstants)
    else
      var seeds :- Seeds.SeedsFor(f.constants, e.tuple, e.stepSize, e.operator);
      SeedsAreKeyWindows(f.constants, e.tuple, e.stepSize, e.operator, seeds);
      var branches :- BranchesFor(f, e, seeds, reading);
      Ok(Plan(f.recursionParameter, ConstantChecks(f.constants), branches))
  }

  /** `construct_iterative_stmts`, as the source writes it: the eureka tuple of the formula, then its synthesis. */
  function IterativeBody(f: MatchFunction, reading: ParameterReading): Result<Plan, Error> {
    var e :- Eureka.EurekaFor(f.recursiveExpr, f.name, f.recursionParameter);
    Eureka.EurekaStepPositive(f.recursiveExpr, f.name, f.recursionParameter);
    Synthesize(f, e, reading)
  }

  /**
   * The abort conditions of the synthesis, in order: too few constants for
   * the eureka tuple, a non-contiguous tuple, no seed window; a rewrite
   * failure aborts every branch alike, so a plan has a branch per seed.
   */
  lemma SynthesizeOutcome(f: MatchFunction, e: Eureka.EurekaTuple, reading: ParameterReading)
    requires e.stepSize > 0
    ensures |e.tuple| > |f.constants| ==> Synthesize(f, e, reading) == Err(InsufficientConstants)
    ensures |e.tuple| <= |f.constants| && Seeds.SeedsFor(f.constants, e.tuple, e.stepSize, e.operator).Err? ==>
      Synthesize(f, e, reading) == Err(Seeds.SeedsFor(f.constants, e.tuple, e.stepSize, e.operator).error)
    ensures Synthesize(f, e, reading).Ok? ==>
      |e.tuple| <= |f.constants| && Seeds.SeedsFor(f.constants, e.tuple, e.stepSize, e.operator).Ok? &&
      Synthesize(f, e, reading).value.parameter == f.recursionParameter &&
      Synthesize(f, e, reading).value.checks == ConstantChecks(f.constants) &&
      |Synthesize(f, e, reading).value.branches| == |Seeds.SeedsFor(f.constants, e.tuple, e.stepSize, e.operator).value| > 0
  {
    if Synthesize(f, e, reading).Ok? {
      var seeds := Seeds.SeedsFor(f.constants, e.tuple, e.stepSize, e.operator).value;
      SeedsAreKeyWindows(f.constants, e.tuple, e.stepSize, e.operator, seeds);
      Seeds.SeedsShape(f.constants, e.tuple, e.stepSize, e.operator, seeds);
      BranchesForShape(f, e, seeds, reading);
    }
  }

  /** One more branch: an error ends the whole, a branch joins the ones before it. */
  lemma BranchesStep(f: MatchFunction, e: Eureka.EurekaTuple, ws: seq<seq<int>>, k: nat, reading: ParameterReading)
    requires e.stepSize > 0 && SeedWindows(f.constants, ws, |e.tuple|) && k < |ws|
    ensures BranchesFor(f, e, ws[k..], reading) == Prepend2(BranchFor(f, e, ws[k], reading), BranchesFor(f, e, ws[k + 1..], reading))
  {
    assert ws[k..][0] == ws[k] && ws[k..][1..] == ws[k + 1..];
  }

  /** The body after the eureka tuple is known: size check, fast paths, then one `create_loop` per seed. */
  method AssembleBody(f: MatchFunction, e: Eureka.EurekaTuple, reading: ParameterReading) returns (r: Result<Plan, Error>)
    requires e.stepSize > 0
    ensures r == Synthesize(f, e, reading)
  {
    if |e.tuple| > |f.constants| {
      return Err(InsufficientConstants);
    }
    var seeds := Seeds.GetInitialConstants(f.constants, e.tuple, e.stepSize, e.operator);
    if seeds.Err? {
      return Err(seeds.error);
    }
    var ws := seeds.value;
    SeedsAreKeyWindows(f.constants, e.tuple, e.stepSize, e.operator, ws);
    var branches: seq<Branch> := [];
    var k := 0;
    assert ws[0..] == ws;
    PrependNone(BranchesFor(f, e, ws, reading));
    while k < |ws|
      invariant 0 <= k <= |ws|
      invariant BranchesFor(f, e, ws, reading) == Prepend(branches, BranchesFor(f, e, ws[k..], reading))
    {
      var b := CreateLoop(f, e, ws[k], reading);
      BranchesStep(f, e, ws, k, reading);
      if b.Err? {
        return Err(b.error);
      }
      PrependOne(branches, b.value, BranchesFor(f, e, ws[k + 1..], reading));
      branches := branches + [b.value];
      k := k + 1;
    }
    assert ws[k..] == [];
    assert branches + [] == branches;
    return Ok(Plan(f.recursionParameter, ConstantChecks(f.constants), branches));
  }

  // ---------------------------------------------------------------------------
  // AbstractRecursiveMatchFunction

  /** `create_from`'s descriptor, with its two aborts. */
  function MatchFunctionOf(f: OptimizableRecursiveFunction): Result<MatchFunction, Error> {
    if |f.inputArgs| != 1 then Err(NotExactlyOneArgument)
    else if !f.inputArgs[0].pat.PatIdent? then Err(ParameterNotIdent)
    else Ok(MatchFunction(f.name, f.inputArgs[0].pat.ident, BuildConstants(f.constants), f.recursiveFormula, f.inputArgs[0].ty))
  }

  /**
   * The descriptor of a function in match form, with the eureka tuple
   * cached after its first computation.
   */
  class AbstractRecursiveMatchFunction {
    const name: string
    const recursionParameter: string
    const constants: BTreeMap
    const recursiveExpr: Expr
    const returnType: Type
    const argType: Type
    var eurekaTuple: Option<Eureka.EurekaTuple>

    function Parts(): MatchFunction {
      MatchFunction(name, recursionParameter, constants, recursiveExpr, argType)
    }

    /** The cache, once filled, holds the eureka tuple of the formula. */
    predicate Valid()
      reads this
    {
      eurekaTuple.Some? ==> Eureka.EurekaFor(recursiveExpr, name, recursionParameter) == Ok(eurekaTuple.value)
    }

    constructor (m: MatchFunction, returnType: Type)
      ensures Parts() == m && this.returnType == returnType && eurekaTuple == None && Valid()
    {
      name := m.name;
      recursionParameter := m.recursionParameter;
      constants := m.constants;
      recursiveExpr := m.recursiveExpr;
      this.returnType := returnType;
      argType := m.argType;
      eurekaTuple := None;
    }

    /** `create_from`: exactly one parameter, bound by a plain identifier; the arms become the constant map. */
    static method CreateFrom(f: OptimizableRecursiveFunction) returns (r: Result<AbstractRecursiveMatchFunction, Error>)
      ensures MatchFunctionOf(f).Err? ==> r == Err(MatchFunctionOf(f).error)
      ensures MatchFunctionOf(f).Ok? ==> r.Ok? && fresh(r.value) && r.value.Valid()
      ensures MatchFunctionOf(f).Ok? ==> r.value.Parts() == MatchFunctionOf(f).value && r.value.returnType == f.output
      ensures MatchFunctionOf(f).Ok? ==> r.value.eurekaTuple == None
    {
      if |f.inputArgs| != 1 {
        return Err(NotExactlyOneArgument);
      }
      if !f.inputArgs[0].pat.PatIdent? {
        return Err(ParameterNotIdent);
      }
      var constants := ConvertConstants(f.constants);
      var m := MatchFunction(f.name, f.inputArgs[0].pat.ident, constants, f.recursiveFormula, f.inputArgs[0].ty);
      var a := new AbstractRecursiveMatchFunction(m, f.output);
      return Ok(a);
    }

    /**
     * `construct_iterative_stmts`: fills the cache on first use, then
     * builds the iterative body; the plan does not depend on whether the
     * cache was already filled.
     */
    method ConstructIterativeStmts() returns (r: Result<Plan, Error>)
      requires Valid()
      modifies this
      ensures Valid() && r == IterativeBody(Parts(), KeepParameter)
      ensures eurekaTuple == (if old(eurekaTuple).None? && Eureka.EurekaFor(recursiveExpr, name, recursionParameter).Ok?
        then Some(Eureka.EurekaFor(recursiveExpr, name, recursionParameter).value) else old(eurekaTuple))
    {
      if eurekaTuple.None? {
        var t := Eureka.ConstructEurekaTuple(recursiveExpr, name, recursionParameter);
        if t.Err? {
          return Err(t.error);
        }
        eurekaTuple := Some(t.value);
      }
      var e := eurekaTuple.value;
      Eureka.EurekaStepPositive(recursiveExpr, name, recursionParameter);
      r := AssembleBody(Parts(), e, KeepParameter);
    }
  }

  /** A first branch in front of the rest's outcome. */
  function Prepend2(b: Result<Branch, Error>, rest: Result<seq<Branch>, Error>): Result<seq<Branch>, Error> {
    match b
    case Err(e) => Err(e)
    case Ok(x) => Prepend([x], rest)
  }

  lemma PrependNone(rest: Result<seq<Branch>, Error>)
    ensures Prepend([], rest) == rest
  {
    if rest.Ok? {
      assert [] + rest.value == rest.value;
    }
  }

  lemma PrependOne(bs: seq<Branch>, b: Branch, rest: Result<seq<Branch>, Error>)
    ensures Prepend(bs, Prepend2(Ok(b), rest)) == Prepend(bs + [b], rest)
  {
    if rest.Ok? {
      assert bs + ([b] + rest.value) == (bs + [b]) + rest.value;
    }
  }

  /** Branches found so far in front of the rest's outcome. */
  function Prepend(bs: seq<Branch>, rest: Result<seq<Branch>, Error>): Result<seq<Branch>, Error> {
    match rest
    case Ok(r) => Ok(bs + r)
    case Err(e) => Err(e)
  }
}
