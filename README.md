# optimize_recursion, modelled in Dafny

`#[optimize_recursion]` is a Rust attribute macro. It rewrites a recursive
function written as a single `match` on its only parameter: literal arms give
constants, and one wildcard arm gives a recurrence such as
`_ => f(n - 1) + f(n - 2)`. The macro replaces this body with an iterative one:

1. One fast path per constant: `if n == key { return value; }`.
2. One guarded block per seed window. A seed window is a run of constants
   spaced by the common step size q. Each block keeps the last L values in a
   ring buffer `tuple` and runs a `while` loop from the window to `n`.
3. A final `panic!`.

This project models the two core files:

- `src/ast/optimizable_function.rs`: reading the annotated function;
- `src/ast/abstract_recursive_match.rs`: synthesising the iterative body.

The model covers every stage of the second file:

- **Call analysis.** It finds the self-calls, parses each argument into a
  step and an operator, and divides the steps by their gcd.
- **Eureka tuple.** It computes the set {1, …, L} of buffer offsets that the
  loop needs.
- **Seed windows.** It chooses the seed windows, keeping one per residue
  class modulo q.
- **Block construction.** It builds the guards, the correction arms, the
  initial buffer and the rewritten recurrence.

The emitted code is given a meaning as well: `Generated.Run` and
`Generated.RunBranch` run the plan with an array buffer and `while` loops.
The original function is given a meaning in two ways:

- `Reference.NaiveAt` evaluates the recursion as the macro reads it. The
  constants are looked up in the map that `convert_constants` builds. In that
  map a later arm overrides an earlier one, arm order does not matter
  otherwise, and guards are gone.
- `WrittenMatch.WrittenAt` evaluates it as Rust runs the `match`. The arms are
  tried from the top, the first arm whose pattern admits the argument wins, and
  a guarded arm has no modelled meaning.

The two readings agree on a plain match: no guard, the wildcard as the last
arm, and no key written twice. On any other match the macro can change the
function. The main theorems are:

- `Reference.CorrectedBodyAgrees` / `Reference.AsWrittenBodyAgrees`: wherever
  the recursion as the macro reads it terminates, the emitted body returns the
  same value or reaches its `panic!`.
- `WrittenMatch.WrittenBodyAgrees`: the same, against the function as Rust
  runs it, for every match that the corrected reading
  `WrittenMatch.CheckedMatchParts` accepts.
- `Reference.CorrectedBodyValueIsRecursive` /
  `Reference.AsWrittenBodyValueIsRecursive` /
  `WrittenMatch.WrittenBodyValueIsWritten`: the converse, for a formula in the
  fragment the reference evaluates. A value the emitted body returns is the
  value the recursion reaches. `Reference.CorrectedBodyExactly` states both
  directions together.
- The lemmas of `Synthesis`: what the macro builds, including every abort.

The programs of the test file are worked through as instances:
fib_match, foo, evil, two_starts, another, another2.

- For fib_match and foo, the synthesised plan is proved equal to
  `fib_result` and `foo_result`. For evil, it is proved equal to `evil_result`
  plus the fast path for 99, which the macro also emits.
- For two_starts, another and another2, the tests give values but no expected
  program. Their plans are stated and proved, and their values are proved to
  agree with the recursion.
- The test values are proved.

Modules follow the program: `Syntax` (the `syn` subset), `Optimizable`,
`RecursiveCalls`, `Eureka`, `Seeds`, `Synthesis` (with the class
`AbstractRecursiveMatchFunction`), `Plans` and `Generated` (the emitted code),
`Reference` (the recursive meaning as the macro reads it) and `WrittenMatch`
(the meaning of the `match` as written). Helper modules are `Wrappers`,
`SortedMap` (`BTreeMap` as a sorted entry list) and `Numeric` (gcd). One
module covers each example, plus `Examples` for shared instance lemmas.

Aborts (`abort!`) are modelled as `Err` values of `Syntax.Error`, one
constructor per abort site. Three constructors match no `abort!`:
`NoFixedPoint` ends the model's bounded search for the eureka tuple's fixed
point, and `GuardedArm` and `UnreachableArm` are raised only by the corrected
reading of the match, `WrittenMatch.CheckedMatchParts`.

## Model

| member | source | states |
|---|---|---|
| Syntax.TryGetIntLit | src/ast/optimizable_function.rs:152-161 | Some exactly for an integer literal expression, with that literal's value |
| Syntax.TryGetIdent | src/ast/optimizable_function.rs:163-169 | Some exactly for a path with at least one segment, holding its first segment |
| Optimizable.GetIntLit | src/ast/optimizable_function.rs:144-150 | Ok exactly when the expression is an integer literal, whose value it is; otherwise the "must be an integer literal" abort |
| Optimizable.ReadMatch | src/ast/optimizable_function.rs:99-133 | the arm loop computes `MatchParts`, the reading of the body as (constants, formula) or its abort |
| Optimizable.ScanAccepts | src/ast/optimizable_function.rs:105-121 | when every arm is a literal or wildcard arm and there is at most one wildcard, the constants are the literal arms in order and the formula is the wildcard body |
| Optimizable.ScanOkShape | src/ast/optimizable_function.rs:105-121 | a successful scan implies every arm is acceptable and at most one wildcard was seen |
| Optimizable.ScanRejects | src/ast/optimizable_function.rs:106-119 | the first offending arm decides the abort: a second wildcard, a non-integer literal, or another pattern |
| Optimizable.ReadMatchExactly | src/ast/optimizable_function.rs:99-133 | reading succeeds if and only if the body is one `match` of literal arms with exactly one wildcard; the constants are then the literal pairs in arm order and the formula is the wildcard body |
| Optimizable.ReadMatchNoWildcard | src/ast/optimizable_function.rs:128-132 | a match of literal arms without a wildcard aborts with the missing-wildcard error |
| Optimizable.ScanIgnoresGuards | src/ast/optimizable_function.rs:105-121 | the arm loop returns the same constants, formula or abort whether or not the arms carry guards |
| Optimizable.MatchPartsIgnoresGuards | src/ast/optimizable_function.rs:99-133 | `read_match` reads a match with guards exactly as the same match without them |
| Optimizable.TypedArgs | src/ast/optimizable_function.rs:41-52 | with no receiver, the collected arguments are the typed inputs, one for one and in order |
| Optimizable.CreateFrom | src/ast/optimizable_function.rs:40-68 | the method computes the descriptor or the first abort, in the source's order |
| Optimizable.DescriptorShape | src/ast/optimizable_function.rs:40-68 | the aborts, in order: a receiver, no inputs, no return type, a body rejected by read_match; on success the name, return type, typed inputs, constants and formula come from the signature and the body |
| Optimizable.Optimize | src/ast/optimizable_function.rs:22-27 | only the block changes: attributes, visibility and signature are kept, and the block is the synthesised body (or its abort) |
| SortedMap.InsertKeys | src/ast/abstract_recursive_match.rs:477-491 | inserting into the constants map adds exactly the key |
| SortedMap.InsertMap | src/ast/abstract_recursive_match.rs:477-491 | the sorted entry list after an insert denotes the old map updated at the key, so a later arm overrides an earlier one |
| Synthesis.ConvertConstants | src/ast/abstract_recursive_match.rs:477-491 | the insert loop builds the constants map of the literal pairs |
| Synthesis.ConstantsKeys | src/ast/abstract_recursive_match.rs:477-491 | the keys of the map are exactly the keys of the literal arms |
| Synthesis.ConstantsLastWins | src/ast/abstract_recursive_match.rs:477-491 | for a duplicated key, the value of the last arm with that key is kept |
| RecursiveCalls.CallNameQualified | src/ast/abstract_recursive_match.rs:543-552 | a callee path names its last segment, whatever path qualifies it |
| RecursiveCalls.CallNameRefused | src/ast/abstract_recursive_match.rs:543-552 | a callee that is not a path with a segment aborts with the call-convention error |
| RecursiveCalls.FindCallsCorrect | src/ast/abstract_recursive_match.rs:494-539 | find_calls fails exactly on an unsupported node; otherwise it returns exactly the calls reachable without entering call arguments |
| RecursiveCalls.AcceptedCallShapes | src/ast/abstract_recursive_match.rs:556-589 | an argument is accepted if and only if it is `p + k`, `k + p` or `p - k` with an integer literal k > 0; the call then has step k and common step size 1 |
| RecursiveCalls.RejectedCallShapes | src/ast/abstract_recursive_match.rs:556-599 | one abort per rejected shape: other operator, `k - p`, no literal, wrong parameter, step 0 |
| RecursiveCalls.InsertBySteps | src/ast/abstract_recursive_match.rs:173 | insertion keeps the list sorted by steps and adds exactly the one call |
| RecursiveCalls.SortBySteps | src/ast/abstract_recursive_match.rs:173 | the result is sorted by steps and is a permutation of the input |
| RecursiveCalls.CollectCalls | src/ast/abstract_recursive_match.rs:146-154 | the nested loop yields one record per argument of every self-call, or the first argument's abort |
| RecursiveCalls.CheckOperators | src/ast/abstract_recursive_match.rs:159-164 | true if and only if every call has the first call's operator |
| RecursiveCalls.CommonStepSize | src/ast/abstract_recursive_match.rs:165-168 | the loop computes the gcd fold of the steps from the first step |
| RecursiveCalls.NormalizeSteps | src/ast/abstract_recursive_match.rs:169-172 | every step is divided by the gcd and every common step size is set to it |
| RecursiveCalls.FindRecursiveCalls | src/ast/abstract_recursive_match.rs:141-177 | the method computes the analysis `AnalyseCalls` of the formula |
| RecursiveCalls.AnalyseCallsErrors | src/ast/abstract_recursive_match.rs:141-164 | the aborts in order: an argument error, no self-call, mixed operators; success exactly when there is a call and all operators agree |
| RecursiveCalls.AnalyseCallsProperties | src/ast/abstract_recursive_match.rs:159-173 | on success: one common operator; the step size is the greatest common divisor of the raw steps; the calls are a sorted permutation of the normalised ones with positive, coprime steps |
| Numeric.GcdDivides | src/ast/abstract_recursive_match.rs:165-168 | Euclid's gcd divides both arguments |
| Numeric.GcdGreatest | src/ast/abstract_recursive_match.rs:165-168 | every common divisor divides the gcd |
| Eureka.InsertSteps | src/ast/abstract_recursive_match.rs:125-127 | the loop adds exactly the set of normalised steps |
| Eureka.ConstructEurekaTuple | src/ast/abstract_recursive_match.rs:120-138 | the method computes `EurekaFor`: the fixed point of the drop-0, add-steps, shift-by-minimum round, shifted by one |
| Eureka.EurekaStepWindow | src/ast/abstract_recursive_match.rs:124-131 | a round keeps the set inside {0, …, M - 1}, where M is the largest step |
| Eureka.FixedPointShape | src/ast/abstract_recursive_match.rs:124-133 | for coprime positive steps the only fixed point inside that window is {0, …, M - 1} |
| Eureka.RangeIsFixedPoint | src/ast/abstract_recursive_match.rs:124-133 | {0, …, M - 1} is a fixed point of the round |
| Eureka.IterateResult | src/ast/abstract_recursive_match.rs:120-138 | a reached fixed point always yields the tuple {1, …, M} |
| Eureka.EurekaTupleContiguous | src/ast/abstract_recursive_match.rs:120-138 | the successful tuple is {1, …, L}, where L is the largest normalised step; it keeps the operator and the gcd; so the contiguity abort at line 287 is unreachable |
| Eureka.FibonacciTuple | src/ast/abstract_recursive_match.rs:120-138 | steps {1, 2} give the tuple {1, 2} |
| Seeds.FindWindow | src/ast/abstract_recursive_match.rs:289-303 | the inner loop succeeds if and only if the whole window from the start is made of constant keys, and then returns that window |
| Seeds.CollectCandidates | src/ast/abstract_recursive_match.rs:289-303 | the first loop collects every full window, in ascending order of its start |
| Seeds.IgnoreClass | src/ast/abstract_recursive_match.rs:309-332 | the inner loop adds to `ignore` exactly the windows whose start shares the residue class of window i |
| Seeds.KeepFirstOfClass | src/ast/abstract_recursive_match.rs:309-332 | the deduplication loop keeps the first window of each residue class |
| Seeds.GetInitialConstants | src/ast/abstract_recursive_match.rs:283-344 | the method computes `SeedsFor`, including its two aborts |
| Seeds.SeedsShape | src/ast/abstract_recursive_match.rs:283-344 | seeds exist only for a contiguous tuple; StepSub keeps windows in ascending order, StepAdd keeps reversed windows chosen from the top |
| Seeds.SubSeedsAreWindows | src/ast/abstract_recursive_match.rs:309-320 | each StepSub seed is the ascending window of a qualifying start |
| Seeds.SubSeedsDistinct | src/ast/abstract_recursive_match.rs:309-320 | no two StepSub seeds start in the same residue class |
| Seeds.SubSeedsLowest | src/ast/abstract_recursive_match.rs:309-320 | every qualifying start has a StepSub seed of its class that starts no higher |
| Seeds.SubSeedIsLowest | src/ast/abstract_recursive_match.rs:309-320 | each StepSub seed starts at the lowest qualifying start of its class |
| Seeds.AddSeedsAreWindows | src/ast/abstract_recursive_match.rs:321-332 | each StepAdd seed is the descending window of a qualifying start |
| Seeds.AddSeedsDistinct | src/ast/abstract_recursive_match.rs:321-332 | no two StepAdd seeds lie in the same residue class |
| Seeds.AddSeedsHighest | src/ast/abstract_recursive_match.rs:321-332 | every qualifying start has a StepAdd seed of its class that ends no lower |
| Seeds.AddSeedIsHighest | src/ast/abstract_recursive_match.rs:321-332 | each StepAdd seed ends at the highest qualifying start of its class |
| Seeds.NoSeedWindowExactly | src/ast/abstract_recursive_match.rs:335-340 | the "could not find constants" abort happens if and only if the tuple is contiguous but no start has a full window |
| Synthesis.ConstantChecks | src/ast/abstract_recursive_match.rs:180-193 | one fast path per constant |
| Synthesis.ConstantChecksExactly | src/ast/abstract_recursive_match.rs:180-193 | the fast paths are exactly the constant pairs, in ascending key order |
| Synthesis.GuardMeaning | src/ast/abstract_recursive_match.rs:98-117 | the guard admits n if and only if n is a whole number of steps of q from the start, in the loop's direction |
| Synthesis.GuardClass | src/ast/abstract_recursive_match.rs:98-117 | an admitted n lies in the start's residue class |
| Synthesis.GuardsExclusive | src/ast/abstract_recursive_match.rs:98-117 | no argument is admitted by two blocks |
| Synthesis.CreateArms | src/ast/abstract_recursive_match.rs:231-251 | the arm loop computes `Arms` |
| Synthesis.ArmsExactly | src/ast/abstract_recursive_match.rs:231-251 | the correction arms are exactly the constants in the block's residue class strictly beyond its start, in ascending key order |
| Synthesis.RewritePlainIdentity | src/ast/abstract_recursive_match.rs:347-452 | an expression without self-calls is rewritten to itself |
| Synthesis.RewriteLeavesNoSelfCall | src/ast/abstract_recursive_match.rs:347-452 | a successful rewrite leaves no self-call |
| Synthesis.RewriteIdempotent | src/ast/abstract_recursive_match.rs:347-452 | rewriting a rewritten expression does not change it |
| Synthesis.RewriteSelfCall | src/ast/abstract_recursive_match.rs:349-365 | a self-call must have one binary argument; `f(p ± k)` becomes `tuple[(i - k / q) % L]` |
| Synthesis.RewriteUnsupported | src/ast/abstract_recursive_match.rs:448-450 | a `match` or another unsupported node aborts the rewrite |
| Synthesis.RewriteSeqElementwise | src/ast/abstract_recursive_match.rs:456-464 | the elements are rewritten one by one and in order: success exactly when every element succeeds, with the i-th result the i-th element's rewriting; otherwise the first failing element's error |
| Synthesis.CreateTmpTuple | src/ast/abstract_recursive_match.rs:196-212 | the initial buffer holds the constant of each window member, in order |
| Synthesis.CreateLoop | src/ast/abstract_recursive_match.rs:215-277 | the method computes `BranchFor` for the window |
| Synthesis.BranchShape | src/ast/abstract_recursive_match.rs:215-277 | a block's guard and current argument start at the window's last member and step by q; the counter starts at L - 1; the buffer holds the window's constants; the operator is `+` for StepSub and `-` for StepAdd |
| Synthesis.SeedsAreKeyWindows | src/ast/abstract_recursive_match.rs:283-344 | every seed is a window of L constant keys |
| Synthesis.BranchesForShape | src/ast/abstract_recursive_match.rs:77-89 | one block per seed, each built from its own window |
| Synthesis.SynthesizeOutcome | src/ast/abstract_recursive_match.rs:64-95 | the aborts in order: too few constants, seed errors; on success the body has the fast paths of every constant and one block per seed |
| Synthesis.AssembleBody | src/ast/abstract_recursive_match.rs:64-95 | the method computes `Synthesize` |
| Synthesis.AbstractRecursiveMatchFunction.constructor | src/ast/abstract_recursive_match.rs:39-61 | the object holds the function's parts, with an empty eureka cache |
| Synthesis.AbstractRecursiveMatchFunction.CreateFrom | src/ast/abstract_recursive_match.rs:39-61 | it aborts unless there is exactly one argument and its pattern is an identifier; otherwise the object holds name, parameter, converted constants and formula, with an empty cache |
| Synthesis.AbstractRecursiveMatchFunction.ConstructIterativeStmts | src/ast/abstract_recursive_match.rs:64-95 | the body is the synthesis of the function; the eureka cache is filled once and then keeps the formula's tuple |
| Generated.ArgumentExprValue | src/ast/abstract_recursive_match.rs:252-262 | the emitted current-argument expression evaluates to `start ± (i - (L - 1)) * q` |
| Generated.TupleReadValue | src/ast/abstract_recursive_match.rs:467-473 | the emitted read `tuple[(i - k) % L]` evaluates to buffer slot (i - k) mod L |
| Generated.LoopStopsAt | src/ast/abstract_recursive_match.rs:264-269 | under its guard, the `while` condition first fails after exactly \|n - start\| / q rounds |
| Generated.RunBranch | src/ast/abstract_recursive_match.rs:215-277 | the array buffer and the `while` loop compute `BranchOutcome` |
| Generated.Run | src/ast/abstract_recursive_match.rs:64-95 | the emitted statements in order (fast paths, guarded blocks, panic) compute `RunPlan` |
| Reference.IterativeAgreesWithRecursive | src/ast/abstract_recursive_match.rs:64-95 | where the recursion as the macro reads it (constants from `convert_constants`' map) reaches a value: a constant key returns it; an argument admitted by a block returns it; any other argument panics (body reading the current argument) |
| Reference.SynthesisReadingIrrelevant | src/ast/abstract_recursive_match.rs:416-418 | when the parameter occurs only inside self-call arguments, the plan as written equals the corrected plan |
| Reference.CorrectedBodyAgrees | src/ast/abstract_recursive_match.rs:64-95 | the corrected emitted body agrees with the recursive function as the macro reads it on every terminating argument, or reaches its panic |
| Reference.RoundsValue | src/ast/abstract_recursive_match.rs:215-277 | on the fragment every round of a block yields a value, and after `left` rounds the returned slot holds the recursion's value at the argument reached |
| Reference.BranchValue | src/ast/abstract_recursive_match.rs:215-277 | under its guard, a faithful seeded block returns the recursion's value at n, reached within RoundsTo unfoldings |
| Reference.IterativeValueIsRecursive | src/ast/abstract_recursive_match.rs:64-95 | on the fragment, a value the synthesized body returns at n, by fast path or block, is the value the recursion reaches at n |
| Reference.CorrectedBodyValueIsRecursive | src/ast/abstract_recursive_match.rs:64-95 | the corrected emitted body returns a value only where the recursion as the macro reads it reaches that value |
| Reference.CorrectedBodyExactly | src/ast/abstract_recursive_match.rs:64-95 | on the fragment, the corrected body returns v at n exactly when the recursion reaches v at n and n is a key or some block's guard admits it |
| Reference.AsWrittenBodyAgrees | src/ast/abstract_recursive_match.rs:64-95 | the emitted body as written agrees likewise whenever the parameter occurs only inside self-call arguments |
| Reference.AsWrittenBodyValueIsRecursive | src/ast/abstract_recursive_match.rs:64-95 | the converse for the body as written, where the parameter occurs only inside self-call arguments |
| WrittenMatch.PlainChoice | src/ast/abstract_recursive_match.rs:477-491 | on a plain match, the arm Rust runs for m is the constant the map holds for m, and the wildcard when m is not a key |
| WrittenMatch.PlainTable | src/ast/abstract_recursive_match.rs:477-491 | on a plain match, the map's keys are exactly the literal arms' keys, each with its own arm's value |
| WrittenMatch.PlainFirstMatch | src/ast/optimizable_function.rs:105-121 | on a plain match, Rust runs the literal arm naming m, or the wildcard when no literal arm does |
| WrittenMatch.WrittenIsNaive | src/ast/abstract_recursive_match.rs:477-491 | on a plain match, the function as written and the function as the macro reads it have the same value, or none, at every argument and fuel |
| WrittenMatch.CheckedMatchPartsExactly | src/ast/optimizable_function.rs:99-133 | the corrected reading accepts exactly the plain matches `read_match` accepts, reads them as `read_match` does, and refuses a guard |
| WrittenMatch.WrittenBodyAgrees | src/ast/abstract_recursive_match.rs:64-95 | for a match the corrected reading accepts, wherever the function as Rust runs it reaches a value, the emitted body returns it or panics, as in `Reference.CorrectedBodyAgrees` |
| WrittenMatch.WrittenBodyValueIsWritten | src/ast/abstract_recursive_match.rs:64-95 | for a match the corrected reading accepts and a formula in the fragment, a value the emitted body returns is the value the function as Rust runs it reaches; no value appears where the written function has none |
| WrittenMatch.FibMatchAccepted | tests/optimize_basic.rs:38-46 | the corrected reading accepts fib_match's match, with the constants 0 and 1 and the Fibonacci formula |
| WrittenMatch.RepeatedKeyDisagrees | src/ast/abstract_recursive_match.rs:479-482 | `0 => 7, 0 => 0, 1 => 1` with fib's formula is read as fib_match, so the macro emits `fib_result`, which returns 0 at 0 where Rust returns 7; the corrected reading refuses the match |
| WrittenMatch.LateLiteralDisagrees | src/ast/optimizable_function.rs:105-121 | `0 => 0, _ => …, 1 => 1` is read as fib_match, so the macro emits `fib_result`, which returns 1 at 1 where the function as written never returns; the corrected reading refuses the match |
| FibExample.FibBody | tests/optimize_basic.rs:157-172 | the synthesised body of fib_match is the plan of `fib_result` |
| FibExample.FibComputesFibonacci | tests/optimize_basic.rs:38-46 | the emitted fib_match returns Fibonacci(n) for every n |
| FibExample.FibValues | tests/optimize_basic.rs:175-179 | fib_match(10) = 55, fib_match(1) = 1, fib_match(2) = 1 |
| FooExample.FooSeeds | tests/optimize_basic.rs:125-142 | foo's seed windows are [0, 2] and [1, 3] |
| FooExample.FooIterativeBody | tests/optimize_basic.rs:119-155 | the synthesised body of foo is the plan of `foo_result`, with `51 => 0` only in the odd block |
| FooExample.FooComputes | tests/optimize_basic.rs:213-218 | the emitted foo equals the recursive definition for every n, so `foo(i) == foo_result(i)` |
| EvilExample.EvilSeeds | tests/optimize_basic.rs:103-107 | evil's only seed window is [104, 102, 100] |
| EvilExample.EvilBody | tests/optimize_basic.rs:99-116 | the synthesised body of evil is the plan of `evil_result`, plus the fast path for 99 |
| EvilExample.EvilValues | tests/optimize_basic.rs:189-194 | evil(98) = 5 and evil(90) = 41 |
| TwoStartsExample.TwoIterativeBody | tests/optimize_basic.rs:59-67 | two_starts gets one block per residue class modulo 2 |
| TwoStartsExample.TwoComputes | tests/optimize_basic.rs:59-67 | the emitted two_starts equals the recursive definition for every n |
| TwoStartsExample.TwoValues | tests/optimize_basic.rs:197-200 | two_starts(10) = 5 and two_starts(9) = 6 |
| AnotherExample.AnotherIterativeBody | tests/optimize_basic.rs:69-78 | another gets one block with a buffer of 4, seeded by the window [0, 1, 2, 3] and walking up from 3 |
| AnotherExample.AnotherComputes | tests/optimize_basic.rs:69-78 | the emitted another equals the recursive definition for every n |
| AnotherExample.AnotherValues | tests/optimize_basic.rs:203-205 | another(20) = 9790 |
| Another2Example.Another2IterativeBody | tests/optimize_basic.rs:80-89 | another2 gets one block with a buffer of 4, seeded by the window [1003, 1002, 1001, 1000] and walking down from 1000 |
| Another2Example.Another2Computes | tests/optimize_basic.rs:80-89 | the emitted another2 equals the recursive definition for every n <= 1003 |
| Another2Example.Another2PanicsAbove | tests/optimize_basic.rs:208-211 | above 1003 the emitted another2 panics, and the recursion reaches no value at any fuel |
| Another2Example.Another2DivergesAbove | tests/optimize_basic.rs:208-211 | above 1003 the recursion never reaches a value: each unfolding first calls another2(n + 1), further from the keys |
| Another2Example.Another2Values | tests/optimize_basic.rs:208-211 | another2(990) = 290 |
| Examples.SumAsWrittenDisagrees | src/ast/abstract_recursive_match.rs:416-418 | for `0 => 0, _ => sum(n - 1) + n`, the emitted body returns 9 at n = 3 where the recursion gives 6 |
| Examples.SumCorrectedAgrees | src/ast/abstract_recursive_match.rs:416-418 | with the parameter read as the current argument, the emitted body returns 6 at n = 3 |

## Left out

- Token streams, spans, `quote!`/`parse_quote!` and the text of diagnostics.
  Expressions are a datatype of the `syn` node kinds the core inspects, and
  every `abort!` is an `Err` of `Syntax.Error`.
- src/lib.rs, the macro entry point that parses the item and emits the tokens,
  is not part of this model.
- Integers are unbounded. The source keeps constants as `i128`, steps and the
  eureka set as `u128`, and the counter as `usize`; the generated code uses the
  function's own integer type. Overflow, wrap-around and the `as` casts in the
  emitted code are not modelled (casts evaluate to their operand). The
  `parse_non_typed_int` and `base10_parse` conversions are taken to succeed.
- Eureka.ConstructEurekaTuple: the source's `loop` has no bound. The model
  gives it 2^M + 1 rounds, where M is the largest step, and returns
  `NoFixedPoint` if none is met. It is not proved that a fixed point is always
  reached within that bound.
- Reference.NaiveAt reads the constants from `convert_constants`' map. It is
  therefore the function as the macro understands it, not as Rust runs it:
  repeated keys keep the last arm, a literal arm after the wildcard still
  counts, and guards are ignored. WrittenMatch.WrittenAt is the first-match
  reading. The two are proved equal only on plain matches
  (WrittenMatch.WrittenIsNaive).
- WrittenMatch.WrittenAt gives a guard's condition no meaning. Past a guarded
  arm that admits the argument, the function as written has no value in the
  model. So no theorem covers a match with a guard, which `read_match` accepts
  and reads as if the guard were absent (Optimizable.MatchPartsIgnoresGuards).
- Reference.NaiveAt gives the original function a meaning only on the fragment
  the examples use: literals, the parameter, `+ - *`, negation, parentheses,
  casts and self-calls. The equivalence theorems are stated for that fragment.
  Other node kinds are rewritten as the source does, but are not evaluated.
- Reference.CorrectedBodyValueIsRecursive, Reference.AsWrittenBodyValueIsRecursive
  and WrittenMatch.WrittenBodyValueIsWritten require the formula to lie in
  that fragment. The emitted code evaluates `%`, which the reference does not
  give a meaning to. So outside the fragment the emitted body may return a
  value where the reference has none, and no theorem relates the two there.
- Reference.CorrectedBodyAgrees / Reference.IterativeAgreesWithRecursive:
  these assume the parameter is not named `i`. In the emitted loop,
  `let mut i` would shadow a parameter of that name.
- `_get_ident_from_pat`, and the accessors of `OptimizableRecursiveFunction`
  (fields read directly in the model).
- The examples `more_needed` and `ifelse`, which the macro does not accept, and
  `constant_contradicts` and `all_evil`, which are not instantiated.
- The timing harnesses in tests/speedtest.rs and tests/speedtest_twopower.rs.
- `println!` debugging output.

## Findings

| source | as written | input that shows it | evidently intended | confidence | as-written member | corrected member |
|---|---|---|---|---|---|---|
| src/ast/abstract_recursive_match.rs:416-418 | a path naming the parameter is copied unchanged into the loop, where `n` is the target argument, not the argument of the current round | `match n { 0 => 0, _ => sum(n - 1) + n }` at n = 3: the emitted loop adds 3 in each of the three rounds and returns 9; the recursion gives 6 | the parameter read inside the loop as the current argument `start + ((i - startIndex) as T) * q` | not executed | Examples.SumAsWrittenDisagrees | Reference.CorrectedBodyAgrees, Examples.SumCorrectedAgrees |
| src/ast/abstract_recursive_match.rs:479-482 | every literal arm goes into the map, so a key written twice keeps the value of the later arm, which Rust never reaches | `match n { 0 => 7, 0 => 0, 1 => 1, _ => fib_match(n - 1) + fib_match(n - 2) }`: Rust returns 7 at 0; the macro reads fib_match and emits `fib_result`, which returns 0 | the emitted function keeps the meaning of the annotated one: a match with an unreachable arm is refused | medium, not executed | WrittenMatch.RepeatedKeyDisagrees | WrittenMatch.CheckedMatchParts, WrittenMatch.WrittenBodyAgrees |
| src/ast/optimizable_function.rs:105-121 | a literal arm after the wildcard becomes a constant, although Rust never reaches it | `match n { 0 => 0, _ => fib_match(n - 1) + fib_match(n - 2), 1 => 1 }`: at 1 Rust runs the wildcard and never returns; the emitted `fib_result` returns 1 | as in the row above: the match is refused | medium, not executed | WrittenMatch.LateLiteralDisagrees | WrittenMatch.CheckedMatchParts, WrittenMatch.WrittenBodyValueIsWritten |
