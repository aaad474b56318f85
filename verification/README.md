# A verified model of AMOS

AMOS maps tensor programs to hardware with TVM. This project models five parts of it in Dafny and
proves what they promise.

- **Symbolic integer analysis** (`Tir`, `ConstFold`, `Analyzers`, `LinearEquation`, `ClipBound`,
  `IntervalSets`, `SubExprSets`, `IntervalSoundness`, `IntervalTightness`, `BoundDeduction`,
  `BoundExactness`, `BoundCompleteness`, `BoundDeducer`,
  `PathFinder`, `ExprGraphs`): integer expressions with their values in environments; constant folding keeps
  meaning; linear forms and clip bounds are exact; interval evaluation encloses, and where it is
  tight; the bound deduced for a variable is sound, when one is found, and how much of the solutions it covers.
- **Floating-point conversion** (`Bits`, `FloatFormat`, `FloatNarrow`, `FloatWiden`, `FloatRoundTrip`): the
  narrowing and widening templates on bit patterns of any width, against IEEE 754-2008 rounding, and the
  round trip through both.
- **JSON** (`JsonInput`, `Utf8`, `JsonStrings`, `JsonEscapes`, `JsonParser`, `JsonPrinter`,
  `JsonRoundTrip`, `JsonGrammar`, `JsonPrinted`, `JsonLookahead`, `JsonRejection`, `JsonContexts`): cursor,
  parser and serializer, imperative as in the source, each proved against functions on positions; parsing
  inverts printing, what is accepted is exactly a grammar that contains RFC 8259's, and what is printed is
  RFC 8259's.
- **Tensor rewrites** (`Sums`, `Indices`, `Convolution`, `Im2col`, `TransposedConv`,
  `ConvolutionAdjoint`): the index lambdas of the benchmarks as functions on exact reals; matrix forms
  equal the direct convolution, and the transposed convolution is its adjoint.
- **RPC tracker client** (`TrackerProtocol`, `TrackerTiming`, `TrackerService`, `TrackerClients`): the life
  of match keys as a machine over the answers of its surroundings, with safety and service over all runs,
  and the client's loops proved to follow it.

`dafny verify dfyconfig.toml` checks everything.

## What the proofs turned up

- **A truncated remainder of a negative dividend** is given the set [0, d-1] where the divisor is proved
  non-negative (src/arith/int_set.cc:215-241), so a deduced bound can be wrong. `ModEnclosureIff` says when
  the set is right, `NegativeDividendIsUnsound` gives a comparison where the deduction is wrong, and
  `DeduceSound` holds wherever each set that is computed for a remainder is right.
- **Narrowing between formats with close exponent ranges** is wrong for zero or the smallest subnormal, and
  dropping a single significand bit confuses the sticky bit with the rounding bit.
- **Narrowing from a representation narrower than int** promotes the operands of the range test, which then
  never holds, and shifts by a negative amount: 1.0 from 16 bits with 8 exponent bits to 8 bits has no
  defined result (`BrainFloatToByte`). `TruncRoundsIff` gives the exact condition on widths; half and single
  precision meet it.
- **Widening from a significand of 32 bits or more** counts the leading zeros of a number cut to 32 bits: from
  double to a 128-bit format the smallest subnormal becomes a huge value (`DoubleToQuad`).
  `ExtendExactIff` and `NarrowAfterWidenIff` give the exact conditions.
- **The cursor's final position** passes a newline without counting it (`Input.Cur`). No caller asks for
  the line number afterwards.
- **A match key** whose client came before the first poll can be issued again (`KeyIssuedTwice`); the
  keys kept back are exactly those that were polled. A device key with a blank in it can never be matched
  (`TrackerProtocol.AcceptedIff`).

## Model

| member | source | states |
|---|---|---|
| BoundDeduction.DeduceSound | src/arith/bound_deducer.cc:227-342 | Whenever an interval is deduced, every target value inside it makes the comparison true, in every environment with hint and relaxed variables in their sets where the remainders whose sets are computed fit (see ModEnclosureIff); any analyzer that keeps values and proves only truths |
| BoundDeducerVisitors.DeduceBound | src/arith/bound_deducer.cc:326-342 | The entry point on its mutable visitors returns exactly the specification's interval, with the soundness above for all environments, and aborts exactly when the specification does: a zero divisor folded, or a symbolic limit mixed with an integer. When an interval is found, and how tight it is, is said by DeduceComplete, BoundIff and DeduceTight |
| BoundCompleteness.DeduceComplete | src/arith/bound_deducer.cc:227-342 | The target under sums, differences and products with any operands that do not mention it, nothing relaxed in them, and factors of known sign: an inequality always gets a bound, an equation exactly when every division is proved. A value inside makes the comparison true, and a value is inside if the comparison holds there and at as many neighbours on both sides as there are factors with an unproved division from below; without such a factor the interval is exactly the solution set |
| BoundCompleteness.BoundIff | src/arith/bound_deducer.cc:121-140 | With such operands an inequality gets a bound if and only if the recorded sign of every factor is known; it fails otherwise |
| BoundCompleteness.DeduceSums | src/arith/bound_deducer.cc:103-119 | Without factors the interval is exactly the solution set for all five comparisons, whatever the operands, under every analyzer that proves e == e |
| BoundCompleteness.DeduceTight | src/arith/bound_deducer.cc:290-324 | With relaxed variables, each occurring once and under operators whose sets are attained: no value outside the interval satisfies an inequality for all their values, loose factors counting as above |
| BoundCompleteness.UndoMulIs | src/arith/bound_deducer.cc:121-167 | Undoing a factor of known sign: never an abort, a bound for every inequality and for an equation whose division is proved, equivalent to the comparison of the product except that a bound from below with an unproved division leaves out just the value where the product equals the result |
| BoundCompleteness.UndoIs | src/arith/bound_deducer.cc:103-167 | One step with any operand: a bound unless it is a factor of an equation with an unproved division, equivalent to the comparison of the node but for that one value |
| BoundCompleteness.SolveCovers | src/arith/bound_deducer.cc:85-167 | The walk: a target value is within the final bound if the starting comparison holds there and at so many neighbours |
| BoundCompleteness.SolveFails | src/arith/bound_deducer.cc:133-140 | A factor of unknown sign makes the walk fail |
| BoundCompleteness.FourTimesDeduced | src/arith/bound_deducer.cc:326-342 | a * 4 + b < c solved for a is a <= floordiv(c - 1 - b, 4) |
| IntervalTightness.EndsAttained | src/arith/int_set.cc:343-481 | For expressions in which each variable of the map occurs once, under sums, differences, extrema, products and quotients with the rest, both ends of the evaluated set are values of the expression with its variables at ends of their sets |
| IntervalTightness.CombineCorners | src/arith/int_set.cc:120-328 | Each end of a combined set is the operator applied to an end of each operand: for all sums, differences and extrema, products with a point and quotients by one |
| IntervalTightness.RemainderEnds | src/arith/int_set.cc:215-308 | The ends of the set of a remainder by a point, truncated or floored, in every branch |
| IntervalTightness.InfiniteEnds | src/arith/int_set.cc:121-147 | An end of a sum, difference or extremum is infinite exactly where an operand's end makes it so |
| IntervalTightness.SelectionEnds | src/arith/int_set.cc:438-442 | A selection has the lesser of the minima and the greater of the maxima |
| IntervalTightness.SignOfLiterals | src/arith/int_set.cc:574-584 | A range of literals is positive, negative or unknown by its ends |
| BoundExactness.DeduceExact | src/arith/bound_deducer.cc:227-342 | With the target not relaxed, operands that are trees over literals without a zero divisor and factors that are not zero, under an analyzer that knows the values of such trees: the interval is exactly the solution set for <, <=, >, >= and ==; for == it is one point or empty |
| BoundExactness.DeduceLiteral | src/arith/bound_deducer.cc:227-342 | With literal operands the same under every analyzer, and the bound is a literal |
| BoundExactness.FoldingIsValid | src/arith/analyzer.cc:85-129 | An analyzer that folds trees over literals meets the contract and knows their values, so the exactness theorem is about an analyzer there can be |
| BoundExactness.NegativeDividendIsUnsound | src/arith/int_set.cc:215-241 | Where soundness fails: i + j % 4 >= 0 with j in [-5, -1] relaxed deduces i >= 0, and i = 0, j = -1 refutes it |
| IntervalSoundness.ModEnclosureIff | src/arith/int_set.cc:215-241 | For any two sets and any members, the set of the truncated remainder encloses it if and only if it fits: outside the branch for a divisor proved non-negative always, in it when the dividend is non-negative or a multiple of the divisor |
| BoundDeduction.SafeDeductionFits | src/arith/int_set.cc:215-241 | The condition of soundness read off the inputs: it holds where it does at every remainder of the comparison and of the hint and relax sets that mentions a hinted or relaxed variable or holds a selection, the dividend being non-negative, the remainder zero, or the divisor negative or not proved non-negative |
| IntervalSoundness.SafeFits | src/arith/int_set.cc:343-481 | The same for one evaluation: remainders that the map's variables do not reach are kept as they are |
| IntervalSoundness.UntouchedIsSafe | src/arith/int_set.cc:458-473 | An expression that mentions no variable of the map and holds no selection needs no condition at all |
| IntervalSoundness.UntouchedIsPoint | src/arith/int_set.cc:458-473 | Such an expression evaluates to the point it is |
| BoundDeduction.SolveSound | src/arith/bound_deducer.cc:85-167 | Undoing Add, Sub and Mul along the path from the root to the target, in any mix: a target value meeting the final bound makes the starting comparison true, whatever the depth at which the signs of the factors were recorded |
| BoundDeduction.UndoSound | src/arith/bound_deducer.cc:103-167 | One step: moving the other operand to the result side keeps the solutions, the comparison turning where the target is subtracted or the factor negative |
| BoundDeduction.UndoMulSound | src/arith/bound_deducer.cc:121-167 | Dividing by a factor whose sign its recorded set gives, rounding down and adding one for >= unless divisibility is proved, never admits a target that does not solve; the set may be any entry of the map, evaluated at any depth |
| BoundDeduction.DivideInequality | src/arith/bound_deducer.cc:146-165 | Integer division of an inequality: x*y <= r and x*y >= r as bounds on x by the floor quotient, for both signs of y, and x*y == r exactly when the remainder is zero |
| BoundDeduction.DivideComparison | src/arith/bound_deducer.cc:133-165 | The rounded comparison implies the original one; with the divisibility answer right it is equivalent to it |
| BoundDeduction.TransformMeaning | src/arith/bound_deducer.cc:227-288 | The comparison rewritten with the target's side first has the same truth value in every environment, for all five comparison nodes and both sides |
| BoundDeduction.RelaxSound | src/arith/bound_deducer.cc:307-324 | Replacing both sides by the ends of their sets over the relaxed variables: the relaxed comparison implies the original one |
| BoundDeduction.SolveLimit | src/arith/bound_deducer.cc:103-167 | A deduced bound is an infinity only if the result side started as one |
| BoundExactness.SolveExact | src/arith/bound_deducer.cc:103-167 | On chains of constants the walk is an equivalence, and it fails only for == with no solution |
| BoundExactness.UndoExact | src/arith/bound_deducer.cc:103-167 | One step with a constant operand is an equivalence, or fails because == has no solution |
| BoundExactness.UndoMulExact | src/arith/bound_deducer.cc:121-167 | Undoing a constant factor that is not zero is an equivalence, or fails because == has no solution |
| BoundExactness.RelaxExact | src/arith/bound_deducer.cc:307-324 | Relaxing variables other than the target changes neither side of a constant problem |
| BoundExactness.DividendDeduced | src/arith/bound_deducer.cc:307-342 | The deduction of the counterexample, computed |
| BoundDeducerVisitors.BoundDeducer.Run | src/arith/bound_deducer.cc:290-305 | The whole object run (input check, transform, relax, path, walk) leaves exactly the specification's outcome in its fields |
| BoundDeducerVisitors.BoundDeducer.VisitExpr | src/arith/bound_deducer.cc:85-93 | The walk follows the path by its cursor: on the path it computes the specification's step, off it it fails; the cursor is always in range and at the child that holds the target |
| BoundDeducerVisitors.BoundDeducer.Dispatch | src/arith/bound_deducer.cc:85-167 | The visit of one node below the path cursor computes the specification's outcome and leaves it in the fields |
| BoundDeducerVisitors.BoundDeducer.UndoNode | src/arith/bound_deducer.cc:103-167 | Add, Sub and Mul nodes: the operand on the path is found by identity with the cursor, the other one moved, the walk continued |
| BoundDeducerVisitors.BoundDeducer.DivideResult | src/arith/bound_deducer.cc:126-165 | The division step on the fields is the specification's: the sign is that of the set in the map of subexpressions, unknown without an entry |
| SubExprSets.SubExprIntervalSetEvaluator.VisitExpr | src/arith/int_set.cc:707-728 | The evaluator with its map and recursion depth returns the set of the expression and leaves exactly the recorded sets, every node holding that of its last visit |
| SubExprSets.SubExprIntervalSetEvaluator.EvalEnds | src/arith/int_set.cc:350-358 | The ends of a variable's set are visited one level deeper, and as they are at the last level |
| SubExprSets.SubExprSetsMeaning | src/arith/int_set.cc:707-728 | Every entry of the map is the set of its expression at some depth, and every node outside the conditions of selections has an entry |
| SubExprSets.RecordEntries | src/arith/int_set.cc:712-716 | A visit keeps every entry the set of its expression at some depth |
| BoundDeducerVisitors.BoundDeducer.VisitCond | src/arith/bound_deducer.cc:85-101 | Conditions met on the walk: comparisons below the root fail |
| BoundDeducerVisitors.BoundDeducer.DispatchCond | src/arith/bound_deducer.cc:95-101 | Comparison and connective nodes on the path fail as specified |
| BoundDeducerVisitors.BoundDeducer.TransformExpr | src/arith/bound_deducer.cc:227-288 | The in-place transform sets expression, result and operator to the specified problem, or clears success |
| BoundDeducerVisitors.BoundDeducer.RelaxExpr | src/arith/bound_deducer.cc:307-324 | The in-place relaxation ends as the specified one: abort, failure or the relaxed problem |
| BoundDeducerVisitors.BoundDeduceInputChecker.VisitExpr | src/arith/bound_deducer.cc:189-205 | The checker's counter grows by the number of occurrences of the target |
| BoundDeducerVisitors.BoundDeduceInputChecker.VisitCond | src/arith/bound_deducer.cc:189-205 | The same over conditions |
| BoundDeducerVisitors.PathIffUses | src/arith/bound_deducer.cc:39-69 | The path to the target is empty exactly when the target does not occur, and starts at the root |
| PathFinder.GetPath | src/arith/bound_deducer.cc:63-69 | On any acyclic shared graph the search returns a parent-to-child path from the root to the target, and an empty one only if there is no such path |
| PathFinder.VariablePathFinder.VisitExpr | src/arith/bound_deducer.cc:45-53 | The search with its visited set and its growing path computes the plain recursive search; everything it visited without finding the target is a dead end |
| ExprGraphs.FindPath | src/arith/bound_deducer.cc:63-69 | On any graph of shared objects that unfolds to an expression, the search with its visited set returns exactly the path that the deducer follows in the expression |
| ExprGraphs.SearchUnfolds | src/arith/bound_deducer.cc:39-69 | The plain search in the graph is the search in its unfolding |
| PathFinder.SearchFindsPath | src/arith/bound_deducer.cc:39-69 | What the plain search returns is a path from the node to the target |
| PathFinder.SearchIsComplete | src/arith/bound_deducer.cc:39-69 | If some path leads to the target the search finds one |
| IntervalSoundness.EvalSetContains | src/arith/int_set.cc:343-481 | The evaluated set of every expression contains its value if every remainder whose set is computed fits, for variables ranging over sets whose ends are expressions themselves, to any nesting depth |
| IntervalSoundness.CombineContains | src/arith/int_set.cc:104-328 | Each of the nine operators on sets contains the operator's value on members (truncated remainder: if it fits) |
| IntervalSoundness.MulContains | src/arith/int_set.cc:149-180 | Products: by a factor of known sign the ends are scaled and swapped; of unknown sign a selection between the two orders |
| IntervalSoundness.QuotientContains | src/arith/int_set.cc:182-213 | Truncated and floor quotients by a point divisor of either or unknown sign contain the quotient |
| IntervalSoundness.FloorModContains | src/arith/int_set.cc:276-308 | Floor remainders: [0, d-1] for a positive divisor, or the shifted dividend set when all its members share one quotient |
| IntervalSoundness.ModContainsIff | src/arith/int_set.cc:215-241 | The branches of the truncated remainder, each exact |
| IntervalSoundness.SignIsRight | src/arith/int_set.cc:574-584 | A set reported positive, negative or zero has only such members |
| IntervalSoundness.EvalSetModSafe | src/arith/int_set.cc:343-481 | The ends of the evaluated set of an expression whose remainders fit by inspection are such expressions again |
| ConstFold.RebuildKeepsValue | src/arith/const_fold.h:94-345 | Rebuilding any expression bottom-up through the folding constructors keeps its value wherever no divisor is zero |
| ConstFold.RebuildCondKeepsValue | src/arith/const_fold.h:262-345 | The same for conditions and their truth values |
| ConstFold.ClosedFoldsToLiteral | src/arith/const_fold.h:94-260 | A closed expression folds to the one literal of its value, or aborts exactly when some divisor is zero |
| ConstFold.ClosedCondFoldsToLiteral | src/arith/const_fold.h:262-345 | A closed condition folds to its truth value, or aborts exactly when some divisor is zero |
| ConstFold.BuildKeepsValue | src/arith/const_fold.h:94-260 | One constructor: folded or not, the node's value is the operator's on the operands |
| ConstFold.MakeCmpKeepsValue | src/arith/const_fold.h:262-314 | A comparison, folded or not, is true exactly when it holds |
| ConstFold.BuildVars | src/arith/const_fold.h:94-260 | Folding introduces no variable |
| ConstFold.RebuildTwice | src/arith/const_fold.h:94-345 | What is rebuilt is in normal form, no node having an operand that a rule removes, and rebuilding again changes nothing |
| ConstFold.NormalIsKept | src/arith/const_fold.h:94-345 | An expression is left as it is if and only if it is in normal form |
| ConstFold.NormalCondIsKept | src/arith/const_fold.h:262-345 | The same for conditions |
| ConstFold.BuildIff | src/arith/const_fold.h:94-260 | A constructor stops exactly at a literal zero divisor, keeps every irreducible node, and yields a normal form from normal operands |
| Tir.TruncDivMeaning | src/arith/int_operator.h:80-94 | The truncated quotient and remainder make up the dividend, and the remainder has the dividend's sign |
| Tir.FloorMeaning | src/arith/int_operator.h:96-119 | The floor quotient and remainder, computed from the truncated ones, make up the dividend, and the remainder has the divisor's sign |
| Analyzers.LiteralIsValid | src/arith/analyzer.cc:85-129 | The contract assumed of the simplifier can be met: an analyzer that knows only literals and e == e meets it |
| LinearEquation.DetectLinearEquation | src/arith/detect_linear_equation.cc:143-168 | Fails exactly when a variable cannot be stripped or a coefficient mentions a later variable; on success e is the sum of coefficient times variable plus base in every environment, and no coefficient nor the base mentions any listed variable. An expression that is linear in the listed variables together never fails, one that is not linear in the first always does, with one variable success is exactly linearity, and variables that do not occur get coefficient 0 |
| LinearEquation.JointlyIsNotEntangled | src/arith/detect_linear_equation.cc:143-168 | An expression linear in the listed variables together has every one of them stripped, with coefficients free of all of them |
| LinearEquation.FirstStrips | src/arith/detect_linear_equation.cc:147-154 | The first variable is stripped if and only if the expression is linear in it |
| LinearEquation.AbsentStrip | src/arith/detect_linear_equation.cc:147-154 | Variables that do not occur are all stripped, with coefficient 0 |
| LinearEquation.LinearIff | src/arith/detect_linear_equation.cc:64-119 | One variable is detected exactly when no product has it in both factors and it occurs under no other node; a coefficient is present exactly when it occurs |
| LinearEquation.LinearMeaning | src/arith/detect_linear_equation.cc:64-119 | The detected base and coefficient give the expression's value in every environment |
| LinearEquation.LinearVars | src/arith/detect_linear_equation.cc:64-119 | Neither of them mentions the variable, nor any that the expression does not |
| LinearEquation.MergeMeaning | src/arith/detect_linear_equation.cc:64-99 | The combined entry of a sum, difference or product stands for that operation on the operands' values, with undefined parts as zero |
| LinearEquation.CombineValues | src/arith/detect_linear_equation.cc:124-140 | The combine helpers add, subtract and multiply parts of which some are undefined |
| LinearEquation.LinearEqDetector.VisitExpr | src/arith/detect_linear_equation.cc:64-119 | The visitor with its sticky failure flag computes the specification's entry and fails exactly when it does |
| LinearEquation.LinearEqDetector.Detect | src/arith/detect_linear_equation.cc:52-62 | The detector fills in zeros for undefined parts and returns the specification's answer |
| LinearEquation.DetectOneMeaning | src/arith/detect_linear_equation.cc:52-62 | Base plus coefficient times variable is the expression |
| ClipBound.DetectClipBound | src/arith/detect_linear_equation.cc:244-270 | Succeeds if and only if a variable is listed and every conjunct is a comparison by <, <=, > or >= in which exactly one listed variable occurs, both sides linear in it, with a coefficient that simplifies to 1 or -1; on success the conjunction, of any length, holds if and only if every listed variable lies between its returned bounds, and no bound mentions a listed variable |
| ClipBound.ClipDetector.DetectClipBound | src/arith/detect_linear_equation.cc:170-232 | The map tightened in place becomes the specified one, and is unchanged on failure, which comes exactly when the comparison does not clip |
| ClipBound.ClipStepIff | src/arith/detect_linear_equation.cc:170-232 | One comparison is taken in if and only if it clips: said of the comparison, the listed variables and the simplified coefficient |
| ClipBound.SumsClip | src/arith/detect_linear_equation.cc:170-232 | A sum or difference with one occurrence of the only listed variable, compared by <, <=, > or >= with a side without it, is taken in under every analyzer |
| ClipBound.SeenIff | src/arith/detect_linear_equation.cc:173-190 | The flag is 1 for v exactly when v is the one listed variable that occurs |
| ClipBound.ClipStepMeaning | src/arith/detect_linear_equation.cc:170-232 | One comparison: the new box is the old one cut by the comparison, exactly |
| ClipBound.ClipStepClosed | src/arith/detect_linear_equation.cc:170-232 | Bounds never come to mention a listed variable |
| ClipBound.ClipAllBoxes | src/arith/detect_linear_equation.cc:249-255 | All conjuncts taken in turn: the map is exactly a box for them |
| ClipBound.CanonicalMeaning | src/arith/detect_linear_equation.cc:191-207 | Each strict or non-strict comparison holds exactly when its canonical form is non-negative |
| ClipBound.TightenMeaning | src/arith/detect_linear_equation.cc:212-231 | The new entry admits a value exactly when the old one does and the comparison holds |
| ClipBound.SeenIsListed | src/arith/detect_linear_equation.cc:173-190 | The flag tells no listed variable, exactly one, or several |
| ClipBound.SplitCommExpr | src/arith/detect_linear_equation.cc:234-242 | The conjuncts of a condition, left to right, appended |
| ClipBound.ConjunctsMeaning | src/arith/detect_linear_equation.cc:234-242 | A condition holds exactly when all its conjuncts do |
| FloatNarrow.TruncRoundsIff | 3rdparty/compiler-rt/builtin_fp16.h:63-165 | For every pair of widths: narrowing is roundTiesToEven of section 4.3.1 of IEEE 754-2008 on every non-NaN pattern if and only if the source representation is at least as wide as int, at least two bits are dropped, and the biases differ by more than the target's significand width |
| FloatNarrow.TruncRounds | 3rdparty/compiler-rt/builtin_fp16.h:96-165 | Under that condition every non-NaN pattern narrows to the rounded value with its sign: normal and subnormal results, ties, the sticky bit, carry and overflow to infinity |
| FloatNarrow.ZeroNarrowsWrongly | 3rdparty/compiler-rt/builtin_fp16.h:131-154 | Outside it (bias gap below the target's significand width) zero narrows to a wrong value |
| FloatNarrow.SmallestNarrowsWrongly | 3rdparty/compiler-rt/builtin_fp16.h:131-154 | At the boundary gap the smallest subnormal narrows wrongly |
| FloatNarrow.QuarterNarrowsWrongly | 3rdparty/compiler-rt/builtin_fp16.h:138-153 | With one dropped bit the sticky bit is taken for the rounding bit: a pattern a quarter above a representable value rounds up |
| FloatNarrow.PromotedIsUndefined | 3rdparty/compiler-rt/builtin_fp16.h:108-135 | A source representation narrower than int is promoted, the range test never holds, and every pattern of the target's normal range above its lowest binade is shifted by a negative amount |
| FloatNarrow.PromotedNarrowsWrongly | 3rdparty/compiler-rt/builtin_fp16.h:108-135 | So each such pair of formats has a pattern that narrows wrongly, namely twice the target's smallest normal number |
| FloatNarrow.BrainFloatToByte | 3rdparty/compiler-rt/builtin_fp16.h:108-135 | 1.0 in a 16-bit format with 8 exponent bits has no defined 8-bit result, although both other conditions hold |
| FloatNarrow.TruncNormalRounds | 3rdparty/compiler-rt/builtin_fp16.h:108-120 | The normal case, with carry into the next exponent or to infinity |
| FloatNarrow.TruncSubnormalRounds | 3rdparty/compiler-rt/builtin_fp16.h:131-154 | The subnormal case, from the denormalized significand with its sticky bit |
| FloatNarrow.StickyRounds | 3rdparty/compiler-rt/builtin_fp16.h:140-153 | Shifting with one sticky bit and then rounding is rounding the whole significand once, in a word of the source's width always, in a wider one when a bit is lost |
| FloatNarrow.NormalTest | 3rdparty/compiler-rt/builtin_fp16.h:108-108 | The one comparison tests for the normal range where it wraps at the representation's width; on promoted ints it never holds |
| FloatNarrow.TruncSign | 3rdparty/compiler-rt/builtin_fp16.h:156-157 | The sign bit and the magnitude land in their fields |
| FloatNarrow.TruncKeepsNaN | 3rdparty/compiler-rt/builtin_fp16.h:121-127 | A NaN narrows to a quiet NaN with its sign and the top of its payload |
| FloatNarrow.TruncXfYf2 | 3rdparty/compiler-rt/builtin_fp16.h:65-165 | The code, updating its result in place, computes the specified pattern, or shifts by a negative amount exactly where specified |
| FloatFormat.RoundUnique | 3rdparty/compiler-rt/builtin_fp16.h:116-120 | At most one pattern is the rounded value, so the theorems fix the result |
| FloatFormat.RoundExact | 3rdparty/compiler-rt/builtin_fp16.h:116-120 | A representable value rounds to itself |
| FloatFormat.ThresholdIsHalfway | 3rdparty/compiler-rt/builtin_fp16.h:128-130 | Overflow begins halfway between the largest finite value and the next power of two |
| FloatFormat.MagMonotone | 3rdparty/compiler-rt/builtin_fp16.h:66-94 | Magnitudes grow strictly with bit patterns, across subnormals, normals and infinity's pattern |
| FloatWiden.ExtendExactIff | 3rdparty/compiler-rt/builtin_fp16.h:167-244 | For every pair of widths: widening is exact on every non-NaN pattern if and only if the biases differ by at least the source's significand width and that width is at most 31 |
| FloatWiden.ExtendExact | 3rdparty/compiler-rt/builtin_fp16.h:191-244 | Under that condition every finite pattern, subnormals included, widens to the same value and infinity to infinity |
| FloatWiden.SmallestWidensWrongly | 3rdparty/compiler-rt/builtin_fp16.h:221-229 | Outside it the smallest subnormal widens wrongly |
| FloatWiden.SmallestCut | 3rdparty/compiler-rt/builtin_fp16.h:221-229 | What the smallest subnormal widens to when the count of leading zeros sees only the low 32 bits of the smallest normal number |
| FloatWiden.ExtendKeepsNaN | 3rdparty/compiler-rt/builtin_fp16.h:213-220 | A NaN, quiet or signalling, widens to one with its sign, its quiet bit and its payload |
| FloatWiden.Clz | 3rdparty/compiler-rt/builtin_fp16.h:33-61 | The binary search in place counts the leading zeros: 32 minus the bit length |
| FloatWiden.SubnormalScale | 3rdparty/compiler-rt/builtin_fp16.h:225-225 | The difference of leading zeros is the shift that makes a subnormal's leading bit the hidden one, for significands of up to 31 bits |
| FloatWiden.ExtendXfYf2 | 3rdparty/compiler-rt/builtin_fp16.h:169-244 | The code, updating its result in place, computes the specified pattern, its arguments to the count of leading zeros cut to 32 bits |
| FloatRoundTrip.NarrowAfterWidenIff | 3rdparty/compiler-rt/builtin_fp16.h:63-244 | For every pair of widths: narrowing after widening gives back every pattern, a signalling NaN made quiet, if and only if widening is exact and the wide representation is at least as wide as int |
| FloatRoundTrip.NarrowAfterWiden | 3rdparty/compiler-rt/builtin_fp16.h:63-244 | Under that condition each pattern comes back, also where narrowing other values is wrong |
| FloatRoundTrip.TruncExact | 3rdparty/compiler-rt/builtin_fp16.h:96-157 | A value of the target format narrows to its own pattern, with one dropped bit and at the boundary gap too |
| FloatRoundTrip.NaNComesBack | 3rdparty/compiler-rt/builtin_fp16.h:121-127 | Between all formats a NaN comes back quiet, with its sign and payload |
| FloatRoundTrip.ZeroIsLost | 3rdparty/compiler-rt/builtin_fp16.h:131-154 | With a bias gap below the significand width zero does not come back |
| FloatRoundTrip.SmallestIsLost | 3rdparty/compiler-rt/builtin_fp16.h:221-229 | With a significand of 32 bits or more the smallest subnormal does not come back |
| FloatRoundTrip.PromotedIsLost | 3rdparty/compiler-rt/builtin_fp16.h:108-135 | With a wide representation narrower than int, twice the smallest normal number does not come back |
| FloatRoundTrip.DoubleToQuad | 3rdparty/compiler-rt/builtin_fp16.h:221-229 | Double precision to a 128-bit format: the biases and the narrowing are right, and the smallest subnormal is still lost |
| FloatRoundTrip.HalfAndSingle | src/runtime/builtin_fp16.cc:32-48 | The half and single formats of the runtime meet every condition |
| JsonGrammar.AcceptedIff | 3rdparty/picojson/picojson.h:725-951 | A value is accepted at a position and ends at another if and only if a text of the grammar stands between them, and it is the value of that derivation: white space anywhere, every spelling of a character by its bytes, a short escape or \u escapes, later keys replacing earlier ones, and runs of number characters that strtod reads whole |
| JsonGrammar.JsonTextIsRead | 3rdparty/picojson/picojson.h:725-951 | Every text of sections 2 to 7 of RFC 8259 whose \u escapes write characters is accepted with its value and to its end, whatever follows that does not continue a number, if strtod finds its numbers in range; otherwise it throws |
| JsonGrammar.DocReads | 3rdparty/picojson/picojson.h:834-951 | The text of a derivation parses to its value at any place, in either context |
| JsonGrammar.DocOf | 3rdparty/picojson/picojson.h:834-951 | Whatever is accepted has a derivation, found by following the parser |
| JsonGrammar.DocThrows | 3rdparty/picojson/picojson.h:920-951 | A number out of range anywhere in a text of the grammar throws; the text is not rejected |
| JsonGrammar.CharsRead | 3rdparty/picojson/picojson.h:791-832 | A literal in any mix of spellings parses to the bytes of its characters |
| JsonGrammar.CharsOf | 3rdparty/picojson/picojson.h:791-832 | A literal that is accepted is made of such spellings |
| JsonGrammar.WrittenSpells | 3rdparty/picojson/picojson.h:748-789 | An accepted escape is four hexadecimal digits, or two such for a surrogate pair, that spell its character |
| JsonRoundTrip.RoundTrip | 3rdparty/picojson/picojson.h:532-951 | Parsing the compact or the pretty text of any value, its members in any order, gives the value back in either context and stops right after its last character (before the newline that ends a pretty text) |
| JsonRoundTrip.BodyReads | 3rdparty/picojson/picojson.h:591-655 | The same at any position of any text, at any depth of indentation |
| JsonRoundTrip.PrintIsInjective | 3rdparty/picojson/picojson.h:532-661 | Equal texts come from equal values |
| JsonRoundTrip.OrderIsFree | 3rdparty/picojson/picojson.h:140-140 | Listings that differ only in the order of distinct keys list equal values |
| JsonRoundTrip.ListingExists | 3rdparty/picojson/picojson.h:591-655 | Every value has a listing, so the theorems above are about every value |
| JsonRoundTrip.IntTextReads | 3rdparty/picojson/picojson.h:498-503 | The decimal text printed for an integer is a decimal number of that value |
| JsonRoundTrip.ItemsRead | 3rdparty/picojson/picojson.h:834-851 | The array loop on printed items, commas and indentation rebuilds the items in order |
| JsonRoundTrip.MembersRead | 3rdparty/picojson/picojson.h:853-872 | The object loop on printed members rebuilds the map, whatever their order |
| JsonPrinted.PrintedIsJson | 3rdparty/picojson/picojson.h:488-661 | The text of every value is a text of RFC 8259 if the 17-digit format prints its numbers so; the compact one has no white space between its tokens, and the pretty one is the same tokens laid out line by line with two spaces for every bracket open, and a newline at the end |
| JsonPrinted.LayoutIsUnique | 3rdparty/picojson/picojson.h:591-655 | The layout is determined by the tokens |
| JsonPrinted.BodyIsDoc | 3rdparty/picojson/picojson.h:591-655 | What is printed at any depth is the text of the value's derivation |
| JsonPrinted.IntTextIsPlain | 3rdparty/picojson/picojson.h:498-503 | An integer is printed as its sign and its digits without a leading zero, a fraction or an exponent |
| JsonPrinted.IntTextIsUnique | 3rdparty/picojson/picojson.h:498-503 | It is the only such text with its value, minus zero apart |
| JsonPrinted.PiecesArePrinted | 3rdparty/picojson/picojson.h:537-574 | A printed literal is made of valid spellings of its bytes |
| JsonPrinted.PrintedIsShortest | 3rdparty/picojson/picojson.h:537-566 | Each byte is printed in its shortest spelling other than a bare slash or delete |
| JsonPrinted.PrintedIsPlain | 3rdparty/picojson/picojson.h:537-566 | A printed literal holds no control character and no delete, and every quote and slash in it follows a backslash |
| JsonRejection.RejectedIsStuck | 3rdparty/picojson/picojson.h:725-951 | A text is rejected at the character that decides: every text that is the same up to it is rejected there, and what comes before begins some accepted text, unless it ends in a run of number characters that is no number or in an escape that is none |
| JsonLookahead.ParseLocal | 3rdparty/picojson/picojson.h:898-951 | Outcome and position depend only on the text up to where the parser stops, and on the one character there |
| JsonContexts.ContextsAgree | 3rdparty/picojson/picojson.h:978-1076 | The building context throws if and only if a number that the checking context reads is out of range, and then at the first such number; otherwise both agree on acceptance and on the final position. They agree on every text in which no maximal run of number characters is a number out of range |
| JsonContexts.NumbersAreTokens | 3rdparty/picojson/picojson.h:874-894 | Every number read is a maximal run of number characters |
| JsonParser.RestOfLine | 3rdparty/picojson/picojson.h:1095-1102 | The printable rest of the line, read to its end |
| JsonParser.ParseText | 3rdparty/picojson/picojson.h:1087-1105 | A whole text: the parsed value and the position after it; on a syntax error the line number (not yet counting a character still held), the rest of the line and the position after it |
| JsonParser.ParseValue | 3rdparty/picojson/picojson.h:896-951 | The parser on its mutable cursor computes the specified outcome and stops at the specified position, in both contexts; every success consumes a character |
| JsonParser.ParseArray | 3rdparty/picojson/picojson.h:834-851 | The array loop computes the specified items |
| JsonParser.ParseObject | 3rdparty/picojson/picojson.h:853-872 | The object loop computes the specified members; of equal keys the last wins |
| JsonParser.ParseMember | 3rdparty/picojson/picojson.h:862-869 | A key, a colon and a value |
| JsonParser.ParseKey | 3rdparty/picojson/picojson.h:863-866 | A string literal and a colon, white space allowed before each |
| JsonParser.ParseNumber | 3rdparty/picojson/picojson.h:874-894 | The longest run of number characters, the cursor left on the next one |
| JsonParser.ParseWord | 3rdparty/picojson/picojson.h:902-911 | null, false and true after their first letter |
| JsonInput.Input.Getc | 3rdparty/picojson/picojson.h:673-686 | The next character or -1 at the end, never past it; the line number is one plus the newlines passed |
| JsonInput.Input.Ungetc | 3rdparty/picojson/picojson.h:687-687 | The last character read will be read again |
| JsonInput.Input.Cur | 3rdparty/picojson/picojson.h:688-695 | The position after what was read; the line number stays right exactly when the character passed is not a newline |
| JsonInput.Input.SkipWs | 3rdparty/picojson/picojson.h:697-705 | Stops at the first character that is no white space |
| JsonInput.Input.Expect | 3rdparty/picojson/picojson.h:706-713 | White space and one expected character, or the cursor on the character found |
| JsonInput.Input.Match | 3rdparty/picojson/picojson.h:714-722 | A pattern, or the cursor on the first character that differs |
| JsonStrings.ParseQuadhex | 3rdparty/picojson/picojson.h:725-746 | Four hexadecimal digits, or the cursor on the first that is none |
| JsonStrings.ParseCodepoint | 3rdparty/picojson/picojson.h:748-789 | One escape or a surrogate pair appends the specified bytes and stops as specified |
| JsonStrings.ParseEscape | 3rdparty/picojson/picojson.h:801-826 | The character after a backslash |
| JsonStrings.ParseString | 3rdparty/picojson/picojson.h:791-832 | The loop computes the specified bytes and position |
| JsonEscapes.EscapesReadAsUtf8 | 3rdparty/picojson/picojson.h:725-832 | Any sequence of scalar values written only with escapes, in digits of either case and with surrogate pairs above U+FFFF, parses to its UTF-8 encoding (section 3 of RFC 3629), which decodes to the same sequence |
| JsonEscapes.UnitsReadIff | 3rdparty/picojson/picojson.h:725-832 | A literal of any 16-bit units, each written with an escape, is accepted if and only if the units are well-formed UTF-16 (section 2.2 of RFC 2781), and then gives the UTF-8 encoding of what they decode to; so a lone surrogate is rejected wherever it stands |
| JsonEscapes.CodepointMeaning | 3rdparty/picojson/picojson.h:748-789 | An escape is accepted if and only if it writes a scalar value, and yields that value's encoding |
| JsonEscapes.LoneSurrogateRejected | 3rdparty/picojson/picojson.h:755-768 | A literal is rejected at a surrogate that does not start a pair |
| JsonEscapes.PrintedCharsRead | 3rdparty/picojson/picojson.h:537-574 | Every byte string parses back from its printed literal, ending at the closing quote |
| JsonEscapes.SpellingExists | 3rdparty/picojson/picojson.h:748-789 | Every scalar value can be written with escapes |
| Utf8.PushedIsEncode | 3rdparty/picojson/picojson.h:772-787 | The bytes pushed for a scalar value are its encoding by section 3 of RFC 3629 |
| Utf8.PairedInverts | 3rdparty/picojson/picojson.h:769-770 | Joining a surrogate pair inverts splitting, onto exactly the code points above U+FFFF |
| Utf8.DecodeInvertsEncode | 3rdparty/picojson/picojson.h:772-787 | Decoding by section 4 of RFC 3629 inverts the encoding of every sequence of scalar values |
| JsonPrinter.SerializeValue | 3rdparty/picojson/picojson.h:576-581 | Serialization to a string, compact or pretty |
| JsonPrinter.Output.Serialize | 3rdparty/picojson/picojson.h:591-655 | Appends the specified text of any value at any indentation, with the newline that ends a pretty text |
| JsonPrinter.Output.SerializeArray | 3rdparty/picojson/picojson.h:597-619 | The array loop appends brackets, commas, indentation and items |
| JsonPrinter.Output.SerializeObject | 3rdparty/picojson/picojson.h:620-647 | The object loop appends braces, commas, indentation, keys and values |
| JsonPrinter.Output.SerializeString | 3rdparty/picojson/picojson.h:537-574 | The loop over bytes appends the escaped literal |
| JsonPrinter.Output.WriteIndent | 3rdparty/picojson/picojson.h:583-589 | A newline and two spaces for each level |
| ConvolutionAdjoint.TransposedIsAdjoint | benchmark/amos/mapping_transposedconv2d_tensorcore.py:54-103 | For every shape, stride, padding and filter: summing conv(X)*Y over outputs equals summing X*transposed(Y) over pixels, the transposed convolution having the output padding that the size division dropped; its output size is the image's |
| ConvolutionAdjoint.BackwardAxisFits | benchmark/amos/mapping_transposedconv2d_tensorcore.py:75-78 | The output padding dropped by the forward size formula makes the transposed size formula its inverse |
| ConvolutionAdjoint.BackwardAxisIsAny | benchmark/amos/mapping_transposedconv2d_tensorcore.py:75-78 | Every axis with dilation 1 and output padding below the stride is covered by the adjoint theorem |
| ClipBound.ListBounds | src/arith/detect_linear_equation.cc:256-269 | The bounds of the listed variables in turn, simplified |
| TransposedConv.GatherIsScatter | benchmark/amos/mapping_transposedconv2d_tensorcore.py:7-103 | Zero-expansion, padding and the flipped kernel, for every stride, padding, output padding and dilation, give at each output the sum of every input times every tap that meet there |
| TransposedConv.GatherReadsInBounds | benchmark/amos/mapping_transposedconv2d_tensorcore.py:75-101 | Every element read lies in the padded tensor, and what it is taken from lies in the input; the largest index read is exactly the last index of the padded tensor |
| TransposedConv.SizesInvert | benchmark/amos/mapping_transposedconv2d_tensorcore.py:75-78 | Convolving the output size gives the input size back if and only if the output padding is below the stride |
| TransposedConv.GatheredEntry | benchmark/amos/mapping_transposedconv2d_tensorcore.py:7-51 | The expanded and padded tensor at a position is the entry that lands there, or zero |
| Im2col.ByTilesIsDirect | benchmark/autotvm/autotvm-conv2d-nchw-createtask.py:164-252 | im2col, zero-padded 16x16 packing, the packed two-level reduction and the read-back give the direct convolution, for all sizes, strides and paddings |
| Im2col.ByMatricesIsDirect | benchmark/ansor/conv2d_nchw_im2col.py:8-50 | im2col and one matrix product give the direct convolution |
| Im2col.PackedIsProduct | benchmark/autotvm/autotvm-conv2d-nchw-createtask.py:200-230 | The packed product at an entry is the plain product of row and column |
| Im2col.PackedPaddingIsZero | benchmark/autotvm/autotvm-conv2d-nchw-createtask.py:200-230 | Packed entries in a padding row or column are zero |
| Im2col.ReadsInBounds | benchmark/ansor/conv2d_nchw_im2col.py:23-34 | Every index computed by division and remainder lies inside its tensor |
| Convolution.LayoutsAgree | benchmark/amos/mapping_conv2d_tensorcore.py:12-107 | The three layouts compute one convolution of one tensor stored in three orders |
| TrackerProtocol.KeysAreSafe | apps/cpp_rpc/rpc_tracker_client.h:105-178 | In every run: the key checked at accept is the one last registered, or the plain key exactly when there is no tracker; a key given up or ever polled is never issued again |
| TrackerService.ServedIff | apps/cpp_rpc/rpc_server.cc:254-301 | In every run a client is served if and only if it comes right after a check whose header has as its first word client: and the key last registered (the plain key without a tracker) and whose answer the client takes. After any other check comes an exception, always when a client does not take its answer, or the same key is polled or checked again |
| TrackerService.RetiredWereMissing | apps/cpp_rpc/rpc_tracker_client.h:143-173 | In every run a poll finds its key pending if and only if the tracker's answer is u + key + v, and a key that is given up was missing from each of the last answers, as many as make it be given up |
| TrackerService.PendingKeysStay | apps/cpp_rpc/rpc_tracker_client.h:143-173 | A key that stands in every answer since it was registered is never given up |
| TrackerService.EntriesRepeatAnswers | apps/cpp_rpc/rpc_tracker_client.h:143-157 | The texts in a history are those received: each entry repeats the answer at which it was written |
| TrackerService.ServedFromTheStart | apps/cpp_rpc/rpc_server.cc:139-160 | A run from the start to service: connected, a key drawn and registered, found pending in any number of polls, its client served, and nothing else written |
| TrackerService.ServedPlainly | apps/cpp_rpc/rpc_server.cc:235-303 | Without a tracker the client with the plain key is served |
| TrackerService.FirstWordIff | apps/cpp_rpc/rpc_server.cc:265-271 | The word compared is the text between leading blanks and the next blank or the end |
| TrackerTiming.KeysRetireOnTime | apps/cpp_rpc/rpc_tracker_client.h:133-178 | In every run a key is given up exactly after the first number of unmatched polls in a row with count*period > 4 + period (four, for the default period), and the loop's counter is that number |
| TrackerTiming.KeysNeverRetire | apps/cpp_rpc/rpc_tracker_client.h:159-159 | With a period of zero no run gives a key up |
| TrackerProtocol.DrawnIffNeverPolled | apps/cpp_rpc/rpc_tracker_client.h:218-228 | In every run a draw is taken exactly when no poll has seen the key it makes |
| TrackerProtocol.KeyIssuedTwice | apps/cpp_rpc/rpc_tracker_client.h:105-124 | A run in which a key is issued twice: its client came before the first poll |
| TrackerProtocol.StepKeeps | apps/cpp_rpc/rpc_server.cc:235-303 | Every step keeps the invariant: open to the tracker exactly when there is one, the key in hand the one registered, the old keys those polled |
| TrackerProtocol.AcceptedIff | apps/cpp_rpc/rpc_server.cc:258-287 | A header is accepted exactly when its first word is the expected one (the length test changes nothing), and a key can be matched exactly when it has no blank |
| TrackerTiming.GivesUpIff | apps/cpp_rpc/rpc_tracker_client.h:159-159 | The timeout test in closed form: count is at least 4/period + 2 |
| TrackerClients.RpcServer.ListenLoopProc | apps/cpp_rpc/rpc_server.cc:139-160 | The outer loop on every finite prefix of answers leaves exactly the machine's history and old keys, so the run theorems are about the code |
| TrackerClients.RpcServer.AcceptConnection | apps/cpp_rpc/rpc_server.cc:235-303 | The accept loop follows the machine to a served client, an exception (before the header is compared, or after it when the client does not take the answer) or the end of the answers |
| TrackerClients.TrackerClient.WaitConnectionAndUpdateKey | apps/cpp_rpc/rpc_tracker_client.h:133-178 | The polling loop follows the machine, with its local counter and the key replaced in place |
| TrackerClients.TrackerClient.Idle | apps/cpp_rpc/rpc_tracker_client.h:143-157 | A poll that timed out: the key joins the old ones and the counter grows, or restarts if the answer has the key in it |
| TrackerClients.TrackerClient.ReportResourceAndGetKey | apps/cpp_rpc/rpc_tracker_client.h:105-124 | A fresh key registered, or the plain key without a tracker |
| TrackerClients.TrackerClient.RandomKey | apps/cpp_rpc/rpc_tracker_client.h:218-228 | Draws until a key is outside the set; the result is the first such draw |
| TrackerClients.TrackerClient.TryConnect | apps/cpp_rpc/rpc_tracker_client.h:72-90 | Connects only if there is a tracker and none is open |
| TrackerClients.TrackerClient.Close | apps/cpp_rpc/rpc_tracker_client.h:94-99 | Closes and forgets no key; the end of the round is noted |

## Left out

- BoundDeduction.DeduceSound: one direction. Its condition is asked only at remainders whose sets the deduction computes, and is exact at each of them (ModEnclosureIff); a wrong set may still be masked by the terms around it.
- BoundCompleteness.DeduceComplete: factors whose recorded set is the literal point zero are not covered: the quotient by such a factor has no value.
- BoundCompleteness.DeduceTight: inequalities, with relaxed variables that occur once and have two ends; where a relaxed variable repeats, interval arithmetic itself is not tight.
- JsonPrinted.PrintedIsJson: that the 17-digit format prints numbers of RFC 8259 is assumed of the C library.
- JsonGrammar.JsonTextIsRead: strtod is assumed to read every number of RFC 8259 whole; texts with a \u escape of a lone surrogate, which the grammar of RFC 8259 allows and its section 8.2 calls unpredictable, are rejected (UnitsReadIff).
- JsonRoundTrip.RoundTrip: what strtod and the 17-digit print format do is assumed: strtod is exact on decimal integers below 2^53, and other numbers in the value are printed so that strtod gets them back.
- TrackerTiming.KeysRetireOnTime: for a positive polling period, KeysNeverRetire covering zero; a negative one, which the code never uses, is not modelled.
- BoundDeducerVisitors.DeduceBound: the target is a variable, and an expression stands for its object except where the analyzer is asked whether two references are one object; equal subexpressions share one entry of the map of evaluated sets (SolveSound holds for any entries, evaluated at any depth).
- Expression nodes other than integer literals, variables, the nine arithmetic operators and selection: casts, calls, lets, ramps, loads.
- Unsigned and floating-point operands, vector types and machine overflow of expression integers: integers are unbounded.
- The simplifier's rules (src/arith/rewrite_simplify.cc, src/arith/canonical_simplify.cc): any analyzer that keeps values, proves only truths and answers literals is allowed.
- Exponent fields of more than 30 bits, for which the templates' `1 << srcExpBits` is not an int of 32 bits.
- Partial values left in the output when a text is rejected, and the memory management of values.
- Locale decimal points, stream wrappers, the wording of the error message beyond line number and rest of the line, negative zero, PICOJSON_USE_INT64.
- Rounding and overflow in tensor arithmetic, element types, scheduling, tensor intrinsics and tuning.
- Dilation above 1 in the forward convolution: benchmark/amos/mapping_conv2d_tensorcore.py:27-38 runs the reduction over the dilated extent while the weight has the plain one.
- The extra term of benchmark/autotvm/autotvm-conv2d-nchw-createtask.py:236, which gives two indices to a tensor of four axes.
- Sockets, message formats, custom addresses, ports, timers, fork and wait, the option string after a match; an exception anywhere in an exchange with the tracker is one failed answer, and one with a client is told apart only by whether the header had been compared.
- Liveness: how often the random draw must be repeated.
