/** src/arith/bound_deducer.cc: when a bound is found, and how much of the solution it covers. */
module BoundCompleteness {
  import opened Tir
  import opened ConstFold
  import opened Analyzers
  import opened IntervalSets
  import opened IntervalSoundness
  import opened IntervalTightness
  import opened SubExprSets
  import opened BoundDeduction
  import opened Indices

  // ---- the problems ----

  /** One occurrence of the target under sums, differences and products with operands of any kind. */
  predicate Walk(e: Expr, target: string) {
    || e == Var(target)
    || (&& e.Bin? && Solvable(e.op)
        && ((Walk(e.a, target) && !Uses(e.b, target)) || (!Uses(e.a, target) && Walk(e.b, target))))
  }

  /** Such a side compared, by anything but !=, with one that does not mention the target. */
  predicate Line(cond: Cond, target: string) {
    && cond.Cmp? && !cond.cmp.NE?
    && ((Walk(cond.l, target) && !Uses(cond.r, target)) || (!Uses(cond.l, target) && Walk(cond.r, target)))
  }

  lemma {:induction false} WalkUses(e: Expr, target: string)
    requires Walk(e, target)
    ensures Uses(e, target) && Occurrences(Vars(e), target) == 1
  {
    if e == Var(target) {
      assert [target][1..] == [];
    } else {
      var left := Walk(e.a, target) && !Uses(e.b, target);
      WalkUses(if left then e.a else e.b, target);
      NoOccurrence(Vars(if left then e.b else e.a), target);
      OccurrencesConcat(Vars(e.a), Vars(e.b), target);
    }
  }

  lemma {:induction false} NoOccurrence(vars: seq<string>, target: string)
    requires target !in vars
    ensures Occurrences(vars, target) == 0
  {
    if vars != [] { NoOccurrence(vars[1..], target); }
  }

  /** The child that holds the target, and the other one. */
  function Child(e: Expr, target: string): Expr
    requires e.Bin?
  {
    if Uses(e.a, target) then e.a else e.b
  }

  function Other(e: Expr, target: string): Expr
    requires e.Bin?
  {
    if Uses(e.a, target) then e.b else e.a
  }

  lemma WalkStep(e: Expr, target: string)
    requires Walk(e, target) && e != Var(target)
    ensures e.Bin? && Solvable(e.op) && Uses(e, target)
    ensures Walk(Child(e, target), target) && !Uses(Other(e, target), target)
  {
    WalkUses(e, target);
    if Walk(e.a, target) { WalkUses(e.a, target); } else { WalkUses(e.b, target); }
  }

  /** The recorded sign of every factor on the way is positive or negative. */
  predicate SignsKnown(an: Analyzer, sets: SetMap, e: Expr, target: string) {
    e.Bin? ==>
      var sign := RecordedSign(an, sets, Other(e, target));
      && (e.op.Mul? ==> sign.Positive? || sign.Negative?)
      && SignsKnown(an, sets, Child(e, target), target)
  }

  // ---- another value for the target ----

  function With(env: Env, target: string, t: int): Env { x => if x == target then t else env(x) }

  lemma EvalWith(e: Expr, target: string, env: Env, t: int)
    requires !Uses(e, target)
    ensures Eval(e, With(env, target, t)) == Eval(e, env) && (Defined(e, With(env, target, t)) <==> Defined(e, env))
  {
    AgreeEval(e, With(env, target, t), env);
  }

  /** No factor on the way is zero. */
  predicate FactorsNonzero(e: Expr, target: string, env: Env) {
    e.Bin? ==>
      && (e.op.Mul? ==> Eval(Other(e, target), env) != 0)
      && FactorsNonzero(Child(e, target), target, env)
  }

  /** By how much the expression grows when the target does by one. */
  function Slope(e: Expr, target: string, env: Env): int {
    if !e.Bin? then 1
    else
      var s := Slope(Child(e, target), target, env);
      match e.op
      case Mul => s * Eval(Other(e, target), env)
      case Sub => if Uses(e.a, target) then s else -s
      case _ => s
  }

  lemma {:induction false} WalkIsLinear(e: Expr, target: string, env: Env, t: int)
    requires Walk(e, target) && FactorsNonzero(e, target, env)
    ensures Slope(e, target, env) != 0
    ensures Eval(e, With(env, target, t + 1)) == Eval(e, With(env, target, t)) + Slope(e, target, env)
    decreases e
  {
    if e != Var(target) {
      WalkStep(e, target);
      var child, other := Child(e, target), Other(e, target);
      WalkIsLinear(child, target, env, t);
      EvalWith(other, target, env, t);
      EvalWith(other, target, env, t + 1);
      var x, s, y := Eval(child, With(env, target, t)), Slope(child, target, env), Eval(other, env);
      if e.op.Mul? {
        MulDistribute(x, s, y);
        NonzeroProduct(s, y);
        assert y * (x + s) == (x + s) * y && y * x == x * y;
      }
    }
  }

  lemma NonzeroProduct(s: int, y: int)
    requires s != 0 && y != 0
    ensures s * y != 0
  {}

  // ---- one factor ----

  /** The remainder by the operand is proved to be zero. */
  predicate Divided(an: Analyzer, result: Expr, operand: Expr) {
    var rem := Build(FloorMod, result, operand);
    rem.Some? && an.canProve(MakeCmp(EQ, rem.value, IntImm(0)))
  }

  /**
   Dividing by a factor of known sign gives a bound for every inequality, and for an equation whose division is
   proved. The bound is the comparison of the product, except that a bound from below whose division is not proved
   leaves out the one value where the product is equal to the result.
   */
  lemma UndoMulIs(an: Analyzer, sets: SetMap, operand: Expr, op: CompareOp, result: Expr, env: Env, x: int)
    requires an.Valid() && Defined(operand, env) && Defined(result, env)
    requires var sign := RecordedSign(an, sets, operand);
             (sign.Positive? && Eval(operand, env) > 0) || (sign.Negative? && Eval(operand, env) < 0)
    ensures var out, divided := UndoMul(an, sets, operand, op, result), Divided(an, result, operand);
            && !out.Abort? && (out.Bound? <==> !op.Equal? || divided)
            && (out.Bound? ==>
                  && Defined(out.result, env) && (out.op.Equal? <==> op.Equal?)
                  && (Satisfies(out.op, x, Eval(out.result, env)) <==>
                        && Satisfies(op, x * Eval(operand, env), Eval(result, env))
                        && (out.op.Greater? && !divided ==> x * Eval(operand, env) != Eval(result, env))))
  {
    hide FloorDivision, FloorRemainder, RecordedSign, Build, Make, MakeCmp;
    hide Analyzer.SimplifyKeepsValue, Analyzer.SimplifyKeepsVars, Analyzer.AnswersLiterals;
    var y, r := Eval(operand, env), Eval(result, env);
    NotInfinite(operand, env);
    NotInfinite(result, env);
    BuildKeepsValue(FloorDiv, result, operand, env);
    BuildKeepsValue(FloorMod, result, operand, env);
    var rem, quo := Build(FloorMod, result, operand).value, Build(FloorDiv, result, operand).value;
    MakeCmpKeepsValue(EQ, rem, IntImm(0), env);
    MakeKeepsValue(Add, quo, IntImm(1), env);
    DivideInequality(x, y, r);
  }

  lemma NotInfinite(e: Expr, env: Env)
    requires Defined(e, env)
    ensures !e.Inf?
  {}

  lemma UndoMulVars(an: Analyzer, sets: SetMap, operand: Expr, op: CompareOp, result: Expr, x: string)
    requires UndoMul(an, sets, operand, op, result).Bound?
    requires Uses(UndoMul(an, sets, operand, op, result).result, x)
    ensures Uses(operand, x) || Uses(result, x)
  {
    hide Build, RecordedSign, MakeCmp, Uses;
    var quo := Arith(FloorDiv, result, operand).value;
    if !Uses(quo, x) { ByOneVars(quo, x); }
    if Uses(quo, x) { BuildVars(FloorDiv, result, operand, x); }
  }

  // ---- one step ----

  /** A factor whose bound from below is not exact. */
  predicate IsLoose(an: Analyzer, bin: BinOp, operand: Expr, step: Outcome, result: Expr) {
    bin.Mul? && step.Bound? && step.op.Greater? && !Divided(an, result, operand)
  }

  lemma UndoIs(an: Analyzer, sets: SetMap, bin: BinOp, left: bool, operand: Expr, op: CompareOp, result: Expr,
               env: Env, x: int)
    requires an.Valid() && Solvable(bin) && Defined(operand, env) && Defined(result, env)
    requires bin.Mul? ==>
               var sign := RecordedSign(an, sets, operand);
               (sign.Positive? && Eval(operand, env) > 0) || (sign.Negative? && Eval(operand, env) < 0)
    ensures var out, y, r := Undo(an, sets, bin, left, operand, op, result), Eval(operand, env), Eval(result, env);
            var e := if left then Apply(bin, x, y) else Apply(bin, y, x);
            && !out.Abort? && (out.Bound? <==> !bin.Mul? || !op.Equal? || Divided(an, result, operand))
            && (out.Bound? ==>
                  && Defined(out.result, env) && (out.op.Equal? <==> op.Equal?)
                  && (Satisfies(out.op, x, Eval(out.result, env)) <==>
                        Satisfies(op, e, r) && (IsLoose(an, bin, operand, out, result) ==> e != r)))
  {
    hide UndoMul, Build, Divided, Neg, RecordedSign, Analyzer.Valid;
    if bin.Mul? {
      UndoMulIs(an, sets, operand, op, result, env, x);
      assert x * Eval(operand, env) == Eval(operand, env) * x;
    } else {
      NotInfinite(operand, env);
      NotInfinite(result, env);
      BuildKeepsValue(Add, result, operand, env);
      BuildKeepsValue(Sub, result, operand, env);
      NegKeepsValue(Build(Sub, result, operand).value, env);
    }
  }

  lemma UndoVars(an: Analyzer, sets: SetMap, bin: BinOp, left: bool, operand: Expr, op: CompareOp, result: Expr, x: string)
    requires Undo(an, sets, bin, left, operand, op, result).Bound? && !Uses(operand, x) && !Uses(result, x)
    ensures !Uses(Undo(an, sets, bin, left, operand, op, result).result, x)
  {
    hide UndoMul, Build, Uses;
    var out := Undo(an, sets, bin, left, operand, op, result).result;
    if Uses(out, x) {
      if bin.Mul? {
        UndoMulVars(an, sets, operand, op, result, x);
      } else if bin.Sub? && left {
        BuildVars(Add, result, operand, x);
      } else {
        var r := Build(Sub, result, operand).value;
        if bin.Sub? { NegVars(r, x); }
        BuildVars(Sub, result, operand, x);
      }
    }
  }

  lemma NegVars(e: Expr, x: string)
    requires Uses(Neg(e), x)
    ensures Uses(e, x)
  {
    if !e.IntImm? { BuildVars(Sub, IntImm(0), e, x); }
  }

  // ---- the walk ----

  /** How many factors on the way are loose. */
  function Loose(an: Analyzer, sets: SetMap, target: string, e: Expr, op: CompareOp, result: Expr): nat {
    if !e.Bin? then 0
    else
      var other := Other(e, target);
      var step := Undo(an, sets, e.op, Uses(e.a, target), other, op, result);
      (if IsLoose(an, e.op, other, step, result) then 1 else 0)
      + if step.Bound? then Loose(an, sets, target, Child(e, target), step.op, step.result) else 0
  }

  function Factors(e: Expr, target: string): nat {
    if !e.Bin? then 0 else (if e.op.Mul? then 1 else 0) + Factors(Child(e, target), target)
  }

  lemma {:induction false} LooseAreFactors(
    an: Analyzer, sets: SetMap, target: string, e: Expr, op: CompareOp, result: Expr)
    ensures Loose(an, sets, target, e, op, result) <= Factors(e, target)
    decreases e
  {
    hide Undo, Divided;
    if e.Bin? {
      var step := Undo(an, sets, e.op, Uses(e.a, target), Other(e, target), op, result);
      if step.Bound? { LooseAreFactors(an, sets, target, Child(e, target), step.op, step.result); }
    }
  }

  /** Every division on the way is proved. */
  predicate DividesAll(an: Analyzer, sets: SetMap, target: string, e: Expr, op: CompareOp, result: Expr) {
    e.Bin? ==>
      var other := Other(e, target);
      var step := Undo(an, sets, e.op, Uses(e.a, target), other, op, result);
      && (e.op.Mul? ==> Divided(an, result, other))
      && (step.Bound? ==> DividesAll(an, sets, target, Child(e, target), step.op, step.result))
  }

  lemma SolveTurn(an: Analyzer, sets: SetMap, target: string, e: Expr, op: CompareOp, result: Expr)
    requires Walk(e, target) && e != Var(target)
    ensures e.Bin?
    ensures var step := Undo(an, sets, e.op, Uses(e.a, target), Other(e, target), op, result);
            Solve(an, sets, target, e, op, result)
              == if step.Bound? then Solve(an, sets, target, Child(e, target), step.op, step.result) else step
  {
    hide Undo;
    WalkStep(e, target);
  }

  /** The signs that are known are right. */
  lemma {:induction false} SignsAreRight(an: Analyzer, hint: DomMap, sets: SetMap, target: string, e: Expr, env: Env)
    requires an.Valid() && InDomain(hint, env) && Entries(an, hint, sets)
    requires Walk(e, target) && Defined(e, env) && FactorsFit(an, hint, target, e, env) && SignsKnown(an, sets, e, target)
    ensures FactorsNonzero(e, target, env)
    decreases e
  {
    hide FitsAtAnyDepth, Entries, InDomain, Analyzer.Valid, RecordedSign;
    if e != Var(target) {
      WalkStep(e, target);
      if e.op.Mul? { RecordedSignIsRight(an, hint, sets, Other(e, target), env); }
      SignsAreRight(an, hint, sets, target, Child(e, target), env);
    }
  }

  predicate Near(t: int, t0: int, k: nat) { t0 - k <= t <= t0 + k }

  /** The comparison holds at the target's value and at so many values on both sides of it. */
  ghost predicate HoldsNear(target: string, e: Expr, op: CompareOp, r: int, env: Env, k: nat) {
    forall t :: Near(t, env(target), k) ==> Satisfies(op, Eval(e, With(env, target, t)), r)
  }

  /** Where a comparison holds on both sides, no product is at its bound. */
  lemma NoTie(e: Expr, target: string, op: CompareOp, r: int, env: Env, t: int)
    requires Walk(e, target) && FactorsNonzero(e, target, env) && !op.Equal?
    requires Satisfies(op, Eval(e, With(env, target, t - 1)), r) && Satisfies(op, Eval(e, With(env, target, t + 1)), r)
    ensures Eval(e, With(env, target, t)) != r
  {
    WalkIsLinear(e, target, env, t - 1);
    WalkIsLinear(e, target, env, t);
  }

  /** One turn: near enough to the target's value the comparison of the child holds too. */
  lemma StepNear(an: Analyzer, sets: SetMap, target: string, e: Expr, op: CompareOp, result: Expr, env: Env, k: nat, k': nat)
    requires an.Valid() && Walk(e, target) && e != Var(target) && FactorsNonzero(e, target, env)
    requires Defined(e, env) && Defined(result, env)
    requires e.Bin? && (e.op.Mul? ==>
               var sign, y := RecordedSign(an, sets, Other(e, target)), Eval(Other(e, target), env);
               (sign.Positive? && y > 0) || (sign.Negative? && y < 0))
    requires var step := Undo(an, sets, e.op, Uses(e.a, target), Other(e, target), op, result);
             && step.Bound?
             && k == k' + if IsLoose(an, e.op, Other(e, target), step, result) then 1 else 0
    requires HoldsNear(target, e, op, Eval(result, env), env, k)
    ensures var step := Undo(an, sets, e.op, Uses(e.a, target), Other(e, target), op, result);
            Defined(step.result, env) && HoldsNear(target, Child(e, target), step.op, Eval(step.result, env), env, k')
  {
    hide Undo, RecordedSign, Divided, Analyzer.Valid, Walk, FactorsNonzero;
    var left, child, other := Uses(e.a, target), Child(e, target), Other(e, target);
    var step := Undo(an, sets, e.op, left, other, op, result);
    WalkStep(e, target);
    forall t | Near(t, env(target), k')
      ensures Defined(step.result, env) && Satisfies(step.op, Eval(child, With(env, target, t)), Eval(step.result, env))
    {
      EvalWith(other, target, env, t);
      UndoIs(an, sets, e.op, left, other, op, result, env, Eval(child, With(env, target, t)));
      assert Near(t, env(target), k);
      if IsLoose(an, e.op, other, step, result) {
        assert Near(t - 1, env(target), k) && Near(t + 1, env(target), k);
        NoTie(e, target, op, Eval(result, env), env, t);
      }
    }
    assert Near(env(target), env(target), k');
  }

  /** What the theorems below ask of a walk: signs that are known, and by sets that fit. */
  ghost predicate Solves(an: Analyzer, hint: DomMap, sets: SetMap, target: string, e: Expr, env: Env) {
    && Walk(e, target) && Defined(e, env) && Entries(an, hint, sets)
    && FactorsFit(an, hint, target, e, env) && SignsKnown(an, sets, e, target)
  }

  lemma SolvesStep(an: Analyzer, hint: DomMap, sets: SetMap, target: string, e: Expr, env: Env)
    requires an.Valid() && InDomain(hint, env) && Solves(an, hint, sets, target, e, env) && e != Var(target)
    ensures e.Bin? && Solves(an, hint, sets, target, Child(e, target), env) && Defined(Other(e, target), env)
    ensures Solvable(e.op) && !Uses(Other(e, target), target)
    ensures e.op.Mul? ==>
              var sign, y := RecordedSign(an, sets, Other(e, target)), Eval(Other(e, target), env);
              (sign.Positive? && y > 0) || (sign.Negative? && y < 0)
  {
    hide FitsAtAnyDepth, Entries, InDomain, Analyzer.Valid, RecordedSign;
    WalkStep(e, target);
    if e.op.Mul? { RecordedSignIsRight(an, hint, sets, Other(e, target), env); }
  }

  /** An inequality is solved, and an equation exactly when every division is proved. */
  lemma {:induction false} SolveSucceeds(
    an: Analyzer, hint: DomMap, sets: SetMap, target: string, e: Expr, op: CompareOp, result: Expr, env: Env)
    requires an.Valid() && InDomain(hint, env) && Solves(an, hint, sets, target, e, env)
    requires Defined(result, env) && !Uses(result, target)
    ensures var out := Solve(an, sets, target, e, op, result);
            && !out.Abort?
            && (out.Bound? <==> !op.Equal? || DividesAll(an, sets, target, e, op, result))
            && (out.Bound? ==>
                  Defined(out.result, env) && !Uses(out.result, target) && (out.op.Equal? <==> op.Equal?))
    decreases e
  {
    hide Undo, Divided, Solves, InDomain, Analyzer.Valid, Uses;
    if e != Var(target) {
      hide Solve;
      SolvesStep(an, hint, sets, target, e, env);
      WalkOf(an, hint, sets, target, e, env);
      SolveTurn(an, sets, target, e, op, result);
      var left, other := Uses(e.a, target), Other(e, target);
      var step := Undo(an, sets, e.op, left, other, op, result);
      UndoIs(an, sets, e.op, left, other, op, result, env, 0);
      if step.Bound? {
        UndoVars(an, sets, e.op, left, other, op, result, target);
        SolveSucceeds(an, hint, sets, target, Child(e, target), step.op, step.result, env);
      }
    }
  }

  lemma WalkOf(an: Analyzer, hint: DomMap, sets: SetMap, target: string, e: Expr, env: Env)
    requires Solves(an, hint, sets, target, e, env)
    ensures Walk(e, target) && Defined(e, env)
  {}

  /** Where the comparison holds at the target's value and around it, the value is within the bound. */
  lemma {:induction false} SolveCovers(
    an: Analyzer, hint: DomMap, sets: SetMap, target: string, e: Expr, op: CompareOp, result: Expr, env: Env)
    requires an.Valid() && InDomain(hint, env) && Solves(an, hint, sets, target, e, env)
    requires Defined(result, env) && !Uses(result, target) && Solve(an, sets, target, e, op, result).Bound?
    requires HoldsNear(target, e, op, Eval(result, env), env, Loose(an, sets, target, e, op, result))
    ensures var out := Solve(an, sets, target, e, op, result);
            Satisfies(out.op, env(target), Eval(out.result, env))
    decreases e
  {
    hide Undo, Divided, Solves, InDomain, Analyzer.Valid, Uses;
    WalkOf(an, hint, sets, target, e, env);
    if e == Var(target) {
      assert Near(env(target), env(target), 0);
    } else {
      hide Solve, HoldsNear;
      SolvesStep(an, hint, sets, target, e, env);
      SolveTurn(an, sets, target, e, op, result);
      var left, other, child := Uses(e.a, target), Other(e, target), Child(e, target);
      var step := Undo(an, sets, e.op, left, other, op, result);
      UndoIs(an, sets, e.op, left, other, op, result, env, 0);
      UndoVars(an, sets, e.op, left, other, op, result, target);
      NonzeroOf(an, hint, sets, target, e, env);
      StepNear(an, sets, target, e, op, result, env, Loose(an, sets, target, e, op, result),
               Loose(an, sets, target, child, step.op, step.result));
      SolveCovers(an, hint, sets, target, child, step.op, step.result, env);
    }
  }

  lemma NonzeroOf(an: Analyzer, hint: DomMap, sets: SetMap, target: string, e: Expr, env: Env)
    requires an.Valid() && InDomain(hint, env) && Solves(an, hint, sets, target, e, env)
    ensures FactorsNonzero(e, target, env)
  {
    SignsAreRight(an, hint, sets, target, e, env);
  }

  // ---- nothing relaxed ----

  /** The side of a comparison that holds the target. */
  function Side(cond: Cond, target: string): Expr
    requires cond.Cmp?
  {
    if Uses(cond.l, target) then cond.l else cond.r
  }

  lemma LineProblem(cond: Cond, target: string)
    requires Line(cond, target)
    ensures Occurrences(CondVars(cond), target) == 1
    ensures var p := Transform(cond, target);
            && p.Some? && p.value.expr == Side(cond, target) && Walk(p.value.expr, target) && !Uses(p.value.result, target)
            && (p.value.op.Equal? <==> cond.cmp.EQ?)
  {
    hide Make, Walk;
    var left := Walk(cond.l, target) && !Uses(cond.r, target);
    var other := if left then cond.r else cond.l;
    WalkUses(if left then cond.l else cond.r, target);
    NoOccurrence(Vars(other), target);
    OccurrencesConcat(Vars(cond.l), Vars(cond.r), target);
    ByOneVars(other, target);
  }

  lemma ByOneVars(e: Expr, x: string)
    requires !Uses(e, x)
    ensures !Uses(Make(Add, e, IntImm(1)), x) && !Uses(Make(Sub, e, IntImm(1)), x)
  {
    if Uses(Make(Add, e, IntImm(1)), x) { BuildVars(Add, e, IntImm(1), x); }
    if Uses(Make(Sub, e, IntImm(1)), x) { BuildVars(Sub, e, IntImm(1), x); }
  }

  lemma RelaxNothing(an: Analyzer, relax: DomMap, cond: Cond, target: string)
    requires an.Valid() && Line(cond, target) && (cond.cmp.EQ? ==> an.ProvesReflexive())
    requires Untouched(relax.Keys, cond.l) && Untouched(relax.Keys, cond.r) && !cond.l.Inf? && !cond.r.Inf?
    ensures var p := Transform(cond, target); p.Some? && Relax(an, relax, p.value) == RelaxTo(p.value.expr, p.value.result)
  {
    hide EvalSet, Walk, Make, Analyzer.SimplifyKeepsValue, Analyzer.SimplifyKeepsVars, Analyzer.ProvesOnlyTruths;
    LineProblem(cond, target);
    var p := Transform(cond, target).value;
    ResultUntouched(relax.Keys, cond.l);
    ResultUntouched(relax.Keys, cond.r);
    UntouchedIsPoint(an, relax.Keys, relax, p.expr, 0);
    UntouchedIsPoint(an, relax.Keys, relax, p.result, 0);
    ReflexiveEnds(an, p.expr);
    ReflexiveEnds(an, p.result);
  }

  lemma ResultUntouched(vs: set<string>, e: Expr)
    requires Untouched(vs, e)
    ensures Untouched(vs, Make(Add, e, IntImm(1))) && Untouched(vs, Make(Sub, e, IntImm(1)))
    ensures !e.Inf? ==> !Make(Add, e, IntImm(1)).Inf? && !Make(Sub, e, IntImm(1)).Inf?
  {}

  lemma ReflexiveEnds(an: Analyzer, e: Expr)
    requires an.Valid()
    ensures an.ProvesReflexive() ==> CompareEnds(an, Point(e)) == Proved
    ensures CompareEnds(an, Point(e)) != Mismatch
  {
    assert e.IntImm? ==> MakeCmp(EQ, e, e) == BoolImm(true);
  }

  /** The conditions on a comparison: it does not mention what is relaxed, and its hints can be evaluated. */
  ghost predicate Plain(an: Analyzer, target: string, cond: Cond, hint: DomMap, relax: DomMap, env: Env) {
    && Line(cond, target) && CondDefined(cond, env) && InDomain(hint, env)
    && Untouched(relax.Keys, cond.l) && Untouched(relax.Keys, cond.r)
    && EvalSet(an, hint, Side(cond, target)).Some?
    && FactorsFit(an, hint, target, Side(cond, target), env)
  }

  /** And the signs of its factors are known. */
  ghost predicate Solvables(an: Analyzer, target: string, cond: Cond, hint: DomMap, relax: DomMap, env: Env) {
    && Plain(an, target, cond, hint, relax, env)
    && SignsKnown(an, SubExprSetsOf(an, hint, Side(cond, target)), Side(cond, target), target)
  }

  lemma PlainSolve(an: Analyzer, target: string, cond: Cond, hint: DomMap, relax: DomMap, env: Env)
    requires an.Valid() && Plain(an, target, cond, hint, relax, env) && (cond.cmp.EQ? ==> an.ProvesReflexive())
    ensures var p := Transform(cond, target);
            && p.Some? && Defined(p.value.expr, env) && Defined(p.value.result, env) && !Uses(p.value.result, target)
            && p.value.expr == Side(cond, target) && Walk(p.value.expr, target) && EvalSet(an, hint, p.value.expr).Some?
            && FactorsFit(an, hint, target, p.value.expr, env)
            && Entries(an, hint, SubExprSetsOf(an, hint, p.value.expr))
            && Deduce(an, target, cond, hint, relax)
                 == Solve(an, SubExprSetsOf(an, hint, p.value.expr), target, p.value.expr, p.value.op, p.value.result)
  {
    hide EvalSet, Solve, Walk, FactorsFit, SubExprSetsOf, Entries, Untouched, Relax, InDomain;
    hide Analyzer.Valid, Occurrences, Transform;
    LineProblem(cond, target);
    var p := Transform(cond, target).value;
    TransformMeaning(cond, target, env);
    SidesFinite(cond, env);
    RelaxNothing(an, relax, cond, target);
    SubExprSetsMeaning(an, hint, p.expr);
    WalkUses(p.expr, target);
  }

  lemma SolvablesSolve(an: Analyzer, target: string, cond: Cond, hint: DomMap, relax: DomMap, env: Env)
    requires an.Valid() && Solvables(an, target, cond, hint, relax, env) && (cond.cmp.EQ? ==> an.ProvesReflexive())
    ensures var p := Transform(cond, target);
            && p.Some? && Defined(p.value.result, env) && !Uses(p.value.result, target)
            && p.value.expr == Side(cond, target) && EvalSet(an, hint, p.value.expr).Some?
            && Solves(an, hint, SubExprSetsOf(an, hint, p.value.expr), target, p.value.expr, env)
            && Deduce(an, target, cond, hint, relax)
                 == Solve(an, SubExprSetsOf(an, hint, p.value.expr), target, p.value.expr, p.value.op, p.value.result)
  {
    hide EvalSet, Solve, Walk, FactorsFit, SignsKnown, SubExprSetsOf, Entries, InDomain, Analyzer.Valid, Transform, Deduce;
    PlainSolve(an, target, cond, hint, relax, env);
  }

  lemma SidesFinite(cond: Cond, env: Env)
    requires cond.Cmp? && CondDefined(cond, env)
    ensures !cond.l.Inf? && !cond.r.Inf?
  {}

  /** How many factors of the comparison are loose. */
  function Slack(an: Analyzer, target: string, cond: Cond, hint: DomMap): nat
    requires Transform(cond, target).Some? && EvalSet(an, hint, Transform(cond, target).value.expr).Some?
  {
    var p := Transform(cond, target).value;
    Loose(an, SubExprSetsOf(an, hint, p.expr), target, p.expr, p.op, p.result)
  }

  /** Every division on the way is proved. */
  predicate AllDivided(an: Analyzer, target: string, cond: Cond, hint: DomMap)
    requires Transform(cond, target).Some? && EvalSet(an, hint, Transform(cond, target).value.expr).Some?
  {
    var p := Transform(cond, target).value;
    DividesAll(an, SubExprSetsOf(an, hint, p.expr), target, p.expr, p.op, p.result)
  }

  ghost predicate CondHoldsNear(target: string, cond: Cond, env: Env, k: nat) {
    forall t :: Near(t, env(target), k) ==> Holds(cond, With(env, target, t))
  }

  lemma NearProblem(target: string, cond: Cond, env: Env, k: nat)
    requires Line(cond, target) && CondDefined(cond, env) && CondHoldsNear(target, cond, env, k)
    ensures Transform(cond, target).Some?
    ensures var p := Transform(cond, target).value;
            HoldsNear(target, p.expr, p.op, Eval(p.result, env), env, k)
  {
    hide Holds, Transform, Walk;
    LineProblem(cond, target);
    var p := Transform(cond, target).value;
    forall t | Near(t, env(target), k)
      ensures Satisfies(p.op, Eval(p.expr, With(env, target, t)), Eval(p.result, env))
    {
      var other := With(env, target, t);
      LineDefined(cond, target, env, t);
      TransformMeaning(cond, target, other);
      EvalWith(p.result, target, env, t);
    }
  }

  lemma LineDefined(cond: Cond, target: string, env: Env, t: int)
    requires Line(cond, target) && CondDefined(cond, env)
    ensures CondDefined(cond, With(env, target, t))
  {
    hide Walk;
    if Walk(cond.l, target) && !Uses(cond.r, target) {
      EvalWith(cond.r, target, env, t);
      WalkDefined(cond.l, target, env, t);
    } else {
      EvalWith(cond.l, target, env, t);
      WalkDefined(cond.r, target, env, t);
    }
  }

  lemma {:induction false} WalkDefined(e: Expr, target: string, env: Env, t: int)
    requires Walk(e, target) && Defined(e, env)
    ensures Defined(e, With(env, target, t))
  {
    if e != Var(target) {
      WalkStep(e, target);
      WalkDefined(Child(e, target), target, env, t);
      EvalWith(Other(e, target), target, env, t);
    }
  }

  /**
   With any operands, whose factors have known signs: an inequality always gets a bound, and an equation exactly
   when every division is proved. A value inside makes the comparison true; and a value is inside if the comparison
   holds there and at as many values on both sides as there are loose factors. So without a loose factor the
   interval is exactly the set of solutions.
   */
  lemma DeduceComplete(an: Analyzer, target: string, cond: Cond, hint: DomMap, relax: DomMap, env: Env)
    requires an.Valid() && Solvables(an, target, cond, hint, relax, env) && (cond.cmp.EQ? ==> an.ProvesReflexive())
    ensures Transform(cond, target).Some? && EvalSet(an, hint, Transform(cond, target).value.expr).Some?
    ensures var out, k := Deduce(an, target, cond, hint, relax), Slack(an, target, cond, hint);
            && !out.Abort? && (out.Bound? <==> !cond.cmp.EQ? || AllDivided(an, target, cond, hint))
            && k <= Factors(Side(cond, target), target)
            && (out.Bound? && Contains(ToInterval(out), env, env(target)) ==> Holds(cond, env))
            && (out.Bound? && CondHoldsNear(target, cond, env, k) ==> Contains(ToInterval(out), env, env(target)))
            && (out.Bound? && k == 0 ==> (Contains(ToInterval(out), env, env(target)) <==> Holds(cond, env)))
  {
    hide EvalSet, Solve, Relax, Transform, Deduce, DeductionFits, Solves, Solvables, SubExprSetsOf, InDomain, Loose;
    hide DividesAll, Analyzer.Valid, Holds, CondHoldsNear, HoldsNear, Occurrences;
    SolvablesSolve(an, target, cond, hint, relax, env);
    SolvablesAre(an, target, cond, hint, relax, env);
    LineProblem(cond, target);
    var p, out, k := Transform(cond, target).value, Deduce(an, target, cond, hint, relax), Slack(an, target, cond, hint);
    var sets := SubExprSetsOf(an, hint, p.expr);
    SolveSucceeds(an, hint, sets, target, p.expr, p.op, p.result, env);
    LooseAreFactors(an, sets, target, p.expr, p.op, p.result);
    if out.Bound? {
      BoundContains(out, env, env(target));
      if CondHoldsNear(target, cond, env, k) {
        NearProblem(target, cond, env, k);
        SolveCovers(an, hint, sets, target, p.expr, p.op, p.result, env);
      }
      if Contains(ToInterval(out), env, env(target)) {
        SolvesFit(an, hint, sets, target, p.expr, env);
        SolveSound(an, hint, sets, target, p.expr, p.op, p.result, env);
        TransformMeaning(cond, target, env);
      }
      if k == 0 && Holds(cond, env) { HoldsNearby(target, cond, env); }
    }
  }

  lemma SolvablesAre(an: Analyzer, target: string, cond: Cond, hint: DomMap, relax: DomMap, env: Env)
    requires Solvables(an, target, cond, hint, relax, env)
    ensures Line(cond, target) && CondDefined(cond, env) && InDomain(hint, env)
  {}

  lemma SolvesFit(an: Analyzer, hint: DomMap, sets: SetMap, target: string, e: Expr, env: Env)
    requires Solves(an, hint, sets, target, e, env)
    ensures Defined(e, env) && Entries(an, hint, sets) && FactorsFit(an, hint, target, e, env)
  {}

  lemma BoundContains(out: Outcome, env: Env, n: int)
    requires out.Bound? && Defined(out.result, env)
    ensures Contains(ToInterval(out), env, n) <==> Satisfies(out.op, n, Eval(out.result, env))
  {}

  lemma HoldsNearby(target: string, cond: Cond, env: Env)
    requires Holds(cond, env)
    ensures CondHoldsNear(target, cond, env, 0)
  {
    forall t | Near(t, env(target), 0) ensures Holds(cond, With(env, target, t)) {
      AgreeHolds(cond, With(env, target, t), env);
    }
  }

  // ---- sums ----

  /** Without a factor nothing is asked of the analyzer or of the recorded sets. */
  lemma {:induction false} SumsNeedNothing(an: Analyzer, hint: DomMap, sets: SetMap, target: string, e: Expr, env: Env)
    requires Walk(e, target) && Factors(e, target) == 0
    ensures SignsKnown(an, sets, e, target) && FactorsFit(an, hint, target, e, env)
    decreases e
  {
    hide RecordedSign, FitsAtAnyDepth;
    if e != Var(target) {
      WalkStep(e, target);
      SumsNeedNothing(an, hint, sets, target, Child(e, target), env);
    }
  }

  lemma {:induction false} SumsDivide(an: Analyzer, sets: SetMap, target: string, e: Expr, op: CompareOp, result: Expr)
    requires Factors(e, target) == 0
    ensures DividesAll(an, sets, target, e, op, result)
    decreases e
  {
    hide Undo, Divided;
    if e.Bin? {
      var step := Undo(an, sets, e.op, Uses(e.a, target), Other(e, target), op, result);
      if step.Bound? { SumsDivide(an, sets, target, Child(e, target), step.op, step.result); }
    }
  }

  /** The target under sums and differences with any operands: the interval is exactly the set of solutions. */
  lemma DeduceSums(an: Analyzer, target: string, cond: Cond, hint: DomMap, relax: DomMap, env: Env)
    requires an.Valid() && Line(cond, target) && (cond.cmp.EQ? ==> an.ProvesReflexive())
    requires CondDefined(cond, env) && InDomain(hint, env)
    requires Untouched(relax.Keys, cond.l) && Untouched(relax.Keys, cond.r)
    requires EvalSet(an, hint, Side(cond, target)).Some? && Factors(Side(cond, target), target) == 0
    ensures var out := Deduce(an, target, cond, hint, relax);
            out.Bound? && (Contains(ToInterval(out), env, env(target)) <==> Holds(cond, env))
  {
    hide EvalSet, Deduce, Transform, Holds, InDomain, Untouched, Analyzer.Valid, Loose, DividesAll, Contains, Walk, Factors;
    hide SubExprSetsOf, SignsKnown, FactorsFit;
    LineProblem(cond, target);
    var p := Transform(cond, target).value;
    var sets := SubExprSetsOf(an, hint, p.expr);
    SumsNeedNothing(an, hint, sets, target, p.expr, env);
    SumsDivide(an, sets, target, p.expr, p.op, p.result);
    DeduceComplete(an, target, cond, hint, relax, env);
  }

  // ---- a sign that is not known ----

  predicate SignsNonzero(an: Analyzer, sets: SetMap, e: Expr, target: string) {
    e.Bin? ==>
      && (e.op.Mul? ==> !RecordedSign(an, sets, Other(e, target)).Zero?)
      && SignsNonzero(an, sets, Child(e, target), target)
  }

  /** A factor whose sign is not known makes the deduction fail. */
  lemma {:induction false} SolveFails(
    an: Analyzer, hint: DomMap, sets: SetMap, target: string, e: Expr, op: CompareOp, result: Expr, env: Env)
    requires an.Valid() && InDomain(hint, env) && Entries(an, hint, sets) && Walk(e, target) && Defined(e, env)
    requires FactorsFit(an, hint, target, e, env) && SignsNonzero(an, sets, e, target) && !SignsKnown(an, sets, e, target)
    requires Defined(result, env)
    ensures Solve(an, sets, target, e, op, result) == Fail
    decreases e
  {
    hide Divided, InDomain, Entries, Analyzer.Valid, FitsAtAnyDepth, RecordedSign, Solve;
    WalkStep(e, target);
    SolveTurn(an, sets, target, e, op, result);
    var left, other := Uses(e.a, target), Other(e, target);
    if !(e.op.Mul? && RecordedSign(an, sets, other).Unknown?) {
      if e.op.Mul? { RecordedSignIsRight(an, hint, sets, other, env); }
      UndoIs(an, sets, e.op, left, other, op, result, env, 0);
      var step := Undo(an, sets, e.op, left, other, op, result);
      if step.Bound? { SolveFails(an, hint, sets, target, Child(e, target), step.op, step.result, env); }
    }
  }

  /** So an inequality gets a bound exactly when every sign is known, none being zero. */
  lemma BoundIff(an: Analyzer, target: string, cond: Cond, hint: DomMap, relax: DomMap, env: Env)
    requires an.Valid() && Plain(an, target, cond, hint, relax, env) && !cond.cmp.EQ?
    requires SignsNonzero(an, SubExprSetsOf(an, hint, Side(cond, target)), Side(cond, target), target)
    ensures var out := Deduce(an, target, cond, hint, relax);
            && (out.Bound? <==> SignsKnown(an, SubExprSetsOf(an, hint, Side(cond, target)), Side(cond, target), target))
            && (out.Bound? || out.Fail?)
  {
    hide EvalSet, Solve, Walk, FactorsFit, SignsKnown, SignsNonzero, SubExprSetsOf, Entries, Analyzer.Valid, Transform;
    hide Deduce, Untouched, CondDefined, Slack, AllDivided, CondHoldsNear, Contains, Holds, InDomain;
    PlainSolve(an, target, cond, hint, relax, env);
    var p := Transform(cond, target).value;
    var sets := SubExprSetsOf(an, hint, p.expr);
    if SignsKnown(an, sets, p.expr, target) {
      DeduceComplete(an, target, cond, hint, relax, env);
    } else {
      SolveFails(an, hint, sets, target, p.expr, p.op, p.result, env);
    }
  }

  // ---- relaxed variables ----

  /** other gives the variables of the map any values in their sets, and is env elsewhere. */
  ghost predicate RelaxedFrom(dom: DomMap, env: Env, other: Env) {
    forall x :: if x in dom then Eval(dom[x].Min(), env) <= other(x) <= Eval(dom[x].Max(), env) else other(x) == env(x)
  }

  lemma {:induction false} OnceDefined(vs: set<string>, e: Expr, env: Env, other: Env)
    requires Once(vs, e) && Defined(e, env) && forall x :: x !in vs ==> env(x) == other(x)
    ensures Defined(e, other)
  {
    if Untouched(vs, e) {
      UntouchedFree(vs, e);
      AgreeEval(e, env, other);
    } else if e.Bin? {
      OnceDefined(vs, e.a, env, other);
      OnceDefined(vs, e.b, env, other);
      if Untouched(vs, e.b) {
        UntouchedFree(vs, e.b);
        AgreeEval(e.b, env, other);
      }
    }
  }

  lemma OnceByOne(vs: set<string>, e: Expr)
    requires Once(vs, e)
    ensures Once(vs, Make(Add, e, IntImm(1))) && Once(vs, Make(Sub, e, IntImm(1)))
  {
    var one := IntImm(1);
    assert forall n :: Once(vs, IntImm(n));
    assert Apart(vs, e, one);
    assert Once(vs, Bin(Add, e, one)) && Once(vs, Bin(Sub, e, one));
  }

  /** Both ends of a problem's sets are attained at once, with the relaxed variables in their sets. */
  lemma ProblemAttained(an: Analyzer, dom: DomMap, e: Expr, r: Expr, env: Env, low: bool) returns (other: Env)
    requires an.Valid() && Bounded(dom, env) && RelaxedFrom(dom, env, env)
    requires Once(dom.Keys, e) && Once(dom.Keys, r) && Apart(dom.Keys, e, r) && Defined(e, env) && Defined(r, env)
    ensures RelaxedFrom(dom, env, other)
    ensures var a, b := EvalSet(an, dom, e), EvalSet(an, dom, r);
            && a.Some? && b.Some? && EndsDefined(a.value, env) && EndsDefined(b.value, env)
            && Eval(e, other) == Eval(if low then a.value.Min() else a.value.Max(), env)
            && Eval(r, other) == Eval(if low then b.value.Max() else b.value.Min(), env)
  {
    hide EvalSet, Once, Analyzer.Valid, Bounded, RelaxedFrom, AtEnds, Apart;
    EndsExist(an, dom, e, env);
    EndsExist(an, dom, r, env);
    var a, b := EvalSet(an, dom, e).value, EvalSet(an, dom, r).value;
    var first := EndsAttained(an, dom, e, env, Eval(if low then a.Min() else a.Max(), env));
    var second := EndsAttained(an, dom, r, env, Eval(if low then b.Max() else b.Min(), env));
    other := Merged(dom, r, first, second);
    MergedRelaxed(dom, e, r, env, first, second);
  }

  lemma MergedRelaxed(dom: DomMap, e: Expr, r: Expr, env: Env, first: Env, second: Env)
    requires Bounded(dom, env) && RelaxedFrom(dom, env, env) && Apart(dom.Keys, e, r)
    requires AtEnds(dom, e, env, first) && AtEnds(dom, r, env, second)
    ensures var other := Merged(dom, r, first, second);
            RelaxedFrom(dom, env, other) && Eval(e, other) == Eval(e, first) && Eval(r, other) == Eval(r, second)
  {
    hide Untouched, Defined;
    var other := Merged(dom, r, first, second);
    AgreeEval(e, other, first);
    AgreeEval(r, other, second);
  }

  /** The two ends that are compared after relaxing. */
  function RelaxedEnds(an: Analyzer, relax: DomMap, p: Problem): (Expr, Expr)
    requires EvalSet(an, relax, p.expr).Some? && EvalSet(an, relax, p.result).Some?
  {
    var a, b := EvalSet(an, relax, p.expr).value, EvalSet(an, relax, p.result).value;
    if p.op.Greater? then (a.Min(), b.Max()) else (a.Max(), b.Min())
  }

  /** Sides in which the relaxed variables are attained, with bounds that do not mention the target. */
  ghost predicate Relaxable(target: string, cond: Cond, relax: DomMap, env: Env) {
    && cond.Cmp? && !cond.cmp.EQ? && !cond.cmp.NE? && Occurrences(CondVars(cond), target) == 1 && target !in relax
    && Once(relax.Keys, cond.l) && Once(relax.Keys, cond.r) && Apart(relax.Keys, cond.l, cond.r)
    && (forall t :: CondDefined(cond, With(env, target, t)))
    && Bounded(relax, env) && RelaxedFrom(relax, env, env)
    && forall x :: x in relax ==> !Uses(relax[x].Min(), target) && !Uses(relax[x].Max(), target)
  }

  lemma BoundedWith(relax: DomMap, target: string, env: Env, t: int)
    requires target !in relax && Bounded(relax, env) && RelaxedFrom(relax, env, env)
    requires forall x :: x in relax ==> !Uses(relax[x].Min(), target) && !Uses(relax[x].Max(), target)
    ensures var other := With(env, target, t); Bounded(relax, other) && RelaxedFrom(relax, other, other)
  {
    hide Untouched, Uses;
    var other := With(env, target, t);
    forall x | x in relax
      ensures EndsDefined(relax[x], other)
      ensures Eval(relax[x].Min(), other) == Eval(relax[x].Min(), env)
      ensures Eval(relax[x].Max(), other) == Eval(relax[x].Max(), env)
    {
      EvalWith(relax[x].Min(), target, env, t);
      EvalWith(relax[x].Max(), target, env, t);
    }
  }

  lemma RelaxableProblem(target: string, cond: Cond, relax: DomMap, env: Env)
    requires Relaxable(target, cond, relax, env)
    ensures var p := Transform(cond, target);
            && p.Some? && !p.value.op.Equal?
            && Once(relax.Keys, p.value.expr) && Once(relax.Keys, p.value.result)
            && Apart(relax.Keys, p.value.expr, p.value.result)
  {
    hide Once, Bounded, RelaxedFrom, Make;
    OnceByOne(relax.Keys, cond.l);
    OnceByOne(relax.Keys, cond.r);
    var p := Transform(cond, target).value;
    forall x | x in relax.Keys && Uses(p.expr, x) ensures !Uses(p.result, x) {
      if !Uses(cond.l, x) { ByOneVars(cond.l, x); }
      if !Uses(cond.r, x) { ByOneVars(cond.r, x); }
    }
  }

  /** One value of the target: if the comparison holds for all relaxed values, so does that of the ends. */
  lemma EndsHold(an: Analyzer, target: string, cond: Cond, relax: DomMap, env: Env, t: int)
    requires an.Valid() && Relaxable(target, cond, relax, env)
    requires forall other :: RelaxedFrom(relax, With(env, target, t), other) ==> Holds(cond, other)
    ensures var p := Transform(cond, target);
            && p.Some? && EvalSet(an, relax, p.value.expr).Some? && EvalSet(an, relax, p.value.result).Some?
            && var (e, r) := RelaxedEnds(an, relax, p.value); var at := With(env, target, t);
               Defined(e, at) && Defined(r, at) && Satisfies(p.value.op, Eval(e, at), Eval(r, at))
  {
    hide EvalSet, Once, Apart, Holds, CondDefined, Bounded, Transform, Analyzer.Valid, Occurrences;
    RelaxableProblem(target, cond, relax, env);
    var p, at := Transform(cond, target).value, With(env, target, t);
    BoundedWith(relax, target, env, t);
    assert CondDefined(cond, at);
    TransformMeaning(cond, target, at);
    var other := ProblemAttained(an, relax, p.expr, p.result, at, p.op.Greater?);
    CondDefinedOnce(relax.Keys, cond, at, other);
    TransformMeaning(cond, target, other);
  }

  lemma CondDefinedOnce(vs: set<string>, cond: Cond, env: Env, other: Env)
    requires cond.Cmp? && Once(vs, cond.l) && Once(vs, cond.r) && CondDefined(cond, env)
    requires forall x :: x !in vs ==> env(x) == other(x)
    ensures CondDefined(cond, other)
  {
    OnceDefined(vs, cond.l, env, other);
    OnceDefined(vs, cond.r, env, other);
  }

  lemma RelaxesTo(an: Analyzer, relax: DomMap, p: Problem, env: Env)
    requires EvalSet(an, relax, p.expr).Some? && EvalSet(an, relax, p.result).Some? && !p.op.Equal?
    requires var (e, r) := RelaxedEnds(an, relax, p); Defined(e, env) && Defined(r, env)
    ensures var (e, r) := RelaxedEnds(an, relax, p); Relax(an, relax, p) == RelaxTo(e, r)
  {
    hide EvalSet;
  }

  /** The comparison holds for all values of the relaxed variables, at the target's value and around it. */
  ghost predicate HoldsForAll(target: string, cond: Cond, relax: DomMap, env: Env, k: nat) {
    forall t, other :: Near(t, env(target), k) && RelaxedFrom(relax, With(env, target, t), other) ==> Holds(cond, other)
  }

  /** The same of the comparison of the two ends. */
  lemma EndsHoldNear(an: Analyzer, target: string, cond: Cond, relax: DomMap, env: Env, k: nat)
    requires an.Valid() && Relaxable(target, cond, relax, env) && HoldsForAll(target, cond, relax, env, k)
    ensures var p := Transform(cond, target);
            && p.Some? && EvalSet(an, relax, p.value.expr).Some? && EvalSet(an, relax, p.value.result).Some?
            && var (e, r) := RelaxedEnds(an, relax, p.value);
               !Uses(r, target) ==> HoldsNear(target, e, p.value.op, Eval(r, env), env, k)
  {
    hide EvalSet, Relaxable, RelaxedFrom, Transform, Analyzer.Valid, Satisfies, Holds;
    assert Near(env(target), env(target), k);
    EndsHold(an, target, cond, relax, env, env(target));
    var p := Transform(cond, target).value;
    var (e, r) := RelaxedEnds(an, relax, p);
    if !Uses(r, target) {
      forall t | Near(t, env(target), k)
        ensures Satisfies(p.op, Eval(e, With(env, target, t)), Eval(r, env))
      {
        EndsHold(an, target, cond, relax, env, t);
        EvalWith(r, target, env, t);
      }
    }
  }

  /**
   No value outside the interval satisfies an inequality for all values of the relaxed variables, where each of them
   occurs once and the ends that are compared are solvable; loose factors count as before.
   */
  lemma DeduceTight(an: Analyzer, target: string, cond: Cond, hint: DomMap, relax: DomMap, env: Env)
    requires an.Valid() && Relaxable(target, cond, relax, env) && InDomain(hint, env)
    requires var p := Transform(cond, target);
             && p.Some? && EvalSet(an, relax, p.value.expr).Some? && EvalSet(an, relax, p.value.result).Some?
             && var (e, r) := RelaxedEnds(an, relax, p.value);
                && EvalSet(an, hint, e).Some? && Solves(an, hint, SubExprSetsOf(an, hint, e), target, e, env)
                && Defined(r, env) && !Uses(r, target)
                && HoldsForAll(target, cond, relax, env,
                               Loose(an, SubExprSetsOf(an, hint, e), target, e, p.value.op, r))
    ensures var out := Deduce(an, target, cond, hint, relax);
            out.Bound? && Contains(ToInterval(out), env, env(target))
  {
    hide EvalSet, Solve, Relax, RelaxedEnds, Transform, Solves, SubExprSetsOf, InDomain, Loose, Analyzer.Valid, HoldsNear;
    hide HoldsForAll, Contains, Once, Apart, Bounded, RelaxedFrom, CondDefined;
    RelaxableProblem(target, cond, relax, env);
    var p := Transform(cond, target).value;
    var (e, r) := RelaxedEnds(an, relax, p);
    var sets := SubExprSetsOf(an, hint, e);
    WalkOf(an, hint, sets, target, e, env);
    WalkUses(e, target);
    RelaxesTo(an, relax, p, env);
    SolveSucceeds(an, hint, sets, target, e, p.op, r, env);
    EndsHoldNear(an, target, cond, relax, env, Loose(an, sets, target, e, p.op, r));
    SolveCovers(an, hint, sets, target, e, p.op, r, env);
    BoundContains(Solve(an, sets, target, e, p.op, r), env, env(target));
  }

  // ---- an example ----

  /** a * 4 + b < c */
  function FourTimes(a: string, b: string, c: string): Cond {
    Cmp(LT, Bin(Add, Bin(Mul, Var(a), IntImm(4)), Var(b)), Var(c))
  }

  lemma FourTimesSets(a: string, b: string, c: string)
    ensures var side := FourTimes(a, b, c).l;
            && EvalSet(Literal, map[], side) == Some(Point(side))
            && RecordedSign(Literal, SubExprSetsOf(Literal, map[], side), IntImm(4)) == Positive
  {
    var side := FourTimes(a, b, c).l;
    UntouchedIsPoint(Literal, {}, map[], side, 0);
    SubExprSetsMeaning(Literal, map[], side);
    var sets := SubExprSetsOf(Literal, map[], side);
    assert Covers(sets, side.a) && Covers(sets, side.a.b);
    assert IsEntry(Literal, map[], IntImm(4), sets[IntImm(4)]);
  }

  lemma FourTimesIsLine(a: string, b: string, c: string)
    requires a != b && a != c
    ensures Line(FourTimes(a, b, c), a)
    ensures Untouched({}, FourTimes(a, b, c).l) && Untouched({}, FourTimes(a, b, c).r)
    ensures Transform(FourTimes(a, b, c), a) == Some(Problem(Less, FourTimes(a, b, c).l, Bin(Sub, Var(c), IntImm(1))))
  {
    var product := FourTimes(a, b, c).l.a;
    assert Walk(Var(a), a) && Walk(product, a) && Untouched({}, product);
    WalkUses(FourTimes(a, b, c).l, a);
  }

  lemma FourTimesSolved(sets: SetMap, a: string, b: string, c: string)
    requires a != b && a != c && RecordedSign(Literal, sets, IntImm(4)) == Positive
    ensures Solve(Literal, sets, a, FourTimes(a, b, c).l, Less, Bin(Sub, Var(c), IntImm(1)))
         == Bound(Less, Bin(FloorDiv, Bin(Sub, Bin(Sub, Var(c), IntImm(1)), Var(b)), IntImm(4)))
  {
    hide RecordedSign, Solve;
    var side, result := FourTimes(a, b, c).l, Bin(Sub, Var(c), IntImm(1));
    var product := side.a;
    assert Walk(Var(a), a) && Walk(product, a) && Walk(side, a);
    SolveTurn(Literal, sets, a, side, Less, result);
    SolveTurn(Literal, sets, a, product, Less, Bin(Sub, result, Var(b)));
    SolveTarget(Literal, sets, a, Less, Bin(FloorDiv, Bin(Sub, result, Var(b)), IntImm(4)));
  }

  lemma SolveTarget(an: Analyzer, sets: SetMap, target: string, op: CompareOp, result: Expr)
    ensures Solve(an, sets, target, Var(target), op, result) == Bound(op, result)
  {}

  /** Solved for a, it is a <= floordiv(c - 1 - b, 4). */
  lemma FourTimesDeduced(a: string, b: string, c: string)
    requires a != b && a != c
    ensures Deduce(Literal, a, FourTimes(a, b, c), map[], map[])
         == Bound(Less, Bin(FloorDiv, Bin(Sub, Bin(Sub, Var(c), IntImm(1)), Var(b)), IntImm(4)))
  {
    hide EvalSet, SubExprSetsOf, Analyzer.Valid, Solve, Transform, Relax, Line, Untouched, RecordedSign, Occurrences;
    var none: DomMap := map[];
    var cond := FourTimes(a, b, c);
    LiteralIsValid();
    FourTimesIsLine(a, b, c);
    FourTimesSets(a, b, c);
    assert none.Keys == {};
    LineProblem(cond, a);
    RelaxNothing(Literal, none, cond, a);
    WalkUses(cond.l, a);
    FourTimesSolved(SubExprSetsOf(Literal, none, cond.l), a, b, c);
  }
}
