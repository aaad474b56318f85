/** Deduced bounds are exact where every operand is a constant, and where they cannot be trusted. */
module BoundExactness {
  import opened Tir
  import opened ConstFold
  import opened Analyzers
  import opened IntervalSets
  import opened IntervalSoundness
  import opened SubExprSets
  import opened BoundDeduction

  /** The operands of a problem: literals, or any trees over literals without a zero divisor. */
  datatype Constants = Literals | Trees

  predicate Constant(k: Constants, e: Expr) {
    if k.Literals? then e.IntImm? else Closed(e) && Rebuild(e).Some?
  }

  lemma ConstantMeaning(k: Constants, e: Expr, env: Env)
    requires Constant(k, e)
    ensures Closed(e) && Defined(e, env) && Rebuild(e) == Some(IntImm(Eval(e, env))) && Vars(e) == []
  {
    ClosedFoldsToLiteral(e, env);
    ClosedVars(e);
  }

  lemma {:induction false} ClosedVars(e: Expr)
    requires Closed(e)
    ensures Vars(e) == []
  {
    if e.Bin? {
      ClosedVars(e.a);
      ClosedVars(e.b);
    }
  }

  /** The analyzer knows the values of constants: it simplifies them, and proves equal ones equal. */
  ghost predicate Decides(an: Analyzer, k: Constants) {
    && (forall e: Expr :: Constant(k, e) ==> an.simplify(e) == Rebuild(e).value)
    && (forall a: Expr, b: Expr :: Constant(k, a) && Constant(k, b) && Rebuild(a) == Rebuild(b) ==>
          an.canProve(MakeCmp(EQ, a, b)))
  }

  /** Every analyzer knows literals. */
  lemma LiteralsAreDecided(an: Analyzer)
    requires an.Valid()
    ensures Decides(an, Literals)
  {}

  // ---- an analyzer that knows the trees ----

  function FoldClosed(e: Expr): Expr { if Closed(e) && Rebuild(e).Some? then Rebuild(e).value else e }

  const Folding: Analyzer := Analyzer(
    (e: Expr) => FoldClosed(e),
    (c: Cond) => (c.BoolImm? && c.holds) || (c.Cmp? && c.cmp == EQ && FoldClosed(c.l) == FoldClosed(c.r)),
    (e: Expr, n: int) => e.IntImm? && e.value >= n,
    (a: Expr, b: Expr) => false)

  lemma FoldClosedMeaning(e: Expr, env: Env)
    ensures Defined(e, env) ==> Defined(FoldClosed(e), env) && Eval(FoldClosed(e), env) == Eval(e, env)
    ensures FoldClosed(e) == e || FoldClosed(e).IntImm?
  {
    if Closed(e) { ClosedFoldsToLiteral(e, env); }
  }

  lemma FoldingKeepsValue()
    ensures Folding.SimplifyKeepsValue() && Folding.SimplifyKeepsVars()
  {
    forall e: Expr, env: Env
      ensures Defined(e, env) ==> Defined(FoldClosed(e), env) && Eval(FoldClosed(e), env) == Eval(e, env)
    {
      FoldClosedMeaning(e, env);
    }
    forall e: Expr, x: string | Uses(FoldClosed(e), x)
      ensures Uses(e, x)
    {
      FoldClosedMeaning(e, y => 0);
    }
  }

  lemma FoldingProvesTruths()
    ensures Folding.ProvesOnlyTruths()
  {
    forall c: Cond, env: Env | Folding.canProve(c) && CondDefined(c, env)
      ensures Holds(c, env)
    {
      if c.Cmp? {
        FoldClosedMeaning(c.l, env);
        FoldClosedMeaning(c.r, env);
      }
    }
  }

  lemma FoldingIsValid()
    ensures Folding.Valid() && Folding.ProvesReflexive() && Decides(Folding, Trees)
  {
    FoldingKeepsValue();
    FoldingProvesTruths();
    forall a: Expr, b: Expr | Constant(Trees, a) && Constant(Trees, b) && Rebuild(a) == Rebuild(b)
      ensures Folding.canProve(MakeCmp(EQ, a, b))
    {}
  }

  // ---- constant problems ----

  /** The target under sums, differences and products with constants, none of the factors zero. */
  predicate Chain(k: Constants, e: Expr, target: string) {
    || e == Var(target)
    || (&& e.Bin? && Solvable(e.op)
        && ((Chain(k, e.a, target) && Operand(k, e.op, e.b)) || (Operand(k, e.op, e.a) && Chain(k, e.b, target))))
  }

  predicate Operand(k: Constants, op: BinOp, e: Expr) {
    Constant(k, e) && (op.Mul? ==> Rebuild(e) != Some(IntImm(0)))
  }

  /** A chain compared with a constant, on either side. */
  predicate ConstantProblem(k: Constants, cond: Cond, target: string) {
    && cond.Cmp? && !cond.cmp.NE?
    && ((Chain(k, cond.l, target) && Constant(k, cond.r)) || (Constant(k, cond.l) && Chain(k, cond.r, target)))
  }

  lemma {:induction false} ChainVars(k: Constants, e: Expr, target: string, env: Env)
    requires Chain(k, e, target)
    ensures Vars(e) == [target] && Defined(e, env)
  {
    if e != Var(target) {
      var left := Chain(k, e.a, target) && Operand(k, e.op, e.b);
      ChainVars(k, if left then e.a else e.b, target, env);
      ConstantMeaning(k, if left then e.b else e.a, env);
    }
  }

  // ---- one step ----

  /** An operator applied to constants is one, unless it divides by zero. */
  lemma ConstantBuild(k: Constants, op: BinOp, a: Expr, b: Expr, env: Env)
    requires Constant(k, a) && Constant(k, b) && (IsDivision(op) ==> Eval(b, env) != 0)
    ensures Build(op, a, b).Some? && Constant(k, Build(op, a, b).value)
    ensures Eval(Build(op, a, b).value, env) == Apply(op, Eval(a, env), Eval(b, env))
  {
    hide Rebuild;
    ConstantMeaning(k, a, env);
    ConstantMeaning(k, b, env);
    BuildKeepsValue(op, a, b, env);
    ClosedFoldsToLiteral(Build(op, a, b).value, env);
  }

  lemma LiteralIsConstant(k: Constants, n: int)
    ensures Constant(k, IntImm(n)) && Rebuild(IntImm(n)) == Some(IntImm(n))
  {}

  lemma ConstantNeg(k: Constants, a: Expr, env: Env)
    requires Constant(k, a)
    ensures Constant(k, Neg(a)) && Eval(Neg(a), env) == -Eval(a, env)
  {
    hide Rebuild;
    LiteralIsConstant(k, 0);
    ConstantBuild(k, Sub, IntImm(0), a, env);
    if a.IntImm? { LiteralIsConstant(k, -a.value); }
  }

  lemma ConstantIsPoint(an: Analyzer, k: Constants, dom: DomMap, e: Expr, depth: nat)
    requires Constant(k, e) && depth <= |dom|
    ensures EvalSet(an, dom, e, depth) == Some(Point(e))
  {
    ClosedIsUntouched(dom.Keys, e);
    UntouchedIsPoint(an, dom.Keys, dom, e, depth);
  }

  /** Whatever the depth at which it was recorded. */
  lemma EntryOfConstant(an: Analyzer, k: Constants, dom: DomMap, sets: SetMap, e: Expr)
    requires Constant(k, e) && Entries(an, dom, sets) && e in sets
    ensures sets[e] == Point(e)
  {
    hide EvalSet, Constant;
    assert IsEntry(an, dom, e, sets[e]);
    var depth: nat :| depth <= |dom| && EvalSet(an, dom, e, depth) == Some(sets[e]);
    ConstantIsPoint(an, k, dom, e, depth);
  }

  lemma {:induction false} ClosedIsUntouched(vs: set<string>, e: Expr)
    requires Closed(e)
    ensures Untouched(vs, e)
  {
    if e.Bin? {
      ClosedIsUntouched(vs, e.a);
      ClosedIsUntouched(vs, e.b);
    }
  }

  lemma SignOfConstant(an: Analyzer, k: Constants, c: Expr, env: Env)
    requires Decides(an, k) && Constant(k, c) && Eval(c, env) != 0
    ensures SignOf(an, Point(c)) == if Eval(c, env) > 0 then Positive else Negative
  {
    ConstantMeaning(k, c, env);
  }

  lemma RemainderDecided(an: Analyzer, k: Constants, m: Expr, env: Env)
    requires an.Valid() && Decides(an, k) && Constant(k, m)
    ensures an.canProve(MakeCmp(EQ, m, IntImm(0))) <==> Eval(m, env) == 0
  {
    ConstantMeaning(k, m, env);
    MakeCmpKeepsValue(EQ, m, IntImm(0), env);
    LiteralIsConstant(k, 0);
  }

  /** The result of a step is a constant that bounds the child as the comparison bounds the node. */
  predicate ExactStep(k: Constants, out: Outcome, op: CompareOp, x: int, e: int, r: int, env: Env) {
    if out.Bound? then
      && Constant(k, out.result) && (out.op.Equal? <==> op.Equal?)
      && (Satisfies(out.op, x, Eval(out.result, env)) <==> Satisfies(op, e, r))
    else out.Fail? && op.Equal? && e != r
  }

  lemma UndoMulExact(an: Analyzer, k: Constants, sets: SetMap, c: Expr, op: CompareOp, r: Expr, env: Env, x: int)
    requires an.Valid() && Decides(an, k) && Operand(k, Mul, c) && Constant(k, r)
    requires c in sets && sets[c] == Point(c)
    ensures ExactStep(k, UndoMul(an, sets, c, op, r), op, x, x * Eval(c, env), Eval(r, env), env)
  {
    hide FloorDivision, FloorRemainder, SignOf, Build, MakeCmp, Rebuild, Constant, Analyzer.Valid, Decides;
    ConstantMeaning(k, c, env);
    ConstantMeaning(k, r, env);
    SignOfConstant(an, k, c, env);
    ConstantBuild(k, FloorMod, r, c, env);
    ConstantBuild(k, FloorDiv, r, c, env);
    var rem, quo := Build(FloorMod, r, c).value, Build(FloorDiv, r, c).value;
    RemainderDecided(an, k, rem, env);
    LiteralIsConstant(k, 1);
    ConstantBuild(k, Add, quo, IntImm(1), env);
    DivideComparison(op, x, Eval(c, env), Eval(r, env), Eval(rem, env) == 0);
    DivideInequality(x, Eval(c, env), Eval(r, env));
  }

  lemma UndoExact(an: Analyzer, k: Constants, sets: SetMap, bin: BinOp, left: bool, operand: Expr, op: CompareOp,
                  r: Expr, env: Env, x: int)
    requires an.Valid() && Decides(an, k) && Solvable(bin) && Operand(k, bin, operand) && Constant(k, r)
    requires operand in sets && sets[operand] == Point(operand)
    ensures var y := Eval(operand, env);
            ExactStep(k, Undo(an, sets, bin, left, operand, op, r), op, x,
                      if left then Apply(bin, x, y) else Apply(bin, y, x), Eval(r, env), env)
  {
    hide UndoMul, Build, Rebuild, Neg, Analyzer.Valid, Decides;
    ConstantMeaning(k, operand, env);
    ConstantMeaning(k, r, env);
    if bin.Mul? {
      UndoMulExact(an, k, sets, operand, op, r, env, x);
    } else {
      ConstantBuild(k, Add, r, operand, env);
      ConstantBuild(k, Sub, r, operand, env);
      ConstantNeg(k, Build(Sub, r, operand).value, env);
    }
  }

  lemma ExactSteps(k: Constants, step: Outcome, out: Outcome, op: CompareOp, x: int, y: int, e: int, r: int, env: Env)
    requires ExactStep(k, step, op, y, e, r, env) && step.Bound?
    requires ExactStep(k, out, step.op, x, y, Eval(step.result, env), env)
    ensures ExactStep(k, out, op, x, e, r, env)
  {
    hide Constant, Eval;
  }

  /** One turn of the walk: the operand is undone, and the child is solved for. */
  lemma SolveTurn(an: Analyzer, k: Constants, sets: SetMap, target: string, e: Expr, op: CompareOp, r: Expr, left: bool)
    requires e.Bin? && Solvable(e.op)
    requires Chain(k, if left then e.a else e.b, target) && Constant(k, if left then e.b else e.a)
    ensures var step := Undo(an, sets, e.op, left, if left then e.b else e.a, op, r);
            Solve(an, sets, target, e, op, r)
              == if step.Bound? then Solve(an, sets, target, if left then e.a else e.b, step.op, step.result) else step
  {
    hide Undo, Rebuild, Constant, Chain;
    ChainVars(k, if left then e.a else e.b, target, x => 0);
    ConstantMeaning(k, if left then e.b else e.a, x => 0);
  }

  /** The deduced constant bound is equivalent to the comparison; failure means no solution. */
  lemma {:induction false} SolveExact(an: Analyzer, k: Constants, hint: DomMap, sets: SetMap, target: string, e: Expr,
                                      op: CompareOp, r: Expr, env: Env)
    requires an.Valid() && Decides(an, k) && Chain(k, e, target) && Constant(k, r)
    requires Entries(an, hint, sets) && Covers(sets, e)
    ensures ExactStep(k, Solve(an, sets, target, e, op, r), op, env(target), Eval(e, env), Eval(r, env), env)
    decreases e
  {
    hide Undo, Rebuild, Constant, Decides, Entries, Analyzer.Valid;
    if e != Var(target) {
      hide Solve, ExactStep;
      var left := Chain(k, e.a, target) && Operand(k, e.op, e.b);
      var child, operand := if left then e.a else e.b, if left then e.b else e.a;
      var step := Undo(an, sets, e.op, left, operand, op, r);
      EntryOfConstant(an, k, hint, sets, operand);
      UndoExact(an, k, sets, e.op, left, operand, op, r, env, Eval(child, env));
      SolveTurn(an, k, sets, target, e, op, r, left);
      if step.Bound? {
        BoundIsConstant(k, step, op, Eval(child, env), Eval(e, env), Eval(r, env), env);
        SolveExact(an, k, hint, sets, target, child, step.op, step.result, env);
        ExactSteps(k, step, Solve(an, sets, target, child, step.op, step.result), op,
                   env(target), Eval(child, env), Eval(e, env), Eval(r, env), env);
      }
    }
  }

  lemma BoundIsConstant(k: Constants, out: Outcome, op: CompareOp, x: int, e: int, r: int, env: Env)
    requires ExactStep(k, out, op, x, e, r, env) && out.Bound?
    ensures Constant(k, out.result)
  {}

  // ---- nothing to relax ----

  lemma {:induction false} ChainIsUntouched(k: Constants, vs: set<string>, e: Expr, target: string)
    requires Chain(k, e, target) && target !in vs
    ensures Untouched(vs, e)
  {
    hide Rebuild;
    if e != Var(target) {
      var left := Chain(k, e.a, target) && Operand(k, e.op, e.b);
      ChainIsUntouched(k, vs, if left then e.a else e.b, target);
      ClosedIsUntouched(vs, if left then e.b else e.a);
    }
  }

  lemma RelaxExact(an: Analyzer, k: Constants, relax: DomMap, target: string, p: Problem)
    requires an.Valid() && an.ProvesReflexive() && Chain(k, p.expr, target) && Constant(k, p.result) && target !in relax
    ensures Relax(an, relax, p) == RelaxTo(p.expr, p.result)
  {
    hide EvalSet, Rebuild;
    ChainIsUntouched(k, relax.Keys, p.expr, target);
    UntouchedIsPoint(an, relax.Keys, relax, p.expr, 0);
    ConstantIsPoint(an, k, relax, p.result, 0);
    assert p.result.IntImm? ==> MakeCmp(EQ, p.result, p.result) == BoolImm(true);
    assert MakeCmp(EQ, p.expr, p.expr) == Cmp(EQ, p.expr, p.expr);
  }

  lemma CombinesAll(an: Analyzer, op: BinOp, a: IntervalSet, b: IntervalSet)
    requires Solvable(op)
    ensures Combine(an, op, a, b).Some?
  {}

  /** Evaluating a chain under hints stops only if evaluating the target does. */
  lemma {:induction false} HintsEvaluate(an: Analyzer, k: Constants, hint: DomMap, e: Expr, target: string)
    requires Chain(k, e, target) && EvalSet(an, hint, Var(target)).Some?
    ensures EvalSet(an, hint, e).Some?
  {
    hide Rebuild, Combine;
    if e != Var(target) {
      var left := Chain(k, e.a, target) && Operand(k, e.op, e.b);
      HintsEvaluate(an, k, hint, if left then e.a else e.b, target);
      ConstantIsPoint(an, k, hint, if left then e.b else e.a, 0);
      CombinesAll(an, e.op, EvalSet(an, hint, e.a).value, EvalSet(an, hint, e.b).value);
    }
  }

  lemma TransformChain(k: Constants, cond: Cond, target: string, env: Env)
    requires ConstantProblem(k, cond, target)
    ensures var p := Transform(cond, target);
            && p.Some? && Chain(k, p.value.expr, target) && Constant(k, p.value.result)
            && (p.value.op.Equal? <==> cond.cmp.EQ?)
    ensures CondVars(cond) == [target] && CondDefined(cond, env)
  {
    hide Rebuild, Build, Chain;
    var left := Chain(k, cond.l, target) && Constant(k, cond.r);
    var constant := if left then cond.r else cond.l;
    ChainVars(k, if left then cond.l else cond.r, target, env);
    ConstantMeaning(k, constant, env);
    LiteralIsConstant(k, 1);
    ConstantBuild(k, Add, constant, IntImm(1), env);
    ConstantBuild(k, Sub, constant, IntImm(1), env);
  }

  /**
   With constant operands and the target not relaxed, the interval is exactly the set of
   solutions: for the inequalities it is never empty-handed, for an equation it is
   the one solution, or nothing when there is none.
   */
  lemma DeduceExact(an: Analyzer, k: Constants, target: string, cond: Cond, hint: DomMap, relax: DomMap, env: Env)
    requires an.Valid() && an.ProvesReflexive() && Decides(an, k) && ConstantProblem(k, cond, target)
    requires EvalSet(an, hint, Var(target)).Some? && target !in relax
    ensures var out := Deduce(an, target, cond, hint, relax);
            && !out.Abort?
            && (Contains(ToInterval(out), env, env(target)) <==> Holds(cond, env))
            && (!cond.cmp.EQ? ==> out.Bound? && !out.op.Equal? && Constant(k, out.result))
            && (cond.cmp.EQ? && out.Bound? ==> out.op.Equal? && Constant(k, out.result))
  {
    hide EvalSet, Solve, Relax, Chain, Transform, Rebuild, Constant, Decides;
    hide SubExprSetsOf, Entries, Covers, Analyzer.Valid, Analyzer.ProvesReflexive;
    TransformChain(k, cond, target, env);
    var p := Transform(cond, target).value;
    RelaxExact(an, k, relax, target, p);
    ChainVars(k, p.expr, target, env);
    HintsEvaluate(an, k, hint, p.expr, target);
    SubExprSetsMeaning(an, hint, p.expr);
    SolveExact(an, k, hint, SubExprSetsOf(an, hint, p.expr), target, p.expr, p.op, p.result, env);
    TransformMeaning(cond, target, env);
    OccursOnce(target);
    var out := Deduce(an, target, cond, hint, relax);
    if out.Bound? { ConstantMeaning(k, out.result, env); }
  }

  /** Literals are answered with a literal, by every analyzer. */
  lemma DeduceLiteral(an: Analyzer, target: string, cond: Cond, hint: DomMap, relax: DomMap, env: Env)
    requires an.Valid() && an.ProvesReflexive() && ConstantProblem(Literals, cond, target)
    requires EvalSet(an, hint, Var(target)).Some? && target !in relax
    ensures var out := Deduce(an, target, cond, hint, relax);
            && !out.Abort? && (out.Bound? ==> out.result.IntImm?) && (out.Fail? ==> cond.cmp.EQ?)
            && (Contains(ToInterval(out), env, env(target)) <==> Holds(cond, env))
  {
    hide EvalSet, Chain, Deduce, Contains;
    LiteralsAreDecided(an);
    DeduceExact(an, Literals, target, cond, hint, relax, env);
  }

  lemma OccursOnce(target: string)
    ensures Occurrences([target], target) == 1
  {
    assert Occurrences([target][1..], target) == 0;
  }

  // ---- where truncated remainders are relaxed ----

  /** i + j % 4 */
  function Dividend(i: string, j: string): Expr {
    Bin(Add, Var(i), Bin(Mod, Var(j), IntImm(4)))
  }

  /** j in [-5, -1] */
  function NegativeRange(j: string): DomMap {
    map[j := Range(IntImm(-5), IntImm(-1))]
  }

  /** j = -1 and everything else zero */
  function MinusOne(j: string): Env {
    x => if x == j then -1 else 0
  }

  lemma DividendSet(i: string, j: string)
    requires i != j
    ensures EvalSet(Literal, NegativeRange(j), Dividend(i, j)) == Some(Range(Var(i), Bin(Add, Var(i), IntImm(3))))
  {
    var relax := NegativeRange(j);
    RemainderSet(j);
    var rem := Range(IntImm(0), IntImm(3));
    assert EvalSet(Literal, relax, Var(i)) == Some(Point(Var(i)));
    assert Combine(Literal, Add, Point(Var(i)), rem) == Some(Range(Var(i), Bin(Add, Var(i), IntImm(3))));
  }

  lemma RemainderSet(j: string)
    ensures EvalSet(Literal, NegativeRange(j), Bin(Mod, Var(j), IntImm(4))) == Some(Range(IntImm(0), IntImm(3)))
  {
    var relax := NegativeRange(j);
    var s := Range(IntImm(-5), IntImm(-1));
    assert EvalSet(Literal, relax, IntImm(-5), 1) == Some(Point(IntImm(-5)));
    assert EvalSet(Literal, relax, IntImm(-1), 1) == Some(Point(IntImm(-1)));
    assert EvalSet(Literal, relax, Var(j)) == Some(s);
    assert EvalSet(Literal, relax, IntImm(4)) == Some(Point(IntImm(4)));
    assert Combine(Literal, Mod, s, Point(IntImm(4))) == Some(Range(IntImm(0), IntImm(3)));
  }

  lemma DividendVars(i: string, j: string)
    requires i != j
    ensures CondVars(Cmp(GE, Dividend(i, j), IntImm(0))) == [i, j] && Occurrences([i, j], i) == 1
  {
    assert Vars(Bin(Mod, Var(j), IntImm(4))) == [j];
    assert Vars(Dividend(i, j)) == [i, j];
    assert [i, j][1..] == [j] && [j][1..] == [];
    assert Occurrences([j], i) == Occurrences([], i);
  }

  lemma DividendDeduced(i: string, j: string)
    requires i != j
    ensures Deduce(Literal, i, Cmp(GE, Dividend(i, j), IntImm(0)), map[], NegativeRange(j)) == Bound(Greater, IntImm(0))
  {
    var cond, relax := Cmp(GE, Dividend(i, j), IntImm(0)), NegativeRange(j);
    DividendVars(i, j);
    DividendSet(i, j);
    var p := Problem(Greater, Dividend(i, j), IntImm(0));
    assert Transform(cond, i) == Some(p) by { assert Vars(cond.l) == [i] + Vars(cond.l.b); }
    assert Relax(Literal, relax, p) == RelaxTo(Var(i), IntImm(0)) by {
      hide Dividend;
      assert EvalSet(Literal, relax, IntImm(0)) == Some(Point(IntImm(0)));
    }
    assert EvalSet(Literal, map[], Var(i)) == Some(Point(Var(i)));
    assert Solve(Literal, map[], i, Var(i), Greater, IntImm(0)) == Bound(Greater, IntImm(0));
    assert Uses(Var(i), i);
  }

  /**
   i + j % 4 >= 0 with j relaxed over [-5, -1]: every i >= 0 is accepted, although
   i = 0, j = -1 does not satisfy the comparison.
   */
  lemma NegativeDividendIsUnsound(i: string, j: string)
    requires i != j
    ensures var cond := Cmp(GE, Dividend(i, j), IntImm(0));
            var out := Deduce(Literal, i, cond, map[], NegativeRange(j));
            var env := MinusOne(j);
            && Literal.Valid() && InDomain(NegativeRange(j), env) && CondDefined(cond, env)
            && out == Bound(Greater, IntImm(0)) && Contains(ToInterval(out), env, env(i))
            && !Holds(cond, env)
  {
    hide Deduce, Analyzer.Valid;
    LiteralIsValid();
    DividendDeduced(i, j);
    DividendValue(i, j);
  }

  lemma DividendValue(i: string, j: string)
    requires i != j
    ensures var cond, env := Cmp(GE, Dividend(i, j), IntImm(0)), MinusOne(j);
            CondDefined(cond, env) && !Holds(cond, env) && env(i) == 0
  {
    var env, rem := MinusOne(j), Bin(Mod, Var(j), IntImm(4));
    assert Apply(Mod, -1, 4) == -1 by { assert TruncDiv(-1, 4) == 0; }
    calc {
      Eval(rem, env);
      Apply(Mod, Eval(Var(j), env), Eval(IntImm(4), env));
      Apply(Mod, -1, 4);
    }
    assert Defined(Var(j), env) && Defined(IntImm(4), env) && Eval(IntImm(4), env) == 4;
    assert Defined(rem, env);
    assert Defined(Var(i), env) && Defined(IntImm(0), env) && Eval(Var(i), env) == 0;
    assert Defined(Dividend(i, j), env) && Eval(Dividend(i, j), env) == -1;
  }
}
