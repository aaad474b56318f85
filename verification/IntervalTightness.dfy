/** src/arith/int_set.cc: where the ends of an evaluated set are values of the expression. */
module IntervalTightness {
  import opened Tir
  import opened ConstFold
  import opened Analyzers
  import opened IntervalSets
  import opened IntervalSoundness

  predicate EndsDefined(s: IntervalSet, env: Env) { Defined(s.Min(), env) && Defined(s.Max(), env) }

  predicate IsEnd(s: IntervalSet, env: Env, x: int) { x == Eval(s.Min(), env) || x == Eval(s.Max(), env) }

  /** The operator applied to an end of each set. */
  ghost predicate IsCorner(op: BinOp, a: IntervalSet, b: IntervalSet, env: Env, z: int) {
    exists x, y :: IsEnd(a, env, x) && IsEnd(b, env, y) && z == Apply(op, x, y)
  }

  lemma CornerIs(op: BinOp, a: IntervalSet, b: IntervalSet, env: Env, x: int, y: int)
    requires IsEnd(a, env, x) && IsEnd(b, env, y)
    ensures IsCorner(op, a, b, env, Apply(op, x, y))
  {}

  /** Sums, differences and extrema of any sets, products with a point, quotients by a point that is not zero. */
  predicate Attains(an: Analyzer, op: BinOp, a: IntervalSet, b: IntervalSet, env: Env) {
    match op
    case Mul => IsSinglePoint(an, a) || IsSinglePoint(an, b)
    case Div => IsSinglePoint(an, b) && Eval(b.Min(), env) != 0
    case FloorDiv => IsSinglePoint(an, b) && Eval(b.Min(), env) != 0
    case Mod => false
    case FloorMod => false
    case _ => true
  }

  ghost predicate CornersOf(op: BinOp, a: IntervalSet, b: IntervalSet, env: Env, s: IntervalSet) {
    EndsDefined(s, env) && IsCorner(op, a, b, env, Eval(s.Min(), env)) && IsCorner(op, a, b, env, Eval(s.Max(), env))
  }

  lemma PointsCorner(an: Analyzer, op: BinOp, a: IntervalSet, b: IntervalSet, env: Env)
    requires an.Valid() && EndsDefined(a, env) && EndsDefined(b, env) && Attains(an, op, a, b, env)
    requires IsSinglePoint(an, a) && IsSinglePoint(an, b)
    ensures var s := Combine(an, op, a, b); s.Some? && CornersOf(op, a, b, env, s.value)
  {
    hide Build, IsCorner, Analyzer.SimplifyKeepsValue, Analyzer.SimplifyKeepsVars, Analyzer.ProvesOnlyTruths;
    BuildKeepsValue(op, a.Min(), b.Min(), env);
    CornerIs(op, a, b, env, Eval(a.Min(), env), Eval(b.Min(), env));
  }

  lemma SumCorners(op: BinOp, a: IntervalSet, b: IntervalSet, env: Env)
    requires EndsDefined(a, env) && EndsDefined(b, env) && (op.Add? || op.Sub?)
    ensures CornersOf(op, a, b, env, if op.Add? then CombineAdd(a, b) else CombineSub(a, b))
  {
    hide Make, IsCorner;
    MakeKeepsValue(Add, a.Min(), b.Min(), env);
    MakeKeepsValue(Add, a.Max(), b.Max(), env);
    MakeKeepsValue(Sub, a.Min(), b.Max(), env);
    MakeKeepsValue(Sub, a.Max(), b.Min(), env);
    CornerIs(op, a, b, env, Eval(a.Min(), env), Eval(if op.Add? then b.Min() else b.Max(), env));
    CornerIs(op, a, b, env, Eval(a.Max(), env), Eval(if op.Add? then b.Max() else b.Min(), env));
  }

  lemma ExtremumCorners(op: BinOp, a: IntervalSet, b: IntervalSet, env: Env)
    requires EndsDefined(a, env) && EndsDefined(b, env) && (op.Min? || op.Max?)
    ensures CornersOf(op, a, b, env, if op.Min? then Range(MinOf(a.Min(), b.Min()), MinOf(a.Max(), b.Max()))
                                     else Range(MaxOf(a.Min(), b.Min()), MaxOf(a.Max(), b.Max())))
  {
    hide Make, IsCorner;
    MakeKeepsValue(op, a.Min(), b.Min(), env);
    MakeKeepsValue(op, a.Max(), b.Max(), env);
    CornerIs(op, a, b, env, Eval(a.Min(), env), Eval(b.Min(), env));
    CornerIs(op, a, b, env, Eval(a.Max(), env), Eval(b.Max(), env));
  }

  lemma BySignEnds(m: Expr, e1: Expr, e2: Expr, env: Env)
    requires Defined(m, env) && Defined(e1, env) && Defined(e2, env)
    ensures var s := BySign(m, e1, e2);
            && EndsDefined(s, env)
            && (Eval(s.Min(), env) == Eval(e1, env) || Eval(s.Min(), env) == Eval(e2, env))
            && (Eval(s.Max(), env) == Eval(e1, env) || Eval(s.Max(), env) == Eval(e2, env))
  {
    MakeCmpKeepsValue(GE, m, IntImm(0), env);
  }

  lemma ProductCorners(an: Analyzer, a: IntervalSet, b: IntervalSet, env: Env)
    requires an.Valid() && EndsDefined(a, env) && EndsDefined(b, env) && IsSinglePoint(an, b)
    ensures CornersOf(Mul, a, b, env, CombineMul(an, a, b))
  {
    hide Make, IsCorner, BySign, Neg, Apply, Defined;
    hide Analyzer.SimplifyKeepsValue, Analyzer.SimplifyKeepsVars, Analyzer.ProvesOnlyTruths, Analyzer.AnswersLiterals;
    NotEmpty(a, env);
    FiniteEnds(a, env);
    var m := b.Min();
    var low, high, y := Eval(a.Min(), env), Eval(a.Max(), env), Eval(m, env);
    MakeKeepsValue(Mul, a.Min(), m, env);
    MakeKeepsValue(Mul, a.Max(), m, env);
    BySignEnds(m, Make(Mul, a.Min(), m), Make(Mul, a.Max(), m), env);
    CornerIs(Mul, a, b, env, low, y);
    CornerIs(Mul, a, b, env, high, y);
    ApplyMul(low, y);
    ApplyMul(high, y);
  }

  lemma FiniteEnds(s: IntervalSet, env: Env)
    requires EndsDefined(s, env)
    ensures !s.Min().Inf? && !s.Max().Inf?
  {}

  lemma QuotientCorners(an: Analyzer, op: BinOp, a: IntervalSet, b: IntervalSet, env: Env)
    requires an.Valid() && (op.Div? || op.FloorDiv?) && EndsDefined(a, env) && EndsDefined(b, env)
    requires IsSinglePoint(an, b) && Eval(b.Min(), env) != 0
    ensures var s := CombineQuotient(an, op, a, b); s.Some? && CornersOf(op, a, b, env, s.value)
  {
    hide Build, IsCorner, BySign, Neg, Apply;
    hide Analyzer.SimplifyKeepsValue, Analyzer.SimplifyKeepsVars, Analyzer.ProvesOnlyTruths;
    var m := b.Min();
    var low, high, y := Eval(a.Min(), env), Eval(a.Max(), env), Eval(m, env);
    DividedEnd(op, a.Min(), m, env);
    DividedEnd(op, a.Max(), m, env);
    BySignEnds(m, Build(op, a.Min(), m).value, Build(op, a.Max(), m).value, env);
    CornerIs(op, a, b, env, low, y);
    CornerIs(op, a, b, env, high, y);
    DivideByOne(op, low);
    DivideByOne(op, high);
  }

  /** The ends of a combined set are the operator applied to ends. */
  lemma CombineCorners(an: Analyzer, op: BinOp, a: IntervalSet, b: IntervalSet, env: Env)
    requires an.Valid() && EndsDefined(a, env) && EndsDefined(b, env) && Attains(an, op, a, b, env)
    ensures var s := Combine(an, op, a, b); s.Some? && CornersOf(op, a, b, env, s.value)
  {
    hide CombineAdd, CombineSub, CombineMul, CombineQuotient, MinOf, MaxOf, CornersOf, Analyzer.Valid;
    if IsSinglePoint(an, a) && IsSinglePoint(an, b) {
      PointsCorner(an, op, a, b, env);
    } else {
      NotEmpty(a, env);
      NotEmpty(b, env);
      match op
      case Add => SumCorners(op, a, b, env);
      case Sub => SumCorners(op, a, b, env);
      case Min => ExtremumCorners(op, a, b, env);
      case Max => ExtremumCorners(op, a, b, env);
      case Mul =>
        if IsSinglePoint(an, a) {
          ProductCorners(an, b, a, env);
          Swapped(b, a, env, CombineMul(an, b, a));
        } else {
          ProductCorners(an, a, b, env);
        }
      case Div => QuotientCorners(an, op, a, b, env);
      case FloorDiv => QuotientCorners(an, op, a, b, env);
    }
  }

  lemma NotEmpty(s: IntervalSet, env: Env)
    requires EndsDefined(s, env)
    ensures !s.IsEmpty()
  {}

  lemma Swapped(a: IntervalSet, b: IntervalSet, env: Env, s: IntervalSet)
    requires CornersOf(Mul, a, b, env, s)
    ensures CornersOf(Mul, b, a, env, s)
  {
    SwappedCorner(a, b, env, Eval(s.Min(), env));
    SwappedCorner(a, b, env, Eval(s.Max(), env));
  }

  lemma SwappedCorner(a: IntervalSet, b: IntervalSet, env: Env, z: int)
    requires IsCorner(Mul, a, b, env, z)
    ensures IsCorner(Mul, b, a, env, z)
  {
    var x, y :| IsEnd(a, env, x) && IsEnd(b, env, y) && z == Apply(Mul, x, y);
    assert z == Apply(Mul, y, x);
  }

  // ---- remainders and signs ----

  /** Both ends of a dividend's set have one quotient, and this is proved. */
  predicate SameQuotient(an: Analyzer, a: IntervalSet, m: Expr) {
    var qmax, qmin := Build(FloorDiv, a.Max(), m), Build(FloorDiv, a.Min(), m);
    m.IntImm? && qmax.Some? && qmin.Some? && an.canProve(MakeCmp(EQ, qmax.value, qmin.value))
  }

  /**
   The remainders by a point: [0, m - 1] where it is proved non-negative, or from the remainder of one end to that of
   the other where they have one quotient; else [1 - |m|, |m| - 1].
   */
  lemma RemainderEnds(an: Analyzer, op: BinOp, a: IntervalSet, b: IntervalSet, env: Env)
    requires an.Valid() && (op.Mod? || op.FloorMod?) && EndsDefined(a, env) && EndsDefined(b, env)
    requires IsSinglePoint(an, b) && Eval(b.Min(), env) != 0
    ensures var s := if op.Mod? then CombineMod(an, a, b) else CombineFloorMod(an, a, b);
            var y := Eval(b.Min(), env);
            && s.Some? && EndsDefined(s.value, env)
            && var low, high := Eval(s.value.Min(), env), Eval(s.value.Max(), env);
               if !an.canProveGE(b.Min(), 0) then
                 high == (if y > 0 then y - 1 else -y - 1) && low == -high
               else if op.FloorMod? && SameQuotient(an, a, b.Min()) then
                 low == FloorRemainder(Eval(a.Min(), env), y) && high == FloorRemainder(Eval(a.Max(), env), y)
               else low == 0 && high == y - 1
  {
    hide Build, MakeCmp, Abs, Neg, OneQuotient, FloorRemainder;
    hide Analyzer.SimplifyKeepsValue, Analyzer.SimplifyKeepsVars, Analyzer.ProvesOnlyTruths, Analyzer.AnswersLiterals;
    var m := b.Min();
    AbsKeepsValue(m, env);
    MakeKeepsValue(Sub, Abs(m), IntImm(1), env);
    NegKeepsValue(Make(Sub, Abs(m), IntImm(1)), env);
    MakeKeepsValue(Sub, m, IntImm(1), env);
    if op.FloorMod? && an.canProveGE(m, 0) && m.IntImm? { OneQuotientEnds(an, a, m, env); }
  }

  lemma OneQuotientEnds(an: Analyzer, a: IntervalSet, m: Expr, env: Env)
    requires an.Valid() && EndsDefined(a, env) && m.IntImm? && m.value != 0
    ensures var s := OneQuotient(an, a, m);
            && s.Some? && EndsDefined(s.value, env)
            && var low, high := Eval(s.value.Min(), env), Eval(s.value.Max(), env);
               if SameQuotient(an, a, m) then
                 low == FloorRemainder(Eval(a.Min(), env), m.value) && high == FloorRemainder(Eval(a.Max(), env), m.value)
               else low == 0 && high == m.value - 1
  {
    hide Build, MakeCmp, FloorDivision, FloorRemainder;
    hide Analyzer.SimplifyKeepsValue, Analyzer.SimplifyKeepsVars, Analyzer.AnswersLiterals;
    DividedEnd(FloorDiv, a.Max(), m, env);
    DividedEnd(FloorDiv, a.Min(), m, env);
    var qmax, qmin := Build(FloorDiv, a.Max(), m).value, Build(FloorDiv, a.Min(), m).value;
    MakeCmpKeepsValue(EQ, qmax, qmin, env);
    MakeKeepsValue(Mul, m, qmin, env);
    MakeKeepsValue(Sub, a.Min(), Make(Mul, m, qmin), env);
    MakeKeepsValue(Sub, a.Max(), Make(Mul, m, qmin), env);
    MakeKeepsValue(Sub, m, IntImm(1), env);
    FloorMeaning(Eval(a.Min(), env), m.value);
    FloorMeaning(Eval(a.Max(), env), m.value);
  }

  /** An end of a sum, a difference or an extremum is infinite only where an end of an operand makes it so. */
  lemma InfiniteEnds(a: IntervalSet, b: IntervalSet)
    requires !a.IsEmpty() && !b.IsEmpty()
    ensures CombineAdd(a, b).Min() == Inf(false) <==> a.Min() == Inf(false) || b.Min() == Inf(false)
    ensures CombineAdd(a, b).Max() == Inf(true) <==> a.Max() == Inf(true) || b.Max() == Inf(true)
    ensures CombineSub(a, b).Min() == Inf(false) <==> a.Min() == Inf(false) || b.Max() == Inf(true)
    ensures CombineSub(a, b).Max() == Inf(true) <==> a.Max() == Inf(true) || b.Min() == Inf(false)
    ensures MinOf(a.Max(), b.Max()) == Inf(true) <==> a.Max() == Inf(true) && b.Max() == Inf(true)
    ensures MaxOf(a.Min(), b.Min()) == Inf(false) <==> a.Min() == Inf(false) && b.Min() == Inf(false)
  {}

  /** A selection has the lesser of the minima and the greater of the maxima. */
  lemma SelectionEnds(an: Analyzer, dom: DomMap, c: Cond, t: Expr, f: Expr, env: Env)
    requires var a, b := EvalSet(an, dom, t), EvalSet(an, dom, f);
             a.Some? && b.Some? && EndsDefined(a.value, env) && EndsDefined(b.value, env)
    ensures var a, b, s := EvalSet(an, dom, t).value, EvalSet(an, dom, f).value, EvalSet(an, dom, Select(c, t, f));
            && s.Some? && EndsDefined(s.value, env)
            && Eval(s.value.Min(), env) == Apply(Min, Eval(a.Min(), env), Eval(b.Min(), env))
            && Eval(s.value.Max(), env) == Apply(Max, Eval(a.Max(), env), Eval(b.Max(), env))
  {
    hide Make;
    var a, b := EvalSet(an, dom, t).value, EvalSet(an, dom, f).value;
    FiniteEnds(a, env);
    FiniteEnds(b, env);
    MakeKeepsValue(Min, b.Min(), a.Min(), env);
    MakeKeepsValue(Max, b.Max(), a.Max(), env);
  }

  /** The sign of a range of literals is that of its nearer end. */
  lemma SignOfLiterals(an: Analyzer, low: int, high: int)
    requires an.Valid() && low <= high
    ensures var sign := SignOf(an, Range(IntImm(low), IntImm(high)));
            && (sign.Positive? <==> low > 0) && (sign.Negative? <==> high < 0)
            && (low < 0 < high ==> sign.Unknown?)
  {}

  // ---- environments that agree ----

  lemma {:induction false} AgreeEval(e: Expr, env: Env, other: Env)
    requires forall x :: x in Vars(e) ==> env(x) == other(x)
    ensures Eval(e, env) == Eval(e, other) && (Defined(e, env) <==> Defined(e, other))
    decreases e
  {
    match e
    case Bin(_, a, b) =>
      AgreeEval(a, env, other);
      AgreeEval(b, env, other);
    case Select(c, a, b) =>
      AgreeHolds(c, env, other);
      AgreeEval(a, env, other);
      AgreeEval(b, env, other);
    case _ =>
  }

  lemma {:induction false} AgreeHolds(c: Cond, env: Env, other: Env)
    requires forall x :: x in CondVars(c) ==> env(x) == other(x)
    ensures Holds(c, env) == Holds(c, other) && (CondDefined(c, env) <==> CondDefined(c, other))
    decreases c
  {
    match c
    case BoolImm(_) =>
    case Cmp(_, l, r) =>
      AgreeEval(l, env, other);
      AgreeEval(r, env, other);
    case And(p, q) =>
      AgreeHolds(p, env, other);
      AgreeHolds(q, env, other);
    case Or(p, q) =>
      AgreeHolds(p, env, other);
      AgreeHolds(q, env, other);
    case Not(p) =>
      AgreeHolds(p, env, other);
  }

  // ---- expressions whose sets are attained ----

  /** No variable of vs occurs in both. */
  predicate Apart(vs: set<string>, a: Expr, b: Expr) { forall x :: x in vs && Uses(a, x) ==> !Uses(b, x) }

  /**
   Every variable of vs at most once, under sums, differences, extrema, products with factors and quotients by
   divisors that mention none of them.
   */
  predicate Once(vs: set<string>, e: Expr) {
    || Untouched(vs, e)
    || (e.Var? && e.name in vs)
    || (&& e.Bin? && Once(vs, e.a) && Once(vs, e.b) && Apart(vs, e.a, e.b) && !e.op.Mod? && !e.op.FloorMod?
        && (e.op.Mul? ==> Untouched(vs, e.a) || Untouched(vs, e.b))
        && (e.op.Div? || e.op.FloorDiv? ==> Untouched(vs, e.b)))
  }

  /** Sets with two ends that mention no variable of the map and are in order. */
  ghost predicate Bounded(dom: DomMap, env: Env) {
    forall x :: x in dom ==>
      && Untouched(dom.Keys, dom[x].Min()) && Untouched(dom.Keys, dom[x].Max())
      && EndsDefined(dom[x], env) && Eval(dom[x].Min(), env) <= Eval(dom[x].Max(), env)
  }

  /** other differs from env only in variables of the map that e mentions, which are at ends of their sets. */
  ghost predicate AtEnds(dom: DomMap, e: Expr, env: Env, other: Env) {
    forall x :: if x in dom && Uses(e, x) then IsEnd(dom[x], env, other(x)) else other(x) == env(x)
  }

  lemma VarSet(an: Analyzer, dom: DomMap, x: string, env: Env)
    requires Bounded(dom, env) && x in dom
    ensures EvalSet(an, dom, Var(x)) == Some(Range(dom[x].Min(), dom[x].Max()))
  {
    hide Untouched;
    assert |dom| >= 1 by { assert dom.Keys != {}; }
    UntouchedIsPoint(an, dom.Keys, dom, dom[x].Min(), 1);
    UntouchedIsPoint(an, dom.Keys, dom, dom[x].Max(), 1);
    VarIsTouched(dom, x);
  }

  lemma VarIsTouched(dom: DomMap, x: string)
    requires x in dom
    ensures !Untouched(dom.Keys, Var(x))
  {}

  lemma SetOfBin(an: Analyzer, dom: DomMap, e: Expr, env: Env)
    requires an.Valid() && e.Bin? && Once(dom.Keys, e) && !Untouched(dom.Keys, e) && Defined(e, env)
    requires var a, b := EvalSet(an, dom, e.a), EvalSet(an, dom, e.b);
             a.Some? && b.Some? && EndsDefined(a.value, env) && EndsDefined(b.value, env)
    ensures var s := EvalSet(an, dom, e);
            s.Some? && CornersOf(e.op, EvalSet(an, dom, e.a).value, EvalSet(an, dom, e.b).value, env, s.value)
  {
    hide Combine, IsCorner, Analyzer.Valid;
    var a, b := EvalSet(an, dom, e.a).value, EvalSet(an, dom, e.b).value;
    if Untouched(dom.Keys, e.a) { UntouchedIsPoint(an, dom.Keys, dom, e.a, 0); }
    if Untouched(dom.Keys, e.b) { UntouchedIsPoint(an, dom.Keys, dom, e.b, 0); }
    if MatchPoint(a, e.a) && MatchPoint(b, e.b) {
      CornerIs(e.op, a, b, env, Eval(e.a, env), Eval(e.b, env));
    } else {
      CombineCorners(an, e.op, a, b, env);
    }
  }

  /** The values of the variables of the second expression from one environment, all others from another. */
  function Merged(dom: DomMap, b: Expr, first: Env, second: Env): Env {
    x => if x in dom && Uses(b, x) then second(x) else first(x)
  }

  lemma MergedEnds(dom: DomMap, e: Expr, env: Env, first: Env, second: Env)
    requires e.Bin? && Apart(dom.Keys, e.a, e.b) && AtEnds(dom, e.a, env, first) && AtEnds(dom, e.b, env, second)
    ensures var other := Merged(dom, e.b, first, second);
            && AtEnds(dom, e, env, other)
            && Eval(e.a, other) == Eval(e.a, first) && Eval(e.b, other) == Eval(e.b, second)
  {
    hide IsEnd;
    var other := Merged(dom, e.b, first, second);
    AgreeEval(e.a, other, first);
    AgreeEval(e.b, other, second);
  }

  lemma {:induction false} EndsExist(an: Analyzer, dom: DomMap, e: Expr, env: Env)
    requires an.Valid() && Bounded(dom, env) && Once(dom.Keys, e) && Defined(e, env)
    ensures EvalSet(an, dom, e).Some? && EndsDefined(EvalSet(an, dom, e).value, env)
  {
    hide Bounded, Analyzer.Valid, Combine, IsCorner;
    if Untouched(dom.Keys, e) {
      UntouchedIsPoint(an, dom.Keys, dom, e, 0);
    } else if e.Var? {
      VarSet(an, dom, e.name, env);
      BoundedAt(dom, e.name, env);
    } else {
      EndsExist(an, dom, e.a, env);
      EndsExist(an, dom, e.b, env);
      SetOfBin(an, dom, e, env);
    }
  }

  lemma BoundedAt(dom: DomMap, x: string, env: Env)
    requires Bounded(dom, env) && x in dom
    ensures EndsDefined(dom[x], env)
  {}

  /** Both ends of the set are values of the expression, its variables at ends of their sets. */
  lemma {:induction false} EndsAttained(an: Analyzer, dom: DomMap, e: Expr, env: Env, z: int) returns (other: Env)
    requires an.Valid() && Bounded(dom, env) && Once(dom.Keys, e) && Defined(e, env)
    requires EvalSet(an, dom, e).Some? && IsEnd(EvalSet(an, dom, e).value, env, z)
    ensures AtEnds(dom, e, env, other) && Eval(e, other) == z
    decreases e
  {
    hide Bounded, Analyzer.Valid, Combine, Untouched;
    if Untouched(dom.Keys, e) {
      UntouchedIsPoint(an, dom.Keys, dom, e, 0);
      UntouchedFree(dom.Keys, e);
      other := env;
    } else if e.Var? {
      VarSet(an, dom, e.name, env);
      other := x => if x == e.name then z else env(x);
    } else {
      EndsExist(an, dom, e.a, env);
      EndsExist(an, dom, e.b, env);
      SetOfBin(an, dom, e, env);
      var a, b := EvalSet(an, dom, e.a).value, EvalSet(an, dom, e.b).value;
      var x, y :| IsEnd(a, env, x) && IsEnd(b, env, y) && z == Apply(e.op, x, y);
      var first := EndsAttained(an, dom, e.a, env, x);
      var second := EndsAttained(an, dom, e.b, env, y);
      other := Merged(dom, e.b, first, second);
      MergedEnds(dom, e, env, first, second);
    }
  }

  lemma {:induction false} UntouchedFree(vs: set<string>, e: Expr)
    requires Untouched(vs, e)
    ensures forall x :: x in vs ==> !Uses(e, x)
  {
    if e.Bin? {
      UntouchedFree(vs, e.a);
      UntouchedFree(vs, e.b);
    }
  }
}
