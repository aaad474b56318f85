/** Interval evaluation encloses every value the expression can take. */
module IntervalSoundness {
  import opened Tir
  import opened ConstFold
  import opened Analyzers
  import opened IntervalSets
  import opened Indices

  // ---- arithmetic of the ends ----

  lemma QuotientOrder(x: int, y: int, m: int, q: int, r: int)
    requires m > 0 && x <= y && q * m <= x && y < r * m + m
    ensures q <= r
  {
    assert (r + 1) * m == r * m + m;
    if r + 1 <= q { MulMonotone(r + 1, q, m); }
  }

  /** Rounding down is monotone in the dividend, against the order for a negative divisor. */
  lemma FloorOrder(x: int, y: int, m: int)
    requires x <= y && m != 0
    ensures m > 0 ==> FloorDivision(x, m) <= FloorDivision(y, m)
    ensures m < 0 ==> FloorDivision(y, m) <= FloorDivision(x, m)
  {
    hide FloorDivision, FloorRemainder;
    FloorMeaning(x, m);
    FloorMeaning(y, m);
    var q, r := FloorDivision(x, m), FloorDivision(y, m);
    if m > 0 {
      QuotientOrder(x, y, m, q, r);
    } else {
      assert q * m == (-q) * (-m) && r * m == (-r) * (-m);
      assert (-q) * (-m) == -(q * (-m)) && (-r) * (-m) == -(r * (-m));
      QuotientOrder(-y, -x, -m, r, q);
    }
  }

  /** So is rounding towards zero. */
  lemma TruncOrder(x: int, y: int, m: int)
    requires x <= y && m != 0
    ensures m > 0 ==> TruncDiv(x, m) <= TruncDiv(y, m)
    ensures m < 0 ==> TruncDiv(y, m) <= TruncDiv(x, m)
  {
    TruncAsFloor(x, m);
    TruncAsFloor(y, m);
    FloorOrder(x, y, m);
    FloorOrder(-y, -x, m);
    if x < 0 <= y {
      FloorOrder(0, y, m);
      FloorOrder(0, -x, m);
      DivideOneAndZero(m);
    }
  }

  lemma TruncAsFloor(x: int, m: int)
    requires m != 0
    ensures TruncDiv(x, m) ==
      if (x >= 0) == (m > 0) || x == 0 then FloorDivision(x, m) else -FloorDivision(-x, m)
  {
    TruncDivMeaning(x, m);
    TruncDivMeaning(-x, m);
  }

  // ---- combining ----

  lemma PointIsValue(an: Analyzer, s: IntervalSet, env: Env, n: int)
    requires an.SameObjectIsEqual() && IsSinglePoint(an, s) && Contains(s, env, n)
    ensures Defined(s.Min(), env) && Eval(s.Min(), env) == n && s.Max() == s.Min()
  {}

  lemma AddContains(a: IntervalSet, b: IntervalSet, env: Env, x: int, y: int)
    requires Contains(a, env, x) && Contains(b, env, y)
    ensures Contains(CombineAdd(a, b), env, x + y)
  {
    if a.HasLowerBound() && b.HasLowerBound() { MakeKeepsValue(Add, a.Min(), b.Min(), env); }
    if a.HasUpperBound() && b.HasUpperBound() { MakeKeepsValue(Add, a.Max(), b.Max(), env); }
  }

  lemma SubContains(a: IntervalSet, b: IntervalSet, env: Env, x: int, y: int)
    requires Contains(a, env, x) && Contains(b, env, y)
    ensures Contains(CombineSub(a, b), env, x - y)
  {
    if a.HasLowerBound() && b.HasUpperBound() { MakeKeepsValue(Sub, a.Min(), b.Max(), env); }
    if a.HasUpperBound() && b.HasLowerBound() { MakeKeepsValue(Sub, a.Max(), b.Min(), env); }
  }

  /** An end scaled by a known factor. */
  lemma ScaledEnd(end: Expr, m: Expr, env: Env)
    requires Defined(end, env) && Defined(m, env)
    ensures Defined(Make(Mul, end, m), env) && Eval(Make(Mul, end, m), env) == Eval(end, env) * Eval(m, env)
  {
    MakeKeepsValue(Mul, end, m, env);
  }

  lemma BySignContains(m: Expr, e1: Expr, e2: Expr, env: Env, n: int)
    requires Defined(m, env) && Defined(e1, env) && Defined(e2, env)
    requires Eval(m, env) >= 0 ==> Eval(e1, env) <= n <= Eval(e2, env)
    requires Eval(m, env) < 0 ==> Eval(e2, env) <= n <= Eval(e1, env)
    ensures Contains(BySign(m, e1, e2), env, n)
  {
    hide MakeCmp;
    MakeCmpKeepsValue(GE, m, IntImm(0), env);
    var sign := MakeCmp(GE, m, IntImm(0));
    assert Eval(Select(sign, e1, e2), env) == if Holds(sign, env) then Eval(e1, env) else Eval(e2, env);
    assert Eval(Select(sign, e2, e1), env) == if Holds(sign, env) then Eval(e2, env) else Eval(e1, env);
  }

  lemma MulContains(an: Analyzer, a: IntervalSet, b: IntervalSet, env: Env, x: int, y: int)
    requires an.Valid() && Contains(a, env, x) && Contains(b, env, y)
    ensures Contains(CombineMul(an, a, b), env, x * y)
  {
    hide BySign, Make, Neg;
    hide Analyzer.SimplifyKeepsValue, Analyzer.SimplifyKeepsVars;
    if IsSinglePoint(an, b) {
      PointIsValue(an, b, env, y);
      var m := b.Min();
      NegKeepsValue(m, env);
      if a.HasLowerBound() { ScaledEnd(a.Min(), m, env); MulMonotone(Eval(a.Min(), env), x, y); }
      if a.HasUpperBound() { ScaledEnd(a.Max(), m, env); MulMonotone(x, Eval(a.Max(), env), y); }
      if a.HasLowerBound() && a.HasUpperBound() && !an.canProveGE(m, 0) && !an.canProveGE(Neg(m), 1) {
        BySignContains(m, Make(Mul, a.Min(), m), Make(Mul, a.Max(), m), env, x * y);
      }
    }
  }

  /** An end divided by a known divisor, with the quotient's order. */
  lemma DividedEnd(op: BinOp, end: Expr, m: Expr, env: Env)
    requires (op.Div? || op.FloorDiv?) && Defined(end, env) && Defined(m, env) && Eval(m, env) != 0
    ensures Build(op, end, m).Some? && Defined(Build(op, end, m).value, env)
    ensures Eval(Build(op, end, m).value, env) == Apply(op, Eval(end, env), Eval(m, env))
  {
    BuildKeepsValue(op, end, m, env);
  }

  lemma QuotientsOrdered(op: BinOp, x: int, y: int, m: int)
    requires (op.Div? || op.FloorDiv?) && x <= y && m != 0
    ensures m > 0 ==> Apply(op, x, m) <= Apply(op, y, m)
    ensures m < 0 ==> Apply(op, y, m) <= Apply(op, x, m)
  {
    if op.Div? { TruncOrder(x, y, m); } else { FloorOrder(x, y, m); }
  }

  lemma QuotientContains(an: Analyzer, op: BinOp, a: IntervalSet, b: IntervalSet, env: Env, x: int, y: int)
    requires an.Valid() && (op.Div? || op.FloorDiv?) && Contains(a, env, x) && Contains(b, env, y) && y != 0
    ensures var s := CombineQuotient(an, op, a, b); s.Some? && Contains(s.value, env, Apply(op, x, y))
  {
    hide BySign, Build, Neg;
    hide Apply, Analyzer.SimplifyKeepsValue, Analyzer.SimplifyKeepsVars;
    if IsSinglePoint(an, b) {
      PointIsValue(an, b, env, y);
      var m := b.Min();
      NegKeepsValue(m, env);
      DivideByOne(op, x);
      if a.HasLowerBound() {
        DividedEnd(op, a.Min(), m, env);
        QuotientsOrdered(op, Eval(a.Min(), env), x, y);
      }
      if a.HasUpperBound() {
        DividedEnd(op, a.Max(), m, env);
        QuotientsOrdered(op, x, Eval(a.Max(), env), y);
      }
      if a.HasLowerBound() && a.HasUpperBound() && !an.canProveGE(m, 0) && !an.canProveGE(Neg(m), 1) {
        BySignContains(m, Build(op, a.Min(), m).value, Build(op, a.Max(), m).value, env, Apply(op, x, y));
      }
    }
  }

  lemma DivideByOne(op: BinOp, x: int)
    requires op.Div? || op.FloorDiv?
    ensures Apply(op, x, 1) == x
  {
    DivideOneAndZero(x);
  }

  lemma AbsKeepsValue(e: Expr, env: Env)
    requires Defined(e, env)
    ensures Defined(Abs(e), env)
    ensures Eval(Abs(e), env) == if Eval(e, env) >= 0 then Eval(e, env) else -Eval(e, env)
  {
    NegKeepsValue(e, env);
  }

  lemma AnySignContains(m: Expr, env: Env, n: int)
    requires Defined(m, env)
    requires Eval(m, env) > 0 ==> -Eval(m, env) < n < Eval(m, env)
    requires Eval(m, env) < 0 ==> Eval(m, env) < n < -Eval(m, env)
    requires Eval(m, env) != 0
    ensures Contains(AnySign(m), env, n)
  {
    AbsKeepsValue(m, env);
    MakeKeepsValue(Sub, Abs(m), IntImm(1), env);
    NegKeepsValue(Make(Sub, Abs(m), IntImm(1)), env);
  }

  /** The set of a remainder encloses it exactly when the remainder fits. */
  lemma ModContainsIff(an: Analyzer, a: IntervalSet, b: IntervalSet, env: Env, x: int, y: int)
    requires an.Valid() && !(IsSinglePoint(an, a) && IsSinglePoint(an, b)) && Contains(b, env, y) && y != 0
    ensures var s := CombineMod(an, a, b);
            s.Some? && (Contains(s.value, env, Apply(Mod, x, y)) <==> RemainderFits(an, a, b, x, y))
  {
    hide TruncMod, TruncDiv, Make, Build, AnySign, Analyzer.SimplifyKeepsValue, Analyzer.SimplifyKeepsVars;
    TruncDivMeaning(x, y);
    if IsSinglePoint(an, b) {
      PointIsValue(an, b, env, y);
      MakeKeepsValue(Sub, b.Min(), IntImm(1), env);
      AnySignContains(b.Min(), env, TruncMod(x, y));
    }
  }

  lemma FloorModContains(an: Analyzer, a: IntervalSet, b: IntervalSet, env: Env, x: int, y: int)
    requires an.Valid() && Contains(a, env, x) && Contains(b, env, y) && y != 0
    ensures var s := CombineFloorMod(an, a, b); s.Some? ==> Contains(s.value, env, FloorRemainder(x, y))
  {
    hide FloorRemainder, FloorDivision, OneQuotient, Make, Build, AnySign;
    hide Analyzer.SimplifyKeepsValue, Analyzer.SimplifyKeepsVars;
    FloorMeaning(x, y);
    if IsSinglePoint(an, b) {
      PointIsValue(an, b, env, y);
      var m := b.Min();
      MakeKeepsValue(Sub, m, IntImm(1), env);
      AnySignContains(m, env, FloorRemainder(x, y));
      if m.IntImm? && an.canProveGE(m, 0) && a.HasLowerBound() && a.HasUpperBound() {
        OneQuotientContains(an, a, m, env, x);
      }
    }
  }

  lemma OneQuotientContains(an: Analyzer, a: IntervalSet, m: Expr, env: Env, x: int)
    requires an.Valid() && Contains(a, env, x) && a.HasLowerBound() && a.HasUpperBound()
    requires Defined(m, env) && Eval(m, env) > 0
    ensures var s := OneQuotient(an, a, m); s.Some? && Contains(s.value, env, FloorRemainder(x, Eval(m, env)))
  {
    hide Apply, Build, FloorDivision, FloorRemainder, Make, MakeCmp;
    hide Analyzer.SimplifyKeepsValue, Analyzer.SimplifyKeepsVars, Analyzer.AnswersLiterals;
    var d := Eval(m, env);
    DividedEnd(FloorDiv, a.Min(), m, env);
    DividedEnd(FloorDiv, a.Max(), m, env);
    MakeKeepsValue(Sub, m, IntImm(1), env);
    ApplySub(d, 1);
    FloorMeaning(x, d);
    var qmax, qmin := Build(FloorDiv, a.Max(), m).value, Build(FloorDiv, a.Min(), m).value;
    MakeCmpKeepsValue(EQ, qmax, qmin, env);
    if an.canProve(MakeCmp(EQ, qmax, qmin)) {
      SqueezedQuotient(Eval(a.Min(), env), x, Eval(a.Max(), env), d);
      MakeKeepsValue(Mul, m, qmin, env);
      var t := Make(Mul, m, qmin);
      MakeKeepsValue(Sub, a.Min(), t, env);
      MakeKeepsValue(Sub, a.Max(), t, env);
      ApplyMul(d, Eval(qmin, env));
      ApplySub(Eval(a.Min(), env), Eval(t, env));
      ApplySub(Eval(a.Max(), env), Eval(t, env));
    }
  }

  lemma ApplySub(x: int, y: int)
    ensures Apply(Sub, x, y) == x - y
  {}

  lemma ApplyMul(x: int, y: int)
    ensures Apply(Mul, x, y) == x * y
  {}

  /** With one quotient at both ends, it is the quotient in between. */
  lemma SqueezedQuotient(low: int, x: int, high: int, d: int)
    requires d > 0 && low <= x <= high && Apply(FloorDiv, low, d) == Apply(FloorDiv, high, d)
    ensures Apply(FloorDiv, low, d) == FloorDivision(x, d)
    ensures FloorRemainder(x, d) == x - d * FloorDivision(x, d)
  {
    hide FloorDivision, FloorRemainder;
    FloorOrder(low, x, d);
    FloorOrder(x, high, d);
    FloorMeaning(x, d);
  }

  lemma MinMaxOfContain(a: IntervalSet, b: IntervalSet, env: Env, x: int, y: int)
    requires Contains(a, env, x) && Contains(b, env, y)
    ensures Contains(Range(MinOf(a.Min(), b.Min()), MinOf(a.Max(), b.Max())), env, Apply(Min, x, y))
    ensures Contains(Range(MaxOf(a.Min(), b.Min()), MaxOf(a.Max(), b.Max())), env, Apply(Max, x, y))
    ensures AtLeast(MinOf(a.Min(), b.Min()), env, x) && AtLeast(MinOf(a.Min(), b.Min()), env, y)
    ensures AtMost(MaxOf(a.Max(), b.Max()), env, x) && AtMost(MaxOf(a.Max(), b.Max()), env, y)
  {
    hide Make;
    if a.HasLowerBound() && b.HasLowerBound() {
      MakeKeepsValue(Min, a.Min(), b.Min(), env);
      MakeKeepsValue(Max, a.Min(), b.Min(), env);
    }
    if a.HasUpperBound() && b.HasUpperBound() {
      MakeKeepsValue(Min, a.Max(), b.Max(), env);
      MakeKeepsValue(Max, a.Max(), b.Max(), env);
    }
  }

  /** Two sets combined contain the operation on any two members. */
  lemma CombineContains(an: Analyzer, op: BinOp, a: IntervalSet, b: IntervalSet, env: Env, x: int, y: int)
    requires an.Valid() && Contains(a, env, x) && Contains(b, env, y)
    requires IsDivision(op) ==> y != 0
    requires op.Mod? ==> RemainderFits(an, a, b, x, y)
    ensures var s := Combine(an, op, a, b); s.Some? ==> Contains(s.value, env, Apply(op, x, y))
  {
    hide Analyzer.SimplifyKeepsValue, Analyzer.SimplifyKeepsVars, Analyzer.ProvesOnlyTruths, Analyzer.AnswersLiterals;
    hide CombineAdd, CombineSub, CombineMul, CombineQuotient, CombineMod, CombineFloorMod;
    hide TruncDiv, TruncMod, FloorDivision, FloorRemainder;
    if IsSinglePoint(an, a) && IsSinglePoint(an, b) {
      PointIsValue(an, a, env, x);
      PointIsValue(an, b, env, y);
      BuildKeepsValue(op, a.Min(), b.Min(), env);
    } else {
      match op
      case Add => AddContains(a, b, env, x, y);
      case Sub => SubContains(a, b, env, x, y);
      case Mul => if IsSinglePoint(an, a) { MulContains(an, b, a, env, y, x); } else { MulContains(an, a, b, env, x, y); }
      case Div => QuotientContains(an, Div, a, b, env, x, y);
      case FloorDiv => QuotientContains(an, FloorDiv, a, b, env, x, y);
      case Mod => ModContainsIff(an, a, b, env, x, y);
      case FloorMod => FloorModContains(an, a, b, env, x, y);
      case Min => MinMaxOfContain(a, b, env, x, y);
      case Max => MinMaxOfContain(a, b, env, x, y);
    }
  }

  // ---- the evaluator ----

  /**
   In every environment of the domain the evaluated set contains the expression's value, if every
   remainder whose set is computed fits.
   */
  lemma {:induction false} EvalSetContains(an: Analyzer, dom: DomMap, e: Expr, depth: nat, env: Env)
    requires an.Valid() && depth <= |dom| && InDomain(dom, env)
    requires Defined(e, env) && RemaindersFit(an, dom, e, env, depth)
    ensures var s := EvalSet(an, dom, e, depth); s.Some? ==> Contains(s.value, env, Eval(e, env))
    decreases |dom| - depth, e, 0
  {
    hide Analyzer.SimplifyKeepsValue, Analyzer.SimplifyKeepsVars, Analyzer.ProvesOnlyTruths, Analyzer.AnswersLiterals;
    hide Combine, Apply, RemainderFits;
    if EvalSet(an, dom, e, depth).Some? {
      match e
      case IntImm(_) =>
      case Var(x) =>
        if x in dom && !MatchPoint(dom[x], e) && depth < |dom| {
          EndContains(an, dom, dom[x].Min(), depth + 1, env);
          EndContains(an, dom, dom[x].Max(), depth + 1, env);
        }
      case Bin(op, l, r) =>
        EvalSetContains(an, dom, l, depth, env);
        EvalSetContains(an, dom, r, depth, env);
        var a, b := EvalSet(an, dom, l, depth).value, EvalSet(an, dom, r, depth).value;
        if !(MatchPoint(a, l) && MatchPoint(b, r)) {
          CombineContains(an, op, a, b, env, Eval(l, env), Eval(r, env));
        }
      case Select(_, t, f) =>
        EvalSetContains(an, dom, t, depth, env);
        EvalSetContains(an, dom, f, depth, env);
        MinMaxOfContain(EvalSet(an, dom, f, depth).value, EvalSet(an, dom, t, depth).value,
                        env, Eval(f, env), Eval(t, env));
    }
  }

  /** An end of a domain is a limit or an expression the evaluator encloses. */
  lemma {:induction false} EndContains(an: Analyzer, dom: DomMap, e: Expr, depth: nat, env: Env)
    requires an.Valid() && depth <= |dom| && InDomain(dom, env)
    requires e.Inf? || (Defined(e, env) && RemaindersFit(an, dom, e, env, depth))
    ensures var s := EvalSet(an, dom, e, depth);
            s.Some? ==> if e.Inf? then s.value == Point(e) else Contains(s.value, env, Eval(e, env))
    decreases |dom| - depth, e, 1
  {
    if !e.Inf? { EvalSetContains(an, dom, e, depth, env); }
  }

  /** A sign is reported only when every value has it. */
  lemma SignIsRight(an: Analyzer, s: IntervalSet, env: Env, n: int)
    requires an.Valid() && Contains(s, env, n)
    ensures SignOf(an, s) == Positive ==> n > 0
    ensures SignOf(an, s) == Negative ==> n < 0
    ensures SignOf(an, s) == Zero ==> n == 0
  {}

  // ---- truncated remainders ----

  /**
   Any two sets combined by the truncated remainder enclose it if and only if it fits: outside the one
   branch always, in it for non-negative dividends and multiples of the divisor.
   */
  lemma ModEnclosureIff(an: Analyzer, a: IntervalSet, b: IntervalSet, env: Env, x: int, y: int)
    requires an.Valid() && Contains(b, env, y) && y != 0
    requires !a.IsEmpty() && (IsSinglePoint(an, a) ==> Contains(a, env, x))
    ensures var s := Combine(an, Mod, a, b);
            s.Some? && (Contains(s.value, env, Apply(Mod, x, y)) <==> RemainderFits(an, a, b, x, y))
  {
    hide Apply, Build, CombineMod, Analyzer.SimplifyKeepsValue, Analyzer.SimplifyKeepsVars;
    if IsSinglePoint(an, a) && IsSinglePoint(an, b) {
      PointIsValue(an, a, env, x);
      PointIsValue(an, b, env, y);
      BuildKeepsValue(Mod, a.Min(), b.Min(), env);
    } else {
      ModContainsIff(an, a, b, env, x, y);
    }
  }

  // ---- the condition read off the expression ----

  lemma {:induction false} UntouchedIsPoint(an: Analyzer, vs: set<string>, dom: DomMap, e: Expr, depth: nat)
    requires depth <= |dom| && dom.Keys <= vs && Untouched(vs, e)
    ensures EvalSet(an, dom, e, depth) == Some(Point(e))
    decreases e
  {
    if e.Bin? {
      UntouchedIsPoint(an, vs, dom, e.a, depth);
      UntouchedIsPoint(an, vs, dom, e.b, depth);
    }
  }

  /** What the evaluation leaves alone is safe in every environment. */
  lemma {:induction false} UntouchedIsSafe(an: Analyzer, vs: set<string>, e: Expr, env: Env)
    requires Untouched(vs, e)
    ensures ModSafe(an, vs, e, env)
  {
    if e.Bin? {
      UntouchedIsSafe(an, vs, e.a, env);
      UntouchedIsSafe(an, vs, e.b, env);
    }
  }

  /** A safe expression's remainders fit wherever the evaluation over these variables computes a set. */
  lemma {:induction false} SafeFits(an: Analyzer, vs: set<string>, dom: DomMap, e: Expr, env: Env, depth: nat)
    requires an.Valid() && depth <= |dom| && InDomain(dom, env) && SafeDomain(an, vs, dom, env)
    requires e.Inf? || (Defined(e, env) && ModSafe(an, vs, e, env))
    ensures RemaindersFit(an, dom, e, env, depth)
    decreases |dom| - depth, e
  {
    hide Apply, RemainderFits, NodeSafe;
    hide Analyzer.SimplifyKeepsValue, Analyzer.SimplifyKeepsVars, Analyzer.ProvesOnlyTruths, Analyzer.AnswersLiterals;
    match e
    case IntImm(_) =>
    case Inf(_) =>
    case Var(x) =>
      if x in dom && !MatchPoint(dom[x], e) && depth < |dom| {
        SafeFits(an, vs, dom, dom[x].Min(), env, depth + 1);
        SafeFits(an, vs, dom, dom[x].Max(), env, depth + 1);
      }
    case Bin(op, l, r) =>
      SafeFits(an, vs, dom, l, env, depth);
      SafeFits(an, vs, dom, r, env, depth);
      if op.Mod? { NodeFits(an, vs, dom, l, r, env, depth); }
    case Select(_, t, f) =>
      SafeFits(an, vs, dom, t, env, depth);
      SafeFits(an, vs, dom, f, env, depth);
  }

  lemma NodeFits(an: Analyzer, vs: set<string>, dom: DomMap, l: Expr, r: Expr, env: Env, depth: nat)
    requires an.Valid() && depth <= |dom| && InDomain(dom, env) && dom.Keys <= vs
    requires Defined(r, env) && RemaindersFit(an, dom, r, env, depth) && NodeSafe(an, vs, l, r, env)
    ensures var a, b := EvalSet(an, dom, l, depth), EvalSet(an, dom, r, depth);
            a.Some? && b.Some? && !(MatchPoint(a.value, l) && MatchPoint(b.value, r)) ==>
              RemainderFits(an, a.value, b.value, Eval(l, env), Eval(r, env))
  {
    hide Apply, EvalSet, RemaindersFit, InDomain, Analyzer.SimplifyKeepsValue, Analyzer.SimplifyKeepsVars;
    var a, b := EvalSet(an, dom, l, depth), EvalSet(an, dom, r, depth);
    if Untouched(vs, l) { UntouchedIsPoint(an, vs, dom, l, depth); }
    if Untouched(vs, r) { UntouchedIsPoint(an, vs, dom, r, depth); }
    if b.Some? && IsSinglePoint(an, b.value) {
      EvalSetContains(an, dom, r, depth, env);
      PointIsValue(an, b.value, env, Eval(r, env));
    }
  }

  // ---- and kept by the ends of evaluated sets ----

  lemma BuildModSafe(an: Analyzer, vs: set<string>, op: BinOp, a: Expr, b: Expr, env: Env)
    requires ModSafe(an, vs, a, env) && ModSafe(an, vs, b, env)
    requires op.Mod? ==> NodeSafe(an, vs, a, b, env)
    ensures Build(op, a, b).Some? ==> ModSafe(an, vs, Build(op, a, b).value, env)
  {}

  lemma MakeModSafe(an: Analyzer, vs: set<string>, op: BinOp, a: Expr, b: Expr, env: Env)
    requires !IsDivision(op) && ModSafe(an, vs, a, env) && ModSafe(an, vs, b, env)
    ensures ModSafe(an, vs, Make(op, a, b), env)
  {
    BuildModSafe(an, vs, op, a, b, env);
  }

  lemma NegModSafe(an: Analyzer, vs: set<string>, a: Expr, env: Env)
    requires ModSafe(an, vs, a, env)
    ensures ModSafe(an, vs, Neg(a), env)
  {
    MakeModSafe(an, vs, Sub, IntImm(0), a, env);
  }

  predicate SafeEnds(an: Analyzer, vs: set<string>, s: IntervalSet, env: Env) {
    ModSafe(an, vs, s.Min(), env) && ModSafe(an, vs, s.Max(), env)
  }

  lemma QuotientModSafe(an: Analyzer, vs: set<string>, op: BinOp, a: IntervalSet, b: IntervalSet, env: Env)
    requires (op.Div? || op.FloorDiv?) && SafeEnds(an, vs, a, env) && SafeEnds(an, vs, b, env)
    ensures var s := CombineQuotient(an, op, a, b); s.Some? ==> SafeEnds(an, vs, s.value, env)
  {
    hide Build, Make, Neg;
    BuildModSafe(an, vs, op, a.Min(), b.Min(), env);
    BuildModSafe(an, vs, op, a.Max(), b.Min(), env);
  }

  lemma MulModSafe(an: Analyzer, vs: set<string>, a: IntervalSet, b: IntervalSet, env: Env)
    requires SafeEnds(an, vs, a, env) && SafeEnds(an, vs, b, env)
    ensures SafeEnds(an, vs, CombineMul(an, a, b), env)
  {
    hide Build, Make, Neg;
    MakeModSafe(an, vs, Mul, a.Min(), b.Min(), env);
    MakeModSafe(an, vs, Mul, a.Max(), b.Min(), env);
  }

  lemma AnySignModSafe(an: Analyzer, vs: set<string>, m: Expr, env: Env)
    requires ModSafe(an, vs, m, env)
    ensures SafeEnds(an, vs, AnySign(m), env)
  {
    hide Build, Make, MakeCmp, Neg;
    NegModSafe(an, vs, m, env);
    MakeModSafe(an, vs, Sub, Abs(m), IntImm(1), env);
    NegModSafe(an, vs, Make(Sub, Abs(m), IntImm(1)), env);
  }

  lemma OneQuotientModSafe(an: Analyzer, vs: set<string>, a: IntervalSet, m: Expr, env: Env)
    requires SafeEnds(an, vs, a, env) && ModSafe(an, vs, m, env)
    ensures var s := OneQuotient(an, a, m); s.Some? ==> SafeEnds(an, vs, s.value, env)
  {
    hide Build, Make, MakeCmp, Neg;
    MakeModSafe(an, vs, Sub, m, IntImm(1), env);
    var qmin := Build(FloorDiv, a.Min(), m);
    if qmin.Some? {
      BuildModSafe(an, vs, FloorDiv, a.Min(), m, env);
      MakeModSafe(an, vs, Mul, m, qmin.value, env);
      MakeModSafe(an, vs, Sub, a.Min(), Make(Mul, m, qmin.value), env);
      MakeModSafe(an, vs, Sub, a.Max(), Make(Mul, m, qmin.value), env);
    }
  }

  lemma RemainderModSafe(an: Analyzer, vs: set<string>, a: IntervalSet, b: IntervalSet, env: Env)
    requires SafeEnds(an, vs, a, env) && SafeEnds(an, vs, b, env)
    ensures var s := CombineMod(an, a, b); s.Some? ==> SafeEnds(an, vs, s.value, env)
    ensures var s := CombineFloorMod(an, a, b); s.Some? ==> SafeEnds(an, vs, s.value, env)
  {
    hide AnySign, Make, OneQuotient;
    MakeModSafe(an, vs, Sub, b.Min(), IntImm(1), env);
    AnySignModSafe(an, vs, b.Min(), env);
    OneQuotientModSafe(an, vs, a, b.Min(), env);
  }

  lemma MinMaxModSafe(an: Analyzer, vs: set<string>, a: Expr, b: Expr, env: Env)
    requires ModSafe(an, vs, a, env) && ModSafe(an, vs, b, env)
    ensures ModSafe(an, vs, MinOf(a, b), env) && ModSafe(an, vs, MaxOf(a, b), env)
  {
    hide Build, Make, Neg;
    MakeModSafe(an, vs, Min, a, b, env);
    MakeModSafe(an, vs, Max, a, b, env);
  }

  lemma CombineModSafe(an: Analyzer, vs: set<string>, op: BinOp, a: IntervalSet, b: IntervalSet, env: Env)
    requires SafeEnds(an, vs, a, env) && SafeEnds(an, vs, b, env)
    requires op.Mod? && IsSinglePoint(an, a) && IsSinglePoint(an, b) ==> NodeSafe(an, vs, a.Min(), b.Min(), env)
    ensures var s := Combine(an, op, a, b); s.Some? ==> SafeEnds(an, vs, s.value, env)
  {
    hide Build, CombineFloorMod, CombineMod, CombineMul, CombineQuotient, Make, MaxOf, MinOf, NodeSafe;
    MinMaxModSafe(an, vs, a.Min(), b.Min(), env);
    MinMaxModSafe(an, vs, a.Max(), b.Max(), env);
    if IsSinglePoint(an, a) && IsSinglePoint(an, b) {
      BuildModSafe(an, vs, op, a.Min(), b.Min(), env);
    } else if op.Add? || op.Sub? {
      MakeModSafe(an, vs, Add, a.Min(), b.Min(), env);
      MakeModSafe(an, vs, Add, a.Max(), b.Max(), env);
      MakeModSafe(an, vs, Sub, a.Min(), b.Max(), env);
      MakeModSafe(an, vs, Sub, a.Max(), b.Min(), env);
    } else if op.Mul? {
      MulModSafe(an, vs, a, b, env);
      MulModSafe(an, vs, b, a, env);
    } else if op.Div? || op.FloorDiv? {
      QuotientModSafe(an, vs, op, a, b, env);
    } else {
      RemainderModSafe(an, vs, a, b, env);
    }
  }

  /** A remainder of points built anew is as safe as the one it comes from. */
  lemma PointsModSafe(an: Analyzer, vs: set<string>, dom: DomMap, l: Expr, r: Expr, env: Env, depth: nat)
    requires an.Valid() && depth <= |dom| && InDomain(dom, env) && dom.Keys <= vs
    requires Defined(l, env) && RemaindersFit(an, dom, l, env, depth)
    requires Defined(r, env) && RemaindersFit(an, dom, r, env, depth) && NodeSafe(an, vs, l, r, env)
    ensures var a, b := EvalSet(an, dom, l, depth), EvalSet(an, dom, r, depth);
            && a.Some? && b.Some? && !(MatchPoint(a.value, l) && MatchPoint(b.value, r))
            && IsSinglePoint(an, a.value) && IsSinglePoint(an, b.value) ==>
              NodeSafe(an, vs, a.value.Min(), b.value.Min(), env)
  {
    hide Apply, EvalSet, RemaindersFit, InDomain, Analyzer.SimplifyKeepsValue, Analyzer.SimplifyKeepsVars;
    var a, b := EvalSet(an, dom, l, depth), EvalSet(an, dom, r, depth);
    if Untouched(vs, l) { UntouchedIsPoint(an, vs, dom, l, depth); }
    if Untouched(vs, r) { UntouchedIsPoint(an, vs, dom, r, depth); }
    if a.Some? && b.Some? && IsSinglePoint(an, a.value) && IsSinglePoint(an, b.value) {
      EvalSetContains(an, dom, l, depth, env);
      EvalSetContains(an, dom, r, depth, env);
      PointIsValue(an, a.value, env, Eval(l, env));
      PointIsValue(an, b.value, env, Eval(r, env));
    }
  }

  /** The ends of the evaluated set of a safe expression are safe. */
  lemma {:induction false} EvalSetModSafe(an: Analyzer, vs: set<string>, dom: DomMap, e: Expr, depth: nat, env: Env)
    requires an.Valid() && depth <= |dom| && InDomain(dom, env) && SafeDomain(an, vs, dom, env)
    requires e.Inf? || (Defined(e, env) && ModSafe(an, vs, e, env))
    ensures var s := EvalSet(an, dom, e, depth); s.Some? ==> SafeEnds(an, vs, s.value, env)
    decreases |dom| - depth, e
  {
    hide Analyzer.Valid, Combine, Apply, Make, Build, MinOf, MaxOf, NodeSafe, RemaindersFit;
    if EvalSet(an, dom, e, depth).Some? {
      match e
      case IntImm(_) =>
      case Inf(_) =>
      case Var(x) =>
        if x in dom && !MatchPoint(dom[x], e) && depth < |dom| {
          EvalSetModSafe(an, vs, dom, dom[x].Min(), depth + 1, env);
          EvalSetModSafe(an, vs, dom, dom[x].Max(), depth + 1, env);
        }
      case Bin(op, l, r) =>
        EvalSetModSafe(an, vs, dom, l, depth, env);
        EvalSetModSafe(an, vs, dom, r, depth, env);
        var a, b := EvalSet(an, dom, l, depth).value, EvalSet(an, dom, r, depth).value;
        if !(MatchPoint(a, l) && MatchPoint(b, r)) {
          if op.Mod? {
            SafeFits(an, vs, dom, l, env, depth);
            SafeFits(an, vs, dom, r, env, depth);
            PointsModSafe(an, vs, dom, l, r, env, depth);
          }
          CombineModSafe(an, vs, op, a, b, env);
        }
      case Select(_, t, f) =>
        EvalSetModSafe(an, vs, dom, t, depth, env);
        EvalSetModSafe(an, vs, dom, f, depth, env);
        MinMaxModSafe(an, vs, EvalSet(an, dom, f, depth).value.Min(), EvalSet(an, dom, t, depth).value.Min(), env);
        MinMaxModSafe(an, vs, EvalSet(an, dom, f, depth).value.Max(), EvalSet(an, dom, t, depth).value.Max(), env);
    }
  }
}
