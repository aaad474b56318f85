/**
 src/arith/int_set.cc: symbolic interval evaluation.

 A result of None is an abort of the original: a literal zero divisor, or an
 operation that mixes an integer with a symbolic limit of another type.
 */
module IntervalSets {
  import opened Tir
  import opened ConstFold
  import opened Analyzers

  /** One expression object as both ends, or two ends. */
  datatype IntervalSet = Point(e: Expr) | Range(lo: Expr, hi: Expr) {
    function Min(): Expr { if Point? then e else lo }

    function Max(): Expr { if Point? then e else hi }

    predicate IsEmpty() { Min() == Inf(true) || Max() == Inf(false) }

    predicate IsEverything() { Min() == Inf(false) && Max() == Inf(true) }

    predicate HasLowerBound() { Min() != Inf(false) && !IsEmpty() }

    predicate HasUpperBound() { Max() != Inf(true) && !IsEmpty() }
  }

  type DomMap = map<string, IntervalSet>

  const Everything: IntervalSet := Range(Inf(false), Inf(true))

  const Empty: IntervalSet := Range(Inf(true), Inf(false))

  predicate IsSinglePoint(an: Analyzer, s: IntervalSet) {
    s.Point? || an.sameObject(s.lo, s.hi)
  }

  // ---- combining two sets ----

  function PointOf(e: Option<Expr>): Option<IntervalSet> {
    if e.None? then None else Some(Point(e.value))
  }

  function Combine(an: Analyzer, op: BinOp, a: IntervalSet, b: IntervalSet): Option<IntervalSet> {
    if IsSinglePoint(an, a) && IsSinglePoint(an, b) then
      match op
      case Min => Some(Point(MinOf(a.Min(), b.Min())))
      case Max => Some(Point(MaxOf(a.Min(), b.Min())))
      case _ => PointOf(Build(op, a.Min(), b.Min()))
    else if a.IsEmpty() then Some(a)
    else if b.IsEmpty() then Some(b)
    else match op
      case Add => Some(CombineAdd(a, b))
      case Sub => Some(CombineSub(a, b))
      case Mul => Some(if IsSinglePoint(an, a) then CombineMul(an, b, a) else CombineMul(an, a, b))
      case Div => CombineQuotient(an, Div, a, b)
      case FloorDiv => CombineQuotient(an, FloorDiv, a, b)
      case Mod => CombineMod(an, a, b)
      case FloorMod => CombineFloorMod(an, a, b)
      case Min => Some(Range(MinOf(a.Min(), b.Min()), MinOf(a.Max(), b.Max())))
      case Max => Some(Range(MaxOf(a.Min(), b.Min()), MaxOf(a.Max(), b.Max())))
  }

  function CombineAdd(a: IntervalSet, b: IntervalSet): IntervalSet {
    Range(if a.HasLowerBound() && b.HasLowerBound() then Make(Add, a.Min(), b.Min()) else Inf(false),
          if a.HasUpperBound() && b.HasUpperBound() then Make(Add, a.Max(), b.Max()) else Inf(true))
  }

  function CombineSub(a: IntervalSet, b: IntervalSet): IntervalSet {
    Range(if a.HasLowerBound() && b.HasUpperBound() then Make(Sub, a.Min(), b.Max()) else Inf(false),
          if a.HasUpperBound() && b.HasLowerBound() then Make(Sub, a.Max(), b.Min()) else Inf(true))
  }

  /** The product with a single point b; anything else is everything. */
  function CombineMul(an: Analyzer, a: IntervalSet, b: IntervalSet): IntervalSet {
    if !IsSinglePoint(an, b) then Everything
    else
      var m := b.Min();
      if IsImm(m, 0) then b
      else if IsImm(m, 1) then a
      else if an.canProveGE(m, 0) then
        Range(if a.HasLowerBound() then Make(Mul, a.Min(), m) else Inf(false),
              if a.HasUpperBound() then Make(Mul, a.Max(), m) else Inf(true))
      else if an.canProveGE(Neg(m), 1) then
        Range(if a.HasUpperBound() then Make(Mul, a.Max(), m) else Inf(false),
              if a.HasLowerBound() then Make(Mul, a.Min(), m) else Inf(true))
      else if a.HasUpperBound() && a.HasLowerBound() then
        BySign(m, Make(Mul, a.Min(), m), Make(Mul, a.Max(), m))
      else Everything
  }

  /** [e1, e2] where m >= 0 and [e2, e1] where not */
  function BySign(m: Expr, e1: Expr, e2: Expr): IntervalSet {
    var sign := MakeCmp(GE, m, IntImm(0));
    Range(Select(sign, e1, e2), Select(sign, e2, e1))
  }

  /** Both quotients, rounding towards zero or down. */
  function CombineQuotient(an: Analyzer, op: BinOp, a: IntervalSet, b: IntervalSet): Option<IntervalSet>
    requires op.Div? || op.FloorDiv?
  {
    if !IsSinglePoint(an, b) then Some(Everything)
    else
      var m := b.Min();
      if IsImm(m, 0) then None
      else if IsImm(m, 1) then Some(a)
      else
        var low := if a.HasLowerBound() then Build(op, a.Min(), m) else Some(Inf(false));
        var high := if a.HasUpperBound() then Build(op, a.Max(), m) else Some(Inf(true));
        if low.None? || high.None? then None
        else if an.canProveGE(m, 0) then Some(Range(low.value, high.value))
        else if an.canProveGE(Neg(m), 1) then
          Some(Range(if a.HasUpperBound() then high.value else Inf(false),
                     if a.HasLowerBound() then low.value else Inf(true)))
        else if a.HasUpperBound() && a.HasLowerBound() then Some(BySign(m, low.value, high.value))
        else Some(Everything)
  }

  function Abs(e: Expr): Expr {
    if e.IntImm? then IntImm(if e.value >= 0 then e.value else -e.value)
    else Select(MakeCmp(GE, e, IntImm(0)), e, Neg(e))
  }

  /** [-(|m| - 1), |m| - 1] */
  function AnySign(m: Expr): IntervalSet {
    var bound := Make(Sub, Abs(m), IntImm(1));
    Range(Neg(bound), bound)
  }

  /** The truncated remainder, as if the dividend were never negative. */
  function CombineMod(an: Analyzer, a: IntervalSet, b: IntervalSet): Option<IntervalSet> {
    if !IsSinglePoint(an, b) then Some(Everything)
    else
      var m := b.Min();
      if IsImm(m, 0) then None
      else if an.canProveGE(m, 0) then Some(Range(IntImm(0), Make(Sub, m, IntImm(1))))
      else Some(AnySign(m))
  }

  function CombineFloorMod(an: Analyzer, a: IntervalSet, b: IntervalSet): Option<IntervalSet> {
    if !IsSinglePoint(an, b) then Some(Everything)
    else
      var m := b.Min();
      if IsImm(m, 0) then None
      else if an.canProveGE(m, 0) then
        if m.IntImm? && a.HasLowerBound() != a.HasUpperBound() then None
        else if m.IntImm? && a.HasLowerBound() then OneQuotient(an, a, m)
        else Some(Range(IntImm(0), Make(Sub, m, IntImm(1))))
      else Some(AnySign(m))
  }

  /** When both ends have one quotient the remainders run from one end to the other. */
  function OneQuotient(an: Analyzer, a: IntervalSet, m: Expr): Option<IntervalSet> {
    var qmax, qmin := Build(FloorDiv, a.Max(), m), Build(FloorDiv, a.Min(), m);
    if qmax.None? || qmin.None? then None
    else if an.canProve(MakeCmp(EQ, qmax.value, qmin.value)) then
      Some(Range(Make(Sub, a.Min(), Make(Mul, m, qmin.value)), Make(Sub, a.Max(), Make(Mul, m, qmin.value))))
    else Some(Range(IntImm(0), Make(Sub, m, IntImm(1))))
  }

  // ---- the evaluator ----

  predicate MatchPoint(s: IntervalSet, e: Expr) { s.Min() == e && s.Max() == e }

  function EvalSet(an: Analyzer, dom: DomMap, e: Expr, depth: nat := 0): Option<IntervalSet>
    requires depth <= |dom|
    decreases |dom| - depth, e
  {
    match e
    case IntImm(_) => Some(Point(e))
    case Inf(_) => Some(Point(e))
    case Var(x) =>
      if x !in dom then Some(Point(e))
      else if MatchPoint(dom[x], e) || depth == |dom| then Some(dom[x])
      else
        var low, high := EvalSet(an, dom, dom[x].Min(), depth + 1), EvalSet(an, dom, dom[x].Max(), depth + 1);
        if low.None? || high.None? then None else Some(Range(low.value.Min(), high.value.Max()))
    case Bin(op, l, r) =>
      var a, b := EvalSet(an, dom, l, depth), EvalSet(an, dom, r, depth);
      if a.None? || b.None? then None
      else if MatchPoint(a.value, l) && MatchPoint(b.value, r) then Some(Point(e))
      else Combine(an, op, a.value, b.value)
    case Select(_, t, f) =>
      var a, b := EvalSet(an, dom, t, depth), EvalSet(an, dom, f, depth);
      if a.None? || b.None? then None
      else Some(Range(MinOf(b.value.Min(), a.value.Min()), MaxOf(b.value.Max(), a.value.Max())))
  }

  datatype Sign = Positive | Negative | Zero | Unknown

  function SignOf(an: Analyzer, s: IntervalSet): Sign {
    var low, high := an.simplify(s.Min()), an.simplify(s.Max());
    if low.IntImm? && low.value > 0 then Positive
    else if high.IntImm? && high.value < 0 then Negative
    else if IsSinglePoint(an, s) && IsImm(s.Min(), 0) then Zero
    else Unknown
  }

  // ---- enclosure ----

  predicate AtLeast(bound: Expr, env: Env, n: int) {
    bound == Inf(false) || (Defined(bound, env) && Eval(bound, env) <= n)
  }

  predicate AtMost(bound: Expr, env: Env, n: int) {
    bound == Inf(true) || (Defined(bound, env) && n <= Eval(bound, env))
  }

  /** n lies in the set, whose ends are read in env. */
  predicate Contains(s: IntervalSet, env: Env, n: int) {
    AtLeast(s.Min(), env, n) && AtMost(s.Max(), env, n)
  }

  /** Every variable of the map is in its set. */
  ghost predicate InDomain(dom: DomMap, env: Env) {
    forall x :: x in dom ==> Contains(dom[x], env, env(x))
  }

  // ---- truncated remainders ----

  /**
   What `Combine<Mod>` takes for granted of x % y, members of two sets: in the branch for a divisor proved
   non-negative, that the dividend is non-negative, or else a multiple of the divisor.
   */
  predicate RemainderFits(an: Analyzer, a: IntervalSet, b: IntervalSet, x: int, y: int) {
    var point := IsSinglePoint(an, a) && IsSinglePoint(an, b);
    !point && IsSinglePoint(an, b) && an.canProveGE(b.Min(), 0) ==> x >= 0 || Apply(Mod, x, y) == 0
  }

  /** So it is at every remainder whose set the evaluation of e computes. */
  predicate RemaindersFit(an: Analyzer, dom: DomMap, e: Expr, env: Env, depth: nat := 0)
    requires depth <= |dom|
    decreases |dom| - depth, e
  {
    match e
    case Var(x) =>
      x in dom && !MatchPoint(dom[x], e) && depth < |dom| ==>
        && RemaindersFit(an, dom, dom[x].Min(), env, depth + 1)
        && RemaindersFit(an, dom, dom[x].Max(), env, depth + 1)
    case Bin(op, l, r) =>
      && RemaindersFit(an, dom, l, env, depth)
      && RemaindersFit(an, dom, r, env, depth)
      && (op.Mod? ==>
            var a, b := EvalSet(an, dom, l, depth), EvalSet(an, dom, r, depth);
            a.Some? && b.Some? && !(MatchPoint(a.value, l) && MatchPoint(b.value, r)) ==>
              RemainderFits(an, a.value, b.value, Eval(l, env), Eval(r, env)))
    case Select(_, t, f) => RemaindersFit(an, dom, t, env, depth) && RemaindersFit(an, dom, f, env, depth)
    case _ => true
  }

  /** An expression that the evaluation over these variables leaves alone. */
  predicate Untouched(vs: set<string>, e: Expr) {
    match e
    case Var(x) => x !in vs
    case Bin(_, l, r) => Untouched(vs, l) && Untouched(vs, r)
    case Select(_, _, _) => false
    case _ => true
  }

  /** One remainder l % r fits, whatever sets its operands have. */
  predicate NodeSafe(an: Analyzer, vs: set<string>, l: Expr, r: Expr, env: Env) {
    || (Untouched(vs, l) && Untouched(vs, r))
    || (Untouched(vs, r) && !an.canProveGE(r, 0))
    || Eval(r, env) < 0
    || Eval(l, env) >= 0
    || Apply(Mod, Eval(l, env), Eval(r, env)) == 0
  }

  /** The same read off the expression alone: every remainder that the evaluation may touch fits. */
  predicate ModSafe(an: Analyzer, vs: set<string>, e: Expr, env: Env) {
    match e
    case Bin(op, l, r) => ModSafe(an, vs, l, env) && ModSafe(an, vs, r, env) && (op.Mod? ==> NodeSafe(an, vs, l, r, env))
    case Select(_, t, f) => ModSafe(an, vs, t, env) && ModSafe(an, vs, f, env)
    case _ => true
  }

  ghost predicate SafeDomain(an: Analyzer, vs: set<string>, dom: DomMap, env: Env) {
    && dom.Keys <= vs
    && forall x :: x in dom ==> ModSafe(an, vs, dom[x].Min(), env) && ModSafe(an, vs, dom[x].Max(), env)
  }
}
