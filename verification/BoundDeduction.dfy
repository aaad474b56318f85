/** src/arith/bound_deducer.cc: from a comparison to an interval for one variable. */
module BoundDeduction {
  import opened Tir
  import opened ConstFold
  import opened Analyzers
  import opened IntervalSets
  import opened IntervalSoundness
  import opened SubExprSets
  import opened Indices

  datatype CompareOp = Greater | Less | Equal

  /** target >= r, target <= r or target == r */
  predicate Satisfies(op: CompareOp, x: int, r: int) {
    match op
    case Greater => x >= r
    case Less => x <= r
    case Equal => x == r
  }

  function ReverseOp(op: CompareOp): CompareOp {
    match op
    case Greater => Less
    case Less => Greater
    case Equal => Equal
  }

  /** An abort of the original, an unsuccessful deduction, or `target op result`. */
  datatype Outcome = Abort | Fail | Bound(op: CompareOp, result: Expr)

  /** An operator on integers; a symbolic limit has another type and aborts. */
  function Arith(op: BinOp, a: Expr, b: Expr): Option<Expr> {
    if a.Inf? || b.Inf? then None else Build(op, a, b)
  }

  // ---- undoing one operation ----

  /** The sign of an operand by the recorded sets; without an entry it is not known. */
  function RecordedSign(an: Analyzer, sets: SetMap, operand: Expr): Sign {
    if operand in sets then SignOf(an, sets[operand]) else Unknown
  }

  /** target * operand op result, solved for target. */
  function UndoMul(an: Analyzer, sets: SetMap, operand: Expr, op: CompareOp, result: Expr): Outcome {
    var sign := RecordedSign(an, sets, operand);
    if sign.Unknown? then Fail
    else
      var rem, quo := Arith(FloorMod, result, operand), Arith(FloorDiv, result, operand);
      if rem.None? || quo.None? then Abort
      else
        var op' := if sign.Negative? then ReverseOp(op) else op;
        if an.canProve(MakeCmp(EQ, rem.value, IntImm(0))) then Bound(op', quo.value)
        else match op'
          case Greater => Bound(op', Make(Add, quo.value, IntImm(1)))
          case Equal => Fail
          case Less => Bound(op', quo.value)
  }

  /** One step down the path: the comparison for the child that holds the target. */
  function Undo(an: Analyzer, sets: SetMap, bin: BinOp, left: bool, operand: Expr, op: CompareOp, result: Expr): Outcome
  {
    match bin
    case Add =>
      var r := Arith(Sub, result, operand);
      if r.None? then Abort else Bound(op, r.value)
    case Sub =>
      if left then
        var r := Arith(Add, result, operand);
        if r.None? then Abort else Bound(op, r.value)
      else
        var r := Arith(Sub, result, operand);
        if r.None? then Abort else Bound(ReverseOp(op), Neg(r.value))
    case Mul => UndoMul(an, sets, operand, op, result)
    case _ => Fail
  }

  predicate Solvable(bin: BinOp) { bin.Add? || bin.Sub? || bin.Mul? }

  /**
   All the way down to the target. Any other node on the way fails, after its first
   child has been visited if the target is in there.
   */
  function Solve(an: Analyzer, sets: SetMap, target: string, e: Expr, op: CompareOp, result: Expr): Outcome
    decreases e
  {
    if e == Var(target) then Bound(op, result)
    else if e.Bin? && Uses(e, target) && Solvable(e.op) then
      var left := Uses(e.a, target);
      var step := Undo(an, sets, e.op, left, if left then e.b else e.a, op, result);
      if step.Bound? then Solve(an, sets, target, if left then e.a else e.b, step.op, step.result) else step
    else if e.Bin? && Uses(e.a, target) && Solve(an, sets, target, e.a, op, result).Abort? then Abort
    else if e.Select? && target in CondVars(e.cond) then SolveCond(an, sets, target, e.cond, op, result)
    else Fail
  }

  /** A condition is never solved: it fails, or the visit of its first child aborts. */
  function SolveCond(an: Analyzer, sets: SetMap, target: string, c: Cond, op: CompareOp, result: Expr): (out: Outcome)
    ensures out.Abort? || out.Fail?
    decreases c
  {
    match c
    case BoolImm(_) => Fail
    case Cmp(cmp, l, _) =>
      if (cmp.EQ? || cmp.NE?) && Uses(l, target) && Solve(an, sets, target, l, op, result).Abort? then Abort else Fail
    case And(p, _) => if target in CondVars(p) then SolveCond(an, sets, target, p, op, result) else Fail
    case Or(p, _) => if target in CondVars(p) then SolveCond(an, sets, target, p, op, result) else Fail
    case Not(p) => if target in CondVars(p) then SolveCond(an, sets, target, p, op, result) else Fail
  }

  // ---- the arithmetic of one step ----

  /** Dividing an inequality by a factor of known sign, with the quotient rounded down. */
  lemma DivideInequality(x: int, y: int, r: int)
    requires y != 0
    ensures var q, m := FloorDivision(r, y), FloorRemainder(r, y);
            && (y > 0 ==> (x * y <= r <==> x <= q) && (x * y >= r <==> x >= if m == 0 then q else q + 1))
            && (y < 0 ==> (x * y >= r <==> x <= q) && (x * y <= r <==> x >= if m == 0 then q else q + 1))
            && (x * y == r <==> m == 0 && x == q)
  {
    hide FloorDivision, FloorRemainder;
    FloorMeaning(r, y);
    var q, m := FloorDivision(r, y), FloorRemainder(r, y);
    assert (x - q) * y == x * y - q * y;
    if x > q { MulMonotone(1, x - q, y); }
    if x < q { MulMonotone(x - q, -1, y); }
  }

  /** What rounding up means for a bound: the least integer at or above the exact quotient. */
  predicate Rounded(op: CompareOp, divided: bool, x: int, q: int) {
    Satisfies(op, x, if !divided && op == Greater then q + 1 else q) && (op == Equal ==> divided)
  }

  lemma DivideComparison(op: CompareOp, x: int, y: int, r: int, divided: bool)
    requires y != 0 && (divided ==> FloorRemainder(r, y) == 0)
    ensures var op' := if y < 0 then ReverseOp(op) else op;
            && (Rounded(op', divided, x, FloorDivision(r, y)) ==> Satisfies(op, x * y, r))
            && (divided == (FloorRemainder(r, y) == 0) ==>
                  (Rounded(op', divided, x, FloorDivision(r, y)) <==> Satisfies(op, x * y, r)))
  {
    hide FloorDivision, FloorRemainder;
    DivideInequality(x, y, r);
  }

  /** Folding a quotient or difference of two expressions leaves the left one defined. */
  lemma ArithLeftDefined(op: BinOp, a: Expr, b: Expr, env: Env)
    requires (op.Add? || op.Sub? || op.FloorDiv?) && Arith(op, a, b).Some?
    requires Defined(b, env) && Defined(Arith(op, a, b).value, env)
    ensures Defined(a, env)
  {}

  /** The remainders of e fit at whatever depth its set was recorded. */
  ghost predicate FitsAtAnyDepth(an: Analyzer, dom: DomMap, e: Expr, env: Env) {
    forall depth: nat :: depth <= |dom| ==> RemaindersFit(an, dom, e, env, depth)
  }

  lemma RecordedSignIsRight(an: Analyzer, hint: DomMap, sets: SetMap, operand: Expr, env: Env)
    requires an.Valid() && InDomain(hint, env) && Entries(an, hint, sets)
    requires Defined(operand, env) && FitsAtAnyDepth(an, hint, operand, env)
    ensures var sign, y := RecordedSign(an, sets, operand), Eval(operand, env);
            (sign.Positive? ==> y > 0) && (sign.Negative? ==> y < 0) && (sign.Zero? ==> y == 0)
  {
    hide EvalSet, RemaindersFit, SignOf, Contains, InDomain, Analyzer.Valid;
    if operand in sets {
      assert IsEntry(an, hint, operand, sets[operand]);
      var depth: nat :| depth <= |hint| && EvalSet(an, hint, operand, depth) == Some(sets[operand]);
      EvalSetContains(an, hint, operand, depth, env);
      SignIsRight(an, sets[operand], env, Eval(operand, env));
    }
  }

  lemma UndoMulSound(an: Analyzer, hint: DomMap, sets: SetMap, operand: Expr, op: CompareOp, result: Expr,
                     env: Env, x: int)
    requires an.Valid() && InDomain(hint, env) && Entries(an, hint, sets)
    requires Defined(operand, env) && FitsAtAnyDepth(an, hint, operand, env)
    requires var step := UndoMul(an, sets, operand, op, result);
             step.Bound? && Defined(step.result, env) && Satisfies(step.op, x, Eval(step.result, env))
    ensures Defined(result, env) && Satisfies(op, x * Eval(operand, env), Eval(result, env))
  {
    hide RecordedSign, FitsAtAnyDepth, Entries, InDomain;
    QuotientDefined(an, sets, operand, op, result, env);
    ArithLeftDefined(FloorDiv, result, operand, env);
    if Eval(operand, env) == 0 {
      ZeroDividend(result, operand, env);
    } else {
      RecordedSignIsRight(an, hint, sets, operand, env);
      UndoMulBySign(an, sets, operand, op, result, env, x);
    }
  }

  lemma QuotientDefined(an: Analyzer, sets: SetMap, operand: Expr, op: CompareOp, result: Expr, env: Env)
    requires UndoMul(an, sets, operand, op, result).Bound?
    requires Defined(UndoMul(an, sets, operand, op, result).result, env)
    ensures Defined(Arith(FloorDiv, result, operand).value, env)
  {
    hide RecordedSign, MakeCmp;
    var quo := Arith(FloorDiv, result, operand).value;
    assert quo.IntImm? || Make(Add, quo, IntImm(1)) == Bin(Add, quo, IntImm(1));
  }

  /** A quotient by a zero value is defined only where folding removed the division. */
  lemma ZeroDividend(result: Expr, operand: Expr, env: Env)
    requires Arith(FloorDiv, result, operand).Some? && Defined(Arith(FloorDiv, result, operand).value, env)
    requires Eval(operand, env) == 0
    ensures Eval(result, env) == 0
  {}

  lemma UndoMulBySign(an: Analyzer, sets: SetMap, operand: Expr, op: CompareOp, result: Expr, env: Env, x: int)
    requires an.Valid() && Defined(operand, env) && Eval(operand, env) != 0 && Defined(result, env)
    requires var sign := RecordedSign(an, sets, operand);
             && (sign.Positive? ==> Eval(operand, env) > 0) && (sign.Negative? ==> Eval(operand, env) < 0)
             && !sign.Zero?
    requires var step := UndoMul(an, sets, operand, op, result);
             step.Bound? && Satisfies(step.op, x, Eval(step.result, env))
    ensures Satisfies(op, x * Eval(operand, env), Eval(result, env))
  {
    hide FloorDivision, FloorRemainder, RecordedSign, Build, Make, MakeCmp;
    hide Analyzer.SimplifyKeepsValue, Analyzer.SimplifyKeepsVars, Analyzer.AnswersLiterals;
    var rem, quo := Arith(FloorMod, result, operand).value, Arith(FloorDiv, result, operand).value;
    BuildKeepsValue(FloorDiv, result, operand, env);
    BuildKeepsValue(FloorMod, result, operand, env);
    MakeCmpKeepsValue(EQ, rem, IntImm(0), env);
    MakeKeepsValue(Add, quo, IntImm(1), env);
    DivideComparison(op, x, Eval(operand, env), Eval(result, env), an.canProve(MakeCmp(EQ, rem, IntImm(0))));
  }

  /** Undoing a node: the child's comparison implies the node's. */
  lemma UndoSound(an: Analyzer, hint: DomMap, sets: SetMap, bin: BinOp, left: bool, operand: Expr, op: CompareOp,
                  result: Expr, env: Env, x: int)
    requires an.Valid() && InDomain(hint, env) && Entries(an, hint, sets) && Defined(operand, env)
    requires bin.Mul? ==> FitsAtAnyDepth(an, hint, operand, env)
    requires var step := Undo(an, sets, bin, left, operand, op, result);
             step.Bound? && Defined(step.result, env) && Satisfies(step.op, x, Eval(step.result, env))
    ensures Defined(result, env)
    ensures var y := Eval(operand, env);
            Satisfies(op, if left then Apply(bin, x, y) else Apply(bin, y, x), Eval(result, env))
  {
    hide UndoMul, Build, Entries, InDomain, FitsAtAnyDepth, Analyzer.Valid;
    if bin.Mul? {
      UndoMulSound(an, hint, sets, operand, op, result, env, x);
    } else if bin.Sub? && left {
      ArithLeftDefined(Add, result, operand, env);
      BuildKeepsValue(Add, result, operand, env);
    } else {
      var r := Arith(Sub, result, operand).value;
      if bin.Sub? { NegDefined(r, env); }
      ArithLeftDefined(Sub, result, operand, env);
      BuildKeepsValue(Sub, result, operand, env);
      NegKeepsValue(r, env);
    }
  }

  lemma NegDefined(a: Expr, env: Env)
    requires Defined(Neg(a), env)
    ensures Defined(a, env)
  {}

  /** The remainders in the factors whose sign is asked for on the way down fit. */
  ghost predicate FactorsFit(an: Analyzer, hint: DomMap, target: string, e: Expr, env: Env) {
    e.Bin? && Uses(e, target) && Solvable(e.op) ==>
      var left := Uses(e.a, target);
      && (e.op.Mul? ==> FitsAtAnyDepth(an, hint, if left then e.b else e.a, env))
      && FactorsFit(an, hint, target, if left then e.a else e.b, env)
  }

  /** What is deduced for the target implies the comparison of the whole expression. */
  lemma {:induction false} SolveSound(an: Analyzer, hint: DomMap, sets: SetMap, target: string, e: Expr, op: CompareOp,
                                      result: Expr, env: Env)
    requires an.Valid() && InDomain(hint, env) && Entries(an, hint, sets)
    requires Defined(e, env) && FactorsFit(an, hint, target, e, env)
    requires var out := Solve(an, sets, target, e, op, result);
             out.Bound? && Defined(out.result, env) && Satisfies(out.op, env(target), Eval(out.result, env))
    ensures Defined(result, env) && Satisfies(op, Eval(e, env), Eval(result, env))
    decreases e
  {
    hide Undo, Satisfies, FitsAtAnyDepth, Entries, InDomain, Analyzer.Valid;
    if e != Var(target) {
      var left := Uses(e.a, target);
      var child, operand := if left then e.a else e.b, if left then e.b else e.a;
      var step := Undo(an, sets, e.op, left, operand, op, result);
      SolveSound(an, hint, sets, target, child, step.op, step.result, env);
      UndoSound(an, hint, sets, e.op, left, operand, op, result, env, Eval(child, env));
    }
  }

  /** A symbolic limit is never computed: it comes out only if it went in, and then unchanged. */
  lemma {:induction false} SolveLimit(an: Analyzer, sets: SetMap, target: string, e: Expr, op: CompareOp, result: Expr)
    requires Solve(an, sets, target, e, op, result).Bound? && Solve(an, sets, target, e, op, result).result.Inf?
    ensures result.Inf? && Solve(an, sets, target, e, op, result) == Bound(op, result)
    decreases e
  {
    if e != Var(target) {
      var left := Uses(e.a, target);
      var operand := if left then e.b else e.a;
      var step := Undo(an, sets, e.op, left, operand, op, result);
      SolveLimit(an, sets, target, if left then e.a else e.b, step.op, step.result);
      UndoLimit(an, sets, e.op, left, operand, op, result);
    }
  }

  lemma UndoLimit(an: Analyzer, sets: SetMap, bin: BinOp, left: bool, operand: Expr, op: CompareOp, result: Expr)
    requires Undo(an, sets, bin, left, operand, op, result).Bound?
    ensures !Undo(an, sets, bin, left, operand, op, result).result.Inf?
  {
    hide RecordedSign, MakeCmp;
  }

  // ---- the whole deduction ----

  /** A comparison with the side that holds the target on the left. */
  datatype Problem = Problem(op: CompareOp, expr: Expr, result: Expr)

  function Transform(cond: Cond, target: string): Option<Problem> {
    if !cond.Cmp? then None
    else
      var left := Uses(cond.l, target);
      match cond.cmp
      case LT => Some(if left then Problem(Less, cond.l, Make(Sub, cond.r, IntImm(1)))
                      else Problem(Greater, cond.r, Make(Add, cond.l, IntImm(1))))
      case LE => Some(if left then Problem(Less, cond.l, cond.r) else Problem(Greater, cond.r, cond.l))
      case GT => Some(if left then Problem(Greater, cond.l, Make(Add, cond.r, IntImm(1)))
                      else Problem(Less, cond.r, Make(Sub, cond.l, IntImm(1))))
      case GE => Some(if left then Problem(Greater, cond.l, cond.r) else Problem(Less, cond.r, cond.l))
      case EQ => Some(if left then Problem(Equal, cond.l, cond.r) else Problem(Equal, cond.r, cond.l))
      case NE => None
  }

  lemma TransformMeaning(cond: Cond, target: string, env: Env)
    requires Transform(cond, target).Some? && CondDefined(cond, env)
    ensures var p := Transform(cond, target).value;
            && Defined(p.expr, env) && Defined(p.result, env)
            && (Satisfies(p.op, Eval(p.expr, env), Eval(p.result, env)) <==> Holds(cond, env))
  {
    hide Make, Build;
    MakeKeepsValue(Sub, cond.r, IntImm(1), env);
    MakeKeepsValue(Add, cond.l, IntImm(1), env);
    MakeKeepsValue(Add, cond.r, IntImm(1), env);
    MakeKeepsValue(Sub, cond.l, IntImm(1), env);
  }

  /** Whether the ends of a set can be compared at all, and are proved equal. */
  datatype EndsEqual = Mismatch | NotProved | Proved

  function CompareEnds(an: Analyzer, s: IntervalSet): EndsEqual {
    if s.Min().Inf? != s.Max().Inf? then Mismatch
    else if an.canProve(MakeCmp(EQ, s.Min(), s.Max())) then Proved
    else NotProved
  }

  datatype Relaxed = RelaxAbort | RelaxFail | RelaxTo(expr: Expr, result: Expr)

  /** The comparison that implies the given one for every value of the relaxed variables. */
  function Relax(an: Analyzer, relax: DomMap, p: Problem): Relaxed {
    var a, b := EvalSet(an, relax, p.expr), EvalSet(an, relax, p.result);
    if a.None? || b.None? then RelaxAbort
    else if a.value.IsEverything() || b.value.IsEverything() then RelaxFail
    else if p.op.Equal? && CompareEnds(an, b.value).Mismatch? then RelaxAbort
    else if p.op.Equal? && CompareEnds(an, b.value).NotProved? then RelaxFail
    else if p.op.Equal? && CompareEnds(an, a.value).Mismatch? then RelaxAbort
    else if p.op.Equal? && CompareEnds(an, a.value).NotProved? then RelaxFail
    else
      RelaxTo(if p.op.Greater? then a.value.Min() else a.value.Max(),
              if p.op.Greater? then b.value.Max() else b.value.Min())
  }

  lemma EqualEnds(an: Analyzer, s: IntervalSet, env: Env, n: int)
    requires an.Valid() && Contains(s, env, n) && CompareEnds(an, s).Proved? && !s.Min().Inf?
    ensures Defined(s.Min(), env) && Defined(s.Max(), env) && Eval(s.Min(), env) == n == Eval(s.Max(), env)
  {
    MakeCmpKeepsValue(EQ, s.Min(), s.Max(), env);
  }

  lemma RelaxSound(an: Analyzer, relax: DomMap, p: Problem, env: Env)
    requires an.Valid() && InDomain(relax, env) && Relax(an, relax, p).RelaxTo?
    requires Defined(p.expr, env) && RemaindersFit(an, relax, p.expr, env)
    requires Defined(p.result, env) && RemaindersFit(an, relax, p.result, env)
    ensures var q := Relax(an, relax, p);
            && (q.expr.Inf? || Defined(q.expr, env))
            && (p.op.Greater? ==> q.result != Inf(false)) && (p.op.Less? ==> q.result != Inf(true))
            && (!q.expr.Inf? && Defined(q.result, env) && Satisfies(p.op, Eval(q.expr, env), Eval(q.result, env))
                ==> Satisfies(p.op, Eval(p.expr, env), Eval(p.result, env)))
  {
    hide EvalSet, RemaindersFit;
    EvalSetContains(an, relax, p.expr, 0, env);
    EvalSetContains(an, relax, p.result, 0, env);
    var a, b := EvalSet(an, relax, p.expr).value, EvalSet(an, relax, p.result).value;
    if p.op.Equal? {
      if !b.Min().Inf? { EqualEnds(an, b, env, Eval(p.result, env)); }
      if !a.Min().Inf? { EqualEnds(an, a, env, Eval(p.expr, env)); }
    }
  }

  function Occurrences(vars: seq<string>, target: string): nat {
    if vars == [] then 0 else (if vars[0] == target then 1 else 0) + Occurrences(vars[1..], target)
  }

  lemma {:induction false} OccurrencesConcat(p: seq<string>, q: seq<string>, target: string)
    ensures Occurrences(p + q, target) == Occurrences(p, target) + Occurrences(q, target)
  {
    if p == [] {
      assert p + q == q;
    } else {
      assert (p + q)[1..] == p[1..] + q;
      OccurrencesConcat(p[1..], q, target);
    }
  }

  function Deduce(an: Analyzer, target: string, cond: Cond, hint: DomMap, relax: DomMap): Outcome {
    var p := Transform(cond, target);
    if Occurrences(CondVars(cond), target) != 1 || p.None? then Fail
    else
      var q := Relax(an, relax, p.value);
      match q
      case RelaxAbort => Abort
      case RelaxFail => Fail
      case RelaxTo(expr, result) =>
        if !Uses(expr, target) then Fail
        else if EvalSet(an, hint, expr).None? then Abort
        else Solve(an, SubExprSetsOf(an, hint, expr), target, expr, p.value.op, result)
  }

  /** The interval returned; nothing on failure. */
  function ToInterval(out: Outcome): IntervalSet
    requires !out.Abort?
  {
    match out
    case Fail => Empty
    case Bound(Equal, r) => Point(r)
    case Bound(Greater, r) => Range(r, Inf(true))
    case Bound(Less, r) => Range(Inf(false), r)
  }

  /** Every remainder whose set the deduction computes fits: both sides relaxed, then the factors on the way. */
  ghost predicate DeductionFits(an: Analyzer, target: string, cond: Cond, hint: DomMap, relax: DomMap, env: Env) {
    var p := Transform(cond, target);
    p.Some? ==>
      && RemaindersFit(an, relax, p.value.expr, env)
      && RemaindersFit(an, relax, p.value.result, env)
      && var q := Relax(an, relax, p.value);
         (q.RelaxTo? ==> FactorsFit(an, hint, target, q.expr, env))
  }

  /**
   In every environment with the hinted and relaxed variables in their sets, where the remainders whose
   sets are computed fit, a target value inside the returned interval makes the comparison true.
   */
  lemma DeduceSound(an: Analyzer, target: string, cond: Cond, hint: DomMap, relax: DomMap, env: Env)
    requires an.Valid() && InDomain(hint, env) && InDomain(relax, env)
    requires CondDefined(cond, env) && DeductionFits(an, target, cond, hint, relax, env)
    requires var out := Deduce(an, target, cond, hint, relax);
             !out.Abort? && Contains(ToInterval(out), env, env(target))
    ensures Holds(cond, env)
  {
    hide EvalSet, Solve, Relax, Transform, Occurrences, Holds, RemaindersFit, FactorsFit, SubExprSetsOf, Entries;
    var out := Deduce(an, target, cond, hint, relax);
    var p := Transform(cond, target).value;
    var q := Relax(an, relax, p);
    TransformMeaning(cond, target, env);
    RelaxSound(an, relax, p, env);
    var sets := SubExprSetsOf(an, hint, q.expr);
    SubExprSetsMeaning(an, hint, q.expr);
    if out.result.Inf? { SolveLimit(an, sets, target, q.expr, p.op, q.result); }
    SolveSound(an, hint, sets, target, q.expr, p.op, q.result, env);
  }

  // ---- the condition read off the comparison ----

  predicate CondModSafe(an: Analyzer, vs: set<string>, cond: Cond, env: Env) {
    cond.Cmp? ==> ModSafe(an, vs, cond.l, env) && ModSafe(an, vs, cond.r, env)
  }

  lemma TransformModSafe(an: Analyzer, vs: set<string>, cond: Cond, target: string, env: Env)
    requires Transform(cond, target).Some? && CondModSafe(an, vs, cond, env)
    ensures var p := Transform(cond, target).value; ModSafe(an, vs, p.expr, env) && ModSafe(an, vs, p.result, env)
  {
    hide NodeSafe, Make;
    MakeModSafe(an, vs, Sub, cond.r, IntImm(1), env);
    MakeModSafe(an, vs, Add, cond.l, IntImm(1), env);
    MakeModSafe(an, vs, Add, cond.r, IntImm(1), env);
    MakeModSafe(an, vs, Sub, cond.l, IntImm(1), env);
  }

  lemma {:induction false} SafeFactorsFit(an: Analyzer, vs: set<string>, hint: DomMap, target: string, e: Expr, env: Env)
    requires an.Valid() && InDomain(hint, env) && SafeDomain(an, vs, hint, env)
    requires e.Inf? || (Defined(e, env) && ModSafe(an, vs, e, env))
    ensures FactorsFit(an, hint, target, e, env)
  {
    hide RemaindersFit, InDomain, SafeDomain, Analyzer.Valid, NodeSafe;
    if e.Bin? && Uses(e, target) && Solvable(e.op) {
      forall depth: nat | depth <= |hint|
        ensures RemaindersFit(an, hint, e.a, env, depth) && RemaindersFit(an, hint, e.b, env, depth)
      {
        SafeFits(an, vs, hint, e.a, env, depth);
        SafeFits(an, vs, hint, e.b, env, depth);
      }
      SafeFactorsFit(an, vs, hint, target, if Uses(e.a, target) then e.a else e.b, env);
    }
  }

  /**
   A deduction's remainders all fit where those of the comparison and of the ends of the sets that mention
   a hinted or relaxed variable or hold a selection do; the others are never looked at.
   */
  lemma SafeDeductionFits(an: Analyzer, target: string, cond: Cond, hint: DomMap, relax: DomMap, env: Env)
    requires an.Valid() && InDomain(hint, env) && InDomain(relax, env) && CondDefined(cond, env)
    requires var vs := hint.Keys + relax.Keys;
             SafeDomain(an, vs, hint, env) && SafeDomain(an, vs, relax, env) && CondModSafe(an, vs, cond, env)
    ensures DeductionFits(an, target, cond, hint, relax, env)
  {
    hide EvalSet, Transform, RemaindersFit, FactorsFit, InDomain, SafeDomain, Analyzer.Valid, ModSafe, Holds;
    var vs := hint.Keys + relax.Keys;
    if Transform(cond, target).Some? {
      var p := Transform(cond, target).value;
      TransformMeaning(cond, target, env);
      TransformModSafe(an, vs, cond, target, env);
      SafeFits(an, vs, relax, p.expr, env, 0);
      SafeFits(an, vs, relax, p.result, env, 0);
      if Relax(an, relax, p).RelaxTo? {
        RelaxSound(an, relax, p, env);
        EvalSetModSafe(an, vs, relax, p.expr, 0, env);
        SafeFactorsFit(an, vs, hint, target, Relax(an, relax, p).expr, env);
      }
    }
  }
}
