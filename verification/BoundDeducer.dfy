/** src/arith/bound_deducer.cc: the visitors, with the fields they update while walking. */
module BoundDeducerVisitors {
  import opened Tir
  import opened ConstFold
  import opened Analyzers
  import opened IntervalSets
  import opened SubExprSets
  import opened BoundDeduction

  // ---- the path to the target ----

  datatype Node = ENode(e: Expr) | CNode(c: Cond)

  /** The nodes from e down to the first occurrence of the target; empty when it does not occur. */
  function PathTo(e: Expr, target: string): seq<Node> {
    match e
    case IntImm(_) => []
    case Inf(_) => []
    case Var(x) => if x == target then [ENode(e)] else []
    case Bin(_, a, b) => Under(ENode(e), First(PathTo(a, target), PathTo(b, target)))
    case Select(c, t, f) =>
      Under(ENode(e), First(CondPathTo(c, target), First(PathTo(t, target), PathTo(f, target))))
  }

  function CondPathTo(c: Cond, target: string): seq<Node> {
    match c
    case BoolImm(_) => []
    case Cmp(_, l, r) => Under(CNode(c), First(PathTo(l, target), PathTo(r, target)))
    case And(p, q) => Under(CNode(c), First(CondPathTo(p, target), CondPathTo(q, target)))
    case Or(p, q) => Under(CNode(c), First(CondPathTo(p, target), CondPathTo(q, target)))
    case Not(p) => Under(CNode(c), CondPathTo(p, target))
  }

  function Under(n: Node, path: seq<Node>): seq<Node> { if path == [] then [] else [n] + path }

  function First(p: seq<Node>, q: seq<Node>): seq<Node> { if p != [] then p else q }

  /** There is a path exactly when the target occurs, and it starts at the expression. */
  lemma {:induction false} PathIffUses(e: Expr, target: string)
    ensures PathTo(e, target) != [] <==> Uses(e, target)
    ensures PathTo(e, target) != [] ==> PathTo(e, target)[0] == ENode(e)
    decreases e
  {
    match e
    case IntImm(_) =>
    case Inf(_) =>
    case Var(_) =>
    case Bin(_, a, b) =>
      PathIffUses(a, target);
      PathIffUses(b, target);
    case Select(c, t, f) =>
      CondPathIffUses(c, target);
      PathIffUses(t, target);
      PathIffUses(f, target);
  }

  lemma {:induction false} CondPathIffUses(c: Cond, target: string)
    ensures CondPathTo(c, target) != [] <==> target in CondVars(c)
    ensures CondPathTo(c, target) != [] ==> CondPathTo(c, target)[0] == CNode(c)
    decreases c
  {
    match c
    case BoolImm(_) =>
    case Cmp(_, l, r) =>
      PathIffUses(l, target);
      PathIffUses(r, target);
    case And(p, q) =>
      CondPathIffUses(p, target);
      CondPathIffUses(q, target);
    case Or(p, q) =>
      CondPathIffUses(p, target);
      CondPathIffUses(q, target);
    case Not(p) =>
      CondPathIffUses(p, target);
  }

  // ---- counting the target ----

  class BoundDeduceInputChecker {
    const target: string
    var targetCount: nat

    constructor (target: string)
      ensures this.target == target && targetCount == 0
    {
      this.target := target;
      targetCount := 0;
    }

    method VisitExpr(e: Expr)
      modifies this
      ensures targetCount == old(targetCount) + Occurrences(Vars(e), target)
      decreases e
    {
      if e == Var(target) { targetCount := targetCount + 1; }
      match e
      case Bin(_, a, b) =>
        VisitExpr(a);
        VisitExpr(b);
        OccurrencesConcat(Vars(a), Vars(b), target);
      case Select(c, t, f) =>
        VisitCond(c);
        VisitExpr(t);
        VisitExpr(f);
        OccurrencesConcat(CondVars(c), Vars(t), target);
        OccurrencesConcat(CondVars(c) + Vars(t), Vars(f), target);
      case _ =>
    }

    method VisitCond(c: Cond)
      modifies this
      ensures targetCount == old(targetCount) + Occurrences(CondVars(c), target)
      decreases c
    {
      match c
      case BoolImm(_) =>
      case Cmp(_, l, r) =>
        VisitExpr(l);
        VisitExpr(r);
        OccurrencesConcat(Vars(l), Vars(r), target);
      case And(p, q) =>
        VisitCond(p);
        VisitCond(q);
        OccurrencesConcat(CondVars(p), CondVars(q), target);
      case Or(p, q) =>
        VisitCond(p);
        VisitCond(q);
        OccurrencesConcat(CondVars(p), CondVars(q), target);
      case Not(p) =>
        VisitCond(p);
    }
  }

  // ---- the deducer ----

  class BoundDeducer {
    const target: string
    const an: Analyzer
    const hint: DomMap
    const relax: DomMap
    const cond: Cond
    var expr: Expr
    var result: Expr
    var compOp: CompareOp
    var success: bool
    var exprMap: SetMap
    var path: seq<Node>
    var iter: nat

    constructor (an: Analyzer, target: string, cond: Cond, hint: DomMap, relax: DomMap)
      ensures this.an == an && this.target == target && this.cond == cond
      ensures this.hint == hint && this.relax == relax
      ensures success && iter == 0 && path == []
    {
      this.an, this.target, this.cond, this.hint, this.relax := an, target, cond, hint, relax;
      expr, result := IntImm(0), IntImm(0);
      compOp, success, exprMap, path, iter := Greater, true, map[], [], 0;
    }

    /** The cursor is at e: the rest of the path is e's own path. */
    ghost predicate At(n: Node, pathOfNode: seq<Node>)
      reads this
    {
      success && iter < |path| && path[iter] == n ==> path[iter..] == pathOfNode
    }

    /** What a visit leaves behind, by the outcome of solving the visited node. */
    ghost predicate Reports(out: Outcome, aborted: bool)
      reads this
    {
      match out
      case Abort => aborted
      case Fail => !aborted && !success
      case Bound(op, r) => !aborted && success && compOp == op && result == r && iter == |path|
    }

    /** Visits e if the cursor points to it; aborted is an abort of the process. */
    method VisitExpr(e: Expr) returns (aborted: bool)
      requires At(ENode(e), PathTo(e, target))
      modifies this`success, this`result, this`compOp, this`iter
      ensures !old(success) ==> !aborted && !success
      ensures old(success) && old(iter < |path| && path[iter] == ENode(e)) ==>
                Reports(Solve(an, exprMap, target, e, old(compOp), old(result)), aborted)
      ensures old(success) && !old(iter < |path| && path[iter] == ENode(e)) ==> !aborted && !success
      decreases e, 2
    {
      if !success { return false; }
      if iter < |path| && ENode(e) == path[iter] {
        PathIffUses(e, target);
        ghost var rest := path[iter..];
        iter := iter + 1;
        assert path[iter..] == rest[1..];
        aborted := Dispatch(e);
      } else {
        success := false;
        return false;
      }
    }

    /** The case for e's node type, with the cursor on the child that holds the target. */
    method Dispatch(e: Expr) returns (aborted: bool)
      requires success && 0 < iter <= |path| && Uses(e, target)
      requires [ENode(e)] + path[iter..] == PathTo(e, target)
      modifies this`success, this`result, this`compOp, this`iter
      ensures Reports(Solve(an, exprMap, target, e, old(compOp), old(result)), aborted)
      decreases e, 1
    {
      match e
      case Var(_) =>
        return false;
      case Bin(op, a, b) =>
        PathIffUses(a, target);
        PathIffUses(b, target);
        assert path[iter..] == First(PathTo(a, target), PathTo(b, target)) by {
          assert PathTo(e, target)[1..] == First(PathTo(a, target), PathTo(b, target));
        }
        if Solvable(op) {
          aborted := UndoNode(e);
        } else {
          aborted := VisitExpr(a);
          if aborted { return; }
          aborted := VisitExpr(b);
        }
      case Select(c, t, f) =>
        CondPathIffUses(c, target);
        PathIffUses(t, target);
        PathIffUses(f, target);
        assert path[iter..] == First(CondPathTo(c, target), First(PathTo(t, target), PathTo(f, target))) by {
          assert PathTo(e, target)[1..] == First(CondPathTo(c, target), First(PathTo(t, target), PathTo(f, target)));
        }
        aborted := VisitCond(c);
        if aborted { return; }
        aborted := VisitExpr(t);
        if aborted { return; }
        aborted := VisitExpr(f);
    }

    /** Add, Sub and Mul: undo the operation on the result, then visit the child on the path. */
    method UndoNode(e: Expr) returns (aborted: bool)
      requires success && iter < |path| && e.Bin? && Solvable(e.op) && Uses(e, target)
      requires path[iter..] == First(PathTo(e.a, target), PathTo(e.b, target))
      modifies this`success, this`result, this`compOp, this`iter
      ensures Reports(Solve(an, exprMap, target, e, old(compOp), old(result)), aborted)
      decreases e, 0
    {
      PathIffUses(e.a, target);
      PathIffUses(e.b, target);
      var left := ENode(e.a) == path[iter];
      assert left == Uses(e.a, target);
      var operand := if left then e.b else e.a;
      match e.op {
        case Add =>
          var r := Arith(Sub, result, operand);
          if r.None? { return true; }
          result := r.value;
        case Sub =>
          if left {
            var r := Arith(Add, result, operand);
            if r.None? { return true; }
            result := r.value;
          } else {
            var r := Arith(Sub, result, operand);
            if r.None? { return true; }
            result := r.value;
            result := Neg(result);
            compOp := ReverseOp(compOp);
          }
        case Mul =>
          aborted := DivideResult(operand);
          if aborted || !success { return; }
      }
      aborted := VisitExpr(if left then e.a else e.b);
    }

    /** The product's operand: its sign turns the comparison, its floor quotient replaces the result. */
    method DivideResult(operand: Expr) returns (aborted: bool)
      requires success
      modifies this`success, this`result, this`compOp
      ensures match UndoMul(an, exprMap, operand, old(compOp), old(result))
              case Abort => aborted
              case Fail => !aborted && !success
              case Bound(op, r) => !aborted && success && compOp == op && result == r
    {
      var sign := Unknown;
      if operand in exprMap { sign := SignOf(an, exprMap[operand]); }
      if sign.Negative? {
        compOp := ReverseOp(compOp);
      } else if sign.Unknown? {
        success := false;
        return false;
      }
      var rem := Arith(FloorMod, result, operand);
      if rem.None? { return true; }
      var divided := an.canProve(MakeCmp(EQ, rem.value, IntImm(0)));
      var quo := Arith(FloorDiv, result, operand);
      if quo.None? { return true; }
      result := quo.value;
      if !divided {
        if compOp == Greater {
          result := Make(Add, result, IntImm(1));
        } else if compOp == Equal {
          success := false;
        }
      }
      return false;
    }

    method VisitCond(c: Cond) returns (aborted: bool)
      requires At(CNode(c), CondPathTo(c, target))
      modifies this`success, this`result, this`compOp, this`iter
      ensures !old(success) ==> !aborted && !success
      ensures old(success) && old(iter < |path| && path[iter] == CNode(c)) ==>
                Reports(SolveCond(an, exprMap, target, c, old(compOp), old(result)), aborted)
      ensures old(success) && !old(iter < |path| && path[iter] == CNode(c)) ==> !aborted && !success
      decreases c, 2
    {
      if !success { return false; }
      if iter < |path| && CNode(c) == path[iter] {
        CondPathIffUses(c, target);
        ghost var rest := path[iter..];
        iter := iter + 1;
        assert path[iter..] == rest[1..];
        aborted := DispatchCond(c);
      } else {
        success := false;
        return false;
      }
    }

    method DispatchCond(c: Cond) returns (aborted: bool)
      requires success && 0 < iter <= |path| && target in CondVars(c)
      requires [CNode(c)] + path[iter..] == CondPathTo(c, target)
      modifies this`success, this`result, this`compOp, this`iter
      ensures Reports(SolveCond(an, exprMap, target, c, old(compOp), old(result)), aborted)
      decreases c, 1
    {
      hide Solve;
      ghost var rest := path[iter..];
      assert CondPathTo(c, target)[1..] == rest;
      match c
      case Cmp(cmp, l, r) =>
        if !(cmp.EQ? || cmp.NE?) {
          success := false;
          return false;
        }
        PathIffUses(l, target);
        PathIffUses(r, target);
        assert rest == First(PathTo(l, target), PathTo(r, target));
        aborted := VisitExpr(l);
        if aborted { return; }
        aborted := VisitExpr(r);
      case And(p, q) =>
        aborted := VisitBoth(p, q, c);
      case Or(p, q) =>
        aborted := VisitBoth(p, q, c);
      case Not(p) =>
        CondPathIffUses(p, target);
        assert rest == CondPathTo(p, target);
        aborted := VisitCond(p);
    }

    /** Two conditions in turn: the second is past the end of the path, or the first was off it. */
    method VisitBoth(p: Cond, q: Cond, ghost parent: Cond) returns (aborted: bool)
      requires p < parent && q < parent
      requires success && 0 < iter <= |path| && (target in CondVars(p) || target in CondVars(q))
      requires path[iter..] == First(CondPathTo(p, target), CondPathTo(q, target))
      modifies this`success, this`result, this`compOp, this`iter
      ensures Reports(if target in CondVars(p) then SolveCond(an, exprMap, target, p, old(compOp), old(result)) else Fail,
                      aborted)
      decreases parent, 0
    {
      hide Solve, SolveCond;
      CondPathIffUses(p, target);
      CondPathIffUses(q, target);
      aborted := VisitCond(p);
      if aborted { return; }
      aborted := VisitCond(q);
    }

    /** Sets the expression that holds the target, the result and the direction. */
    method TransformExpr()
      modifies this`expr, this`result, this`compOp, this`success
      ensures Transform(cond, target).None? ==> !success
      ensures Transform(cond, target).Some? ==>
                success == old(success) && Problem(compOp, expr, result) == Transform(cond, target).value
    {
      if !cond.Cmp? || cond.cmp.NE? {
        success := false;
        return;
      }
      PathIffUses(cond.l, target);
      var rightOnly := PathTo(cond.l, target) == [];
      expr := if rightOnly then cond.r else cond.l;
      result := if rightOnly then cond.l else cond.r;
      match cond.cmp
      case LT =>
        compOp := if rightOnly then Greater else Less;
        result := if rightOnly then Make(Add, result, IntImm(1)) else Make(Sub, result, IntImm(1));
      case LE => compOp := if rightOnly then Greater else Less;
      case GT =>
        compOp := if rightOnly then Less else Greater;
        result := if rightOnly then Make(Sub, result, IntImm(1)) else Make(Add, result, IntImm(1));
      case GE => compOp := if rightOnly then Less else Greater;
      case EQ => compOp := Equal;
    }

    /** Replaces both sides by ends of their sets under the relaxed variables. */
    method RelaxExpr() returns (aborted: bool)
      requires success
      modifies this`expr, this`result, this`success
      ensures match Relax(an, relax, Problem(compOp, old(expr), old(result)))
              case RelaxAbort => aborted
              case RelaxFail => !aborted && !success
              case RelaxTo(e, r) => !aborted && success && expr == e && result == r
    {
      var a := EvalSet(an, relax, expr);
      if a.None? { return true; }
      var b := EvalSet(an, relax, result);
      if b.None? { return true; }
      if a.value.IsEverything() || b.value.IsEverything() {
        success := false;
        return false;
      }
      if compOp == Equal {
        if CompareEnds(an, b.value).Mismatch? { return true; }
        if CompareEnds(an, b.value).NotProved? {
          success := false;
          return false;
        }
        if CompareEnds(an, a.value).Mismatch? { return true; }
        if CompareEnds(an, a.value).NotProved? {
          success := false;
          return false;
        }
      }
      expr := if compOp == Greater then a.value.Min() else a.value.Max();
      result := if compOp == Greater then b.value.Max() else b.value.Min();
      return false;
    }

    method Run() returns (aborted: bool)
      requires success && iter == 0 && path == []
      modifies this
      ensures Reports(Deduce(an, target, cond, hint, relax), aborted)
    {
      hide EvalSet, Record, Solve, Relax, Transform, Occurrences;
      var checker := new BoundDeduceInputChecker(target);
      checker.VisitCond(cond);
      if checker.targetCount != 1 { success := false; }
      TransformExpr();
      if !success { return false; }
      aborted := RelaxExpr();
      if aborted || !success { return; }
      PathIffUses(expr, target);
      path := PathTo(expr, target);
      if |path| == 0 {
        success := false;
        return false;
      }
      var evaluator := new SubExprIntervalSetEvaluator(an, hint);
      var set_ := evaluator.VisitExpr(expr);
      if set_.None? { return true; }
      exprMap := evaluator.exprMap;
      assert path[0..] == path;
      aborted := VisitExpr(expr);
    }
  }

  /**
   The interval of target values for which the comparison is known to hold. Any
   value inside it makes the comparison true, whatever the relaxed variables are.
   */
  method DeduceBound(an: Analyzer, target: string, cond: Cond, hint: DomMap, relax: DomMap)
    returns (aborted: bool, interval: IntervalSet)
    requires an.Valid()
    ensures aborted <==> Deduce(an, target, cond, hint, relax).Abort?
    ensures !aborted ==> interval == ToInterval(Deduce(an, target, cond, hint, relax))
    ensures !aborted ==> forall env: Env ::
              (&& InDomain(hint, env) && InDomain(relax, env)
               && CondDefined(cond, env) && DeductionFits(an, target, cond, hint, relax, env)
               && Contains(interval, env, env(target))) ==> Holds(cond, env)
  {
    var d := new BoundDeducer(an, target, cond, hint, relax);
    aborted := d.Run();
    interval := Empty;
    if aborted { return; }
    if d.success {
      var low, high := Inf(false), Inf(true);
      if d.compOp == Equal {
        interval := Point(d.result);
      } else if d.compOp == Greater {
        low := d.result;
        interval := Range(low, high);
      } else {
        high := d.result;
        interval := Range(low, high);
      }
    }
    forall env: Env | InDomain(hint, env) && InDomain(relax, env) && CondDefined(cond, env)
                      && DeductionFits(an, target, cond, hint, relax, env) && Contains(interval, env, env(target))
      ensures Holds(cond, env)
    {
      DeduceSound(an, target, cond, hint, relax, env);
    }
  }
}
