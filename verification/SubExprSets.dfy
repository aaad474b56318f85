/** src/arith/int_set.cc: the evaluator that keeps the set of every subexpression it has visited. */
module SubExprSets {
  import opened Tir
  import opened ConstFold
  import opened Analyzers
  import opened IntervalSets

  type SetMap = map<Expr, IntervalSet>

  /**
   The map after an evaluation that does not abort: every node visited has the set of its last visit,
   which may have been inside the set of a variable, at a greater depth.
   */
  function Record(an: Analyzer, dom: DomMap, e: Expr, depth: nat, m: SetMap): SetMap
    requires depth <= |dom| && EvalSet(an, dom, e, depth).Some?
    decreases |dom| - depth, e
  {
    var visited :=
      match e
      case Var(x) =>
        if x !in dom || MatchPoint(dom[x], e) || depth == |dom| then m
        else Record(an, dom, dom[x].Max(), depth + 1, Record(an, dom, dom[x].Min(), depth + 1, m))
      case Bin(_, l, r) => Record(an, dom, r, depth, Record(an, dom, l, depth, m))
      case Select(_, t, f) => Record(an, dom, f, depth, Record(an, dom, t, depth, m))
      case _ => m;
    visited[e := EvalSet(an, dom, e, depth).value]
  }

  /** `EvalSetForEachSubExpr` */
  function SubExprSetsOf(an: Analyzer, dom: DomMap, e: Expr): SetMap
    requires EvalSet(an, dom, e).Some?
  {
    Record(an, dom, e, 0, map[])
  }

  // ---- what the map holds ----

  /** Every entry is the set of its expression, evaluated at some depth. */
  ghost predicate Entries(an: Analyzer, dom: DomMap, m: SetMap) {
    forall e :: e in m ==> IsEntry(an, dom, e, m[e])
  }

  ghost predicate IsEntry(an: Analyzer, dom: DomMap, e: Expr, s: IntervalSet) {
    exists depth: nat :: depth <= |dom| && EvalSet(an, dom, e, depth) == Some(s)
  }

  /** Every node outside the conditions of selections has an entry. */
  predicate Covers(m: SetMap, e: Expr) {
    && e in m
    && match e
       case Bin(_, l, r) => Covers(m, l) && Covers(m, r)
       case Select(_, t, f) => Covers(m, t) && Covers(m, f)
       case _ => true
  }

  lemma {:induction false} RecordEntries(an: Analyzer, dom: DomMap, e: Expr, depth: nat, m: SetMap)
    requires depth <= |dom| && EvalSet(an, dom, e, depth).Some? && Entries(an, dom, m)
    ensures Entries(an, dom, Record(an, dom, e, depth, m))
    decreases |dom| - depth, e
  {
    hide IsEntry, Combine;
    assert IsEntry(an, dom, e, EvalSet(an, dom, e, depth).value) by { EntryAt(an, dom, e, depth); }
    match e
    case Var(x) =>
      if x in dom && !MatchPoint(dom[x], e) && depth < |dom| {
        RecordEntries(an, dom, dom[x].Min(), depth + 1, m);
        RecordEntries(an, dom, dom[x].Max(), depth + 1, Record(an, dom, dom[x].Min(), depth + 1, m));
      }
    case Bin(_, l, r) =>
      RecordEntries(an, dom, l, depth, m);
      RecordEntries(an, dom, r, depth, Record(an, dom, l, depth, m));
    case Select(_, t, f) =>
      RecordEntries(an, dom, t, depth, m);
      RecordEntries(an, dom, f, depth, Record(an, dom, t, depth, m));
    case _ =>
  }

  lemma EntryAt(an: Analyzer, dom: DomMap, e: Expr, depth: nat)
    requires depth <= |dom| && EvalSet(an, dom, e, depth).Some?
    ensures IsEntry(an, dom, e, EvalSet(an, dom, e, depth).value)
  {
    hide EvalSet;
  }

  lemma {:induction false} RecordKeeps(an: Analyzer, dom: DomMap, e: Expr, depth: nat, m: SetMap)
    requires depth <= |dom| && EvalSet(an, dom, e, depth).Some?
    ensures m.Keys <= Record(an, dom, e, depth, m).Keys
    decreases |dom| - depth, e
  {
    hide Combine;
    match e
    case Var(x) =>
      if x in dom && !MatchPoint(dom[x], e) && depth < |dom| {
        RecordKeeps(an, dom, dom[x].Min(), depth + 1, m);
        RecordKeeps(an, dom, dom[x].Max(), depth + 1, Record(an, dom, dom[x].Min(), depth + 1, m));
      }
    case Bin(_, l, r) =>
      RecordKeeps(an, dom, l, depth, m);
      RecordKeeps(an, dom, r, depth, Record(an, dom, l, depth, m));
    case Select(_, t, f) =>
      RecordKeeps(an, dom, t, depth, m);
      RecordKeeps(an, dom, f, depth, Record(an, dom, t, depth, m));
    case _ =>
  }

  lemma {:induction false} CoversMore(m: SetMap, n: SetMap, e: Expr)
    requires Covers(m, e) && m.Keys <= n.Keys
    ensures Covers(n, e)
  {
    match e
    case Bin(_, l, r) =>
      CoversMore(m, n, l);
      CoversMore(m, n, r);
    case Select(_, t, f) =>
      CoversMore(m, n, t);
      CoversMore(m, n, f);
    case _ =>
  }

  lemma {:induction false} RecordCovers(an: Analyzer, dom: DomMap, e: Expr, depth: nat, m: SetMap)
    requires depth <= |dom| && EvalSet(an, dom, e, depth).Some?
    ensures Covers(Record(an, dom, e, depth, m), e)
    decreases e
  {
    hide Combine;
    if e.Bin? || e.Select? {
      var l, r := if e.Bin? then e.a else e.t, if e.Bin? then e.b else e.f;
      var first := Record(an, dom, l, depth, m);
      RecordCovers(an, dom, l, depth, m);
      RecordCovers(an, dom, r, depth, first);
      RecordKeeps(an, dom, r, depth, first);
      CoversMore(first, Record(an, dom, e, depth, m), l);
      CoversMore(Record(an, dom, r, depth, first), Record(an, dom, e, depth, m), r);
    }
  }

  lemma SubExprSetsMeaning(an: Analyzer, dom: DomMap, e: Expr)
    requires EvalSet(an, dom, e).Some?
    ensures Entries(an, dom, SubExprSetsOf(an, dom, e)) && Covers(SubExprSetsOf(an, dom, e), e)
  {
    hide EvalSet, Record, IsEntry;
    RecordEntries(an, dom, e, 0, map[]);
    RecordCovers(an, dom, e, 0, map[]);
  }

  // ---- the evaluator ----

  class SubExprIntervalSetEvaluator {
    const an: Analyzer
    const dom: DomMap
    var recurDepth: nat
    var exprMap: SetMap

    constructor (an: Analyzer, dom: DomMap)
      ensures this.an == an && this.dom == dom && recurDepth == 0 && exprMap == map[]
    {
      this.an, this.dom, recurDepth, exprMap := an, dom, 0, map[];
    }

    /** Evaluates e and records its set after those of everything it visits; no result is an abort. */
    method VisitExpr(e: Expr) returns (r: Option<IntervalSet>)
      requires recurDepth <= |dom|
      modifies this
      ensures r == EvalSet(an, dom, e, old(recurDepth))
      ensures r.Some? ==> recurDepth == old(recurDepth) && exprMap == Record(an, dom, e, old(recurDepth), old(exprMap))
      decreases |dom| - recurDepth, e, 0
    {
      hide Combine, MinOf, MaxOf;
      match e {
        case Var(x) =>
          if x in dom {
            if MatchPoint(dom[x], e) {
              r := Some(dom[x]);
            } else {
              r := EvalEnds(dom[x]);
            }
          } else {
            r := Some(Point(e));
          }
        case Bin(op, l, right) =>
          var a := VisitExpr(l);
          if a.None? { return None; }
          var b := VisitExpr(right);
          if b.None? { return None; }
          if MatchPoint(a.value, l) && MatchPoint(b.value, right) {
            r := Some(Point(e));
          } else {
            r := Combine(an, op, a.value, b.value);
          }
        case Select(_, t, f) =>
          var a := VisitExpr(t);
          if a.None? { return None; }
          var b := VisitExpr(f);
          if b.None? { return None; }
          r := Some(Range(MinOf(b.value.Min(), a.value.Min()), MaxOf(b.value.Max(), a.value.Max())));
        case _ =>
          r := Some(Point(e));
      }
      if r.None? { return None; }
      exprMap := exprMap[e := r.value];
    }

    /** The ends of a variable's set, as deep as the map is large. */
    method EvalEnds(s: IntervalSet) returns (r: Option<IntervalSet>)
      requires recurDepth <= |dom|
      modifies this
      ensures old(recurDepth) == |dom| ==> r == Some(s) && recurDepth == old(recurDepth) && exprMap == old(exprMap)
      ensures old(recurDepth) < |dom| ==>
                var depth := old(recurDepth) + 1;
                var low, high := EvalSet(an, dom, s.Min(), depth), EvalSet(an, dom, s.Max(), depth);
                && r == (if low.None? || high.None? then None else Some(Range(low.value.Min(), high.value.Max())))
                && (r.Some? ==>
                      && recurDepth == old(recurDepth)
                      && exprMap == Record(an, dom, s.Max(), depth, Record(an, dom, s.Min(), depth, old(exprMap))))
      decreases |dom| - recurDepth - 1
    {
      if recurDepth >= |dom| { return Some(s); }
      recurDepth := recurDepth + 1;
      var low := VisitExpr(s.Min());
      if low.None? { return None; }
      var high := VisitExpr(s.Max());
      if high.None? { return None; }
      recurDepth := recurDepth - 1;
      return Some(Range(low.value.Min(), high.value.Max()));
    }
  }
}
