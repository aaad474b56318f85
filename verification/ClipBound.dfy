/** src/arith/detect_linear_equation.cc: turning a conjunction of comparisons into a box. */
module ClipBound {
  import opened Tir
  import opened ConstFold
  import opened LinearEquation
  import opened Analyzers

  /** Bounds of one variable; undefined means unbounded. */
  datatype IntervalEntry = IntervalEntry(min: Option<Expr>, max: Option<Expr>)

  type BoundMap = map<string, IntervalEntry>

  // ---- one comparison ----

  /** What the visitor's flag says of the listed variables met so far. */
  datatype Seen = Nothing | One(v: string) | Several

  function See(seen: Seen, x: string, listed: set<string>): Seen {
    if x !in listed then seen
    else match seen
      case Nothing => One(x)
      case One(v) => if v == x then seen else Several
      case Several => Several
  }

  function SeeAll(vars: seq<string>, listed: set<string>): Seen {
    if vars == [] then Nothing else See(SeeAll(vars[..|vars| - 1], listed), vars[|vars| - 1], listed)
  }

  /** The comparison as an expression that is non-negative exactly when it holds. */
  function Canonical(cond: Cond): Option<Expr> {
    if !cond.Cmp? then None
    else match cond.cmp
      case LT => Some(Make(Sub, Make(Sub, cond.r, cond.l), IntImm(1)))
      case LE => Some(Make(Sub, cond.r, cond.l))
      case GT => Some(Make(Sub, Make(Sub, cond.l, cond.r), IntImm(1)))
      case GE => Some(Make(Sub, cond.l, cond.r))
      case EQ => None
      case NE => None
  }

  /** The tightened entry for `base + coeff * var >= 0` with coefficient 1 or -1. */
  function Tighten(p: IntervalEntry, base: Expr, coeff: Expr): Option<IntervalEntry> {
    if IsImm(coeff, 1) then
      Some(p.(min := Some(if p.min.Some? then MaxOf(p.min.value, Neg(base)) else Neg(base))))
    else if IsImm(coeff, -1) then
      Some(p.(max := Some(if p.max.Some? then MinOf(p.max.value, base) else base)))
    else None
  }

  function ClipStep(an: Analyzer, cond: Cond, bmap: BoundMap): Option<BoundMap> {
    var seen := SeeAll(CondVars(cond), bmap.Keys);
    if !seen.One? then None
    else
      var canonical := Canonical(cond);
      if canonical.None? then None
      else
        var ret := DetectOne(canonical.value, seen.v);
        if ret.None? then None
        else
          SeenIsListed(CondVars(cond), bmap.Keys);
          var entry := Tighten(bmap[seen.v], ret.value.0, an.simplify(ret.value.1));
          if entry.None? then None else Some(bmap[seen.v := entry.value])
  }

  /** Exactly one listed variable was met, any number of times. */
  lemma {:induction false} SeenIsListed(vars: seq<string>, listed: set<string>)
    ensures SeeAll(vars, listed).Nothing? ==> forall x :: x in vars ==> x !in listed
    ensures SeeAll(vars, listed).One? ==>
              && SeeAll(vars, listed).v in listed
              && forall x :: x in vars && x in listed ==> x == SeeAll(vars, listed).v
  {
    if vars != [] { SeenIsListed(vars[..|vars| - 1], listed); }
  }

  /** The bound map tightened in place, one comparison at a time. */
  class ClipDetector {
    var bmap: BoundMap

    constructor (vars: seq<string>)
      ensures bmap == Unbounded(vars)
    {
      bmap := map x | x in vars :: IntervalEntry(None, None);
    }

    method DetectClipBound(an: Analyzer, cond: Cond) returns (ok: bool)
      modifies this
      ensures ok == ClipStep(an, cond, old(bmap)).Some?
      ensures bmap == if ok then ClipStep(an, cond, old(bmap)).value else old(bmap)
      ensures ok <==> Clips(an, cond, old(bmap.Keys))
    {
      hide Clips;
      ClipStepIff(an, cond, bmap);
      var flag, v := 0, "";
      var visited := CondVars(cond);
      for i := 0 to |visited|
        invariant flag == 0 <==> SeeAll(visited[..i], bmap.Keys) == Nothing
        invariant flag == 1 <==> SeeAll(visited[..i], bmap.Keys) == One(v)
        invariant flag == -1 <==> SeeAll(visited[..i], bmap.Keys) == Several
      {
        assert visited[..i + 1][..i] == visited[..i];
        if visited[i] in bmap {
          if flag == 0 {
            v, flag := visited[i], 1;
          } else if flag == 1 && v != visited[i] {
            flag := -1;
          }
        }
      }
      assert visited[..|visited|] == visited;
      if flag != 1 { return false; }
      SeenIsListed(visited, bmap.Keys);
      var canonical := Canonical(cond);
      if canonical.None? { return false; }
      var detector := new LinearEqDetector(v);
      var ret := detector.Detect(canonical.value);
      if ret.None? { return false; }
      var base, coeff := ret.value.0, an.simplify(ret.value.1);
      var p := bmap[v];
      if IsImm(coeff, 1) {
        p := p.(min := Some(if p.min.Some? then MaxOf(p.min.value, Neg(base)) else Neg(base)));
        bmap := bmap[v := p];
        return true;
      }
      if IsImm(coeff, -1) {
        p := p.(max := Some(if p.max.Some? then MinOf(p.max.value, base) else base));
        bmap := bmap[v := p];
        return true;
      }
      return false;
    }
  }

  // ---- meaning ----

  predicate Above(bound: Option<Expr>, env: Env, n: int) {
    bound.Some? ==> Eval(bound.value, env) <= n
  }

  predicate Below(bound: Option<Expr>, env: Env, n: int) {
    bound.Some? ==> n <= Eval(bound.value, env)
  }

  /** Every listed variable is within its bounds. */
  ghost predicate InBox(bmap: BoundMap, env: Env) {
    forall x :: x in bmap ==> Above(bmap[x].min, env, env(x)) && Below(bmap[x].max, env, env(x))
  }

  ghost predicate BoxDefined(bmap: BoundMap, env: Env) {
    forall x :: x in bmap ==> PartDefined(bmap[x].min, env) && PartDefined(bmap[x].max, env)
  }

  /** No bound mentions a listed variable. */
  ghost predicate BoxClosed(bmap: BoundMap) {
    forall x, y :: x in bmap && y in bmap ==> !PartUses(bmap[x].min, y) && !PartUses(bmap[x].max, y)
  }

  lemma CanonicalMeaning(cond: Cond, env: Env)
    requires CondDefined(cond, env) && Canonical(cond).Some?
    ensures Defined(Canonical(cond).value, env)
    ensures Holds(cond, env) <==> Eval(Canonical(cond).value, env) >= 0
  {
    hide Make, Build;
    MakeKeepsValue(Sub, cond.r, cond.l, env);
    MakeKeepsValue(Sub, cond.l, cond.r, env);
    MakeKeepsValue(Sub, Make(Sub, cond.r, cond.l), IntImm(1), env);
    MakeKeepsValue(Sub, Make(Sub, cond.l, cond.r), IntImm(1), env);
  }

  lemma CanonicalVars(cond: Cond, x: string)
    requires Canonical(cond).Some? && Uses(Canonical(cond).value, x)
    ensures x in CondVars(cond)
  {
    var (a, b) := if cond.cmp.LT? || cond.cmp.LE? then (cond.r, cond.l) else (cond.l, cond.r);
    var d := Make(Sub, a, b);
    if cond.cmp.LT? || cond.cmp.GT? { BuildVars(Sub, d, IntImm(1), x); }
    BuildVars(Sub, a, b, x);
  }

  /** The new entry admits a value exactly when the old one does and the comparison holds. */
  lemma TightenMeaning(p: IntervalEntry, base: Expr, coeff: Expr, env: Env, n: int)
    requires Tighten(p, base, coeff).Some? && Defined(base, env)
    requires PartDefined(p.min, env) && PartDefined(p.max, env)
    ensures var q := Tighten(p, base, coeff).value;
            && PartDefined(q.min, env) && PartDefined(q.max, env)
            && ((Above(q.min, env, n) && Below(q.max, env, n)) <==>
                (Above(p.min, env, n) && Below(p.max, env, n) && Eval(base, env) + Eval(coeff, env) * n >= 0))
  {
    hide Make, Build, Neg;
    NegKeepsValue(base, env);
    if p.min.Some? { MakeKeepsValue(Max, p.min.value, Neg(base), env); }
    if p.max.Some? { MakeKeepsValue(Min, p.max.value, base, env); }
  }

  lemma ClipStepMeaning(an: Analyzer, cond: Cond, bmap: BoundMap, env: Env)
    requires an.Valid() && ClipStep(an, cond, bmap).Some? && CondDefined(cond, env) && BoxDefined(bmap, env)
    ensures var bmap' := ClipStep(an, cond, bmap).value;
            && bmap'.Keys == bmap.Keys && BoxDefined(bmap', env)
            && (InBox(bmap', env) <==> InBox(bmap, env) && Holds(cond, env))
  {
    hide Canonical, CondDefined, CondVars, DetectOne, Holds, Tighten;
    hide Analyzer.SimplifyKeepsVars, Analyzer.ProvesOnlyTruths, Analyzer.AnswersLiterals;
    var v := SeeAll(CondVars(cond), bmap.Keys).v;
    SeenIsListed(CondVars(cond), bmap.Keys);
    var canonical := Canonical(cond).value;
    var (base, coeff) := DetectOne(canonical, v).value;
    CanonicalMeaning(cond, env);
    DetectOneMeaning(canonical, v, env);
    TightenMeaning(bmap[v], base, an.simplify(coeff), env, env(v));
    var bmap' := ClipStep(an, cond, bmap).value;
    assert forall x :: x in bmap && x != v ==> bmap'[x] == bmap[x];
    if InBox(bmap', env) {
      assert v in bmap';
      forall x | x in bmap
        ensures Above(bmap[x].min, env, env(x)) && Below(bmap[x].max, env, env(x))
      {
        assert x in bmap';
      }
    }
  }

  lemma TightenVars(p: IntervalEntry, base: Expr, coeff: Expr, y: string)
    requires Tighten(p, base, coeff).Some?
    requires !PartUses(p.min, y) && !PartUses(p.max, y) && !Uses(base, y)
    ensures var q := Tighten(p, base, coeff).value; !PartUses(q.min, y) && !PartUses(q.max, y)
  {
    var lower := Neg(base);
    if Uses(lower, y) && !base.IntImm? { BuildVars(Sub, IntImm(0), base, y); }
    if p.min.Some? && Uses(Make(Max, p.min.value, lower), y) { BuildVars(Max, p.min.value, lower, y); }
    if p.max.Some? && Uses(Make(Min, p.max.value, base), y) { BuildVars(Min, p.max.value, base, y); }
  }

  lemma ClipStepClosed(an: Analyzer, cond: Cond, bmap: BoundMap)
    requires ClipStep(an, cond, bmap).Some? && BoxClosed(bmap)
    ensures BoxClosed(ClipStep(an, cond, bmap).value)
    ensures ClipStep(an, cond, bmap).value.Keys == bmap.Keys
  {
    hide Canonical, DetectOne, SeeAll, Tighten, Uses;
    var v := SeeAll(CondVars(cond), bmap.Keys).v;
    SeenIsListed(CondVars(cond), bmap.Keys);
    var canonical := Canonical(cond).value;
    var (base, coeff) := DetectOne(canonical, v).value;
    forall y | y in bmap
      ensures var q := Tighten(bmap[v], base, an.simplify(coeff)).value; !PartUses(q.min, y) && !PartUses(q.max, y)
    {
      if Uses(base, y) {
        DetectOneVars(canonical, v, y);
        CanonicalVars(cond, y);
      }
      TightenVars(bmap[v], base, an.simplify(coeff), y);
    }
  }

  // ---- a conjunction ----

  function Conjuncts(c: Cond): seq<Cond> {
    if c.And? then Conjuncts(c.p) + Conjuncts(c.q) else [c]
  }

  /** Appends the conjuncts of e, left to right. */
  method SplitCommExpr(e: Cond, ret: seq<Cond>) returns (ret': seq<Cond>)
    ensures ret' == ret + Conjuncts(e)
  {
    if e.And? {
      ret' := SplitCommExpr(e.p, ret);
      ret' := SplitCommExpr(e.q, ret');
    } else {
      ret' := ret + [e];
    }
  }

  lemma {:induction false} ConjunctsMeaning(c: Cond, env: Env)
    ensures Holds(c, env) <==> forall d :: d in Conjuncts(c) ==> Holds(d, env)
    ensures CondDefined(c, env) ==> forall d :: d in Conjuncts(c) ==> CondDefined(d, env)
  {
    if c.And? {
      ConjunctsMeaning(c.p, env);
      ConjunctsMeaning(c.q, env);
    }
  }

  /** The map is a box for the first conjuncts. */
  ghost predicate BoxesPrefix(bmap: BoundMap, done: seq<Cond>) {
    forall env: Env :: (forall d :: d in done ==> CondDefined(d, env)) ==>
      BoxDefined(bmap, env) && (InBox(bmap, env) <==> forall d :: d in done ==> Holds(d, env))
  }

  lemma BoxesStep(an: Analyzer, bmap: BoundMap, done: seq<Cond>, cond: Cond)
    requires an.Valid() && BoxesPrefix(bmap, done) && ClipStep(an, cond, bmap).Some?
    ensures BoxesPrefix(ClipStep(an, cond, bmap).value, done + [cond])
  {
    var bmap' := ClipStep(an, cond, bmap).value;
    forall env: Env | forall d :: d in done + [cond] ==> CondDefined(d, env)
      ensures BoxDefined(bmap', env) && (InBox(bmap', env) <==> forall d :: d in done + [cond] ==> Holds(d, env))
    {
      forall d | d in done ensures CondDefined(d, env) { assert d in done + [cond]; }
      assert cond in done + [cond];
      ClipStepMeaning(an, cond, bmap, env);
      assert (forall d :: d in done + [cond] ==> Holds(d, env)) <==> ((forall d :: d in done ==> Holds(d, env)) && Holds(cond, env)) by {
        forall d | d in done + [cond] ensures d in done || d == cond {}
        forall d | d in done ensures d in done + [cond] {}
      }
    }
  }

  lemma UnboundedBox(vars: seq<string>)
    ensures BoxesPrefix(Unbounded(vars), []) && BoxClosed(Unbounded(vars))
  {}

  function SimplifyPart(an: Analyzer, e: Option<Expr>): Option<Expr> {
    if e.Some? then Some(an.simplify(e.value)) else None
  }

  /** The conditions taken in one after the other. */
  function ClipAll(an: Analyzer, conds: seq<Cond>, bmap: BoundMap): Option<BoundMap> {
    if conds == [] then Some(bmap)
    else
      match ClipAll(an, conds[..|conds| - 1], bmap)
      case None => None
      case Some(tighter) => ClipStep(an, conds[|conds| - 1], tighter)
  }

  lemma {:induction false} ClipAllStops(an: Analyzer, conds: seq<Cond>, bmap: BoundMap, i: nat)
    requires i <= |conds| && ClipAll(an, conds[..i], bmap).None?
    ensures ClipAll(an, conds, bmap).None?
    decreases |conds| - i
  {
    if i < |conds| {
      assert conds[..i + 1][..i] == conds[..i];
      ClipAllStops(an, conds, bmap, i + 1);
    } else {
      assert conds[..i] == conds;
    }
  }

  lemma ClipAllNone(an: Analyzer, conds: seq<Cond>, bmap: BoundMap)
    ensures ClipAll(an, conds[..0], bmap) == Some(bmap)
  {}

  lemma ClipAllStep(an: Analyzer, conds: seq<Cond>, bmap: BoundMap, i: nat)
    requires i < |conds| && ClipAll(an, conds[..i], bmap).Some?
    ensures ClipAll(an, conds[..i + 1], bmap) == ClipStep(an, conds[i], ClipAll(an, conds[..i], bmap).value)
  {
    hide ClipStep;
    assert conds[..i + 1][..i] == conds[..i];
  }

  function Unbounded(vars: seq<string>): BoundMap { map x | x in vars :: IntervalEntry(None, None) }

  lemma UnboundedKeys(vars: seq<string>)
    ensures Unbounded(vars).Keys == set x | x in vars
  {}

  /** The bounds of the listed variables, simplified: minimum and maximum of each in turn. */
  function Listing(an: Analyzer, bmap: BoundMap, vars: seq<string>): seq<Option<Expr>>
    requires forall x :: x in vars ==> x in bmap
  {
    if vars == [] then []
    else
      var n := |vars| - 1;
      Listing(an, bmap, vars[..n]) + [SimplifyPart(an, bmap[vars[n]].min), SimplifyPart(an, bmap[vars[n]].max)]
  }

  lemma {:induction false} ListingAt(an: Analyzer, bmap: BoundMap, vars: seq<string>, j: nat)
    requires (forall x :: x in vars ==> x in bmap) && j < |vars|
    ensures |Listing(an, bmap, vars)| == 2 * |vars|
    ensures Listing(an, bmap, vars)[2 * j] == SimplifyPart(an, bmap[vars[j]].min)
    ensures Listing(an, bmap, vars)[2 * j + 1] == SimplifyPart(an, bmap[vars[j]].max)
    decreases |vars|
  {
    hide SimplifyPart;
    var n := |vars| - 1;
    if n > 0 { ListingAt(an, bmap, vars[..n], if j < n then j else 0); }
  }

  lemma ListingIsListed(an: Analyzer, bmap: BoundMap, vars: seq<string>)
    requires bmap.Keys == (set x | x in vars)
    ensures Listed(an, bmap, vars, Listing(an, bmap, vars))
  {
    hide SimplifyPart, Listing;
    if vars == [] {
      ListingOfNone(an, bmap);
    }
    forall j | 0 <= j < |vars|
      ensures |Listing(an, bmap, vars)| == 2 * |vars|
      ensures Listing(an, bmap, vars)[2 * j] == SimplifyPart(an, bmap[vars[j]].min)
      ensures Listing(an, bmap, vars)[2 * j + 1] == SimplifyPart(an, bmap[vars[j]].max)
    {
      ListingAt(an, bmap, vars, j);
    }
    if vars != [] { ListingAt(an, bmap, vars, 0); }
  }

  lemma ListingOfNone(an: Analyzer, bmap: BoundMap)
    ensures Listing(an, bmap, []) == []
  {}

  /** What is taken in is a box for the conditions, with no listed variable in its bounds. */
  lemma {:induction false} ClipAllBoxes(an: Analyzer, conds: seq<Cond>, vars: seq<string>)
    requires an.Valid() && ClipAll(an, conds, Unbounded(vars)).Some?
    ensures var bmap := ClipAll(an, conds, Unbounded(vars)).value;
            bmap.Keys == (set x | x in vars) && BoxesPrefix(bmap, conds) && BoxClosed(bmap)
  {
    hide BoxesPrefix, BoxClosed, ClipStep;
    hide Analyzer.SimplifyKeepsValue, Analyzer.SimplifyKeepsVars, Analyzer.ProvesOnlyTruths, Analyzer.AnswersLiterals;
    if conds == [] {
      UnboundedBox(vars);
    } else {
      var n := |conds| - 1;
      ClipAllBoxes(an, conds[..n], vars);
      var before := ClipAll(an, conds[..n], Unbounded(vars)).value;
      BoxesStep(an, before, conds[..n], conds[n]);
      ClipStepClosed(an, conds[n], before);
      assert conds[..n] + [conds[n]] == conds;
    }
  }

  // ---- when a comparison is taken in ----

  /** v is listed and occurs, and no other listed variable does. */
  predicate OnlyListed(vars: seq<string>, listed: set<string>, v: string) {
    v in listed && v in vars && forall x :: x in vars && x in listed ==> x == v
  }

  lemma {:induction false} SeenIff(vars: seq<string>, listed: set<string>)
    ensures SeeAll(vars, listed).Nothing? <==> forall x :: x in vars ==> x !in listed
    ensures forall v :: SeeAll(vars, listed) == One(v) <==> OnlyListed(vars, listed, v)
  {
    if vars != [] {
      var n := |vars| - 1;
      SeenIff(vars[..n], listed);
      assert vars == vars[..n] + [vars[n]];
    }
  }

  /** The parts of v's coefficient in the canonical form: greater side minus smaller side. */
  function CoefficientOf(cond: Cond, v: string): Expr
    requires cond.Cmp? && LinearShape(cond.l, v) && LinearShape(cond.r, v)
  {
    LinearIff(cond.l, v);
    LinearIff(cond.r, v);
    var (greater, smaller) := if cond.cmp.LT? || cond.cmp.LE? then (cond.r, cond.l) else (cond.l, cond.r);
    OrZero(SubCombine(Linear(greater, v).value.coeff, Linear(smaller, v).value.coeff))
  }

  /**
   A comparison by <, <=, > or >= in which one listed variable occurs, both sides linear in it, with a
   coefficient that simplifies to 1 or -1.
   */
  ghost predicate Clips(an: Analyzer, cond: Cond, listed: set<string>) {
    && cond.Cmp? && (cond.cmp.LT? || cond.cmp.LE? || cond.cmp.GT? || cond.cmp.GE?)
    && exists v :: ClipsOn(an, cond, listed, v)
  }

  predicate ClipsOn(an: Analyzer, cond: Cond, listed: set<string>, v: string)
    requires cond.Cmp?
  {
    && OnlyListed(CondVars(cond), listed, v) && LinearShape(cond.l, v) && LinearShape(cond.r, v)
    && (an.simplify(CoefficientOf(cond, v)) == IntImm(1) || an.simplify(CoefficientOf(cond, v)) == IntImm(-1))
  }

  /** The difference of two expressions, folded or not, is linear where both are. */
  lemma LinearOfSub(a: Expr, b: Expr, v: string)
    ensures LinearShape(Make(Sub, a, b), v) <==> LinearShape(a, v) && LinearShape(b, v)
    ensures LinearShape(a, v) && LinearShape(b, v) ==>
              && Linear(a, v).Some? && Linear(b, v).Some? && Linear(Make(Sub, a, b), v).Some?
              && Linear(Make(Sub, a, b), v).value.coeff == SubCombine(Linear(a, v).value.coeff, Linear(b, v).value.coeff)
  {
    LinearIff(a, v);
    LinearIff(b, v);
    LinearIff(Make(Sub, a, b), v);
  }

  lemma CanonicalIsLinear(cond: Cond, v: string)
    requires cond.Cmp? && (cond.cmp.LT? || cond.cmp.LE? || cond.cmp.GT? || cond.cmp.GE?)
    ensures Canonical(cond).Some?
    ensures LinearShape(Canonical(cond).value, v) <==> LinearShape(cond.l, v) && LinearShape(cond.r, v)
    ensures LinearShape(cond.l, v) && LinearShape(cond.r, v) ==>
              && DetectOne(Canonical(cond).value, v).Some?
              && DetectOne(Canonical(cond).value, v).value.1 == CoefficientOf(cond, v)
  {
    hide Make, LinearShape, Linear;
    var (greater, smaller) := if cond.cmp.LT? || cond.cmp.LE? then (cond.r, cond.l) else (cond.l, cond.r);
    LinearOfSub(greater, smaller, v);
    LinearOfSub(Make(Sub, greater, smaller), IntImm(1), v);
    LiteralIsLinear(1, v);
  }

  lemma LiteralIsLinear(n: int, v: string)
    ensures LinearShape(IntImm(n), v) && Linear(IntImm(n), v) == Some(Entry(Some(IntImm(n)), None))
  {}

  /** One comparison is taken in exactly when it clips. */
  lemma ClipStepIff(an: Analyzer, cond: Cond, bmap: BoundMap)
    ensures ClipStep(an, cond, bmap).Some? <==> Clips(an, cond, bmap.Keys)
  {
    hide Canonical, DetectOne, SeeAll, LinearShape, CoefficientOf, OnlyListed;
    SeenIff(CondVars(cond), bmap.Keys);
    var seen := SeeAll(CondVars(cond), bmap.Keys);
    CanonicalOrNot(cond);
    if Canonical(cond).Some? && seen.One? {
      CanonicalIsLinear(cond, seen.v);
      DetectOneIff(Canonical(cond).value, seen.v);
      assert ClipStep(an, cond, bmap).Some? <==> ClipsOn(an, cond, bmap.Keys, seen.v);
    }
    if Clips(an, cond, bmap.Keys) {
      var v :| ClipsOn(an, cond, bmap.Keys, v);
      assert seen == One(v);
    }
  }

  lemma CanonicalOrNot(cond: Cond)
    ensures Canonical(cond).Some? <==> cond.Cmp? && (cond.cmp.LT? || cond.cmp.LE? || cond.cmp.GT? || cond.cmp.GE?)
  {}

  lemma {:induction false} ClipAllIff(an: Analyzer, conds: seq<Cond>, bmap: BoundMap)
    ensures ClipAll(an, conds, bmap).Some? <==> forall d :: d in conds ==> Clips(an, d, bmap.Keys)
    ensures ClipAll(an, conds, bmap).Some? ==> ClipAll(an, conds, bmap).value.Keys == bmap.Keys
  {
    hide ClipStep, Clips;
    if conds != [] {
      var n := |conds| - 1;
      ClipAllIff(an, conds[..n], bmap);
      assert conds == conds[..n] + [conds[n]];
      if ClipAll(an, conds[..n], bmap).Some? {
        ClipStepIff(an, conds[n], ClipAll(an, conds[..n], bmap).value);
        if ClipAll(an, conds, bmap).Some? { ClipStepKeys(an, conds[n], ClipAll(an, conds[..n], bmap).value); }
      } else {
        var d :| d in conds[..n] && !Clips(an, d, bmap.Keys);
        assert d in conds;
      }
    }
  }

  lemma ClipStepKeys(an: Analyzer, cond: Cond, bmap: BoundMap)
    requires ClipStep(an, cond, bmap).Some?
    ensures ClipStep(an, cond, bmap).value.Keys == bmap.Keys
  {
    hide Canonical, DetectOne, SeeAll, Tighten;
    SeenIsListed(CondVars(cond), bmap.Keys);
  }

  // ---- comparisons that every analyzer clips ----

  /** One occurrence of v under sums and differences. */
  predicate SumWith(e: Expr, v: string) {
    || e == Var(v)
    || (&& e.Bin? && (e.op.Add? || e.op.Sub?)
        && ((SumWith(e.a, v) && !Uses(e.b, v)) || (!Uses(e.a, v) && SumWith(e.b, v))))
  }

  lemma {:induction false} SumIsUnit(e: Expr, v: string)
    requires SumWith(e, v)
    ensures Uses(e, v) && LinearShape(e, v) && Linear(e, v).Some?
    ensures Linear(e, v).value.coeff == Some(IntImm(1)) || Linear(e, v).value.coeff == Some(IntImm(-1))
  {
    if e != Var(v) {
      var left := SumWith(e.a, v) && !Uses(e.b, v);
      var child, other := if left then e.a else e.b, if left then e.b else e.a;
      SumIsUnit(child, v);
      AbsentIsLinear(other, v);
      LinearIff(other, v);
      LinearIff(e, v);
    }
  }

  /** A sum with one occurrence of a listed variable, against a side without any: in either order, by any analyzer. */
  lemma SumsClip(an: Analyzer, cond: Cond, listed: set<string>, v: string)
    requires an.Valid() && cond.Cmp? && (cond.cmp.LT? || cond.cmp.LE? || cond.cmp.GT? || cond.cmp.GE?)
    requires (SumWith(cond.l, v) && !Uses(cond.r, v)) || (!Uses(cond.l, v) && SumWith(cond.r, v))
    requires v in listed && forall x :: x in CondVars(cond) && x in listed ==> x == v
    ensures Clips(an, cond, listed)
  {
    hide LinearShape, Linear, SumWith, Analyzer.SimplifyKeepsValue, Analyzer.SimplifyKeepsVars, Analyzer.ProvesOnlyTruths;
    var left := SumWith(cond.l, v) && !Uses(cond.r, v);
    var sum, other := if left then cond.l else cond.r, if left then cond.r else cond.l;
    SumIsUnit(sum, v);
    AbsentIsLinear(other, v);
    LinearIff(other, v);
    assert ClipsOn(an, cond, listed, v);
  }

  /**
   Minimum and maximum of each listed variable in turn, or nothing: nothing exactly when a conjunct
   does not clip, or no variable is listed. On success the conjunction holds exactly in the box, and no bound mentions a
   listed variable.
   */
  method DetectClipBound(an: Analyzer, e: Cond, vars: seq<string>) returns (ret: seq<Option<Expr>>)
    requires an.Valid()
    ensures ret != [] <==> vars != [] && forall d :: d in Conjuncts(e) ==> Clips(an, d, set x | x in vars)
    ensures ret != [] ==> ClipsTo(e, vars, ret)
  {
    hide Clips, Analyzer.Valid, BoxClosed, BoxesPrefix, ClipAll, ClipStep, ClipsTo, Conjuncts, Listed, Listing, Unbounded;
    var splits := SplitCommExpr(e, []);
    assert [] + Conjuncts(e) == Conjuncts(e);
    ClipAllIff(an, splits, Unbounded(vars));
    UnboundedKeys(vars);
    var rmap := new ClipDetector(vars);
    ClipAllNone(an, splits, Unbounded(vars));
    for i := 0 to |splits|
      invariant ClipAll(an, splits[..i], Unbounded(vars)) == Some(rmap.bmap)
    {
      ClipAllStep(an, splits, Unbounded(vars), i);
      var ok := rmap.DetectClipBound(an, splits[i]);
      if !ok {
        ClipAllStops(an, splits, Unbounded(vars), i + 1);
        return [];
      }
    }
    assert splits[..|splits|] == splits;
    ClipAllBoxes(an, splits, vars);
    ret := ListBounds(an, rmap.bmap, vars);
    ListingIsListed(an, rmap.bmap, vars);
    ListedLength(an, rmap.bmap, vars, ret);
    ListedBox(an, e, rmap.bmap, vars, ret);
  }

  method ListBounds(an: Analyzer, bmap: BoundMap, vars: seq<string>) returns (ret: seq<Option<Expr>>)
    requires forall x :: x in vars ==> x in bmap
    ensures ret == Listing(an, bmap, vars)
  {
    hide SimplifyPart;
    ret := [];
    for i := 0 to |vars|
      invariant ret == Listing(an, bmap, vars[..i])
    {
      var entry := bmap[vars[i]];
      assert vars[..i + 1][..i] == vars[..i];
      ret := ret + [SimplifyPart(an, entry.min), SimplifyPart(an, entry.max)];
    }
    assert vars[..|vars|] == vars;
  }

  lemma ListedLength(an: Analyzer, bmap: BoundMap, vars: seq<string>, ret: seq<Option<Expr>>)
    requires Listed(an, bmap, vars, ret)
    ensures |ret| == 2 * |vars|
  {}

  /** The condition holds exactly in the box of the returned bounds, which mention no listed variable. */
  ghost predicate ClipsTo(e: Cond, vars: seq<string>, ret: seq<Option<Expr>>) {
    && |ret| == 2 * |vars|
    && (forall env: Env :: CondDefined(e, env) ==> (Holds(e, env) <==> ListedInBounds(ret, vars, env)))
    && (forall k, x :: 0 <= k < |ret| && x in vars ==> !PartUses(ret[k], x))
  }

  /** Every listed variable lies between its returned bounds. */
  ghost predicate ListedInBounds(ret: seq<Option<Expr>>, vars: seq<string>, env: Env)
    requires |ret| == 2 * |vars|
  {
    forall i :: 0 <= i < |vars| ==>
      Above(ret[2 * i], env, env(vars[i])) && Below(ret[2 * i + 1], env, env(vars[i]))
  }

  ghost predicate Listed(an: Analyzer, bmap: BoundMap, vars: seq<string>, ret: seq<Option<Expr>>) {
    && |ret| == 2 * |vars|
    && bmap.Keys == (set x | x in vars)
    && forall j :: 0 <= j < |vars| ==>
         && ret[2 * j] == SimplifyPart(an, bmap[vars[j]].min)
         && ret[2 * j + 1] == SimplifyPart(an, bmap[vars[j]].max)
  }

  lemma ListedBox(an: Analyzer, e: Cond, bmap: BoundMap, vars: seq<string>, ret: seq<Option<Expr>>)
    requires an.Valid() && Listed(an, bmap, vars, ret) && BoxesPrefix(bmap, Conjuncts(e)) && BoxClosed(bmap)
    ensures ClipsTo(e, vars, ret)
  {
    hide BoxDefined, CondDefined, Holds, InBox, ListedInBounds;
    forall env: Env | CondDefined(e, env)
      ensures Holds(e, env) <==> ListedInBounds(ret, vars, env)
    {
      ConjunctsMeaning(e, env);
      SimplifiedBox(an, bmap, vars, ret, env);
    }
    SimplifiedClosed(an, bmap, vars, ret);
  }

  lemma SimplifiedBox(an: Analyzer, bmap: BoundMap, vars: seq<string>, ret: seq<Option<Expr>>, env: Env)
    requires an.Valid() && Listed(an, bmap, vars, ret) && BoxDefined(bmap, env)
    ensures InBox(bmap, env) <==> ListedInBounds(ret, vars, env)
  {
    forall j | 0 <= j < |vars|
      ensures Above(ret[2 * j], env, env(vars[j])) <==> Above(bmap[vars[j]].min, env, env(vars[j]))
      ensures Below(ret[2 * j + 1], env, env(vars[j])) <==> Below(bmap[vars[j]].max, env, env(vars[j]))
    {
      assert vars[j] in bmap;
    }
    if ListedInBounds(ret, vars, env) {
      forall x | x in bmap
        ensures Above(bmap[x].min, env, env(x)) && Below(bmap[x].max, env, env(x))
      {
        var j :| 0 <= j < |vars| && vars[j] == x;
      }
    }
    if InBox(bmap, env) {
      forall j | 0 <= j < |vars|
        ensures Above(ret[2 * j], env, env(vars[j])) && Below(ret[2 * j + 1], env, env(vars[j]))
      {
        assert vars[j] in bmap;
      }
    }
  }

  lemma SimplifiedClosed(an: Analyzer, bmap: BoundMap, vars: seq<string>, ret: seq<Option<Expr>>)
    requires an.Valid() && Listed(an, bmap, vars, ret) && BoxClosed(bmap)
    ensures forall k, x :: 0 <= k < |ret| && x in vars ==> !PartUses(ret[k], x)
  {
    hide Analyzer.SimplifyKeepsValue, Analyzer.ProvesOnlyTruths, Analyzer.AnswersLiterals, Eval, Defined;
    forall k, x | 0 <= k < |ret| && x in vars
      ensures !PartUses(ret[k], x)
    {
      var j := k / 2;
      assert vars[j] in bmap && x in bmap;
      assert k == 2 * j || k == 2 * j + 1;
    }
  }
}
