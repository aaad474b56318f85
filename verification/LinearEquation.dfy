/** src/arith/detect_linear_equation.cc: splitting an expression into coefficients and a base. */
module LinearEquation {
  import opened Tir
  import opened ConstFold

  /** base + coeff * var, where an undefined part is zero. */
  datatype Entry = Entry(base: Option<Expr>, coeff: Option<Expr>)

  function AddCombine(a: Option<Expr>, b: Option<Expr>): Option<Expr> {
    if a.None? then b else if b.None? then a else Some(Make(Add, a.value, b.value))
  }

  function SubCombine(a: Option<Expr>, b: Option<Expr>): Option<Expr> {
    if b.None? then a else if a.None? then Some(Neg(b.value)) else Some(Make(Sub, a.value, b.value))
  }

  function MulCombine(a: Option<Expr>, b: Option<Expr>): Option<Expr> {
    if a.None? then a else if b.None? then b else Some(Make(Mul, a.value, b.value))
  }

  /** The entry the detector finds for `v` in `e`, or none when it fails. */
  function Linear(e: Expr, v: string): Option<Entry> {
    if e.Var? then
      Some(if e.name == v then Entry(None, Some(IntImm(1))) else Entry(Some(e), None))
    else if e.Bin? && (e.op.Add? || e.op.Sub? || e.op.Mul?) then
      var a, b := Linear(e.a, v), Linear(e.b, v);
      if a.None? || b.None? then None else Merge(e.op, a.value, b.value)
    else if Uses(e, v) then None
    else Some(Entry(Some(e), None))
  }

  function Merge(op: BinOp, a: Entry, b: Entry): Option<Entry>
    requires op.Add? || op.Sub? || op.Mul?
  {
    match op
    case Add => Some(Entry(AddCombine(a.base, b.base), AddCombine(a.coeff, b.coeff)))
    case Sub => Some(Entry(SubCombine(a.base, b.base), SubCombine(a.coeff, b.coeff)))
    case Mul =>
      var (x, y) := if a.coeff.Some? then (b, a) else (a, b);
      if x.coeff.Some? then None
      else Some(Entry(MulCombine(x.base, y.base), MulCombine(x.base, y.coeff)))
  }

  /** The visitor with its sticky failure flag. */
  class LinearEqDetector {
    const v: string
    var fail: bool

    constructor (v: string)
      ensures this.v == v && !fail
    {
      this.v := v;
      fail := false;
    }

    method VisitExpr(e: Expr) returns (ret: Entry)
      modifies this
      ensures fail == (old(fail) || Linear(e, v).None?)
      ensures !fail ==> ret == Linear(e, v).value
    {
      ret := Entry(None, None);
      if e.Var? {
        if e.name == v {
          ret := ret.(coeff := Some(IntImm(1)));
        } else {
          ret := ret.(base := Some(e));
        }
        return;
      }
      if fail { return; }
      if e.Bin? && (e.op.Add? || e.op.Sub? || e.op.Mul?) {
        var a := VisitExpr(e.a);
        var b := VisitExpr(e.b);
        if e.op.Add? {
          ret := Entry(AddCombine(a.base, b.base), AddCombine(a.coeff, b.coeff));
        } else if e.op.Sub? {
          ret := Entry(SubCombine(a.base, b.base), SubCombine(a.coeff, b.coeff));
        } else {
          if a.coeff.Some? { a, b := b, a; }
          if a.coeff.Some? {
            fail := true;
            return;
          }
          ret := Entry(MulCombine(a.base, b.base), MulCombine(a.base, b.coeff));
        }
      } else if Uses(e, v) {
        fail := true;
      } else {
        ret := ret.(base := Some(e));
      }
    }

    /** Both parts, zero where undefined, or none on failure. */
    method Detect(e: Expr) returns (r: Option<(Expr, Expr)>)
      requires !fail
      modifies this
      ensures r == DetectOne(e, v)
    {
      var ret := VisitExpr(e);
      if fail { return None; }
      if ret.base.None? { ret := ret.(base := Some(IntImm(0))); }
      if ret.coeff.None? { ret := ret.(coeff := Some(IntImm(0))); }
      return Some((ret.base.value, ret.coeff.value));
    }
  }

  function OrZero(e: Option<Expr>): Expr {
    if e.None? then IntImm(0) else e.value
  }

  /** What `Detect` returns: the base and the coefficient. */
  function DetectOne(e: Expr, v: string): Option<(Expr, Expr)> {
    var entry := Linear(e, v);
    if entry.None? then None else Some((OrZero(entry.value.base), OrZero(entry.value.coeff)))
  }

  // ---- when the detector succeeds ----

  /** No product of two operands with v, and v under no node but +, - and *. */
  predicate LinearShape(e: Expr, v: string) {
    if e.Bin? && (e.op.Add? || e.op.Sub?) then LinearShape(e.a, v) && LinearShape(e.b, v)
    else if e.Bin? && e.op.Mul? then
      LinearShape(e.a, v) && LinearShape(e.b, v) && !(Uses(e.a, v) && Uses(e.b, v))
    else e.Var? || !Uses(e, v)
  }

  /** Success is the shape, and a coefficient is defined exactly when the variable occurs. */
  lemma {:induction false} LinearIff(e: Expr, v: string)
    ensures Linear(e, v).Some? <==> LinearShape(e, v)
    ensures Linear(e, v).Some? ==> (Linear(e, v).value.coeff.Some? <==> Uses(e, v))
    ensures Linear(e, v).Some? ==> (Linear(e, v).value.base.Some? || Linear(e, v).value.coeff.Some?)
  {
    if e.Bin? && (e.op.Add? || e.op.Sub? || e.op.Mul?) {
      LinearIff(e.a, v);
      LinearIff(e.b, v);
    }
  }

  // ---- what it returns ----

  function Value(e: Option<Expr>, env: Env): int {
    if e.None? then 0 else Eval(e.value, env)
  }

  predicate PartDefined(e: Option<Expr>, env: Env) {
    e.Some? ==> Defined(e.value, env)
  }

  lemma CombineValues(a: Option<Expr>, b: Option<Expr>, env: Env)
    requires PartDefined(a, env) && PartDefined(b, env)
    ensures PartDefined(AddCombine(a, b), env) && Value(AddCombine(a, b), env) == Value(a, env) + Value(b, env)
    ensures PartDefined(SubCombine(a, b), env) && Value(SubCombine(a, b), env) == Value(a, env) - Value(b, env)
    ensures PartDefined(MulCombine(a, b), env) && Value(MulCombine(a, b), env) == Value(a, env) * Value(b, env)
  {
    if a.Some? && b.Some? {
      MakeKeepsValue(Add, a.value, b.value, env);
      MakeKeepsValue(Sub, a.value, b.value, env);
      MakeKeepsValue(Mul, a.value, b.value, env);
    }
    if b.Some? { NegKeepsValue(b.value, env); }
  }

  function EntryValue(r: Entry, env: Env, x: int): int {
    Value(r.base, env) + Value(r.coeff, env) * x
  }

  predicate EntryDefined(r: Entry, env: Env) {
    PartDefined(r.base, env) && PartDefined(r.coeff, env)
  }

  /** Merging two entries applies the operator to what they stand for. */
  lemma MergeMeaning(op: BinOp, a: Entry, b: Entry, env: Env, x: int)
    requires (op.Add? || op.Sub? || op.Mul?) && Merge(op, a, b).Some?
    requires EntryDefined(a, env) && EntryDefined(b, env)
    ensures EntryDefined(Merge(op, a, b).value, env)
    ensures EntryValue(Merge(op, a, b).value, env, x) == Apply(op, EntryValue(a, env, x), EntryValue(b, env, x))
  {
    hide Eval, Defined, Make, Neg;
    var (p, q) := (Value(a.base, env), Value(a.coeff, env));
    var (r, s) := (Value(b.base, env), Value(b.coeff, env));
    match op
    case Add =>
      CombineValues(a.base, b.base, env);
      CombineValues(a.coeff, b.coeff, env);
      SumOfLinear(p, q, r, s, x);
    case Sub =>
      CombineValues(a.base, b.base, env);
      CombineValues(a.coeff, b.coeff, env);
      SumOfLinear(p, q, r, s, x);
    case Mul =>
      if a.coeff.Some? {
        CombineValues(b.base, a.base, env);
        CombineValues(b.base, a.coeff, env);
        ProductOfLinear(r, p, q, x);
      } else {
        CombineValues(a.base, b.base, env);
        CombineValues(a.base, b.coeff, env);
        ProductOfLinear(p, r, s, x);
      }
  }

  lemma SumOfLinear(p: int, q: int, r: int, s: int, x: int)
    ensures (p + q * x) + (r + s * x) == (p + r) + (q + s) * x
    ensures (p + q * x) - (r + s * x) == (p - r) + (q - s) * x
  {}

  lemma ProductOfLinear(p: int, r: int, s: int, x: int)
    ensures (p + 0 * x) * (r + s * x) == p * r + (p * s) * x
    ensures (r + s * x) * (p + 0 * x) == p * r + (p * s) * x
  {}

  /** base + coeff * v has the value of the expression. */
  lemma {:induction false} LinearMeaning(e: Expr, v: string, env: Env)
    requires Linear(e, v).Some? && Defined(e, env)
    ensures EntryDefined(Linear(e, v).value, env)
    ensures Eval(e, env) == EntryValue(Linear(e, v).value, env, env(v))
  {
    if e.Bin? && (e.op.Add? || e.op.Sub? || e.op.Mul?) {
      LinearMeaning(e.a, v, env);
      LinearMeaning(e.b, v, env);
      MergeMeaning(e.op, Linear(e.a, v).value, Linear(e.b, v).value, env, env(v));
    }
  }

  predicate PartUses(e: Option<Expr>, x: string) {
    e.Some? && Uses(e.value, x)
  }

  lemma CombineVars(a: Option<Expr>, b: Option<Expr>, x: string)
    ensures PartUses(AddCombine(a, b), x) ==> PartUses(a, x) || PartUses(b, x)
    ensures PartUses(SubCombine(a, b), x) ==> PartUses(a, x) || PartUses(b, x)
    ensures PartUses(MulCombine(a, b), x) ==> PartUses(a, x) || PartUses(b, x)
  {
    if b.Some? && Uses(Neg(b.value), x) && !b.value.IntImm? { BuildVars(Sub, IntImm(0), b.value, x); }
  }

  /** Neither part mentions v, nor a variable the expression does not. */
  lemma {:induction false} LinearVars(e: Expr, v: string, x: string)
    requires Linear(e, v).Some?
    requires PartUses(Linear(e, v).value.base, x) || PartUses(Linear(e, v).value.coeff, x)
    ensures x != v && Uses(e, x)
  {
    if e.Bin? && (e.op.Add? || e.op.Sub? || e.op.Mul?) {
      var a, b := Linear(e.a, v).value, Linear(e.b, v).value;
      CombineVars(a.base, b.base, x);
      CombineVars(a.coeff, b.coeff, x);
      CombineVars(b.base, a.base, x);
      CombineVars(a.base, b.coeff, x);
      CombineVars(b.base, a.coeff, x);
      if PartUses(a.base, x) || PartUses(a.coeff, x) { LinearVars(e.a, v, x); }
      if PartUses(b.base, x) || PartUses(b.coeff, x) { LinearVars(e.b, v, x); }
    }
  }

  lemma DetectOneMeaning(e: Expr, v: string, env: Env)
    requires DetectOne(e, v).Some? && Defined(e, env)
    ensures var (base, coeff) := DetectOne(e, v).value;
            && Defined(base, env) && Defined(coeff, env)
            && Eval(e, env) == Eval(base, env) + Eval(coeff, env) * env(v)
  {
    LinearMeaning(e, v, env);
  }

  lemma DetectOneVars(e: Expr, v: string, x: string)
    requires DetectOne(e, v).Some?
    requires Uses(DetectOne(e, v).value.0, x) || Uses(DetectOne(e, v).value.1, x)
    ensures x != v && Uses(e, x)
  {
    LinearVars(e, v, x);
  }

  // ---- several variables ----

  /** coeffs[0] * vars[0] + ... */
  function Combination(coeffs: seq<Expr>, vars: seq<string>, env: Env): int
    requires |coeffs| <= |vars|
  {
    if coeffs == [] then 0
    else
      var n := |coeffs| - 1;
      Combination(coeffs[..n], vars, env) + Eval(coeffs[n], env) * env(vars[n])
  }

  /** e equals the combination plus the base in every environment where e has a value. */
  ghost predicate Decomposes(e: Expr, vars: seq<string>, coeffs: seq<Expr>, base: Expr) {
    && |coeffs| <= |vars|
    && forall env: Env :: Defined(e, env) ==>
         && Defined(base, env)
         && (forall c :: c in coeffs ==> Defined(c, env))
         && Eval(e, env) == Combination(coeffs, vars, env) + Eval(base, env)
  }

  /** Stripping one more variable off the base. */
  lemma DecomposesStep(e: Expr, vars: seq<string>, coeffs: seq<Expr>, base: Expr)
    requires |coeffs| < |vars| && Decomposes(e, vars, coeffs, base)
    requires DetectOne(base, vars[|coeffs|]).Some?
    ensures var (base', c) := DetectOne(base, vars[|coeffs|]).value;
            Decomposes(e, vars, coeffs + [c], base')
  {
    var v := vars[|coeffs|];
    var (base', c) := DetectOne(base, v).value;
    forall env: Env | Defined(e, env)
      ensures Defined(base', env) && (forall d :: d in coeffs + [c] ==> Defined(d, env))
      ensures Eval(e, env) == Combination(coeffs + [c], vars, env) + Eval(base', env)
    {
      DetectOneMeaning(base, v, env);
      assert (coeffs + [c])[..|coeffs|] == coeffs;
    }
  }

  /** No listed variable among the first n occurs in e. */
  predicate FreeOf(e: Expr, vars: seq<string>) {
    forall x :: x in vars ==> !Uses(e, x)
  }

  lemma FreeOfStep(e: Expr, vars: seq<string>, v: string)
    requires FreeOf(e, vars) && DetectOne(e, v).Some?
    ensures FreeOf(DetectOne(e, v).value.0, vars + [v]) && FreeOf(DetectOne(e, v).value.1, vars + [v])
  {
    var (base, c) := DetectOne(e, v).value;
    forall x | x in vars + [v]
      ensures !Uses(base, x) && !Uses(c, x)
    {
      if Uses(base, x) || Uses(c, x) { DetectOneVars(e, v, x); }
    }
  }

  predicate UsesAny(e: Expr, vset: set<string>) {
    exists x :: x in vset && Uses(e, x)
  }

  /** The listed variables stripped off one after the other: their coefficients and what is left. */
  function Stripped(e: Expr, vars: seq<string>): (r: Option<(seq<Expr>, Expr)>)
    ensures r.Some? ==> |r.value.0| == |vars|
  {
    if vars == [] then Some(([], e))
    else
      var n := |vars| - 1;
      match Stripped(e, vars[..n])
      case None => None
      case Some((coeffs, rest)) =>
        match DetectOne(rest, vars[n])
        case None => None
        case Some((base, c)) => Some((coeffs + [c], base))
  }

  lemma {:induction false} StrippedStops(e: Expr, vars: seq<string>, i: nat)
    requires i <= |vars| && Stripped(e, vars[..i]).None?
    ensures Stripped(e, vars).None?
    decreases |vars| - i
  {
    if i < |vars| {
      assert vars[..i + 1][..i] == vars[..i];
      StrippedStops(e, vars, i + 1);
    } else {
      assert vars[..i] == vars;
    }
  }

  /** A coefficient mentions a variable listed after its own. */
  predicate Entangled(coeffs: seq<Expr>, vars: seq<string>)
    requires |coeffs| == |vars|
  {
    exists j, k :: 0 <= j < k < |vars| && Uses(coeffs[j], vars[k])
  }

  // ---- when stripping succeeds ----

  /** A variable strips exactly when the rest is linear in it; one that does not occur strips with coefficient 0. */
  lemma DetectOneIff(e: Expr, v: string)
    ensures DetectOne(e, v).Some? <==> LinearShape(e, v)
    ensures !Uses(e, v) ==> LinearShape(e, v) && DetectOne(e, v).value.1 == IntImm(0)
  {
    LinearIff(e, v);
    if !Uses(e, v) { AbsentIsLinear(e, v); }
  }

  lemma {:induction false} AbsentIsLinear(e: Expr, v: string)
    requires !Uses(e, v)
    ensures LinearShape(e, v)
  {
    if e.Bin? && (e.op.Add? || e.op.Sub? || e.op.Mul?) {
      AbsentIsLinear(e.a, v);
      AbsentIsLinear(e.b, v);
    }
  }

  /** The first variable strips exactly when e is linear in it, and what then happens depends on the rest alone. */
  lemma FirstStrips(e: Expr, vars: seq<string>)
    requires vars != []
    ensures Stripped(e, vars[..1]).Some? <==> LinearShape(e, vars[0])
    ensures Stripped(e, vars).Some? ==> LinearShape(e, vars[0])
  {
    hide DetectOne;
    DetectOneIff(e, vars[0]);
    assert vars[..1][..0] == [] && vars[..1][0] == vars[0];
    if Stripped(e, vars[..1]).None? { StrippedStops(e, vars, 1); }
  }

  /** Variables that do not occur all strip with coefficient 0. */
  lemma {:induction false} AbsentStrip(e: Expr, vars: seq<string>)
    requires FreeOf(e, vars)
    ensures Stripped(e, vars).Some?
    ensures forall k :: 0 <= k < |vars| ==> Stripped(e, vars).value.0[k] == IntImm(0)
    ensures forall x :: Uses(Stripped(e, vars).value.1, x) ==> Uses(e, x)
  {
    hide DetectOne, LinearShape, Uses;
    if vars != [] {
      var n := |vars| - 1;
      AbsentStrip(e, vars[..n]);
      var rest := Stripped(e, vars[..n]).value.1;
      DetectOneIff(rest, vars[n]);
      forall x | Uses(DetectOne(rest, vars[n]).value.0, x) ensures Uses(e, x) { DetectOneVars(rest, vars[n], x); }
    }
  }

  /** No product of two operands with listed variables, and no listed variable under a node but +, - and *. */
  predicate JointlyLinear(e: Expr, listed: set<string>) {
    if e.Bin? && (e.op.Add? || e.op.Sub?) then JointlyLinear(e.a, listed) && JointlyLinear(e.b, listed)
    else if e.Bin? && e.op.Mul? then
      JointlyLinear(e.a, listed) && JointlyLinear(e.b, listed) && !(UsesAny(e.a, listed) && UsesAny(e.b, listed))
    else e.Var? || !UsesAny(e, listed)
  }

  predicate PartIsLinear(e: Option<Expr>, listed: set<string>) { e.Some? ==> JointlyLinear(e.value, listed) }

  predicate PartUsesAny(e: Option<Expr>, listed: set<string>) { e.Some? && UsesAny(e.value, listed) }

  lemma {:induction false} JointlyIsLinear(e: Expr, listed: set<string>, v: string)
    requires JointlyLinear(e, listed) && v in listed
    ensures LinearShape(e, v)
  {
    if e.Bin? && (e.op.Add? || e.op.Sub? || e.op.Mul?) {
      JointlyIsLinear(e.a, listed, v);
      JointlyIsLinear(e.b, listed, v);
    }
  }

  lemma MakeJointly(op: BinOp, a: Expr, b: Expr, listed: set<string>)
    requires (op.Add? || op.Sub? || op.Mul?) && JointlyLinear(a, listed) && JointlyLinear(b, listed)
    requires op.Mul? ==> !(UsesAny(a, listed) && UsesAny(b, listed))
    ensures JointlyLinear(Make(op, a, b), listed)
    ensures UsesAny(Make(op, a, b), listed) ==> UsesAny(a, listed) || UsesAny(b, listed)
  {
    hide UsesAny;
    MakeUses(op, a, b, listed);
    assert forall n :: JointlyLinear(IntImm(n), listed) by { LiteralUsesNone(listed); }
  }

  lemma LiteralUsesNone(listed: set<string>)
    ensures forall n :: !UsesAny(IntImm(n), listed)
  {}

  lemma MakeUses(op: BinOp, a: Expr, b: Expr, listed: set<string>)
    requires !IsDivision(op)
    ensures UsesAny(Make(op, a, b), listed) ==> UsesAny(a, listed) || UsesAny(b, listed)
  {
    if UsesAny(Make(op, a, b), listed) {
      var x :| x in listed && Uses(Make(op, a, b), x);
      BuildVars(op, a, b, x);
    }
  }

  lemma CombineJointly(a: Option<Expr>, b: Option<Expr>, listed: set<string>)
    requires PartIsLinear(a, listed) && PartIsLinear(b, listed)
    ensures PartIsLinear(AddCombine(a, b), listed) && PartIsLinear(SubCombine(a, b), listed)
    ensures PartUsesAny(AddCombine(a, b), listed) ==> PartUsesAny(a, listed) || PartUsesAny(b, listed)
    ensures PartUsesAny(SubCombine(a, b), listed) ==> PartUsesAny(a, listed) || PartUsesAny(b, listed)
    ensures PartUsesAny(MulCombine(a, b), listed) ==> PartUsesAny(a, listed) || PartUsesAny(b, listed)
    ensures !(PartUsesAny(a, listed) && PartUsesAny(b, listed)) ==> PartIsLinear(MulCombine(a, b), listed)
  {
    hide UsesAny, Make, JointlyLinear;
    if a.Some? && b.Some? {
      MakeJointly(Add, a.value, b.value, listed);
      MakeJointly(Sub, a.value, b.value, listed);
      MakeUses(Mul, a.value, b.value, listed);
      if !(UsesAny(a.value, listed) && UsesAny(b.value, listed)) { MakeJointly(Mul, a.value, b.value, listed); }
    }
    LiteralIsJoint(listed);
    if b.Some? { MakeJointly(Sub, IntImm(0), b.value, listed); }
  }

  lemma LiteralIsJoint(listed: set<string>)
    ensures forall n :: JointlyLinear(IntImm(n), listed) && !UsesAny(IntImm(n), listed)
  {}

  lemma UsesMore(e: Expr, listed: set<string>)
    requires e.Bin?
    ensures UsesAny(e, listed) <==> UsesAny(e.a, listed) || UsesAny(e.b, listed)
  {
    if UsesAny(e, listed) {
      var x :| x in listed && Uses(e, x);
      assert Uses(e.a, x) || Uses(e.b, x);
    }
    if UsesAny(e.a, listed) {
      var x :| x in listed && Uses(e.a, x);
      assert Uses(e, x);
    }
    if UsesAny(e.b, listed) {
      var x :| x in listed && Uses(e.b, x);
      assert Uses(e, x);
    }
  }

  /** What is left is as linear as before, and the coefficient mentions no listed variable. */
  lemma {:induction false} LinearJointly(e: Expr, listed: set<string>, v: string)
    requires JointlyLinear(e, listed) && v in listed
    ensures Linear(e, v).Some?
    ensures var r := Linear(e, v).value;
            && PartIsLinear(r.base, listed) && (PartUsesAny(r.base, listed) ==> UsesAny(e, listed))
            && !PartUsesAny(r.coeff, listed)
  {
    JointlyIsLinear(e, listed, v);
    LinearIff(e, v);
    LiteralIsJoint(listed);
    if e.Bin? && (e.op.Add? || e.op.Sub? || e.op.Mul?) {
      LinearJointly(e.a, listed, v);
      LinearJointly(e.b, listed, v);
      LinearIff(e.a, v);
      LinearIff(e.b, v);
      UsesMore(e, listed);
      MergeJointly(e, listed, v);
    }
  }

  lemma MergeJointly(e: Expr, listed: set<string>, v: string)
    requires e.Bin? && (e.op.Add? || e.op.Sub? || e.op.Mul?) && JointlyLinear(e, listed) && v in listed
    requires UsesAny(e, listed) <==> UsesAny(e.a, listed) || UsesAny(e.b, listed)
    requires Linear(e.a, v).Some? && Linear(e.b, v).Some? && Linear(e, v).Some?
    requires var r := Linear(e.a, v).value;
             && PartIsLinear(r.base, listed) && (PartUsesAny(r.base, listed) ==> UsesAny(e.a, listed))
             && !PartUsesAny(r.coeff, listed) && (r.coeff.Some? ==> Uses(e.a, v))
    requires var r := Linear(e.b, v).value;
             && PartIsLinear(r.base, listed) && (PartUsesAny(r.base, listed) ==> UsesAny(e.b, listed))
             && !PartUsesAny(r.coeff, listed) && (r.coeff.Some? ==> Uses(e.b, v))
    ensures var r := Linear(e, v).value;
            && PartIsLinear(r.base, listed) && (PartUsesAny(r.base, listed) ==> UsesAny(e, listed))
            && !PartUsesAny(r.coeff, listed)
  {
    hide AddCombine, SubCombine, Make, JointlyLinear;
    assert e.op.Mul? ==> !(UsesAny(e.a, listed) && UsesAny(e.b, listed)) by { MulIsOneSided(e, listed); }
    var a, b := Linear(e.a, v).value, Linear(e.b, v).value;
    assert a.coeff.Some? ==> UsesAny(e.a, listed) by { if a.coeff.Some? { assert v in listed && Uses(e.a, v); } }
    assert b.coeff.Some? ==> UsesAny(e.b, listed) by { if b.coeff.Some? { assert v in listed && Uses(e.b, v); } }
    FreeIsJoint(a.coeff, listed);
    FreeIsJoint(b.coeff, listed);
    CombineJointly(a.base, b.base, listed);
    CombineJointly(b.base, a.base, listed);
    CombineJointly(a.coeff, b.coeff, listed);
    CombineJointly(a.base, b.coeff, listed);
    CombineJointly(b.base, a.coeff, listed);
  }

  lemma MulIsOneSided(e: Expr, listed: set<string>)
    requires e.Bin? && JointlyLinear(e, listed)
    ensures e.op.Mul? ==> !(UsesAny(e.a, listed) && UsesAny(e.b, listed))
  {}

  lemma FreeIsJoint(e: Option<Expr>, listed: set<string>)
    requires !PartUsesAny(e, listed)
    ensures PartIsLinear(e, listed)
  {
    if e.Some? { FreeExprIsJoint(e.value, listed); }
  }

  lemma {:induction false} FreeExprIsJoint(e: Expr, listed: set<string>)
    requires !UsesAny(e, listed)
    ensures JointlyLinear(e, listed)
  {
    if e.Bin? {
      UsesMore(e, listed);
      FreeExprIsJoint(e.a, listed);
      FreeExprIsJoint(e.b, listed);
    }
  }

  lemma {:induction false} JointlyStrips(e: Expr, listed: set<string>, vars: seq<string>)
    requires JointlyLinear(e, listed) && forall x :: x in vars ==> x in listed
    ensures Stripped(e, vars).Some? && JointlyLinear(Stripped(e, vars).value.1, listed)
    ensures forall k :: 0 <= k < |vars| ==> !UsesAny(Stripped(e, vars).value.0[k], listed)
    decreases |vars|
  {
    hide JointlyLinear, UsesAny;
    if vars != [] {
      var n := |vars| - 1;
      JointlyStrips(e, listed, vars[..n]);
      LinearJointly(Stripped(e, vars[..n]).value.1, listed, vars[n]);
      LiteralIsJoint(listed);
    }
  }

  lemma JointlyIsNotEntangled(e: Expr, vars: seq<string>)
    requires JointlyLinear(e, set x | x in vars)
    ensures Stripped(e, vars).Some? && !Entangled(Stripped(e, vars).value.0, vars)
  {
    hide JointlyLinear, Stripped, Uses;
    var listed := set x | x in vars;
    JointlyStrips(e, listed, vars);
    forall j, k | 0 <= j < k < |vars| ensures !Uses(Stripped(e, vars).value.0[j], vars[k]) {
      assert !UsesAny(Stripped(e, vars).value.0[j], listed) && vars[k] in listed;
    }
  }

  /** The second loop: backwards, with the set of the later variables. */
  method IsEntangled(coeff: seq<Expr>, vars: seq<string>) returns (tangled: bool)
    requires |coeff| == |vars|
    ensures tangled <==> Entangled(coeff, vars)
  {
    hide Uses;
    var vset: set<string> := {};
    var i := |vars|;
    while i > 1
      invariant 0 <= i <= |vars|
      invariant vset == set k | i <= k < |vars| :: vars[k]
      invariant forall j, k :: 0 <= j < |vars| && i - 1 <= j < k < |vars| ==> !Uses(coeff[j], vars[k])
    {
      vset := vset + {vars[i - 1]};
      if UsesAny(coeff[i - 2], vset) { return true; }
      i := i - 1;
    }
    return false;
  }

  lemma NothingStripped(e: Expr, vars: seq<string>)
    ensures Decomposes(e, vars, [], e) && FreeOf(e, []) && EachFree([], vars)
    ensures vars[..0] == [] && Stripped(e, []) == Some(([], e))
  {}

  lemma StrippedStep(e: Expr, vars: seq<string>, i: nat, coeffs: seq<Expr>, rest: Expr)
    requires i < |vars| && |coeffs| == i && Stripped(e, vars[..i]) == Some((coeffs, rest))
    ensures Stripped(e, vars[..i + 1]) ==
            match DetectOne(rest, vars[i])
            case None => None
            case Some((base, c)) => Some((coeffs + [c], base))
  {
    hide DetectOne;
    assert vars[..i + 1][..i] == vars[..i];
  }

  /** Each coefficient mentions neither its own variable nor an earlier one. */
  predicate EachFree(coeffs: seq<Expr>, vars: seq<string>) {
    |coeffs| <= |vars| && forall j :: 0 <= j < |coeffs| ==> FreeOf(coeffs[j], vars[..j + 1])
  }

  lemma EachFreeStep(coeffs: seq<Expr>, vars: seq<string>, c: Expr)
    requires |coeffs| < |vars| && EachFree(coeffs, vars) && FreeOf(c, vars[..|coeffs| + 1])
    ensures EachFree(coeffs + [c], vars)
  {
    hide FreeOf;
  }

  /** Success, said of the expression. */
  lemma SuccessIs(e: Expr, vars: seq<string>)
    ensures var r := Stripped(e, vars);
            var ok := r.Some? && !Entangled(r.value.0, vars);
            && (JointlyLinear(e, set x | x in vars) ==> ok)
            && (vars != [] && ok ==> LinearShape(e, vars[0]))
            && (|vars| == 1 ==> (ok <==> LinearShape(e, vars[0])))
            && (FreeOf(e, vars) ==> ok && forall k :: 0 <= k < |vars| ==> r.value.0[k] == IntImm(0))
  {
    hide Stripped, JointlyLinear, LinearShape;
    if JointlyLinear(e, set x | x in vars) { JointlyIsNotEntangled(e, vars); }
    if vars != [] { FirstStrips(e, vars); }
    if |vars| == 1 { assert vars[..1] == vars; }
    if FreeOf(e, vars) { AbsentStrip(e, vars); }
  }

  /**
   The coefficients of the listed variables followed by the base, or nothing: nothing exactly when a
   variable cannot be stripped off or a coefficient mentions a later variable. So an expression that is
   linear in the listed variables together never gives nothing, and one that is not linear in the first
   always does. On success the parts make up the expression, and none of them mentions a listed variable.
   */
  method DetectLinearEquation(e: Expr, vars: seq<string>) returns (result: seq<Expr>)
    ensures result == [] <==> Stripped(e, vars).None? || Entangled(Stripped(e, vars).value.0, vars)
    ensures result != [] ==> result == Stripped(e, vars).value.0 + [Stripped(e, vars).value.1]
    ensures result != [] ==> Decomposes(e, vars, result[..|vars|], result[|vars|])
    ensures result != [] ==> forall r :: r in result ==> FreeOf(r, vars)
    ensures JointlyLinear(e, set x | x in vars) ==> result != []
    ensures vars != [] && result != [] ==> LinearShape(e, vars[0])
    ensures |vars| == 1 ==> (result != [] <==> LinearShape(e, vars[0]))
    ensures FreeOf(e, vars) ==> result != [] && forall k :: 0 <= k < |vars| ==> result[k] == IntImm(0)
  {
    hide DetectOne, Uses, JointlyLinear, LinearShape, Entangled, Decomposes, FreeOf, Stripped, EachFree;
    SuccessIs(e, vars);
    NothingStripped(e, vars);
    var base := e;
    var coeff: seq<Expr> := [];
    for i := 0 to |vars|
      invariant |coeff| == i && Stripped(e, vars[..i]) == Some((coeff, base))
      invariant Decomposes(e, vars, coeff, base)
      invariant FreeOf(base, vars[..i])
      invariant EachFree(coeff, vars)
    {
      var detector := new LinearEqDetector(vars[i]);
      var ret := detector.Detect(base);
      StrippedStep(e, vars, i, coeff, base);
      if ret.None? {
        StrippedStops(e, vars, i + 1);
        return [];
      }
      DecomposesStep(e, vars, coeff, base);
      FreeOfStep(base, vars[..i], vars[i]);
      assert vars[..i] + [vars[i]] == vars[..i + 1];
      EachFreeStep(coeff, vars, ret.value.1);
      coeff := coeff + [ret.value.1];
      base := ret.value.0;
    }
    assert vars[..|vars|] == vars;

    var tangled := IsEntangled(coeff, vars);
    if tangled { return []; }
    AllFree(coeff, vars);
    result := coeff + [base];
    assert result[..|vars|] == coeff;
  }

  lemma AllFree(coeff: seq<Expr>, vars: seq<string>)
    requires |coeff| == |vars| && !Entangled(coeff, vars) && EachFree(coeff, vars)
    ensures forall j :: 0 <= j < |vars| ==> FreeOf(coeff[j], vars)
  {
    hide Uses;
    forall j | 0 <= j < |vars|
      ensures FreeOf(coeff[j], vars)
    {
      forall x | x in vars
        ensures !Uses(coeff[j], x)
      {
        var k :| 0 <= k < |vars| && vars[k] == x;
        if k <= j { assert vars[..j + 1][k] == x; }
      }
    }
  }
}
