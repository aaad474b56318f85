/** src/arith/const_fold.h: the folding constructors every rewrite below builds with. */
module ConstFold {
  import opened Tir

  /** What `TryConstFold` does: fold, decline, or stop on a literal zero divisor. */
  datatype Fold = Folded(e: Expr) | NoFold | DivideByZero

  predicate IsImm(e: Expr, n: int) { e == IntImm(n) }

  function TryConstFold(op: BinOp, a: Expr, b: Expr): Fold {
    match op
    case Add =>
      if a.IntImm? && b.IntImm? then Folded(IntImm(a.value + b.value))
      else if IsImm(a, 0) then Folded(b)
      else if IsImm(b, 0) then Folded(a)
      else NoFold
    case Sub =>
      if a.IntImm? && b.IntImm? then Folded(IntImm(a.value - b.value))
      else if IsImm(b, 0) then Folded(a)
      else NoFold
    case Mul =>
      if a.IntImm? && b.IntImm? then Folded(IntImm(a.value * b.value))
      else if IsImm(a, 1) then Folded(b)
      else if IsImm(a, 0) then Folded(a)
      else if IsImm(b, 1) then Folded(a)
      else if IsImm(b, 0) then Folded(b)
      else NoFold
    case Div =>
      if a.IntImm? && b.IntImm? then
        if b.value == 0 then DivideByZero else Folded(IntImm(TruncDiv(a.value, b.value)))
      else if IsImm(a, 0) then Folded(a)
      else if IsImm(b, 1) then Folded(a)
      else if IsImm(b, 0) then DivideByZero
      else NoFold
    case Mod =>
      if a.IntImm? && b.IntImm? then
        if b.value == 0 then DivideByZero else Folded(IntImm(TruncMod(a.value, b.value)))
      else if IsImm(a, 0) then Folded(a)
      else if IsImm(b, 1) then Folded(IntImm(0))
      else if IsImm(b, 0) then DivideByZero
      else NoFold
    case FloorDiv =>
      if a.IntImm? && b.IntImm? then
        if b.value == 0 then DivideByZero else Folded(IntImm(FloorDivision(a.value, b.value)))
      else if IsImm(a, 0) then Folded(a)
      else if IsImm(b, 1) then Folded(a)
      else if IsImm(b, 0) then DivideByZero
      else NoFold
    case FloorMod =>
      if a.IntImm? && b.IntImm? then
        if b.value == 0 then DivideByZero else Folded(IntImm(FloorRemainder(a.value, b.value)))
      else if IsImm(a, 0) then Folded(a)
      else if IsImm(b, 1) then Folded(IntImm(0))
      else if IsImm(b, 0) then DivideByZero
      else NoFold
    case Min =>
      if a.IntImm? && b.IntImm? then Folded(IntImm(if b.value < a.value then b.value else a.value))
      else if a == b then Folded(a)
      else NoFold
    case Max =>
      if a.IntImm? && b.IntImm? then Folded(IntImm(if a.value < b.value then b.value else a.value))
      else if a == b then Folded(a)
      else NoFold
  }

  function TryFoldCmp(cmp: CmpOp, a: Expr, b: Expr): Option<Cond> {
    if a.IntImm? && b.IntImm? then Some(BoolImm(Compare(cmp, a.value, b.value))) else None
  }

  function TryFoldAnd(p: Cond, q: Cond): Option<Cond> {
    if p.BoolImm? then Some(if p.holds then q else p)
    else if q.BoolImm? then Some(if q.holds then p else q)
    else None
  }

  function TryFoldOr(p: Cond, q: Cond): Option<Cond> {
    if p.BoolImm? then Some(if p.holds then p else q)
    else if q.BoolImm? then Some(if q.holds then q else p)
    else None
  }

  function TryFoldNot(p: Cond): Option<Cond> {
    if p.BoolImm? then Some(BoolImm(!p.holds)) else None
  }

  // ---- the constructors of src/tir/op/op.cc ----

  /** An operator applied to two expressions; division has no result on a literal zero divisor. */
  function Build(op: BinOp, a: Expr, b: Expr): Option<Expr> {
    match TryConstFold(op, a, b)
    case Folded(e) => Some(e)
    case NoFold => Some(Bin(op, a, b))
    case DivideByZero => None
  }

  function Make(op: BinOp, a: Expr, b: Expr): Expr
    requires !IsDivision(op)
  {
    Build(op, a, b).value
  }

  function Neg(a: Expr): Expr {
    if a.IntImm? then IntImm(-a.value) else Make(Sub, IntImm(0), a)
  }

  /** `min`, aware of the symbolic limits */
  function MinOf(a: Expr, b: Expr): Expr {
    if a == Inf(true) then b
    else if a == Inf(false) then a
    else if b == Inf(true) then a
    else if b == Inf(false) then b
    else Make(Min, a, b)
  }

  /** `max`, aware of the symbolic limits */
  function MaxOf(a: Expr, b: Expr): Expr {
    if a == Inf(true) then a
    else if a == Inf(false) then b
    else if b == Inf(true) then b
    else if b == Inf(false) then a
    else Make(Max, a, b)
  }

  function MakeCmp(cmp: CmpOp, a: Expr, b: Expr): Cond {
    var folded := TryFoldCmp(cmp, a, b);
    if folded.Some? then folded.value else Cmp(cmp, a, b)
  }

  // ---- laws of one fold ----

  lemma ProductZero(x: int)
    ensures 0 * x == 0 && x * 0 == 0
  {}

  lemma DivideOneAndZero(x: int)
    ensures TruncDiv(x, 1) == x && TruncMod(x, 1) == 0
    ensures FloorDivision(x, 1) == x && FloorRemainder(x, 1) == 0
    ensures x != 0 ==> TruncDiv(0, x) == 0 && TruncMod(0, x) == 0
    ensures x != 0 ==> FloorDivision(0, x) == 0 && FloorRemainder(0, x) == 0
  {
    if x != 0 { assert 0 / x == 0; }
  }

  /**
   A fold keeps the value wherever the operation has one, and it stops on a zero
   divisor only where the operation has none.
   */
  lemma BuildKeepsValue(op: BinOp, a: Expr, b: Expr, env: Env)
    requires Defined(Bin(op, a, b), env)
    ensures Build(op, a, b).Some?
    ensures Defined(Build(op, a, b).value, env)
    ensures Eval(Build(op, a, b).value, env) == Eval(Bin(op, a, b), env)
  {
    hide FloorDivision, FloorRemainder, TruncDiv, TruncMod;
    var x, y := Eval(a, env), Eval(b, env);
    ProductZero(x);
    ProductZero(y);
    DivideOneAndZero(x);
    DivideOneAndZero(y);
  }

  lemma MakeKeepsValue(op: BinOp, a: Expr, b: Expr, env: Env)
    requires !IsDivision(op) && Defined(a, env) && Defined(b, env)
    ensures Defined(Make(op, a, b), env)
    ensures Eval(Make(op, a, b), env) == Apply(op, Eval(a, env), Eval(b, env))
  {
    BuildKeepsValue(op, a, b, env);
  }

  lemma NegKeepsValue(a: Expr, env: Env)
    requires Defined(a, env)
    ensures Defined(Neg(a), env) && Eval(Neg(a), env) == -Eval(a, env)
  {
    if !a.IntImm? { MakeKeepsValue(Sub, IntImm(0), a, env); }
  }

  lemma MakeCmpKeepsValue(cmp: CmpOp, a: Expr, b: Expr, env: Env)
    requires Defined(a, env) && Defined(b, env)
    ensures CondDefined(MakeCmp(cmp, a, b), env)
    ensures Holds(MakeCmp(cmp, a, b), env) <==> Compare(cmp, Eval(a, env), Eval(b, env))
  {}

  /** A folded expression mentions no variable its operands do not. */
  lemma BuildVars(op: BinOp, a: Expr, b: Expr, x: string)
    requires Build(op, a, b).Some? && Uses(Build(op, a, b).value, x)
    ensures Uses(a, x) || Uses(b, x)
  {}

  // ---- rebuilding a whole expression ----

  function Rebuild(e: Expr): Option<Expr> {
    match e
    case IntImm(_) => Some(e)
    case Var(_) => Some(e)
    case Inf(_) => Some(e)
    case Bin(op, a, b) =>
      var ra, rb := Rebuild(a), Rebuild(b);
      if ra.None? || rb.None? then None else Build(op, ra.value, rb.value)
    case Select(c, t, f) =>
      var rc, rt, rf := RebuildCond(c), Rebuild(t), Rebuild(f);
      if rc.None? || rt.None? || rf.None? then None else Some(Select(rc.value, rt.value, rf.value))
  }

  function RebuildCond(c: Cond): Option<Cond> {
    match c
    case BoolImm(_) => Some(c)
    case Cmp(cmp, l, r) =>
      var rl, rr := Rebuild(l), Rebuild(r);
      if rl.None? || rr.None? then None else Some(MakeCmp(cmp, rl.value, rr.value))
    case And(p, q) =>
      var rp, rq := RebuildCond(p), RebuildCond(q);
      if rp.None? || rq.None? then None
      else
        var folded := TryFoldAnd(rp.value, rq.value);
        if folded.Some? then folded else Some(And(rp.value, rq.value))
    case Or(p, q) =>
      var rp, rq := RebuildCond(p), RebuildCond(q);
      if rp.None? || rq.None? then None
      else
        var folded := TryFoldOr(rp.value, rq.value);
        if folded.Some? then folded else Some(Or(rp.value, rq.value))
    case Not(p) =>
      var rp := RebuildCond(p);
      if rp.None? then None
      else
        var folded := TryFoldNot(rp.value);
        if folded.Some? then folded else Some(Not(rp.value))
  }

  /** Rebuilding bottom-up keeps the value in every environment where no divisor is zero. */
  lemma {:induction false} RebuildKeepsValue(e: Expr, env: Env)
    requires Defined(e, env)
    ensures Rebuild(e).Some?
    ensures Defined(Rebuild(e).value, env) && Eval(Rebuild(e).value, env) == Eval(e, env)
    decreases e
  {
    match e
    case IntImm(_) =>
    case Var(_) =>
    case Bin(op, a, b) =>
      RebuildKeepsValue(a, env);
      RebuildKeepsValue(b, env);
      BuildKeepsValue(op, Rebuild(a).value, Rebuild(b).value, env);
    case Select(c, t, f) =>
      RebuildCondKeepsValue(c, env);
      RebuildKeepsValue(t, env);
      RebuildKeepsValue(f, env);
  }

  lemma {:induction false} RebuildCondKeepsValue(c: Cond, env: Env)
    requires CondDefined(c, env)
    ensures RebuildCond(c).Some?
    ensures CondDefined(RebuildCond(c).value, env) && Holds(RebuildCond(c).value, env) == Holds(c, env)
    decreases c
  {
    match c
    case BoolImm(_) =>
    case Cmp(_, l, r) =>
      RebuildKeepsValue(l, env);
      RebuildKeepsValue(r, env);
    case And(p, q) =>
      RebuildCondKeepsValue(p, env);
      RebuildCondKeepsValue(q, env);
    case Or(p, q) =>
      RebuildCondKeepsValue(p, env);
      RebuildCondKeepsValue(q, env);
    case Not(p) =>
      RebuildCondKeepsValue(p, env);
  }

  // ---- normal forms ----

  /** No rule applies to the node: no two literals, no neutral or absorbing operand, no two equal ends. */
  predicate Irreducible(op: BinOp, a: Expr, b: Expr) {
    && !(a.IntImm? && b.IntImm?)
    && match op
       case Add => a != IntImm(0) && b != IntImm(0)
       case Sub => b != IntImm(0)
       case Mul => a != IntImm(0) && a != IntImm(1) && b != IntImm(0) && b != IntImm(1)
       case Min => a != b
       case Max => a != b
       case _ => a != IntImm(0) && b != IntImm(0) && b != IntImm(1)
  }

  predicate Normal(e: Expr) {
    match e
    case Bin(op, a, b) => Normal(a) && Normal(b) && Irreducible(op, a, b)
    case Select(c, t, f) => NormalCond(c) && Normal(t) && Normal(f)
    case _ => true
  }

  predicate NormalCond(c: Cond) {
    match c
    case BoolImm(_) => true
    case Cmp(_, l, r) => Normal(l) && Normal(r) && !(l.IntImm? && r.IntImm?)
    case And(p, q) => NormalCond(p) && NormalCond(q) && !p.BoolImm? && !q.BoolImm?
    case Or(p, q) => NormalCond(p) && NormalCond(q) && !p.BoolImm? && !q.BoolImm?
    case Not(p) => NormalCond(p) && !p.BoolImm?
  }

  /** A node is kept exactly when it is irreducible, and stops exactly at a literal zero divisor. */
  lemma BuildIff(op: BinOp, a: Expr, b: Expr)
    ensures Build(op, a, b).None? <==> IsDivision(op) && b == IntImm(0)
    ensures Irreducible(op, a, b) ==> Build(op, a, b) == Some(Bin(op, a, b))
    ensures Normal(a) && Normal(b) && Build(op, a, b).Some? ==> Normal(Build(op, a, b).value)
  {}

  /** What is rebuilt is normal. */
  lemma {:induction false} RebuildIsNormal(e: Expr)
    ensures Rebuild(e).Some? ==> Normal(Rebuild(e).value)
    decreases e
  {
    match e
    case Bin(op, a, b) =>
      RebuildIsNormal(a);
      RebuildIsNormal(b);
      if Rebuild(e).Some? { BuildIff(op, Rebuild(a).value, Rebuild(b).value); }
    case Select(c, t, f) =>
      RebuildCondIsNormal(c);
      RebuildIsNormal(t);
      RebuildIsNormal(f);
    case _ =>
  }

  lemma {:induction false} RebuildCondIsNormal(c: Cond)
    ensures RebuildCond(c).Some? ==> NormalCond(RebuildCond(c).value)
    decreases c
  {
    match c
    case BoolImm(_) =>
    case Cmp(_, l, r) =>
      RebuildIsNormal(l);
      RebuildIsNormal(r);
    case And(p, q) =>
      RebuildCondIsNormal(p);
      RebuildCondIsNormal(q);
    case Or(p, q) =>
      RebuildCondIsNormal(p);
      RebuildCondIsNormal(q);
    case Not(p) =>
      RebuildCondIsNormal(p);
  }

  /** An expression in normal form is left as it is, and only such a one. */
  lemma {:induction false} NormalIsKept(e: Expr)
    ensures Rebuild(e) == Some(e) <==> Normal(e)
    decreases e
  {
    RebuildIsNormal(e);
    if Normal(e) {
      match e
      case Bin(op, a, b) =>
        NormalIsKept(a);
        NormalIsKept(b);
        BuildIff(op, a, b);
      case Select(c, t, f) =>
        NormalCondIsKept(c);
        NormalIsKept(t);
        NormalIsKept(f);
      case _ =>
    }
  }

  lemma {:induction false} NormalCondIsKept(c: Cond)
    ensures RebuildCond(c) == Some(c) <==> NormalCond(c)
    decreases c
  {
    RebuildCondIsNormal(c);
    if NormalCond(c) {
      match c
      case BoolImm(_) =>
      case Cmp(_, l, r) =>
        NormalIsKept(l);
        NormalIsKept(r);
      case And(p, q) =>
        NormalCondIsKept(p);
        NormalCondIsKept(q);
      case Or(p, q) =>
        NormalCondIsKept(p);
        NormalCondIsKept(q);
      case Not(p) =>
        NormalCondIsKept(p);
    }
  }

  /** So rebuilding again changes nothing. */
  lemma RebuildTwice(e: Expr)
    requires Rebuild(e).Some?
    ensures Normal(Rebuild(e).value) && Rebuild(Rebuild(e).value) == Rebuild(e)
  {
    hide Rebuild, Normal;
    RebuildIsNormal(e);
    NormalIsKept(Rebuild(e).value);
  }

  /** No variable and no node without a folding rule. */
  predicate Closed(e: Expr) {
    e.IntImm? || (e.Bin? && Closed(e.a) && Closed(e.b))
  }

  predicate ClosedCond(c: Cond) {
    match c
    case BoolImm(_) => true
    case Cmp(_, l, r) => Closed(l) && Closed(r)
    case And(p, q) => ClosedCond(p) && ClosedCond(q)
    case Or(p, q) => ClosedCond(p) && ClosedCond(q)
    case Not(p) => ClosedCond(p)
  }

  /** A closed expression without a zero divisor folds all the way to its value; with one, it stops. */
  lemma {:induction false} ClosedFoldsToLiteral(e: Expr, env: Env)
    requires Closed(e)
    ensures Rebuild(e) == if Defined(e, env) then Some(IntImm(Eval(e, env))) else None
  {
    if e.Bin? {
      ClosedFoldsToLiteral(e.a, env);
      ClosedFoldsToLiteral(e.b, env);
    }
  }

  lemma {:induction false} ClosedCondFoldsToLiteral(c: Cond, env: Env)
    requires ClosedCond(c)
    ensures RebuildCond(c) == if CondDefined(c, env) then Some(BoolImm(Holds(c, env))) else None
  {
    match c
    case BoolImm(_) =>
    case Cmp(_, l, r) =>
      ClosedFoldsToLiteral(l, env);
      ClosedFoldsToLiteral(r, env);
    case And(p, q) =>
      ClosedCondFoldsToLiteral(p, env);
      ClosedCondFoldsToLiteral(q, env);
    case Or(p, q) =>
      ClosedCondFoldsToLiteral(p, env);
      ClosedCondFoldsToLiteral(q, env);
    case Not(p) =>
      ClosedCondFoldsToLiteral(p, env);
  }
}
