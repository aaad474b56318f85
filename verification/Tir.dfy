/**
 Integer and boolean expressions of the tensor IR, and what they mean.

 Integers are unbounded; every integer is of an index type. Variables are
 identified by name.
 */
module Tir {

  datatype Option<+T> = None | Some(value: T)

  datatype BinOp = Add | Sub | Mul | Div | Mod | FloorDiv | FloorMod | Min | Max

  datatype CmpOp = LT | LE | GT | GE | EQ | NE

  datatype Expr =
    | IntImm(value: int)
    | Var(name: string)
    | Bin(op: BinOp, a: Expr, b: Expr)
    | Select(cond: Cond, t: Expr, f: Expr)
    | Inf(positive: bool)  // the two symbolic limits of interval analysis

  datatype Cond =
    | BoolImm(holds: bool)
    | Cmp(cmp: CmpOp, l: Expr, r: Expr)
    | And(p: Cond, q: Cond)
    | Or(p: Cond, q: Cond)
    | Not(p: Cond)

  type Env = string -> int

  // ---- integer division, as src/arith/int_operator.h computes it ----

  /** C's `/`: the quotient rounded towards zero. */
  function TruncDiv(x: int, y: int): int
    requires y != 0
  {
    if x >= 0 then x / y else -((-x) / y)
  }

  /** C's `%`: the remainder that goes with it. */
  function TruncMod(x: int, y: int): int
    requires y != 0
  {
    x - TruncDiv(x, y) * y
  }

  function FloorDivision(x: int, y: int): int
    requires y != 0
  {
    var rdiv, rmod := TruncDiv(x, y), TruncMod(x, y);
    if (y >= 0 && rmod >= 0) || (y < 0 && rmod <= 0) then rdiv else rdiv - 1
  }

  function FloorRemainder(x: int, y: int): int
    requires y != 0
  {
    var rmod := TruncMod(x, y);
    if (y >= 0 && rmod >= 0) || (y < 0 && rmod <= 0) then rmod else rmod + y
  }

  // ---- meaning ----

  function Apply(op: BinOp, x: int, y: int): int {
    match op
    case Add => x + y
    case Sub => x - y
    case Mul => x * y
    case Div => if y == 0 then 0 else TruncDiv(x, y)
    case Mod => if y == 0 then 0 else TruncMod(x, y)
    case FloorDiv => if y == 0 then 0 else FloorDivision(x, y)
    case FloorMod => if y == 0 then 0 else FloorRemainder(x, y)
    case Min => if x <= y then x else y
    case Max => if x >= y then x else y
  }

  predicate Compare(cmp: CmpOp, x: int, y: int) {
    match cmp
    case LT => x < y
    case LE => x <= y
    case GT => x > y
    case GE => x >= y
    case EQ => x == y
    case NE => x != y
  }

  predicate IsDivision(op: BinOp) {
    op.Div? || op.Mod? || op.FloorDiv? || op.FloorMod?
  }

  function Eval(e: Expr, env: Env): int {
    match e
    case IntImm(n) => n
    case Var(x) => env(x)
    case Bin(op, a, b) => Apply(op, Eval(a, env), Eval(b, env))
    case Select(c, t, f) => if Holds(c, env) then Eval(t, env) else Eval(f, env)
    case Inf(_) => 0
  }

  predicate Holds(c: Cond, env: Env) {
    match c
    case BoolImm(b) => b
    case Cmp(cmp, l, r) => Compare(cmp, Eval(l, env), Eval(r, env))
    case And(p, q) => Holds(p, env) && Holds(q, env)
    case Or(p, q) => Holds(p, env) || Holds(q, env)
    case Not(p) => !Holds(p, env)
  }

  /** No division by zero anywhere, and no symbolic limit: `Eval` is the expression's value. */
  predicate Defined(e: Expr, env: Env) {
    match e
    case IntImm(_) => true
    case Var(_) => true
    case Bin(op, a, b) => Defined(a, env) && Defined(b, env) && (IsDivision(op) ==> Eval(b, env) != 0)
    case Select(c, t, f) => CondDefined(c, env) && Defined(t, env) && Defined(f, env)
    case Inf(_) => false
  }

  predicate CondDefined(c: Cond, env: Env) {
    match c
    case BoolImm(_) => true
    case Cmp(_, l, r) => Defined(l, env) && Defined(r, env)
    case And(p, q) => CondDefined(p, env) && CondDefined(q, env)
    case Or(p, q) => CondDefined(p, env) && CondDefined(q, env)
    case Not(p) => CondDefined(p, env)
  }

  /** Variables at the leaves, left to right. */
  function Vars(e: Expr): seq<string> {
    match e
    case IntImm(_) => []
    case Var(x) => [x]
    case Bin(_, a, b) => Vars(a) + Vars(b)
    case Select(c, t, f) => CondVars(c) + Vars(t) + Vars(f)
    case Inf(_) => []
  }

  function CondVars(c: Cond): seq<string> {
    match c
    case BoolImm(_) => []
    case Cmp(_, l, r) => Vars(l) + Vars(r)
    case And(p, q) => CondVars(p) + CondVars(q)
    case Or(p, q) => CondVars(p) + CondVars(q)
    case Not(p) => CondVars(p)
  }

  /** `ExprUseVar` */
  predicate Uses(e: Expr, x: string) {
    x in Vars(e)
  }

  // ---- laws of the divisions ----

  lemma TruncDivMeaning(x: int, y: int)
    requires y != 0
    ensures x == TruncDiv(x, y) * y + TruncMod(x, y)
    ensures x >= 0 ==> 0 <= TruncMod(x, y) < (if y > 0 then y else -y)
    ensures x <= 0 ==> 0 >= TruncMod(x, y) > -(if y > 0 then y else -y)
  {
    var n := if x >= 0 then x else -x;
    assert n == (n / y) * y + n % y;
    assert (-(n / y)) * y == -((n / y) * y);
  }

  /** The quotient is rounded down and the remainder has the divisor's sign. */
  lemma FloorMeaning(x: int, y: int)
    requires y != 0
    ensures x == FloorDivision(x, y) * y + FloorRemainder(x, y)
    ensures y > 0 ==> 0 <= FloorRemainder(x, y) < y
    ensures y < 0 ==> y < FloorRemainder(x, y) <= 0
  {
    TruncDivMeaning(x, y);
    var q := TruncDiv(x, y);
    assert (q - 1) * y == q * y - y;
  }
}
