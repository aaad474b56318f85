/**
 The simplifier as its callers use it. Its rules are not part of this model: any
 analyzer is allowed that keeps values, proves only what holds and answers literals
 directly (src/arith/analyzer.cc:85-129).
 */
module Analyzers {
  import opened Tir

  datatype Analyzer = Analyzer(
    simplify: Expr -> Expr,
    canProve: Cond -> bool,
    canProveGE: (Expr, int) -> bool,
    sameObject: (Expr, Expr) -> bool)
  {
    ghost predicate SimplifyKeepsValue() {
      forall e: Expr, env: Env :: Defined(e, env) ==>
        Defined(simplify(e), env) && Eval(simplify(e), env) == Eval(e, env)
    }

    ghost predicate SimplifyKeepsVars() {
      forall e: Expr, x: string :: Uses(simplify(e), x) ==> Uses(e, x)
    }

    ghost predicate ProvesOnlyTruths() {
      && (forall c: Cond, env: Env :: canProve(c) && CondDefined(c, env) ==> Holds(c, env))
      && (forall e: Expr, n: int, env: Env :: canProveGE(e, n) && Defined(e, env) ==> Eval(e, env) >= n)
    }

    ghost predicate AnswersLiterals() {
      && (forall n: int :: simplify(IntImm(n)) == IntImm(n))
      && (forall p: bool :: simplify(Inf(p)) == Inf(p))
      && (forall b: bool :: canProve(BoolImm(b)) == b)
      && (forall m: int, n: int :: canProveGE(IntImm(m), n) == (m >= n))
    }

    /** Two references to one object denote one expression; equal expressions need not be one object. */
    ghost predicate SameObjectIsEqual() {
      forall a: Expr, b: Expr :: sameObject(a, b) ==> a == b
    }

    ghost predicate Valid() {
      && SimplifyKeepsValue() && SimplifyKeepsVars()
      && ProvesOnlyTruths() && AnswersLiterals() && SameObjectIsEqual()
    }

    /** The one symbolic fact the exactness of deduced bounds needs: e == e. */
    ghost predicate ProvesReflexive() {
      forall e: Expr :: canProve(Cmp(EQ, e, e))
    }
  }

  /** An analyzer that knows literals and e == e, and nothing else. */
  const Literal: Analyzer := Analyzer(
    (e: Expr) => e,
    (c: Cond) => (c.BoolImm? && c.holds) || (c.Cmp? && c.cmp == EQ && c.l == c.r),
    (e: Expr, n: int) => e.IntImm? && e.value >= n,
    (a: Expr, b: Expr) => false)

  lemma LiteralIsValid()
    ensures Literal.Valid() && Literal.ProvesReflexive()
  {}
}
