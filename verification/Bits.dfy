/**
 The C bit operators on natural numbers of any width. Shifts halve and double
 one bit at a time, so every law here is linear arithmetic and induction.
 */
module Bits {

  /** x * 2^n: `x << n` without a width */
  function Scale(x: nat, n: nat): nat {
    if n == 0 then x else 2 * Scale(x, n - 1)
  }

  function Pow2(n: nat): (r: nat)
    ensures r >= 1
  {
    ScalePositive(n);
    Scale(1, n)
  }

  lemma {:induction false} ScalePositive(n: nat)
    ensures Scale(1, n) >= 1
  {
    if n > 0 { ScalePositive(n - 1); }
  }

  /** `x >> n` */
  function Shr(x: nat, n: nat): nat {
    if n == 0 then x else Shr(x / 2, n - 1)
  }

  /** The low n bits of x: what an unsigned type of n bits keeps of it. */
  function Low(x: nat, n: nat): nat {
    if n == 0 then 0 else x % 2 + 2 * Low(x / 2, n - 1)
  }

  /** `x << n` in an unsigned type of `width` bits */
  function Shl(x: nat, n: nat, width: nat): nat { Low(Scale(x, n), width) }

  /** `x - y` in an unsigned type of `width` bits */
  function WrapSub(x: nat, y: nat, width: nat): nat {
    LowBound(y, width);
    Low(x + (Pow2(width) - Low(y, width)), width)
  }

  /** `x & y` */
  function And(x: nat, y: nat): nat {
    if x == 0 then 0
    else (if x % 2 == 1 && y % 2 == 1 then 1 else 0) + 2 * And(x / 2, y / 2)
  }

  /** `x | y` */
  function Or(x: nat, y: nat): nat
    decreases x + y
  {
    if x == 0 then y
    else if y == 0 then x
    else (if x % 2 == 1 || y % 2 == 1 then 1 else 0) + 2 * Or(x / 2, y / 2)
  }

  /** `x ^ y` */
  function Xor(x: nat, y: nat): nat
    decreases x + y
  {
    if x == 0 then y
    else if y == 0 then x
    else (if x % 2 != y % 2 then 1 else 0) + 2 * Xor(x / 2, y / 2)
  }

  // ---- scaling ----

  lemma {:induction false} ScaleAdd(x: nat, y: nat, n: nat)
    ensures Scale(x + y, n) == Scale(x, n) + Scale(y, n)
  {
    if n > 0 { ScaleAdd(x, y, n - 1); }
  }

  lemma {:induction false} ScaleScale(x: nat, a: nat, b: nat)
    ensures Scale(Scale(x, a), b) == Scale(x, a + b)
  {
    if b > 0 { ScaleScale(x, a, b - 1); }
  }

  lemma {:induction false} ScaleMonotone(x: nat, y: nat, n: nat)
    requires x <= y
    ensures Scale(x, n) <= Scale(y, n)
    ensures x < y ==> Scale(x, n) < Scale(y, n)
    ensures Scale(0, n) == 0
  {
    if n > 0 { ScaleMonotone(x, y, n - 1); }
  }

  /** Comparing scaled numbers compares the numbers. */
  lemma ScaleReflects(x: nat, y: nat, n: nat)
    ensures Scale(x, n) < Scale(y, n) <==> x < y
    ensures Scale(x, n) == Scale(y, n) <==> x == y
  {
    if x <= y { ScaleMonotone(x, y, n); } else { ScaleMonotone(y, x, n); }
  }

  lemma {:induction false} Pow2Monotone(a: nat, b: nat)
    requires a <= b
    ensures 1 <= Pow2(a) <= Pow2(b)
    ensures a < b ==> 2 * Pow2(a) <= Pow2(b)
    decreases b
  {
    if a < b {
      Pow2Monotone(a, b - 1);
    } else if a > 0 {
      Pow2Monotone(a - 1, a - 1);
    }
  }

  lemma ScaleDoubles(x: nat, n: nat)
    ensures Scale(x, n + 1) == 2 * Scale(x, n)
    ensures Pow2(n + 1) == 2 * Pow2(n)
  {}

  lemma ScaleZero(x: nat)
    ensures Scale(x, 0) == x
  {}

  lemma SmallPowers()
    ensures Pow2(0) == 1 && Pow2(1) == 2 && Pow2(2) == 4 && Pow2(3) == 8
  {
    ScaleDoubles(1, 0);
    ScaleDoubles(1, 1);
    ScaleDoubles(1, 2);
  }

  // ---- the two parts of a number ----

  lemma {:induction false} LowBound(x: nat, n: nat)
    ensures Low(x, n) < Pow2(n)
  {
    if n > 0 { LowBound(x / 2, n - 1); }
  }

  lemma {:induction false} SplitAt(x: nat, n: nat)
    ensures x == Scale(Shr(x, n), n) + Low(x, n)
    ensures Low(x, n) < Pow2(n)
  {
    if n > 0 { SplitAt(x / 2, n - 1); }
  }

  lemma {:induction false} SplitUnique(x: nat, n: nat, q: nat, r: nat)
    requires x == Scale(q, n) + r && r < Pow2(n)
    ensures Shr(x, n) == q && Low(x, n) == r
  {
    if n > 0 { SplitUnique(x / 2, n - 1, q, r / 2); }
  }

  lemma {:induction false} ShrShr(x: nat, a: nat, b: nat)
    ensures Shr(Shr(x, a), b) == Shr(x, a + b)
  {
    if a > 0 { ShrShr(x / 2, a - 1, b); }
  }

  lemma {:induction false} LowSplit(x: nat, a: nat, b: nat)
    ensures Low(x, a + b) == Scale(Low(Shr(x, a), b), a) + Low(x, a)
  {
    if a > 0 { LowSplit(x / 2, a - 1, b); }
  }

  /** A value that fits is kept. */
  lemma LowId(x: nat, n: nat)
    requires x < Pow2(n)
    ensures Low(x, n) == x && Shr(x, n) == 0
  {
    ScaleMonotone(0, 0, n);
    SplitUnique(x, n, 0, x);
  }

  lemma LowOfLow(x: nat, a: nat, b: nat)
    ensures Low(Low(x, a + b), a) == Low(x, a)
  {
    hide Low, Shr, Scale;
    LowSplit(x, a, b);
    LowBound(x, a);
    SplitUnique(Low(x, a + b), a, Low(Shr(x, a), b), Low(x, a));
  }

  lemma LowHead(x: nat, n: nat)
    requires n >= 1
    ensures Low(x, n) == x % 2 + 2 * Low(x / 2, n - 1)
  {}

  lemma LowOne(x: nat)
    ensures Low(x, 1) == x % 2
  {
    assert Low(x / 2, 0) == 0;
  }

  /** Multiples of 2^n vanish. */
  lemma LowAddMultiple(x: nat, q: nat, n: nat)
    ensures Low(x + Scale(q, n), n) == Low(x, n)
    ensures Shr(x + Scale(q, n), n) == Shr(x, n) + q
  {
    hide Low, Shr, Scale;
    SplitAt(x, n);
    ScaleAdd(Shr(x, n), q, n);
    SplitUnique(x + Scale(q, n), n, Shr(x, n) + q, Low(x, n));
  }

  /** Shifting left and keeping n bits keeps the lowest of them. */
  lemma LowShl(x: nat, s: nat, n: nat)
    requires s <= n
    ensures Shl(x, s, n) == Scale(Low(x, n - s), s)
  {
    hide Low, Shr, Scale;
    Pow2Monotone(0, s);
    SplitUnique(Scale(x, s), s, x, 0);
    LowSplit(Scale(x, s), s, n - s);
  }

  lemma ShiftedBelow(x: nat, s: nat, n: nat, m: nat)
    requires x < Pow2(n) && n <= m + s
    ensures Shr(x, s) < Pow2(m)
  {
    hide Low, Shr, Scale;
    SplitAt(x, s);
    Pow2Monotone(n, m + s);
    ScaleScale(1, m, s);
    if Shr(x, s) >= Pow2(m) { ScaleMonotone(Pow2(m), Shr(x, s), s); }
  }

  lemma WrapSubCases(x: nat, y: nat, n: nat)
    requires x < Pow2(n) && y < Pow2(n)
    ensures WrapSub(x, y, n) == if x >= y then x - y else x + Pow2(n) - y
  {
    hide Low, Shr, Scale;
    LowId(y, n);
    if x >= y {
      LowAddMultiple(x - y, 1, n);
      LowId(x - y, n);
    } else {
      LowId(x + (Pow2(n) - y), n);
    }
  }

  /** Adding a number that fits either fits or wraps once. */
  lemma LowOfSum(z: nat, y: nat, n: nat)
    requires z < Pow2(n)
    ensures Low(y, n) < Pow2(n)
    ensures Low(z + y, n) == z + Low(y, n) - (if z + Low(y, n) < Pow2(n) then 0 else Pow2(n))
  {
    hide Low, Shr, Scale;
    var s := z + Low(y, n);
    SplitAt(y, n);
    LowAddMultiple(s, Shr(y, n), n);
    if s < Pow2(n) {
      LowId(s, n);
    } else {
      LowAddMultiple(s - Pow2(n), 1, n);
      LowId(s - Pow2(n), n);
    }
  }

  /** Subtracting what was kept of y from what was kept of x, when the difference fits. */
  lemma WrapSubExact(x: nat, y: nat, n: nat)
    requires x >= y && x - y < Pow2(n)
    ensures WrapSub(Low(x, n), Low(y, n), n) == x - y
  {
    hide Low, Scale;
    var kx, ky := Low(x, n), Low(y, n);
    LowOfSum(x - y, y, n);
    LowBound(x, n);
    WrapSubCases(kx, ky, n);
  }

  lemma ShlOfLow(x: nat, s: nat, n: nat)
    ensures Shl(Low(x, n), s, n) == Low(Scale(x, s), n)
  {
    hide Low, Shr, Scale;
    var q, r := Shr(x, n), Low(x, n);
    SplitAt(x, n);
    ScaleAdd(Scale(q, n), r, s);
    ScaleScale(q, n, s);
    ScaleScale(q, s, n);
    LowAddMultiple(Scale(r, s), Scale(q, s), n);
  }

  // ---- the masks used in the conversions ----

  /** `x & (2^k - 1)` keeps the low k bits. */
  lemma {:induction false} AndMask(x: nat, k: nat)
    ensures Pow2(k) >= 1
    ensures And(x, Pow2(k) - 1) == Low(x, k)
    decreases k
  {
    Pow2Monotone(0, k);
    if k == 0 {
      AndZero(x);
    } else if x == 0 {
      LowId(0, k);
    } else {
      AndMask(x / 2, k - 1);
    }
  }

  lemma {:induction false} AndZero(x: nat)
    ensures And(x, 0) == 0
  {
    if x != 0 { AndZero(x / 2); }
  }

  /** `x & 2^k` is bit k. */
  lemma {:induction false} AndBit(x: nat, k: nat)
    ensures And(x, Pow2(k)) == Scale(Shr(x, k) % 2, k)
    decreases k
  {
    if x == 0 {
      Pow2Monotone(0, k);
      LowId(0, k);
      ScaleMonotone(0, 0, k);
    } else if k == 0 {
      AndZero(x / 2);
    } else {
      AndBit(x / 2, k - 1);
    }
  }

  /** Or of a low part with a multiple of 2^k is their sum. */
  lemma {:induction false} OrDisjoint(low: nat, high: nat, k: nat)
    requires low < Pow2(k)
    ensures Or(low, Scale(high, k)) == low + Scale(high, k)
    ensures Or(Scale(high, k), low) == low + Scale(high, k)
    decreases k
  {
    OrCommutes(low, Scale(high, k));
    if low != 0 && Scale(high, k) != 0 { OrDisjoint(low / 2, high, k - 1); }
  }

  lemma {:induction false} OrCommutes(x: nat, y: nat)
    ensures Or(x, y) == Or(y, x)
    decreases x + y
  {
    if x != 0 && y != 0 { OrCommutes(x / 2, y / 2); }
  }

  lemma OrZero(x: nat)
    ensures Or(x, 0) == x && Or(0, x) == x
  {}

  /** `x | 1` */
  lemma OrOne(x: nat)
    ensures Or(x, 1) == x + 1 - x % 2
  {
    if x > 0 { assert Or(x / 2, 0) == x / 2; }
  }

  /** Clearing the leading bit with xor. */
  lemma {:induction false} XorTop(x: nat, k: nat)
    requires Pow2(k) <= x < 2 * Pow2(k)
    ensures Xor(x, Pow2(k)) == x - Pow2(k)
    decreases k
  {
    if k > 0 { XorTop(x / 2, k - 1); }
  }

  /** Xor with a bit above a number sets it. */
  lemma {:induction false} XorApart(low: nat, k: nat)
    requires low < Pow2(k)
    ensures Xor(low, Pow2(k)) == low + Pow2(k)
    decreases k
  {
    if low != 0 { XorApart(low / 2, k - 1); }
  }

  /** Or of two numbers that are joined above k bits of the first. */
  lemma {:induction false} OrApart(low: nat, a: nat, b: nat, k: nat)
    requires low < Pow2(k)
    ensures Or(low + Scale(a, k), Scale(b, k)) == low + Scale(Or(a, b), k)
    decreases k
  {
    if k > 0 {
      OrApart(low / 2, a, b, k - 1);
      OrHalves(low + Scale(a, k), Scale(b, k));
    }
  }

  lemma OrHalves(x: nat, y: nat)
    ensures Or(x, y) == (if x % 2 == 1 || y % 2 == 1 then 1 else 0) + 2 * Or(x / 2, y / 2)
  {
    OrZero(x / 2);
    OrZero(y / 2);
  }

  /** `x | 1 << n` */
  lemma OrBit(x: nat, n: nat)
    ensures Or(x, Pow2(n)) == x + if Shr(x, n) % 2 == 1 then 0 else Pow2(n)
  {
    hide Low, Or, Scale, Shr;
    var low, high := Low(x, n), Shr(x, n);
    SplitAt(x, n);
    LowBound(x, n);
    OrApart(low, high, 1, n);
    OrOne(high);
    ScaleAdd(high, 1, n);
  }
}
