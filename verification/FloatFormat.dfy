/**
 Binary interchange formats of any width (section 3.4 of IEEE 754-2008) and the
 rounding direction roundTiesToEven (section 4.3.1), stated on exact integers.

 The magnitude of a pattern is counted in units of the format's smallest
 subnormal, so it is a natural number; a finer format's unit divides a coarser
 one's by a power of two.
 */
module FloatFormat {
  import opened Bits

  /**
   `sig` trailing significand bits and `exp` exponent bits, below one sign bit. The conversions keep
   exponents in an int, where 30 bits have room.
   */
  datatype Format = Format(sig: nat, exp: nat) {
    predicate Valid() { sig >= 1 && 2 <= exp <= 30 }

    function Bits(): nat { sig + exp + 1 }

    function InfExp(): nat {
      Pow2Monotone(0, exp);
      Pow2(exp) - 1
    }

    function Bias(): nat { Shr(InfExp(), 1) }

    function MinNormal(): nat { Pow2(sig) }

    /** The pattern of infinity without its sign; every larger one is a NaN. */
    function Infinity(): nat { Scale(InfExp(), sig) }

    function SignMask(): nat { Pow2(sig + exp) }

    /** A pattern without its sign bit. */
    function AbsOf(rep: nat): nat { Low(rep, sig + exp) }

    /** The sign bit, 0 or 1 in a pattern of `Bits()` bits. */
    function SignOf(rep: nat): nat { Shr(rep, sig + exp) }

    predicate IsNaN(rep: nat) { AbsOf(rep) > Infinity() }

    /** The bit that tells a quiet NaN from a signalling one. */
    function QuietBit(): nat
      requires sig >= 1
    {
      Pow2(sig - 1)
    }

    /** The biased exponent field of a pattern without its sign. */
    function ExpOf(p: nat): nat { Shr(p, sig) }

    /** The trailing significand field. */
    function FracOf(p: nat): nat { Low(p, sig) }

    /** The exact magnitude a pattern encodes, in units of the smallest subnormal. */
    function Mag(p: nat): nat {
      if ExpOf(p) == 0 then FracOf(p) else Scale(Pow2(sig) + FracOf(p), ExpOf(p) - 1)
    }

    /** The same in units 2^k times finer. */
    function Scaled(k: nat, p: nat): nat { Scale(Mag(p), k) }

    /** The distance from a pattern's magnitude to the next one. */
    function Ulp(p: nat): nat {
      if ExpOf(p) == 0 then 1 else Pow2(ExpOf(p) - 1)
    }

    /**
     The least magnitude that rounds to infinity: 2^emax * (2 - 2^(-p) ), p the
     precision sig + 1, counted in the format's unit.
     */
    function OverflowThreshold(): nat
      requires Valid()
    {
      Pow2Monotone(2, exp);
      Pow2Monotone(0, sig + 2);
      Scale(Pow2(sig + 2) - 1, InfExp() - 3)
    }
  }

  /** The bits of an int. Narrower representations are promoted to it before every operation. */
  const INT_BITS: nat := 32

  /** What a conversion comes to: a bit pattern, or a shift by a negative count, which means nothing. */
  datatype Converted = Undefined | Pattern(bits: nat)

  function Dist(x: nat, y: nat): nat { if x >= y then x - y else y - x }

  /**
   `r` is the roundTiesToEven result, in `f`, of the exact magnitude x / 2^k units:
   infinity at or above the threshold, otherwise a finite pattern that no other
   finite pattern beats, and whose last digit is even when another one draws.
   */
  ghost predicate RoundsTiesToEven(f: Format, k: nat, x: nat, r: nat)
    requires f.Valid()
  {
    if x >= Scale(f.OverflowThreshold(), k) then r == f.Infinity()
    else
      && r < f.Infinity()
      && (forall s: nat :: s < f.Infinity() ==>
            Dist(x, f.Scaled(k, r)) <= Dist(x, f.Scaled(k, s)))
      && (forall s: nat :: s < f.Infinity() && s != r
            && Dist(x, f.Scaled(k, r)) == Dist(x, f.Scaled(k, s))
            ==> r % 2 == 0)
  }

  lemma InfExpAtLeastThree(f: Format)
    requires f.Valid()
    ensures f.InfExp() >= 3 && f.InfExp() == 2 * f.Bias() + 1 && f.Bias() >= 1
  {
    Pow2Monotone(2, f.exp);
    assert Shr(f.InfExp(), 1) == Shr(f.InfExp() / 2, 0);
  }

  /** The fields of a pattern built from them. */
  lemma FieldsOf(f: Format, e: nat, m: nat)
    requires m < Pow2(f.sig)
    ensures f.ExpOf(Scale(e, f.sig) + m) == e && f.FracOf(Scale(e, f.sig) + m) == m
  {
    SplitUnique(Scale(e, f.sig) + m, f.sig, e, m);
  }

  /** Consecutive patterns are one unit in the last place apart, also across exponents. */
  lemma MagStep(f: Format, p: nat)
    ensures f.Mag(p + 1) == f.Mag(p) + f.Ulp(p) && f.Ulp(p) >= 1
  {
    hide Low, Shr, Scale;
    var u, e, m := Pow2(f.sig), f.ExpOf(p), f.FracOf(p);
    SplitAt(p, f.sig);
    if e > 0 { ScaleAdd(u + m, 1, e - 1); }
    if m + 1 < u {
      FieldsOf(f, e, m + 1);
    } else {
      ScaleAdd(e, 1, f.sig);
      FieldsOf(f, e + 1, 0);
      DoubleThenScale(u, e);
    }
  }

  lemma DoubleThenScale(u: nat, e: nat)
    ensures Scale(u + 0, e) == if e == 0 then u else Scale(u + u, e - 1)
  {
    if e > 0 { ScaleAdd(u, u, e - 1); }
  }

  lemma {:induction false} MagMonotone(f: Format, p: nat, q: nat)
    requires p <= q
    ensures f.Mag(p) <= f.Mag(q)
    ensures p < q ==> f.Mag(p) < f.Mag(q)
    decreases q - p
  {
    if p < q {
      MagStep(f, q - 1);
      MagMonotone(f, p, q - 1);
    }
  }

  lemma ScaledMonotone(f: Format, k: nat, p: nat, q: nat)
    requires p <= q
    ensures f.Scaled(k, p) <= f.Scaled(k, q)
    ensures p < q ==> f.Scaled(k, p) < f.Scaled(k, q)
  {
    MagMonotone(f, p, q);
    ScaleMonotone(f.Mag(p), f.Mag(q), k);
  }

  lemma ScaledStep(f: Format, k: nat, p: nat)
    ensures f.Scaled(k, p + 1) == f.Scaled(k, p) + Scale(f.Ulp(p), k)
  {
    hide Low, Shr, Scale;
    MagStep(f, p);
    ScaleAdd(f.Mag(p), f.Ulp(p), k);
  }

  /** The threshold is halfway between the largest finite number and the next power of two. */
  lemma ThresholdIsHalfway(f: Format)
    requires f.Valid()
    ensures f.Infinity() >= 1
    ensures 2 * f.OverflowThreshold() == f.Mag(f.Infinity() - 1) + f.Mag(f.Infinity())
  {
    hide Low, Shr, Scale;
    InfExpAtLeastThree(f);
    var u, n := Pow2(f.sig), f.InfExp();
    Pow2Monotone(0, f.sig);
    FieldsOf(f, n, 0);
    ScaleAdd(n - 1, 1, f.sig);
    FieldsOf(f, n - 1, u - 1);
    ScaleDoubles(1, f.sig);
    ScaleDoubles(1, f.sig + 1);
    ScaleDoubles(u, n - 2);
    ScaleDoubles(u, n - 3);
    ScaleDoubles(2 * u - 1, n - 3);
    ScaleAdd(2 * u - 1, 2 * u, n - 3);
    ScaleAdd(u, u, n - 3);
  }

  lemma ThresholdScaled(f: Format, k: nat)
    requires f.Valid()
    ensures f.Infinity() >= 1
    ensures 2 * Scale(f.OverflowThreshold(), k)
         == f.Scaled(k, f.Infinity() - 1) + f.Scaled(k, f.Infinity())
  {
    hide Low, Shr, Scale;
    ThresholdIsHalfway(f);
    ScaleAdd(f.Mag(f.Infinity() - 1), f.Mag(f.Infinity()), k);
    ScaleAdd(f.OverflowThreshold(), f.OverflowThreshold(), k);
  }

  /** Up past the middle of two patterns, down before it, to the even one on it. */
  function RoundUp(t: nat, rest: nat, gap: nat): nat {
    if 2 * rest > gap then t + 1 else if 2 * rest == gap then t + t % 2 else t
  }

  /** No pattern is closer than the one chosen between two neighbours. */
  lemma NeighbourIsNearest(f: Format, k: nat, x: nat, t: nat, s: nat)
    requires f.Scaled(k, t) <= x < f.Scaled(k, t + 1)
    ensures var r := RoundUp(t, x - f.Scaled(k, t), f.Scaled(k, t + 1) - f.Scaled(k, t));
            && Dist(x, f.Scaled(k, r)) <= Dist(x, f.Scaled(k, s))
            && (s != r && Dist(x, f.Scaled(k, r)) == Dist(x, f.Scaled(k, s)) ==> r % 2 == 0)
  {
    hide Low, Shr, Scale;
    if s <= t { ScaledMonotone(f, k, s, t); } else { ScaledMonotone(f, k, t + 1, s); }
  }

  /**
   Rounding from the pattern just below is roundTiesToEven, also when the
   pattern above is infinity.
   */
  lemma RoundFromFloor(f: Format, k: nat, x: nat, t: nat)
    requires f.Valid() && t < f.Infinity()
    requires f.Scaled(k, t) <= x < f.Scaled(k, t + 1)
    ensures RoundsTiesToEven(f, k, x,
              RoundUp(t, x - f.Scaled(k, t), f.Scaled(k, t + 1) - f.Scaled(k, t)))
  {
    hide Low, Shr, Scale;
    var inf := f.Infinity();
    var r := RoundUp(t, x - f.Scaled(k, t), f.Scaled(k, t + 1) - f.Scaled(k, t));
    ThresholdScaled(f, k);
    InfinityIsEven(f);
    if t < inf - 1 {
      ScaledMonotone(f, k, t + 1, inf - 1);
      ScaledMonotone(f, k, inf - 1, inf);
    }
    forall s: nat | s < inf
      ensures Dist(x, f.Scaled(k, r)) <= Dist(x, f.Scaled(k, s))
      ensures s != r && Dist(x, f.Scaled(k, r)) == Dist(x, f.Scaled(k, s)) ==> r % 2 == 0
    {
      NeighbourIsNearest(f, k, x, t, s);
    }
  }

  lemma InfinityIsEven(f: Format)
    requires f.sig >= 1
    ensures f.Infinity() % 2 == 0
  {
    hide Scale;
    ScaleDoubles(f.InfExp(), f.sig - 1);
  }

  /** From the first unrepresentable power of two on, the result is infinity. */
  lemma RoundOverflow(f: Format, k: nat, x: nat)
    requires f.Valid() && x >= f.Scaled(k, f.Infinity())
    ensures RoundsTiesToEven(f, k, x, f.Infinity())
  {
    ThresholdScaled(f, k);
    ScaledMonotone(f, k, f.Infinity() - 1, f.Infinity());
  }

  /** roundTiesToEven is a function of the value: two results would draw, with a closer one between. */
  lemma RoundUnique(f: Format, k: nat, x: nat, r: nat, s: nat)
    requires f.Valid()
    requires RoundsTiesToEven(f, k, x, r) && RoundsTiesToEven(f, k, x, s)
    ensures r == s
  {
    hide Low, Shr, Scale;
    if r != s {
      var lo, hi := if r < s then r else s, if r < s then s else r;
      ScaledMonotone(f, k, lo, lo + 1);
      ScaledMonotone(f, k, lo + 1, hi);
    }
  }

  /** A representable magnitude rounds to itself. */
  lemma RoundExact(f: Format, k: nat, p: nat)
    requires f.Valid() && p < f.Infinity()
    ensures RoundsTiesToEven(f, k, f.Scaled(k, p), p)
  {
    ScaledMonotone(f, k, p, p + 1);
    RoundFromFloor(f, k, f.Scaled(k, p), p);
  }
}
