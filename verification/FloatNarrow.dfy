/** `__truncXfYf2__` of 3rdparty/compiler-rt/builtin_fp16.h: conversion to a narrower format. */
module FloatNarrow {
  import opened Bits
  import opened FloatFormat

  /** What the shift counts of the conversion demand of the two formats. */
  predicate Narrows(src: Format, dst: Format) {
    src.Valid() && dst.Valid() && dst.sig < src.sig && dst.exp <= src.exp
  }

  /** srcExpBias - dstExpBias */
  function BiasGap(src: Format, dst: Format): nat
    requires Narrows(src, dst)
  {
    BiasMonotone(dst, src);
    src.Bias() - dst.Bias()
  }

  lemma BiasMonotone(f: Format, g: Format)
    requires f.Valid() && g.Valid() && f.exp <= g.exp
    ensures f.Bias() <= g.Bias()
  {
    Pow2Monotone(f.exp, g.exp);
    InfExpAtLeastThree(f);
    InfExpAtLeastThree(g);
  }

  /** Rounding to nearest, ties to even, on the destination's bits. */
  function RoundTail(absResult: nat, roundBits: nat, halfway: nat, dstBits: nat): nat {
    if roundBits > halfway then Low(absResult + 1, dstBits)
    else if roundBits == halfway then Low(absResult + And(absResult, 1), dstBits)
    else absResult
  }

  /** The exponent of a is within the range of normal numbers of the destination. */
  function TruncNormal(src: Format, dst: Format, aAbs: nat): nat
    requires Narrows(src, dst)
  {
    var d := src.sig - dst.sig;
    var n := dst.Bits();
    var shifted := Low(Shr(aAbs, d), n);
    var rebiased := WrapSub(shifted, Shl(Low(BiasGap(src, dst), n), dst.sig, n), n);
    RoundTail(rebiased, And(aAbs, Pow2(d) - 1), Pow2(d - 1), n)
  }

  function TruncNaN(src: Format, dst: Format, aAbs: nat): nat
    requires Narrows(src, dst)
  {
    var d := src.sig - dst.sig;
    Or(Or(dst.Infinity(), dst.QuietBit()),
       And(Shr(And(aAbs, src.QuietBit() - 1), d), dst.QuietBit() - 1))
  }

  /** The width in which representations of a format are computed with. */
  function Word(f: Format): nat { if f.Bits() < INT_BITS then INT_BITS else f.Bits() }

  /** a underflows to a subnormal or to zero: right shift with sticky, then round. */
  function TruncSubnormal(src: Format, dst: Format, aRep: nat, aAbs: nat): nat
    requires Narrows(src, dst) && src.ExpOf(aAbs) <= BiasGap(src, dst) + 1
  {
    var d := src.sig - dst.sig;
    var shift := BiasGap(src, dst) - src.ExpOf(aAbs) + 1;
    var significand := Or(And(aRep, src.MinNormal() - 1), src.MinNormal());
    if shift > src.sig then 0
    else DenormalizeAndRound(significand, shift, d, src.Bits(), Word(src), dst.Bits())
  }

  /** The sticky bit is what `significand << (srcBits - shift)` leaves in a word. */
  function DenormalizeAndRound(significand: nat, shift: nat, d: nat, srcBits: nat, word: nat, dstBits: nat): nat
    requires shift <= srcBits && d >= 1
  {
    var sticky := if Shl(significand, srcBits - shift, word) != 0 then 1 else 0;
    var denormalized := Or(Shr(significand, shift), sticky);
    RoundTail(Low(Shr(denormalized, d), dstBits), And(denormalized, Pow2(d) - 1), Pow2(d - 1), dstBits)
  }

  function Underflow(src: Format, dst: Format): nat
    requires Narrows(src, dst)
  {
    Scale(BiasGap(src, dst) + 1, src.sig)
  }

  function Overflow(src: Format, dst: Format): nat
    requires Narrows(src, dst)
  {
    Scale(BiasGap(src, dst) + dst.InfExp(), src.sig)
  }

  /**
   `aAbs - underflow < aAbs - overflow`: of unsigned numbers of the source's width, or of ints where the
   representation is narrower.
   */
  predicate RangeTest(src: Format, dst: Format, aAbs: nat)
    requires Narrows(src, dst)
  {
    var underflow, overflow := Underflow(src, dst), Overflow(src, dst);
    if src.Bits() < INT_BITS then aAbs - underflow < aAbs - overflow
    else WrapSub(aAbs, underflow, src.Bits()) < WrapSub(aAbs, overflow, src.Bits())
  }

  /** The result without its sign. */
  function TruncAbs(src: Format, dst: Format, aRep: nat): Converted
    requires Narrows(src, dst)
  {
    var aAbs := And(aRep, src.SignMask() - 1);
    if RangeTest(src, dst, aAbs) then Pattern(TruncNormal(src, dst, aAbs))
    else if aAbs > src.Infinity() then Pattern(TruncNaN(src, dst, aAbs))
    else if aAbs >= Overflow(src, dst) then Pattern(dst.Infinity())
    else if src.ExpOf(aAbs) > BiasGap(src, dst) + 1 then Undefined
    else Pattern(TruncSubnormal(src, dst, aRep, aAbs))
  }

  /** The whole conversion on bit patterns. */
  function Trunc(src: Format, dst: Format, aRep: nat): Converted
    requires Narrows(src, dst)
  {
    var abs := TruncAbs(src, dst, aRep);
    if abs.Undefined? then Undefined
    else Pattern(Or(abs.bits, Shr(And(aRep, src.SignMask()), src.Bits() - dst.Bits())))
  }

  // ---- the case tests ----

  lemma AbsBelowSignMask(f: Format, aRep: nat)
    ensures And(aRep, f.SignMask() - 1) == Low(aRep, f.sig + f.exp)
    ensures And(aRep, f.SignMask() - 1) < f.SignMask()
  {
    AndMask(aRep, f.sig + f.exp);
    LowBound(aRep, f.sig + f.exp);
  }

  lemma ExponentLimits(src: Format, dst: Format)
    requires Narrows(src, dst)
    ensures BiasGap(src, dst) + dst.InfExp() <= src.InfExp()
    ensures Underflow(src, dst) < Overflow(src, dst) <= src.Infinity() < src.SignMask()
  {
    BiasMonotone(dst, src);
    InfExpAtLeastThree(src);
    InfExpAtLeastThree(dst);
    var g := BiasGap(src, dst);
    ScaleMonotone(g + 1, g + dst.InfExp(), src.sig);
    ScaleMonotone(g + dst.InfExp(), src.InfExp(), src.sig);
    InfinityFits(src);
  }

  /** The one comparison tests membership of an interval, unless it is made on ints: then it never holds. */
  lemma NormalTest(src: Format, dst: Format, aAbs: nat)
    requires Narrows(src, dst) && aAbs < src.SignMask()
    ensures RangeTest(src, dst, aAbs) <==> src.Bits() >= INT_BITS && Underflow(src, dst) <= aAbs < Overflow(src, dst)
  {
    hide And, Low, Or, Scale, Shr;
    ExponentLimits(src, dst);
    ScaleDoubles(1, src.sig + src.exp);
    WrapSubCases(aAbs, Underflow(src, dst), src.Bits());
    WrapSubCases(aAbs, Overflow(src, dst), src.Bits());
  }

  lemma UnderflowExponent(src: Format, dst: Format, aAbs: nat)
    requires Narrows(src, dst) && aAbs < Underflow(src, dst)
    ensures src.ExpOf(aAbs) <= BiasGap(src, dst)
  {
    SplitAt(aAbs, src.sig);
    if src.ExpOf(aAbs) > BiasGap(src, dst) {
      ScaleMonotone(BiasGap(src, dst) + 1, src.ExpOf(aAbs), src.sig);
    }
  }

  // ---- rounding ----

  lemma RoundUpScales(t: nat, rest: nat, gap: nat, n: nat)
    ensures RoundUp(t, Scale(rest, n), Scale(gap, n)) == RoundUp(t, rest, gap)
  {
    hide And, Low, Or, Scale, Shr;
    ScaleAdd(rest, rest, n);
    ScaleReflects(2 * rest, gap, n);
    ScaleReflects(gap, 2 * rest, n);
  }

  /** The code's comparison with the half is the comparison with the middle. */
  lemma RoundTailRounds(t: nat, bits: nat, d: nat, n: nat)
    requires d >= 1 && t + 1 < Pow2(n)
    ensures RoundTail(t, bits, Pow2(d - 1), n) == RoundUp(t, bits, Pow2(d))
  {
    AndMask(t, 1);
    assert Low(t, 1) == t % 2 + 2 * Low(t / 2, 0);
    LowId(t + t % 2, n);
    LowId(t + 1, n);
  }

  lemma InfinityFits(f: Format)
    requires f.Valid()
    ensures f.Infinity() < f.SignMask() && 2 * f.SignMask() == Pow2(f.Bits())
    ensures f.SignMask() >= 8
  {
    hide And, Low, Or, Scale, Shr;
    ScaleScale(1, f.exp, f.sig);
    ScaleMonotone(f.InfExp(), Pow2(f.exp), f.sig);
    Pow2Monotone(3, f.sig + f.exp);
    SmallPowers();
    ScaleDoubles(1, f.sig + f.exp);
  }

  /** What the normal case computes: the kept bits, rebiased, rounded by the dropped ones. */
  lemma TruncNormalIsRoundUp(src: Format, dst: Format, aAbs: nat)
    requires Narrows(src, dst) && Underflow(src, dst) <= aAbs < Overflow(src, dst)
    ensures src.ExpOf(aAbs) > BiasGap(src, dst)
    ensures var d := src.sig - dst.sig;
            var t := Scale(src.ExpOf(aAbs) - BiasGap(src, dst), dst.sig) + Low(Shr(aAbs, d), dst.sig);
            t < dst.Infinity() && TruncNormal(src, dst, aAbs) == RoundUp(t, Low(aAbs, d), Pow2(d))
  {
    hide And, Low, Or, Scale, Shr;
    var d, g, n := src.sig - dst.sig, BiasGap(src, dst), dst.Bits();
    var e, q := src.ExpOf(aAbs), Shr(aAbs, d);
    NormalFields(src, dst, aAbs);
    var t := Scale(e - g, dst.sig) + Low(q, dst.sig);
    NormalBelowInfinity(dst, e - g, Low(q, dst.sig));
    InfinityFits(dst);
    ScaleAdd(e - g, g, dst.sig);
    ShlOfLow(g, dst.sig, n);
    WrapSubExact(q, Scale(g, dst.sig), n);
    AndMask(aAbs, d);
    RoundTailRounds(t, Low(aAbs, d), d, n);
  }

  /** The magnitude dropped and the gap to the next pattern, in the source's units. */
  lemma NormalMagnitude(src: Format, dst: Format, aAbs: nat)
    requires Narrows(src, dst) && Underflow(src, dst) <= aAbs < Overflow(src, dst)
    ensures src.ExpOf(aAbs) > BiasGap(src, dst)
    ensures var d, e := src.sig - dst.sig, src.ExpOf(aAbs);
            var t := Scale(e - BiasGap(src, dst), dst.sig) + Low(Shr(aAbs, d), dst.sig);
            && src.Mag(aAbs) == dst.Scaled(BiasGap(src, dst) + d, t) + Scale(Low(aAbs, d), e - 1)
            && Scale(dst.Ulp(t), BiasGap(src, dst) + d) == Scale(Pow2(d), e - 1)
  {
    hide And, Low, Or, Scale, Shr;
    var d, g, e := src.sig - dst.sig, BiasGap(src, dst), src.ExpOf(aAbs);
    var frac := Low(Shr(aAbs, d), dst.sig);
    NormalFields(src, dst, aAbs);
    FieldsOf(dst, e - g, frac);
    ScaleScale(Pow2(dst.sig) + frac, e - g - 1, g + d);
    ScaleScale(Pow2(dst.sig) + frac, d, e - 1);
    ScaleScale(1, e - g - 1, g + d);
    ScaleScale(1, d, e - 1);
    ScaleScale(1, dst.sig, d);
    ScaleAdd(Pow2(dst.sig), frac, d);
    ScaleAdd(Scale(Pow2(dst.sig) + frac, d), Low(aAbs, d), e - 1);
  }

  /** The normal case: the kept bits are the pattern below, the dropped ones the remainder. */
  lemma TruncNormalRounds(src: Format, dst: Format, aAbs: nat)
    requires Narrows(src, dst) && Underflow(src, dst) <= aAbs < Overflow(src, dst)
    ensures RoundsTiesToEven(dst, BiasGap(src, dst) + src.sig - dst.sig, src.Mag(aAbs),
                             TruncNormal(src, dst, aAbs))
    ensures TruncNormal(src, dst, aAbs) <= dst.Infinity()
  {
    hide And, Low, Or, Scale, Shr, RoundsTiesToEven;
    var d, k := src.sig - dst.sig, BiasGap(src, dst) + src.sig - dst.sig;
    TruncNormalIsRoundUp(src, dst, aAbs);
    NormalMagnitude(src, dst, aAbs);
    var t := Scale(src.ExpOf(aAbs) - BiasGap(src, dst), dst.sig) + Low(Shr(aAbs, d), dst.sig);
    var n := src.ExpOf(aAbs) - 1;
    LowBound(aAbs, d);
    ScaleMonotone(Low(aAbs, d), Pow2(d), n);
    ScaledStep(dst, k, t);
    RoundUpScales(t, Low(aAbs, d), Pow2(d), n);
    RoundFromFloor(dst, k, src.Mag(aAbs), t);
  }

  /** The fields of a source pattern in the destination's normal range, cut at d bits. */
  lemma NormalFields(src: Format, dst: Format, aAbs: nat)
    requires Narrows(src, dst) && Underflow(src, dst) <= aAbs < Overflow(src, dst)
    ensures var d, g := src.sig - dst.sig, BiasGap(src, dst);
            var e, q := src.ExpOf(aAbs), Shr(aAbs, d);
            && g + 1 <= e <= g + dst.InfExp() - 1
            && q == Scale(e, dst.sig) + Low(q, dst.sig)
            && Low(q, dst.sig) < Pow2(dst.sig)
            && src.FracOf(aAbs) == Scale(Low(q, dst.sig), d) + Low(aAbs, d)
  {
    hide And, Low, Or, Scale, Shr;
    var d, g := src.sig - dst.sig, BiasGap(src, dst);
    var e := src.ExpOf(aAbs);
    SplitAt(aAbs, src.sig);
    if e <= g { ScaleMonotone(e, g, src.sig); ScaleAdd(g, 1, src.sig); }
    if e >= g + dst.InfExp() { ScaleMonotone(g + dst.InfExp(), e, src.sig); }
    ShrShr(aAbs, d, dst.sig);
    LowSplit(aAbs, d, dst.sig);
    SplitAt(Shr(aAbs, d), dst.sig);
  }

  lemma NormalBelowInfinity(f: Format, e: nat, m: nat)
    requires f.Valid() && e < f.InfExp() && m < Pow2(f.sig)
    ensures Scale(e, f.sig) + m < f.Infinity()
  {
    hide And, Low, Or, Scale, Shr;
    ScaleMonotone(e + 1, f.InfExp(), f.sig);
    ScaleAdd(e, 1, f.sig);
  }

  /**
   With two or more dropped bits the sticky bit keeps every comparison with the half, if it is set just
   when a bit is lost: always in a word of the source's width, in a wider one only when a bit is lost.
   */
  lemma StickyRounds(significand: nat, shift: nat, d: nat, srcBits: nat, word: nat, dstBits: nat)
    requires 1 <= shift <= srcBits <= word && d >= 2 && Shr(significand, shift + d) + 1 < Pow2(dstBits)
    requires srcBits == word || Low(significand, shift) != 0
    ensures DenormalizeAndRound(significand, shift, d, srcBits, word, dstBits)
         == RoundUp(Shr(significand, shift + d), Low(significand, shift + d), Pow2(shift + d))
  {
    hide And, Low, Or, Scale, Shr;
    var kept, lost := Shr(significand, shift), Low(significand, shift);
    var t := Shr(significand, shift + d);
    StickyBit(significand, shift, srcBits, word);
    var sticky := if lost != 0 then 1 else 0;
    var den := Or(kept, sticky);
    OrOne(kept);
    OrZero(kept);
    ShrShr(significand, shift, d);
    LowSplit(significand, shift, d);
    var bits := Low(kept, d);
    assert Shr(den, d) == t && Low(den, d) == bits + (if lost != 0 then 1 - bits % 2 else 0) by {
      EvenParts(kept, d);
      if den != kept { SplitAt(kept, d); LowBound(kept, d); SplitUnique(den, d, t, bits + 1); }
    }
    LowId(t, dstBits);
    AndMask(den, d);
    RoundTailRounds(t, Low(den, d), d, dstBits);
    LowBound(significand, shift);
    ScaleScale(1, d, shift);
    ScaleDoubles(1, d - 2);
    ScaleDoubles(1, d - 1);
    StickyComparison(bits, lost, shift, Pow2(d - 1), Low(den, d));
    ScaleAdd(Pow2(d - 1), Pow2(d - 1), shift);
  }

  /** What is left of the shifted significand is nonzero when a bit is lost, and in the source's width only then. */
  lemma StickyBit(significand: nat, shift: nat, srcBits: nat, word: nat)
    requires shift <= srcBits <= word
    ensures Low(significand, shift) != 0 ==> Shl(significand, srcBits - shift, word) != 0
    ensures srcBits == word && Low(significand, shift) == 0 ==> Shl(significand, srcBits - shift, word) == 0
  {
    hide And, Low, Or, Scale, Shr;
    var s, kept := srcBits - shift, word - srcBits + shift;
    LowShl(significand, s, word);
    LowSplit(significand, shift, word - srcBits);
    ScaleMonotone(0, Low(significand, kept), s);
  }

  /** The low bit of a number is the low bit of its low part. */
  lemma EvenParts(x: nat, d: nat)
    requires d >= 1
    ensures Low(x, d) % 2 == x % 2 && (x % 2 == 0 ==> Low(x, d) + 1 < Pow2(d))
  {
    hide Low, Scale;
    LowHead(x, d);
    LowBound(x / 2, d - 1);
    ScaleDoubles(1, d - 1);
  }

  lemma StickyComparison(bits: nat, lost: nat, n: nat, half: nat, seen: nat)
    requires half % 2 == 0 && lost < Pow2(n)
    requires seen == bits + (if lost != 0 then 1 - bits % 2 else 0)
    ensures seen > half <==> Scale(bits, n) + lost > Scale(half, n)
    ensures seen == half <==> Scale(bits, n) + lost == Scale(half, n)
  {
    SeenAgainstHalf(bits, lost, half, seen);
    if bits < half {
      ScaleMonotone(bits + 1, half, n);
      ScaleAdd(bits, 1, n);
    } else if bits > half {
      ScaleMonotone(half, bits, n);
    }
  }

  lemma SeenAgainstHalf(bits: nat, lost: nat, half: nat, seen: nat)
    requires half % 2 == 0
    requires seen == bits + (if lost != 0 then 1 - bits % 2 else 0)
    ensures bits < half ==> seen < half
    ensures bits > half ==> seen > half
    ensures bits == half ==> (seen == half <==> lost == 0) && seen >= half
  {}

  lemma SignificandBounds(src: Format, aRep: nat)
    ensures Or(And(aRep, src.MinNormal() - 1), src.MinNormal()) == Pow2(src.sig) + Low(aRep, src.sig)
    ensures Low(aRep, src.sig) < Pow2(src.sig)
  {
    hide And, Low, Or, Scale, Shr;
    AndMask(aRep, src.sig);
    LowBound(aRep, src.sig);
    OrDisjoint(Low(aRep, src.sig), 1, src.sig);
  }

  /** The subnormal case, whatever the width of the shift. */
  lemma TruncSubnormalIsRoundUp(src: Format, dst: Format, aRep: nat, aAbs: nat)
    requires Narrows(src, dst) && src.sig - dst.sig >= 2
    requires src.ExpOf(aAbs) <= BiasGap(src, dst)
    requires src.Bits() >= INT_BITS || aRep % 2 == 1
    ensures var shift := BiasGap(src, dst) - src.ExpOf(aAbs) + 1;
            var total, sig := shift + src.sig - dst.sig, Pow2(src.sig) + Low(aRep, src.sig);
            TruncSubnormal(src, dst, aRep, aAbs) == RoundUp(Shr(sig, total), Low(sig, total), Pow2(total))
    ensures Shr(Pow2(src.sig) + Low(aRep, src.sig),
                BiasGap(src, dst) - src.ExpOf(aAbs) + 1 + src.sig - dst.sig) < Pow2(dst.sig)
  {
    hide And, Low, Or, Scale, Shr;
    var d := src.sig - dst.sig;
    var shift := BiasGap(src, dst) - src.ExpOf(aAbs) + 1;
    var sig := Pow2(src.sig) + Low(aRep, src.sig);
    SignificandBounds(src, aRep);
    ScaleDoubles(1, src.sig);
    ShiftedBelow(sig, shift + d, src.sig + 1, dst.sig);
    Pow2Monotone(dst.sig, dst.Bits());
    if shift > src.sig {
      ScaleDoubles(1, src.sig + 1);
      Pow2Monotone(src.sig + 2, shift + d);
      LowId(sig, shift + d);
    } else {
      OddIsLost(src, aRep, shift);
      StickyRounds(sig, shift, d, src.Bits(), Word(src), dst.Bits());
    }
  }

  /** An odd significand loses a bit in any shift. */
  lemma OddIsLost(src: Format, aRep: nat, shift: nat)
    requires 1 <= shift <= src.sig
    ensures aRep % 2 == 1 ==> Low(Pow2(src.sig) + Low(aRep, src.sig), shift) != 0
  {
    hide And, Low, Or, Scale, Shr;
    LowHead(aRep, src.sig);
    ScaleDoubles(1, src.sig - 1);
    LowHead(Pow2(src.sig) + Low(aRep, src.sig), shift);
  }

  /** The subnormal case rounds correctly once source subnormals are below half a unit. */
  lemma TruncSubnormalRounds(src: Format, dst: Format, aRep: nat)
    requires Narrows(src, dst) && NarrowingIsSafe(src, dst)
    requires var aAbs := Low(aRep, src.sig + src.exp);
             aAbs < Underflow(src, dst) && src.ExpOf(aAbs) <= BiasGap(src, dst)
    ensures var aAbs := Low(aRep, src.sig + src.exp);
            && TruncSubnormal(src, dst, aRep, aAbs) < dst.Infinity()
            && RoundsTiesToEven(dst, BiasGap(src, dst) + src.sig - dst.sig, src.Mag(aAbs),
                                TruncSubnormal(src, dst, aRep, aAbs))
  {
    hide And, Low, Or, Scale, Shr, RoundsTiesToEven;
    var aAbs := Low(aRep, src.sig + src.exp);
    var d, g, e := src.sig - dst.sig, BiasGap(src, dst), src.ExpOf(aAbs);
    var sig := Pow2(src.sig) + Low(aRep, src.sig);
    LowOfLow(aRep, src.sig, src.exp);
    LowBound(aRep, src.sig);
    TruncSubnormalIsRoundUp(src, dst, aRep, aAbs);
    SubnormalPattern(dst, Shr(sig, g - e + 1 + d));
    if e == 0 {
      ScaleDoubles(1, src.sig);
      BelowHalf(sig, src.sig + 1, g + 1 + d);
      TinyRoundsToZero(dst, g + d, Low(aRep, src.sig), src.sig);
    } else {
      ShiftRounds(dst, sig, g - e + 1 + d, e - 1);
    }
  }

  lemma BelowHalf(x: nat, n: nat, total: nat)
    requires x < Pow2(n) && n < total
    ensures RoundUp(Shr(x, total), Low(x, total), Pow2(total)) == 0
  {
    Pow2Monotone(n, total);
    LowId(x, total);
  }

  lemma TinyRoundsToZero(f: Format, k: nat, x: nat, n: nat)
    requires f.Valid() && x < Pow2(n) && n + 1 <= k
    ensures RoundsTiesToEven(f, k, x, 0)
  {
    hide And, Low, Or, Scale, Shr, RoundsTiesToEven;
    Pow2Monotone(n, k);
    SubnormalPattern(f, 0);
    ScaledStep(f, k, 0);
    ScaleMonotone(0, 0, k);
    RoundFromFloor(f, k, x, 0);
  }

  /** Shifting right and rounding is roundTiesToEven among the subnormals. */
  lemma ShiftRounds(f: Format, sig: nat, total: nat, scale: nat)
    requires f.Valid() && Shr(sig, total) < Pow2(f.sig)
    ensures RoundsTiesToEven(f, total + scale, Scale(sig, scale),
                             RoundUp(Shr(sig, total), Low(sig, total), Pow2(total)))
  {
    hide And, Low, Or, Scale, Shr, RoundsTiesToEven;
    var t, rest, gap := Shr(sig, total), Low(sig, total), Pow2(total);
    SubnormalPattern(f, t);
    SplitAt(sig, total);
    ScaleAdd(Scale(t, total), rest, scale);
    ScaleScale(t, total, scale);
    ScaleScale(1, total, scale);
    ScaleMonotone(rest, gap, scale);
    ScaledStep(f, total + scale, t);
    RoundUpScales(t, rest, gap, scale);
    RoundFromFloor(f, total + scale, Scale(sig, scale), t);
  }

  lemma SubnormalPattern(f: Format, t: nat)
    requires f.Valid() && t < Pow2(f.sig)
    ensures f.Mag(t) == t && f.Ulp(t) == 1 && t + 1 < f.Infinity()
  {
    FieldsOf(f, 0, t);
    InfExpAtLeastThree(f);
    ScaleMonotone(3, f.InfExp(), f.sig);
    ScaleAdd(1, 2, f.sig);
    ScaleAdd(1, 1, f.sig);
    ScaleMonotone(0, 0, f.sig);
  }

  // ---- the whole conversion ----

  /** The sign goes to the top bit and leaves the rest alone. */
  lemma TruncSign(src: Format, dst: Format, aRep: nat, abs: nat)
    requires Narrows(src, dst) && aRep < Pow2(src.Bits())
    requires TruncAbs(src, dst, aRep) == Pattern(abs) && abs < dst.SignMask()
    ensures var r := Trunc(src, dst, aRep);
            r.Pattern? && dst.AbsOf(r.bits) == abs && dst.SignOf(r.bits) == src.SignOf(aRep)
  {
    hide And, Low, Or, Scale, Shr, TruncAbs;
    var ns, nd := src.sig + src.exp, dst.sig + dst.exp;
    var neg := src.SignOf(aRep);
    ShiftedBelow(aRep, ns, src.Bits(), 1);
    AndBit(aRep, ns);
    SmallPowers();
    ScaleScale(neg, nd, ns - nd);
    SplitUnique(Scale(neg, ns), ns - nd, Scale(neg, nd), 0);
    OrDisjoint(abs, neg, nd);
    SplitUnique(Trunc(src, dst, aRep).bits, nd, neg, abs);
  }

  /** The pattern of the result is the roundTiesToEven result of the source's value, with its sign. */
  ghost predicate NarrowsCorrectly(src: Format, dst: Format, aRep: nat)
    requires Narrows(src, dst)
  {
    var r := Trunc(src, dst, aRep);
    && r.Pattern?
    && dst.SignOf(r.bits) == src.SignOf(aRep)
    && if src.AbsOf(aRep) == src.Infinity() then dst.AbsOf(r.bits) == dst.Infinity()
       else RoundsTiesToEven(dst, BiasGap(src, dst) + src.sig - dst.sig, src.Mag(src.AbsOf(aRep)), dst.AbsOf(r.bits))
  }

  /**
   A caller's test of the two formats: a source representation that is not promoted to int, two bits to
   drop, so that the sticky bit is not the half, and a bias gap wide enough for every source subnormal,
   whose missing leading bit the code supplies, to vanish.
   */
  predicate NarrowingIsSafe(src: Format, dst: Format)
    requires Narrows(src, dst)
  {
    src.Bits() >= INT_BITS && src.sig - dst.sig >= 2 && BiasGap(src, dst) >= dst.sig + 1
  }

  lemma TruncRounds(src: Format, dst: Format, aRep: nat)
    requires Narrows(src, dst) && NarrowingIsSafe(src, dst)
    requires aRep < Pow2(src.Bits()) && !src.IsNaN(aRep)
    ensures NarrowsCorrectly(src, dst, aRep)
  {
    hide And, Low, Or, Scale, Shr;
    var aAbs := src.AbsOf(aRep);
    var k := BiasGap(src, dst) + src.sig - dst.sig;
    AbsBelowSignMask(src, aRep);
    NormalTest(src, dst, aAbs);
    ExponentLimits(src, dst);
    InfinityFits(dst);
    var abs := dst.Infinity();
    if Underflow(src, dst) <= aAbs < Overflow(src, dst) {
      abs := TruncNormal(src, dst, aAbs);
      TruncNormalRounds(src, dst, aAbs);
    } else if aAbs < Underflow(src, dst) {
      UnderflowExponent(src, dst, aAbs);
      abs := TruncSubnormal(src, dst, aRep, aAbs);
      TruncSubnormalRounds(src, dst, aRep);
    } else {
      OverflowMagnitude(src, dst);
      MagMonotone(src, Overflow(src, dst), aAbs);
      RoundOverflow(dst, k, src.Mag(aAbs));
    }
    TruncSign(src, dst, aRep, abs);
  }

  /** The overflow pattern is the destination's first unrepresentable power of two. */
  lemma OverflowMagnitude(src: Format, dst: Format)
    requires Narrows(src, dst)
    ensures src.Mag(Overflow(src, dst)) == dst.Scaled(BiasGap(src, dst) + src.sig - dst.sig, dst.Infinity())
  {
    hide And, Low, Or, Scale, Shr;
    var g, n, d := BiasGap(src, dst), dst.InfExp(), src.sig - dst.sig;
    InfExpAtLeastThree(dst);
    FieldsOf(src, g + n, 0);
    FieldsOf(dst, n, 0);
    ScaleScale(1, dst.sig, n - 1);
    ScaleScale(1, dst.sig + n - 1, g + d);
    ScaleScale(1, src.sig, g + n - 1);
  }

  // ---- when it does not ----

  lemma ZeroRoundsToZero(f: Format, k: nat, r: nat)
    requires f.Valid() && RoundsTiesToEven(f, k, 0, r)
    ensures r == 0
  {
    SubnormalPattern(f, 0);
    ScaleMonotone(0, 0, k);
    RoundExact(f, k, 0);
    RoundUnique(f, k, 0, r, 0);
  }

  lemma TakesSubnormalCase(src: Format, dst: Format, aRep: nat)
    requires Narrows(src, dst) && aRep < Underflow(src, dst)
    ensures aRep < src.SignMask() && src.AbsOf(aRep) == aRep && src.ExpOf(aRep) <= BiasGap(src, dst)
    ensures TruncAbs(src, dst, aRep) == Pattern(TruncSubnormal(src, dst, aRep, aRep))
  {
    ExponentLimits(src, dst);
    LowId(aRep, src.sig + src.exp);
    AbsBelowSignMask(src, aRep);
    NormalTest(src, dst, aRep);
    UnderflowExponent(src, dst, aRep);
  }

  /** A promoted source: every value of the destination's normal range but the lowest binade shifts by less than 0. */
  lemma PromotedIsUndefined(src: Format, dst: Format, aRep: nat)
    requires Narrows(src, dst) && src.Bits() < INT_BITS
    requires Scale(BiasGap(src, dst) + 2, src.sig) <= src.AbsOf(aRep) < Overflow(src, dst)
    ensures !src.IsNaN(aRep) && Trunc(src, dst, aRep) == Undefined
  {
    hide And, Low, Or, Scale, Shr;
    var aAbs, g := src.AbsOf(aRep), BiasGap(src, dst);
    AbsBelowSignMask(src, aRep);
    NormalTest(src, dst, aAbs);
    ExponentLimits(src, dst);
    SplitAt(aAbs, src.sig);
    if src.ExpOf(aAbs) <= g + 1 {
      ScaleMonotone(src.ExpOf(aAbs) + 1, g + 2, src.sig);
      ScaleAdd(src.ExpOf(aAbs), 1, src.sig);
    }
  }

  lemma PromotedNarrowsWrongly(src: Format, dst: Format)
    requires Narrows(src, dst) && src.Bits() < INT_BITS
    ensures var a := Scale(BiasGap(src, dst) + 2, src.sig);
            a < Pow2(src.Bits()) && !src.IsNaN(a) && !NarrowsCorrectly(src, dst, a)
  {
    hide And, Low, Or, Scale, Shr;
    var g := BiasGap(src, dst);
    var a := Scale(g + 2, src.sig);
    InfExpAtLeastThree(dst);
    ScaleMonotone(g + 2, g + dst.InfExp(), src.sig);
    ExponentLimits(src, dst);
    InfinityFits(src);
    LowId(a, src.sig + src.exp);
    PromotedIsUndefined(src, dst, a);
  }

  /** 1.0 from 16 bits with 8 exponent bits to 8 bits with 4: both other conditions hold, and nothing is defined. */
  lemma BrainFloatToByte()
    ensures var src, dst := Format(7, 8), Format(3, 4);
            && Narrows(src, dst) && src.sig - dst.sig >= 2 && BiasGap(src, dst) >= dst.sig + 1
            && Trunc(src, dst, 0x3f80) == Undefined
  {
    var src, dst := Format(7, 8), Format(3, 4);
    assert Pow2(4) == 16;
    assert Pow2(8) == 16 * Pow2(4);
    assert Shr(255, 1) == 127 && Shr(15, 1) == 7;
    assert BiasGap(src, dst) == 120;
    BrainFloatScales();
    ScaleMonotone(122, 127, 7);
    LowId(0x3f80, 15);
    PromotedIsUndefined(src, dst, 0x3f80);
  }

  lemma BrainFloatScales()
    ensures Scale(127, 7) == 0x3f80 < Scale(135, 7) && Pow2(15) > 0x3f80
  {
    assert Scale(127, 7) == 16 * Scale(127, 3) && Scale(135, 7) == 16 * Scale(135, 3) by {
      assert Scale(127, 5) == 4 * Scale(127, 3) && Scale(135, 5) == 4 * Scale(135, 3);
    }
    assert Scale(127, 3) == 127 * 8 && Scale(135, 3) == 135 * 8;
    Pow2Monotone(14, 15);
    assert Pow2(7) == 128 by { assert Pow2(5) == 32; }
    ScaleScale(1, 7, 7);
    ScaleMonotone(127, 128, 7);
    ScaleDoubles(1, 14);
  }

  /** Gap below the destination's precision: zero itself becomes a nonzero subnormal. */
  lemma ZeroNarrowsWrongly(src: Format, dst: Format)
    requires Narrows(src, dst) && BiasGap(src, dst) < dst.sig
    ensures !src.IsNaN(0) && !NarrowsCorrectly(src, dst, 0)
  {
    hide And, Low, Or, Scale, Shr;
    FieldsOf(src, 0, 0);
    ScaleMonotone(0, 0, src.sig);
    ScaleMonotone(0, BiasGap(src, dst) + 1, src.sig);
    TakesSubnormalCase(src, dst, 0);
    AndMask(0, src.sig);
    LowId(0, src.sig);
    OrZero(Pow2(src.sig));
    ZeroRounds(src, dst);
    var r := TruncSubnormal(src, dst, 0, 0);
    TruncSign(src, dst, 0, r);
    InfExpAtLeastThree(src);
    ScaleMonotone(1, src.InfExp(), src.sig);
    if NarrowsCorrectly(src, dst, 0) { ZeroRoundsToZero(dst, BiasGap(src, dst) + src.sig - dst.sig, r); }
  }

  /** The leading bit that the code supplies survives the shift, whatever the sticky bit. */
  lemma ZeroRounds(src: Format, dst: Format)
    requires Narrows(src, dst) && BiasGap(src, dst) < dst.sig
    ensures var r := DenormalizeAndRound(Pow2(src.sig), BiasGap(src, dst) + 1, src.sig - dst.sig,
                                         src.Bits(), Word(src), dst.Bits());
            1 <= r < dst.SignMask()
  {
    hide And, Low, Or, Scale, Shr, RoundTail;
    var shift, d := BiasGap(src, dst) + 1, src.sig - dst.sig;
    var top, t := Pow2(src.sig - shift), Pow2(dst.sig - shift);
    ScaleScale(1, src.sig - shift, shift);
    SplitUnique(Pow2(src.sig), shift, top, 0);
    ScaleDoubles(1, src.sig - shift - 1);
    TopSurvives(dst.sig - shift, d);
    TopIsSmall(dst, shift);
    var sticky := if Shl(Pow2(src.sig), src.Bits() - shift, Word(src)) != 0 then 1 else 0;
    var den := Or(top, sticky);
    assert Shr(den, d) == t;
    LowId(t, dst.Bits());
    RoundTailRises(t, And(den, Pow2(d) - 1), Pow2(d - 1), dst.Bits());
  }

  lemma TopSurvives(n: nat, d: nat)
    requires d >= 1
    ensures var top := Pow2(n + d); Shr(Or(top, 0), d) == Pow2(n) && Shr(Or(top, 1), d) == Pow2(n)
  {
    hide And, Low, Or, Scale, Shr;
    var top := Pow2(n + d);
    ScaleScale(1, n, d);
    ScaleDoubles(1, n + d - 1);
    OrZero(top);
    OrOne(top);
    Pow2Monotone(1, d);
    SmallPowers();
    SplitUnique(top, d, Pow2(n), 0);
    SplitUnique(top + 1, d, Pow2(n), 1);
  }

  lemma TopIsSmall(f: Format, shift: nat)
    requires f.Valid() && 1 <= shift <= f.sig
    ensures 1 <= Pow2(f.sig - shift) && Pow2(f.sig - shift) + 1 < f.SignMask() < Pow2(f.Bits())
  {
    hide Scale;
    Pow2Monotone(f.sig - shift, f.sig + f.exp - 1);
    ScaleDoubles(1, f.sig + f.exp - 1);
    InfinityFits(f);
  }

  lemma RoundTailRises(t: nat, bits: nat, half: nat, n: nat)
    requires t + 1 < Pow2(n)
    ensures t <= RoundTail(t, bits, half, n) <= t + 1
  {
    hide Scale;
    AndMask(t, 1);
    LowOne(t);
    SmallPowers();
    LowId(t + 1, n);
    LowId(t + t % 2, n);
  }

  /** Gap equal to the precision: the smallest source subnormal rounds up to the destination's. */
  lemma SmallestNarrowsWrongly(src: Format, dst: Format)
    requires Narrows(src, dst) && src.sig - dst.sig >= 2 && BiasGap(src, dst) == dst.sig
    ensures 1 < Pow2(src.Bits()) && !src.IsNaN(1) && !NarrowsCorrectly(src, dst, 1)
  {
    hide And, Low, Or, Scale, Shr;
    var k := src.sig;
    Pow2Monotone(2, src.sig);
    Pow2Monotone(1, src.Bits());
    FieldsOf(src, 0, 1);
    ScaleMonotone(0, 0, src.sig);
    ScaleMonotone(1, BiasGap(src, dst) + 1, src.sig);
    TakesSubnormalCase(src, dst, 1);
    TruncSubnormalIsRoundUp(src, dst, 1, 1);
    LowId(1, src.sig);
    SmallPowers();
    ScaleDoubles(1, src.sig);
    LowId(Pow2(src.sig) + 1, src.sig + 1);
    assert TruncAbs(src, dst, 1) == Pattern(1);
    InfinityFits(dst);
    TruncSign(src, dst, 1, 1);
    InfExpAtLeastThree(src);
    ScaleMonotone(1, src.InfExp(), src.sig);
    if NarrowsCorrectly(src, dst, 1) {
      TinyRoundsToZero(dst, k, 1, 1);
      RoundUnique(dst, k, 1, 0, 1);
    }
  }

  /** The fraction bits of a significand a quarter above an odd one: 5, or 1 where there are only two bits. */
  function Quarter(src: Format): nat { if src.sig >= 3 then 5 else 1 }

  /** Half of the even significand below it. */
  function QuarterBase(src: Format): nat { if src.sig >= 3 then Pow2(src.sig - 2) else 0 }

  /** One dropped bit: the sticky bit is the half, and a quarter rounds up to even. */
  lemma QuarterNarrowsWrongly(src: Format, dst: Format)
    requires Narrows(src, dst) && src.sig == dst.sig + 1 && BiasGap(src, dst) >= 1
    ensures var a := Scale(BiasGap(src, dst), src.sig) + Quarter(src);
            a < Pow2(src.Bits()) && !src.IsNaN(a) && !NarrowsCorrectly(src, dst, a)
  {
    hide And, Low, Or, Scale, Shr, Quarter, QuarterBase, DenormalizeAndRound, RoundsTiesToEven, TruncAbs, Trunc;
    var g, u := BiasGap(src, dst), QuarterBase(src);
    var a, t, sig := Scale(g, src.sig) + Quarter(src), u + 1, Pow2(src.sig) + Quarter(src);
    QuarterPattern(src, dst);
    QuarterSignificand(src);
    QuarterNarrows(src, dst);
    TruncSign(src, dst, a, t + 1);
    ExponentLimits(src, dst);
    if NarrowsCorrectly(src, dst, a) {
      ShiftRounds(dst, sig, 2, g - 1);
      RoundUnique(dst, g + 1, Scale(sig, g - 1), t, t + 1);
    }
  }

  /** What the code makes of it, beside its quotient and its remainder by 4. */
  lemma QuarterNarrows(src: Format, dst: Format)
    requires Narrows(src, dst) && src.sig == dst.sig + 1 && BiasGap(src, dst) >= 1
    ensures TruncAbs(src, dst, Scale(BiasGap(src, dst), src.sig) + Quarter(src)) == Pattern(QuarterBase(src) + 2)
    ensures var a := Scale(BiasGap(src, dst), src.sig) + Quarter(src); src.AbsOf(a) == a
    ensures var sig := Pow2(src.sig) + Quarter(src);
            Shr(sig, 2) == QuarterBase(src) + 1 && Low(sig, 2) == 1 && Pow2(2) == 4
  {
    hide And, Low, Or, Scale, Shr, Quarter, QuarterBase, DenormalizeAndRound;
    var a := Scale(BiasGap(src, dst), src.sig) + Quarter(src);
    QuarterPattern(src, dst);
    QuarterSignificand(src);
    ScaleDoubles(1, dst.sig + dst.exp);
    QuarterRoundsUp(Pow2(src.sig) + Quarter(src), QuarterBase(src), src.Bits(), Word(src), dst.Bits());
    TakesSubnormalCase(src, dst, a);
    SignificandBounds(src, a);
  }

  lemma QuarterSignificand(src: Format)
    requires src.sig >= 2
    ensures var u := QuarterBase(src);
            u % 2 == 0 && Pow2(src.sig) + Quarter(src) == 4 * u + 5 && u + 1 < Pow2(src.sig - 1)
    ensures Quarter(src) < Pow2(src.sig)
  {
    hide Scale;
    SmallPowers();
    if src.sig >= 3 {
      Pow2Monotone(1, src.sig - 2);
      ScaleDoubles(1, src.sig - 3);
      ScaleDoubles(1, src.sig - 2);
      ScaleDoubles(1, src.sig - 1);
    }
  }

  lemma QuarterPattern(src: Format, dst: Format)
    requires Narrows(src, dst) && src.sig == dst.sig + 1
    ensures var a := Scale(BiasGap(src, dst), src.sig) + Quarter(src);
            && src.ExpOf(a) == BiasGap(src, dst) && src.FracOf(a) == Quarter(src)
            && a < Underflow(src, dst) && a < Pow2(src.Bits())
    ensures QuarterBase(src) + 2 < dst.SignMask()
  {
    hide And, Low, Or, Scale, Shr, Quarter, QuarterBase;
    QuarterSignificand(src);
    FieldsOf(src, BiasGap(src, dst), Quarter(src));
    ScaleAdd(BiasGap(src, dst), 1, src.sig);
    ExponentLimits(src, dst);
    Pow2Monotone(dst.sig, dst.sig + dst.exp - 1);
    ScaleDoubles(1, dst.sig + dst.exp - 1);
    ScaleDoubles(1, src.sig + src.exp);
    InfinityFits(dst);
  }

  /** The code's steps on such a significand with one bit of shift and one to drop. */
  lemma QuarterRoundsUp(sig: nat, u: nat, srcBits: nat, word: nat, dstBits: nat)
    requires u % 2 == 0 && sig == 4 * u + 5 && 1 <= srcBits <= word && u + 2 < Pow2(dstBits)
    ensures DenormalizeAndRound(sig, 1, 1, srcBits, word, dstBits) == u + 2
    ensures Shr(sig, 2) == u + 1 && Low(sig, 2) == 1 && Pow2(2) == 4
  {
    hide And, Low, Or, Scale, Shr;
    OddSteps(sig, u);
    StickyBit(sig, 1, srcBits, word);
    AndMask(2 * u + 3, 1);
    AndMask(u + 1, 1);
    LowId(u + 1, dstBits);
    LowId(u + 2, dstBits);
  }

  lemma OddSteps(sig: nat, u: nat)
    requires u % 2 == 0 && sig == 4 * u + 5
    ensures Low(sig, 1) == 1 && Shr(sig, 1) == 2 * u + 2 && Or(2 * u + 2, 1) == 2 * u + 3
    ensures Shr(2 * u + 3, 1) == u + 1 && Low(2 * u + 3, 1) == 1 && Low(u + 1, 1) == 1
    ensures Shr(sig, 2) == u + 1 && Low(sig, 2) == 1 && Pow2(2) == 4 && Pow2(1) == 2 && Pow2(0) == 1
  {
    hide And, Low, Or, Scale, Shr;
    SmallPowers();
    ScaleDoubles(2 * u + 2, 0);
    ScaleDoubles(u + 1, 0);
    ScaleDoubles(u + 1, 1);
    ScaleZero(2 * u + 2);
    ScaleZero(u + 1);
    SplitUnique(sig, 1, 2 * u + 2, 1);
    SplitUnique(2 * u + 3, 1, u + 1, 1);
    SplitUnique(sig, 2, u + 1, 1);
    LowOne(u + 1);
    OrOne(2 * u + 2);
  }

  /**
   The conversion rounds every input that is not a NaN correctly exactly when the
   formats pass the caller's test.
   */
  lemma TruncRoundsIff(src: Format, dst: Format)
    requires Narrows(src, dst)
    ensures (forall a: nat :: a < Pow2(src.Bits()) && !src.IsNaN(a) ==> NarrowsCorrectly(src, dst, a))
       <==> NarrowingIsSafe(src, dst)
  {
    if NarrowingIsSafe(src, dst) {
      forall a: nat | a < Pow2(src.Bits()) && !src.IsNaN(a)
        ensures NarrowsCorrectly(src, dst, a)
      {
        TruncRounds(src, dst, a);
      }
    } else if src.Bits() < INT_BITS {
      PromotedNarrowsWrongly(src, dst);
    } else if BiasGap(src, dst) < dst.sig {
      ZeroNarrowsWrongly(src, dst);
    } else if src.sig - dst.sig == 1 {
      QuarterNarrowsWrongly(src, dst);
    } else {
      SmallestNarrowsWrongly(src, dst);
    }
  }

  // ---- NaN ----

  /** A NaN stays a NaN, quiet, with its sign and the leading bits of its payload. */
  lemma TruncKeepsNaN(src: Format, dst: Format, aRep: nat)
    requires Narrows(src, dst) && aRep < Pow2(src.Bits()) && src.IsNaN(aRep)
    ensures var r := Trunc(src, dst, aRep);
            && r.Pattern?
            && dst.SignOf(r.bits) == src.SignOf(aRep)
            && dst.AbsOf(r.bits) == dst.Infinity() + dst.QuietBit()
                                  + Low(Shr(Low(aRep, src.sig - 1), src.sig - dst.sig), dst.sig - 1)
            && dst.IsNaN(r.bits)
  {
    TruncNaNPattern(src, dst, aRep);
    TruncSign(src, dst, aRep, TruncAbs(src, dst, aRep).bits);
  }

  lemma TruncNaNPattern(src: Format, dst: Format, aRep: nat)
    requires Narrows(src, dst) && src.IsNaN(aRep)
    ensures var p := dst.Infinity() + dst.QuietBit()
                     + Low(Shr(Low(aRep, src.sig - 1), src.sig - dst.sig), dst.sig - 1);
            TruncAbs(src, dst, aRep) == Pattern(p) && p < dst.SignMask()
  {
    hide And, Low, Or, Scale, Shr;
    var d, aAbs := src.sig - dst.sig, src.AbsOf(aRep);
    AbsBelowSignMask(src, aRep);
    NormalTest(src, dst, aAbs);
    ExponentLimits(src, dst);
    assert TruncAbs(src, dst, aRep) == Pattern(TruncNaN(src, dst, aAbs));
    AndMask(aAbs, src.sig - 1);
    LowOfLow(aRep, src.sig - 1, src.exp + 1);
    var kept := Shr(Low(aRep, src.sig - 1), d);
    AndMask(kept, dst.sig - 1);
    LowBound(kept, dst.sig - 1);
    NaNPattern(dst, Low(kept, dst.sig - 1));
  }

  lemma NaNPattern(f: Format, payload: nat)
    requires f.Valid() && payload < f.QuietBit()
    ensures Or(Or(f.Infinity(), f.QuietBit()), payload) == f.Infinity() + f.QuietBit() + payload
    ensures f.Infinity() + f.QuietBit() + payload < f.SignMask()
  {
    hide And, Low, Or, Scale, Shr;
    var n, e := f.sig - 1, f.InfExp();
    ScaleDoubles(1, n);
    OrDisjoint(f.QuietBit(), e, f.sig);
    QuietPrefix(e, n);
    OrDisjoint(payload, 2 * e + 1, n);
    ScaleScale(1, f.exp, f.sig);
    ScaleAdd(e, 1, f.sig);
  }

  /** Infinity with the quiet bit is one number above the payload bits. */
  lemma QuietPrefix(e: nat, n: nat)
    ensures Scale(e, n + 1) + Pow2(n) == Scale(2 * e + 1, n)
  {
    ScaleAdd(e, e, n);
    ScaleAdd(2 * e, 1, n);
  }

  // ---- the code's own form ----

  /** The conversion as written: one result, set by case and adjusted by rounding. */
  method TruncXfYf2(src: Format, dst: Format, aRep: nat) returns (result: Converted)
    requires Narrows(src, dst) && aRep < Pow2(src.Bits())
    ensures result == Trunc(src, dst, aRep)
  {
    hide And, Low, Or, Scale, Shr;
    var d, dstBits := src.sig - dst.sig, dst.Bits();
    var roundMask, halfway := Pow2(d) - 1, Pow2(d - 1);
    BiasMonotone(dst, src);
    var underflow := Scale(src.Bias() + 1 - dst.Bias(), src.sig);
    var overflow := Scale(src.Bias() + dst.InfExp() - dst.Bias(), src.sig);
    var aAbs := And(aRep, src.SignMask() - 1);
    var sign := And(aRep, src.SignMask());
    assert underflow == Underflow(src, dst) && overflow == Overflow(src, dst);
    var absResult;
    if RangeTest(src, dst, aAbs) {
      absResult := Low(Shr(aAbs, d), dstBits);
      absResult := WrapSub(absResult, Shl(Low(BiasGap(src, dst), dstBits), dst.sig, dstBits), dstBits);
      var roundBits := And(aAbs, roundMask);
      if roundBits > halfway {
        absResult := Low(absResult + 1, dstBits);
      } else if roundBits == halfway {
        absResult := Low(absResult + And(absResult, 1), dstBits);
      }
      assert absResult == TruncNormal(src, dst, aAbs);
    } else if aAbs > src.Infinity() {
      absResult := dst.Infinity();
      absResult := Or(absResult, dst.QuietBit());
      absResult := Or(absResult, And(Shr(And(aAbs, src.QuietBit() - 1), d), dst.QuietBit() - 1));
    } else if aAbs >= overflow {
      absResult := dst.Infinity();
    } else {
      var aExp := Shr(aAbs, src.sig);
      var shift := BiasGap(src, dst) - aExp + 1;
      var significand := Or(And(aRep, src.MinNormal() - 1), src.MinNormal());
      if shift < 0 {
        return Undefined;
      }
      if shift > src.sig {
        absResult := 0;
      } else {
        var sticky := if Shl(significand, src.Bits() - shift, Word(src)) != 0 then 1 else 0;
        var denormalizedSignificand := Or(Shr(significand, shift), sticky);
        absResult := Low(Shr(denormalizedSignificand, d), dstBits);
        var roundBits := And(denormalizedSignificand, roundMask);
        if roundBits > halfway {
          absResult := Low(absResult + 1, dstBits);
        } else if roundBits == halfway {
          absResult := Low(absResult + And(absResult, 1), dstBits);
        }
      }
      assert absResult == TruncSubnormal(src, dst, aRep, aAbs);
    }
    assert TruncAbs(src, dst, aRep) == Pattern(absResult);
    result := Pattern(Or(absResult, Shr(sign, src.Bits() - dst.Bits())));
  }
}
