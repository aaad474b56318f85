/** The two conversions of 3rdparty/compiler-rt/builtin_fp16.h one after the other: to the wider format and back. */
module FloatRoundTrip {
  import opened Bits
  import opened FloatFormat
  import opened FloatNarrow
  import opened FloatWiden

  lemma SamePattern(f: Format, p: nat, q: nat)
    requires f.AbsOf(p) == f.AbsOf(q) && f.SignOf(p) == f.SignOf(q)
    ensures p == q
  {
    SplitAt(p, f.sig + f.exp);
    SplitAt(q, f.sig + f.exp);
  }

  /** A signalling NaN made quiet; any other pattern as it is. */
  function Quieted(f: Format, rep: nat): nat
    requires f.Valid()
  {
    if f.IsNaN(rep) then Or(rep, f.QuietBit()) else rep
  }

  /** A pattern goes to the wider format and comes back, quiet if it was a signalling NaN. */
  predicate ComesBack(narrow: Format, wide: Format, a: nat)
    requires Widens(narrow, wide)
  {
    var w := Extend(narrow, wide, a);
    w.Pattern? && w.bits < Pow2(wide.Bits()) && Trunc(wide, narrow, w.bits) == Pattern(Quieted(narrow, a))
  }

  /** A caller's test of the two formats: widening is exact, and the wide representation is not promoted to int. */
  predicate RoundTripIsSafe(narrow: Format, wide: Format)
    requires Widens(narrow, wide)
  {
    WideningIsSafe(narrow, wide) && wide.Bits() >= INT_BITS
  }

  // ---- narrowing a value that the narrow format has ----

  lemma UnderflowMagnitude(src: Format, dst: Format)
    requires Narrows(src, dst)
    ensures src.Mag(Underflow(src, dst)) == dst.Scaled(BiasGap(src, dst) + src.sig - dst.sig, dst.MinNormal())
  {
    hide And, Low, Or, Scale, Shr;
    var g, d := BiasGap(src, dst), src.sig - dst.sig;
    FieldsOf(src, g + 1, 0);
    FieldsOf(dst, 1, 0);
    ScaleScale(1, dst.sig, 0);
    ScaleScale(1, src.sig, g);
    ScaleScale(1, dst.sig, g + d);
  }

  /** The significand of such a value is the subnormal, shifted: nothing is lost, and no rounding is needed. */
  lemma SubnormalShiftsBack(src: Format, dst: Format, p: nat, shift: nat)
    requires Narrows(src, dst) && src.Bits() >= INT_BITS && 1 <= p < Pow2(dst.sig)
    requires 1 <= shift && Scale(p, shift + src.sig - dst.sig) < Pow2(src.sig + 1)
    ensures shift <= src.sig
    ensures DenormalizeAndRound(Scale(p, shift + src.sig - dst.sig), shift, src.sig - dst.sig,
                                src.Bits(), Word(src), dst.Bits()) == p
  {
    hide And, Low, Or, Scale, Shr;
    var d := src.sig - dst.sig;
    var sig := Scale(p, shift + d);
    ScaleMonotone(1, p, shift + d);
    if shift > src.sig { Pow2Monotone(src.sig + 1, shift + d); }
    ScaleScale(p, d, shift);
    SplitUnique(sig, shift, Scale(p, d), 0);
    StickyBit(sig, shift, src.Bits(), Word(src));
    OrZero(Scale(p, d));
    SplitUnique(Scale(p, d), d, p, 0);
    Pow2Monotone(dst.sig, dst.Bits());
    LowId(p, dst.Bits());
    AndMask(Scale(p, d), d);
  }

  lemma SubnormalIsKept(src: Format, dst: Format, aRep: nat, p: nat)
    requires Narrows(src, dst) && src.Bits() >= INT_BITS && BiasGap(src, dst) >= dst.sig
    requires var aAbs := src.AbsOf(aRep);
             && 1 <= p < Pow2(dst.sig) && src.ExpOf(aAbs) <= BiasGap(src, dst)
             && src.Mag(aAbs) == Scale(p, BiasGap(src, dst) + src.sig - dst.sig)
    ensures TruncSubnormal(src, dst, aRep, src.AbsOf(aRep)) == p
  {
    hide And, Low, Or, Scale, Shr, DenormalizeAndRound;
    var aAbs := src.AbsOf(aRep);
    var g, d, e := BiasGap(src, dst), src.sig - dst.sig, src.ExpOf(aAbs);
    LowOfLow(aRep, src.sig, src.exp);
    SignificandBounds(src, aRep);
    ScaleMonotone(1, p, g + d);
    Pow2Monotone(src.sig, g + d);
    assert e >= 1;
    var shift := g - e + 1;
    ScaleScale(p, shift + d, e - 1);
    ScaleInjective(Pow2(src.sig) + Low(aRep, src.sig), Scale(p, shift + d), e - 1);
    ScaleDoubles(1, src.sig);
    SubnormalShiftsBack(src, dst, p, shift);
  }

  lemma ScaleInjective(x: nat, y: nat, n: nat)
    requires Scale(x, n) == Scale(y, n)
    ensures x == y
  {
    if x < y { ScaleMonotone(x, y, n); }
    if y < x { ScaleMonotone(y, x, n); }
  }

  /** The leading bit that the code supplies to zero is at most half a unit, and a tie goes to zero. */
  lemma ZeroIsKept(src: Format, dst: Format, aRep: nat)
    requires Narrows(src, dst) && src.Bits() >= INT_BITS && BiasGap(src, dst) >= dst.sig
    requires src.AbsOf(aRep) == 0
    ensures src.ExpOf(0) == 0 && TruncSubnormal(src, dst, aRep, 0) == 0
  {
    hide And, Low, Or, Scale, Shr;
    var d, shift := src.sig - dst.sig, BiasGap(src, dst) + 1;
    ScaleMonotone(0, 0, src.sig);
    FieldsOf(src, 0, 0);
    LowOfLow(aRep, src.sig, src.exp);
    SplitUnique(0, src.sig, 0, 0);
    SignificandBounds(src, aRep);
    if shift <= src.sig {
      var top := Pow2(src.sig - shift);
      ScaleScale(1, src.sig - shift, shift);
      SplitUnique(Pow2(src.sig), shift, top, 0);
      StickyBit(Pow2(src.sig), shift, src.Bits(), Word(src));
      OrZero(top);
      Pow2Monotone(src.sig - shift, d - 1);
      ScaleDoubles(1, d - 1);
      ScaleMonotone(0, 0, d);
      SplitUnique(top, d, 0, top);
      AndMask(top, d);
      LowId(0, dst.Bits());
      SmallPowers();
      AndMask(0, 1);
      LowId(0, 1);
    }
  }

  /** A value of the destination narrows to its own pattern. */
  lemma TruncExact(src: Format, dst: Format, aRep: nat, p: nat)
    requires Narrows(src, dst) && src.Bits() >= INT_BITS && BiasGap(src, dst) >= dst.sig
    requires p < dst.Infinity()
    requires src.Mag(src.AbsOf(aRep)) == dst.Scaled(BiasGap(src, dst) + src.sig - dst.sig, p)
    ensures TruncAbs(src, dst, aRep) == Pattern(p)
  {
    hide And, Low, Or, Scale, Shr, RoundsTiesToEven, TruncSubnormal;
    var aAbs, k := src.AbsOf(aRep), BiasGap(src, dst) + src.sig - dst.sig;
    AbsBelowSignMask(src, aRep);
    NormalTest(src, dst, aAbs);
    ExponentLimits(src, dst);
    OverflowMagnitude(src, dst);
    ScaledMonotone(dst, k, p, dst.Infinity());
    if Overflow(src, dst) <= aAbs { MagMonotone(src, Overflow(src, dst), aAbs); }
    if Underflow(src, dst) <= aAbs {
      TruncNormalRounds(src, dst, aAbs);
      RoundExact(dst, k, p);
      RoundUnique(dst, k, src.Mag(aAbs), p, TruncNormal(src, dst, aAbs));
    } else {
      UnderflowExponent(src, dst, aAbs);
      TruncExactBelow(src, dst, aRep, p);
    }
  }

  lemma TruncExactBelow(src: Format, dst: Format, aRep: nat, p: nat)
    requires Narrows(src, dst) && src.Bits() >= INT_BITS && BiasGap(src, dst) >= dst.sig
    requires var aAbs := src.AbsOf(aRep);
             && aAbs < Underflow(src, dst) && src.ExpOf(aAbs) <= BiasGap(src, dst)
             && src.Mag(aAbs) == dst.Scaled(BiasGap(src, dst) + src.sig - dst.sig, p)
    ensures TruncSubnormal(src, dst, aRep, src.AbsOf(aRep)) == p
  {
    hide And, Low, Or, Scale, Shr, TruncSubnormal;
    var aAbs, k := src.AbsOf(aRep), BiasGap(src, dst) + src.sig - dst.sig;
    UnderflowMagnitude(src, dst);
    MagMonotone(src, aAbs, Underflow(src, dst));
    if p >= dst.MinNormal() { ScaledMonotone(dst, k, dst.MinNormal(), p); }
    SubnormalPattern(dst, p);
    if p == 0 {
      ScaleMonotone(0, 0, k);
      MagMonotone(src, 0, aAbs);
      ZeroIsKept(src, dst, aRep);
    } else {
      SubnormalIsKept(src, dst, aRep, p);
    }
  }

  lemma TruncInfinity(src: Format, dst: Format, aRep: nat)
    requires Narrows(src, dst) && src.AbsOf(aRep) == src.Infinity()
    ensures TruncAbs(src, dst, aRep) == Pattern(dst.Infinity())
  {
    hide And, Low, Or, Scale, Shr;
    AbsBelowSignMask(src, aRep);
    NormalTest(src, dst, src.Infinity());
    ExponentLimits(src, dst);
  }

  // ---- there and back ----

  /** Narrowing a widened pattern gives it back. */
  lemma NarrowAfterWiden(narrow: Format, wide: Format, a: nat)
    requires Widens(narrow, wide) && RoundTripIsSafe(narrow, wide) && a < Pow2(narrow.Bits())
    ensures ComesBack(narrow, wide, a)
  {
    hide And, BitLength, Low, Or, Scale, Shr, Xor, Extend, Trunc, TruncAbs;
    SignIsABit(narrow, a);
    if narrow.IsNaN(a) {
      NaNComesBack(narrow, wide, a);
    } else {
      ExtendExact(narrow, wide, a);
      var w := Extend(narrow, wide, a).bits;
      FitsFromParts(wide, w);
      if narrow.AbsOf(a) == narrow.Infinity() {
        TruncInfinity(wide, narrow, w);
      } else {
        TruncExact(wide, narrow, w, narrow.AbsOf(a));
      }
      InfinityFits(narrow);
      TruncSign(wide, narrow, w, narrow.AbsOf(a));
      SamePattern(narrow, Trunc(wide, narrow, w).bits, a);
    }
  }

  /** Between all formats a NaN keeps its sign and its payload, and comes back quiet. */
  lemma NaNComesBack(narrow: Format, wide: Format, a: nat)
    requires Widens(narrow, wide) && a < Pow2(narrow.Bits()) && narrow.IsNaN(a)
    ensures ComesBack(narrow, wide, a)
  {
    hide And, BitLength, Low, Or, Scale, Shr, Xor, Extend, Trunc, NaNOf;
    SignIsABit(narrow, a);
    var quiet, payload := NaNParts(narrow, a);
    ExtendKeepsNaN(narrow, wide, a, quiet, payload);
    var w := Extend(narrow, wide, a).bits;
    FitsFromParts(wide, w);
    PayloadComesBack(wide, w, quiet, payload, wide.sig - narrow.sig, narrow);
    TruncKeepsNaN(wide, narrow, w);
    QuietedParts(narrow, a, quiet, payload);
    SamePattern(narrow, Trunc(wide, narrow, w).bits, Quieted(narrow, a));
  }

  // ---- the patterns that are lost ----

  /** With too small a gap zero does not come back. */
  lemma ZeroIsLost(narrow: Format, wide: Format)
    requires Widens(narrow, wide) && BiasGap(wide, narrow) < narrow.sig
    ensures 0 < Pow2(narrow.Bits()) && !narrow.IsNaN(0) && !ComesBack(narrow, wide, 0)
  {
    hide And, BitLength, Low, Or, Scale, Shr, Xor;
    ExtendZero(narrow, wide);
    ScaleMonotone(0, 0, wide.sig);
    ScaleMonotone(0, BiasGap(wide, narrow) + 1, wide.sig);
    FieldsOf(wide, 0, 0);
    TakesSubnormalCase(wide, narrow, 0);
    SignificandBounds(wide, 0);
    LowId(0, wide.sig);
    ZeroRounds(wide, narrow);
    Pow2Monotone(0, wide.Bits());
    TruncSign(wide, narrow, 0, TruncSubnormal(wide, narrow, 0, 0));
  }

  lemma ExtendZero(narrow: Format, wide: Format)
    requires Widens(narrow, wide)
    ensures Extend(narrow, wide, 0) == Pattern(0)
    ensures 0 < Pow2(narrow.Bits()) && narrow.AbsOf(0) == 0 < narrow.Infinity()
  {
    hide And, BitLength, Low, Or, Scale, Shr, Xor, ExtendSubnormal;
    SmallPowers();
    Pow2Monotone(0, narrow.Bits());
    InfinityAboveMinNormal(narrow);
    LowId(0, narrow.sig + narrow.exp);
    AbsBelowSignMask(narrow, 0);
    NormalOrSubnormal(narrow, 0);
    NoSign(narrow, wide, 0);
    OrZero(0);
  }

  /** A wide representation that is promoted: twice the smallest normal number has no defined way back. */
  lemma PromotedIsLost(narrow: Format, wide: Format)
    requires Widens(narrow, wide) && WideningIsSafe(narrow, wide) && wide.Bits() < INT_BITS
    ensures var a := Scale(2, narrow.sig);
            a < Pow2(narrow.Bits()) && !narrow.IsNaN(a) && !ComesBack(narrow, wide, a)
  {
    hide And, BitLength, Low, Or, Scale, Shr, Xor, Extend, Trunc;
    var a, g, d := Scale(2, narrow.sig), BiasGap(wide, narrow), wide.sig - narrow.sig;
    InfExpAtLeastThree(narrow);
    ScaleMonotone(2, narrow.InfExp(), narrow.sig);
    InfinityFits(narrow);
    LowId(a, narrow.sig + narrow.exp);
    ExtendExact(narrow, wide, a);
    var w := wide.AbsOf(Extend(narrow, wide, a).bits);
    SecondBinade(narrow, wide);
    if w < Scale(g + 2, wide.sig) { MagMonotone(wide, w, Scale(g + 2, wide.sig)); }
    OverflowMagnitude(wide, narrow);
    ScaledMonotone(narrow, g + d, a, narrow.Infinity());
    if w >= Overflow(wide, narrow) { MagMonotone(wide, Overflow(wide, narrow), w); }
    PromotedIsUndefined(wide, narrow, Extend(narrow, wide, a).bits);
  }

  lemma SecondBinade(narrow: Format, wide: Format)
    requires Widens(narrow, wide)
    ensures var g := BiasGap(wide, narrow);
            wide.Mag(Scale(g + 2, wide.sig)) == narrow.Scaled(g + wide.sig - narrow.sig, Scale(2, narrow.sig))
  {
    hide And, BitLength, Low, Or, Scale, Shr, Xor;
    var g, d := BiasGap(wide, narrow), wide.sig - narrow.sig;
    FieldsOf(wide, g + 2, 0);
    FieldsOf(narrow, 2, 0);
    ScaleScale(1, wide.sig, g + 1);
    ScaleScale(1, narrow.sig, 1);
    ScaleScale(1, narrow.sig + 1, g + d);
  }

  /** Where `__clz` cuts, the smallest subnormal does not come back. */
  lemma SmallestIsLost(narrow: Format, wide: Format)
    requires Widens(narrow, wide) && narrow.sig >= 32
    ensures 1 < Pow2(narrow.Bits()) && !narrow.IsNaN(1) && !ComesBack(narrow, wide, 1)
  {
    hide And, BitLength, Low, Or, Scale, Shr, Xor, Extend, Trunc, RoundsTiesToEven;
    var w := CutPattern(narrow, wide);
    SmallestPattern(narrow, wide);
    SmallestCut(narrow, wide);
    CutFits(narrow, wide);
    LowId(w, wide.sig + wide.exp);
    InfinityAboveMinNormal(narrow);
    if w > wide.Infinity() {
      TruncKeepsNaN(wide, narrow, w);
    } else {
      CutDoesNotNarrowToOne(narrow, wide);
      InfinityFits(narrow);
      TruncSign(wide, narrow, w, TruncAbs(wide, narrow, w).bits);
    }
  }

  lemma CutDoesNotNarrowToOne(narrow: Format, wide: Format)
    requires Widens(narrow, wide) && narrow.sig >= 32 && CutPattern(narrow, wide) <= wide.Infinity()
    ensures var r := TruncAbs(wide, narrow, CutPattern(narrow, wide));
            r.Pattern? && r.bits != 1 && r.bits <= narrow.Infinity()
  {
    hide And, BitLength, Low, Or, Scale, Shr, Xor, RoundsTiesToEven;
    var w, g, d := CutPattern(narrow, wide), BiasGap(wide, narrow), wide.sig - narrow.sig;
    CutFits(narrow, wide);
    CutMagnitude(narrow, wide);
    LowId(w, wide.sig + wide.exp);
    AbsBelowSignMask(wide, w);
    NormalTest(wide, narrow, w);
    ExponentLimits(wide, narrow);
    SmallPowers();
    Pow2Monotone(1, narrow.sig);
    SubnormalPattern(narrow, 1);
    ScaleMonotone(g + 1, CutExponent(narrow, wide), wide.sig);
    if w < Overflow(wide, narrow) {
      TruncNormalRounds(wide, narrow, w);
      Pow2Monotone(g + d + 1, wide.sig + g + 1);
      LargeDoesNotRoundToOne(narrow, g + d, wide.Mag(w));
    }
  }

  lemma LargeDoesNotRoundToOne(f: Format, k: nat, x: nat)
    requires f.Valid() && f.sig >= 2 && x >= Pow2(k + 1)
    ensures !RoundsTiesToEven(f, k, x, 1)
  {
    hide And, Low, Or, Scale, Shr;
    SmallPowers();
    Pow2Monotone(2, f.sig);
    SubnormalPattern(f, 1);
    SubnormalPattern(f, 2);
    ScaleScale(1, 1, k);
    ScaleDoubles(1, k);
    InfinityAboveMinNormal(f);
    assert f.Scaled(k, 1) == Pow2(k) && f.Scaled(k, 2) == Pow2(k + 1);
  }

  /** Every pattern comes back exactly between formats that pass the test. */
  lemma NarrowAfterWidenIff(narrow: Format, wide: Format)
    requires Widens(narrow, wide)
    ensures (forall a: nat :: a < Pow2(narrow.Bits()) ==> ComesBack(narrow, wide, a)) <==> RoundTripIsSafe(narrow, wide)
  {
    hide ComesBack;
    if RoundTripIsSafe(narrow, wide) {
      forall a: nat | a < Pow2(narrow.Bits())
        ensures ComesBack(narrow, wide, a)
      {
        NarrowAfterWiden(narrow, wide, a);
      }
    } else if BiasGap(wide, narrow) < narrow.sig {
      ZeroIsLost(narrow, wide);
    } else if narrow.sig >= 32 {
      SmallestIsLost(narrow, wide);
    } else {
      PromotedIsLost(narrow, wide);
    }
  }

  /** Double to a 128-bit format: only the count of leading zeros is in the way. */
  lemma DoubleToQuad()
    ensures var narrow, wide := Format(52, 11), Format(112, 15);
            && Widens(narrow, wide) && BiasGap(wide, narrow) >= narrow.sig && NarrowingIsSafe(wide, narrow)
            && !WidensExactly(narrow, wide, 1) && !ComesBack(narrow, wide, 1)
  {
    hide BitLength, Low, Or, Xor, Extend, Trunc, ComesBack;
    DoubleBiases();
    SmallestWidensWrongly(Format(52, 11), Format(112, 15));
    SmallestIsLost(Format(52, 11), Format(112, 15));
  }

  lemma DoubleBiases()
    ensures Format(52, 11).Bias() == 1023 && Format(112, 15).Bias() == 16383
  {
    assert Pow2(5) == 32 by { assert Pow2(3) == 8; }
    ScaleScale(1, 5, 5);
    assert Scale(32, 5) == 1024 by { assert Scale(32, 3) == 256; }
    assert Pow2(11) == 2048;
    ScaleScale(1, 11, 4);
    assert Scale(2048, 4) == 32768 by { assert Scale(2048, 2) == 8192; }
    InfExpAtLeastThree(Format(52, 11));
    InfExpAtLeastThree(Format(112, 15));
  }

  lemma SignIsABit(f: Format, a: nat)
    requires a < Pow2(f.Bits())
    ensures f.SignOf(a) <= 1
  {
    ShiftedBelow(a, f.sig + f.exp, f.Bits(), 1);
    SmallPowers();
  }

  lemma FitsFromParts(f: Format, p: nat)
    requires f.SignOf(p) <= 1
    ensures p < Pow2(f.Bits())
  {
    SplitAt(p, f.sig + f.exp);
    ScaleMonotone(f.SignOf(p), 1, f.sig + f.exp);
  }

  lemma NaNParts(f: Format, a: nat) returns (quiet: nat, payload: nat)
    requires f.Valid() && f.IsNaN(a)
    ensures quiet <= 1 && payload < f.QuietBit() && f.AbsOf(a) == NaNOf(f, quiet, payload)
    ensures quiet == Shr(a, f.sig - 1) % 2 && (quiet == 1 || payload > 0)
  {
    hide And, BitLength, Low, Or, Scale, Shr, Xor;
    var n := f.sig - 1;
    quiet, payload := Shr(a, n) % 2, Low(a, n);
    NaNExponent(f, a);
    LowBound(a, n);
    LowSplit(a, n, 1);
    LowOne(Shr(a, n));
    ScaleMonotone(0, 0, n);
  }

  lemma QuietedParts(f: Format, a: nat, quiet: nat, payload: nat)
    requires f.Valid() && f.IsNaN(a) && payload < f.QuietBit() && f.AbsOf(a) == NaNOf(f, quiet, payload)
    requires quiet == Shr(a, f.sig - 1) % 2
    ensures f.AbsOf(Quieted(f, a)) == f.Infinity() + f.QuietBit() + payload
    ensures f.SignOf(Quieted(f, a)) == f.SignOf(a)
  {
    hide And, BitLength, Low, Or, Scale, Shr, Xor;
    var n, abs := f.sig - 1, f.AbsOf(a);
    ScaleMonotone(0, 0, n);
    OrBit(a, n);
    SplitAt(a, f.sig + f.exp);
    NaNPattern(f, payload);
    SplitUnique(Quieted(f, a), f.sig + f.exp, f.SignOf(a), f.Infinity() + f.QuietBit() + payload);
  }

  lemma NaNExponent(f: Format, a: nat)
    requires f.Valid() && f.IsNaN(a)
    ensures f.AbsOf(a) == f.Infinity() + Low(a, f.sig)
  {
    hide And, BitLength, Low, Or, Scale, Shr, Xor;
    var p := f.AbsOf(a);
    LowOfLow(a, f.sig, f.exp);
    LowBound(a, f.sig + f.exp);
    SplitAt(p, f.sig);
    ScaleScale(1, f.exp, f.sig);
    if Shr(p, f.sig) >= Pow2(f.exp) { ScaleMonotone(Pow2(f.exp), Shr(p, f.sig), f.sig); }
    if Shr(p, f.sig) < f.InfExp() { NormalBelowInfinity(f, Shr(p, f.sig), Low(p, f.sig)); }
  }

  lemma PayloadComesBack(wide: Format, w: nat, quiet: nat, payload: nat, d: nat, narrow: Format)
    requires narrow.Valid() && wide.Valid() && wide.sig == narrow.sig + d && quiet <= 1 && payload < narrow.QuietBit()
    requires quiet == 1 || payload > 0
    requires Scale(payload, d) < wide.QuietBit()
    requires wide.AbsOf(w) == NaNOf(wide, quiet, Scale(payload, d))
    ensures Low(Shr(Low(w, wide.sig - 1), d), narrow.sig - 1) == payload
    ensures wide.IsNaN(w)
  {
    hide And, BitLength, Low, Or, Scale, Shr, Xor;
    LowOfLow(w, wide.sig - 1, wide.exp + 1);
    NaNFields(wide, quiet, Scale(payload, d));
    SplitUnique(Scale(payload, d), d, payload, 0);
    LowId(payload, narrow.sig - 1);
    ScaleMonotone(0, payload, d);
  }

  /** The instantiations of src/runtime/builtin_fp16.cc pass every test. */
  lemma HalfAndSingle()
    ensures Widens(Format(10, 5), Format(23, 8)) && RoundTripIsSafe(Format(10, 5), Format(23, 8))
    ensures NarrowingIsSafe(Format(23, 8), Format(10, 5))
  {
    assert Pow2(5) == 32 && Pow2(8) == 256;
    assert Shr(31, 1) == 15 && Shr(255, 1) == 127;
  }
}
