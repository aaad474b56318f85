/** `__clz` and `__extendXfYf2__` of 3rdparty/compiler-rt/builtin_fp16.h: conversion to a wider format. */
module FloatWiden {
  import opened Bits
  import opened FloatFormat
  import opened FloatNarrow

  /** The number of binary digits of x. */
  function BitLength(x: nat): nat {
    if x == 0 then 0 else 1 + BitLength(x / 2)
  }

  lemma {:induction false} BitLengthBounds(x: nat)
    ensures x < Pow2(BitLength(x))
    ensures x > 0 ==> BitLength(x) >= 1 && Pow2(BitLength(x) - 1) <= x
  {
    if x > 0 { BitLengthBounds(x / 2); }
  }

  lemma BitLengthAtMost(x: nat, n: nat)
    requires x < Pow2(n)
    ensures BitLength(x) <= n
  {
    BitLengthBounds(x);
    if BitLength(x) > n { Pow2Monotone(n, BitLength(x) - 1); }
  }

  lemma {:induction false} BitLengthIs(x: nat, n: nat)
    requires Pow2(n) <= x < 2 * Pow2(n)
    ensures BitLength(x) == n + 1
  {
    if n > 0 {
      BitLengthIs(x / 2, n - 1);
    } else {
      assert x / 2 == 0;
    }
  }

  lemma {:induction false} BitLengthShr(x: nat, k: nat)
    ensures Shr(x, k) > 0 ==> BitLength(x) == BitLength(Shr(x, k)) + k
    ensures Shr(x, k) == 0 ==> x < Pow2(k)
  {
    if k > 0 { BitLengthShr(x / 2, k - 1); }
  }

  /** One halving of the search. */
  lemma ClzStep(x: nat, k: nat, m: nat)
    requires x < Pow2(m) && m == k + k
    ensures var y := Shr(x, k);
            && (y != 0 ==> BitLength(x) == BitLength(y) + k && y < Pow2(k))
            && (y == 0 ==> x < Pow2(k))
  {
    BitLengthShr(x, k);
    ShiftedBelow(x, k, m, k);
  }

  lemma ClzEnd(x: nat)
    requires x < Pow2(2)
    ensures Shr(x, 1) != 0 ==> BitLength(x) == 2
    ensures Shr(x, 1) == 0 ==> BitLength(x) == x
  {
    assert Pow2(2) == 2 * Scale(1, 1);
    assert Shr(x, 1) == Shr(x / 2, 0);
    if x / 2 == 1 { BitLengthIs(x, 1); }
    if x == 1 { BitLengthIs(x, 0); }
  }

  /** Binary search for the leading one, narrowing n and x in place. */
  method Clz(a: nat) returns (r: nat)
    requires a < Pow2(32)
    ensures r == 32 - BitLength(a)
  {
    hide And, BitLength, Low, Or, Scale, Shr, Xor;
    var x, n := a, 32;
    BitLengthAtMost(a, n);
    ClzStep(x, 16, 32);
    var y := Shr(x, 16);
    if y != 0 { n := n - 16; x := y; }
    assert x < Pow2(16) && n - BitLength(x) == 32 - BitLength(a);
    ClzStep(x, 8, 16);
    y := Shr(x, 8);
    if y != 0 { n := n - 8; x := y; }
    assert x < Pow2(8) && n - BitLength(x) == 32 - BitLength(a);
    ClzStep(x, 4, 8);
    y := Shr(x, 4);
    if y != 0 { n := n - 4; x := y; }
    assert x < Pow2(4) && n - BitLength(x) == 32 - BitLength(a);
    ClzStep(x, 2, 4);
    y := Shr(x, 2);
    if y != 0 { n := n - 2; x := y; }
    assert x < Pow2(2) && n - BitLength(x) == 32 - BitLength(a);
    ClzEnd(x);
    y := Shr(x, 1);
    if y != 0 { return n - 2; }
    return n - x;
  }

  /** What the shift counts demand of the two formats. */
  predicate Widens(src: Format, dst: Format) { Narrows(dst, src) }

  /** The value of an int as an unsigned number of n bits. */
  function ToUnsigned(x: int, n: nat): nat {
    if x >= 0 then Low(x, n) else WrapSub(0, -x, n)
  }

  /** `__clz` of a representation, of which its parameter keeps 32 bits. */
  function LeadingZeros(x: nat): int { 32 - BitLength(Low(x, 32)) }

  /** The power the leading one of a subnormal is taken to be short of the implicit bit. */
  function Renormalization(src: Format, aAbs: nat): int {
    LeadingZeros(aAbs) - LeadingZeros(src.MinNormal())
  }

  function ExtendNormal(src: Format, dst: Format, aAbs: nat): nat
    requires Widens(src, dst)
  {
    var n := dst.Bits();
    Low(Shl(Low(aAbs, n), dst.sig - src.sig, n) + Shl(Low(BiasGap(dst, src), n), dst.sig, n), n)
  }

  function ExtendInfNaN(src: Format, dst: Format, aAbs: nat): nat
    requires Widens(src, dst)
  {
    var d, n := dst.sig - src.sig, dst.Bits();
    Or(Or(dst.Infinity(), Shl(Low(And(aAbs, src.QuietBit()), n), d, n)),
       Shl(Low(And(aAbs, src.QuietBit() - 1), n), d, n))
  }

  function ExtendSubnormal(src: Format, dst: Format, aAbs: nat): Converted
    requires Widens(src, dst)
  {
    var scale, n := Renormalization(src, aAbs), dst.Bits();
    var shift, resultExponent := dst.sig - src.sig + scale, BiasGap(dst, src) - scale + 1;
    if 0 <= shift < n then
      var shifted := Shl(Low(aAbs, n), shift, n);
      Pattern(Or(Xor(shifted, dst.MinNormal()), Shl(ToUnsigned(resultExponent, n), dst.sig, n)))
    else Undefined
  }

  function ExtendAbs(src: Format, dst: Format, aRep: nat): Converted
    requires Widens(src, dst)
  {
    var aAbs := And(aRep, src.SignMask() - 1);
    InfinityAboveMinNormal(src);
    if WrapSub(aAbs, src.MinNormal(), src.Bits()) < src.Infinity() - src.MinNormal() then
      Pattern(ExtendNormal(src, dst, aAbs))
    else if aAbs >= src.Infinity() then Pattern(ExtendInfNaN(src, dst, aAbs))
    else if aAbs != 0 then ExtendSubnormal(src, dst, aAbs)
    else Pattern(0)
  }

  /** The whole conversion on bit patterns. */
  function Extend(src: Format, dst: Format, aRep: nat): Converted
    requires Widens(src, dst)
  {
    var abs, n := ExtendAbs(src, dst, aRep), dst.Bits();
    if abs.Undefined? then Undefined
    else Pattern(Or(abs.bits, Shl(Low(And(aRep, src.SignMask()), n), n - src.Bits(), n)))
  }

  // ---- the case tests ----

  lemma InfinityAboveMinNormal(f: Format)
    requires f.Valid()
    ensures f.MinNormal() < f.Infinity() < f.SignMask()
  {
    InfExpAtLeastThree(f);
    ScaleMonotone(1, f.InfExp(), f.sig);
    InfinityFits(f);
  }

  lemma NormalOrSubnormal(f: Format, aAbs: nat)
    requires f.Valid() && aAbs < f.SignMask()
    ensures f.MinNormal() < f.Infinity()
    ensures WrapSub(aAbs, f.MinNormal(), f.Bits()) < f.Infinity() - f.MinNormal()
       <==> f.MinNormal() <= aAbs < f.Infinity()
  {
    InfinityAboveMinNormal(f);
    InfinityFits(f);
    WrapSubCases(aAbs, f.MinNormal(), f.Bits());
  }

  lemma SubnormalScale(f: Format, aAbs: nat)
    requires f.Valid() && f.sig <= 31 && 0 < aAbs < f.MinNormal()
    ensures 1 <= Renormalization(f, aAbs) <= f.sig
    ensures Renormalization(f, aAbs) == f.sig + 1 - BitLength(aAbs)
  {
    hide And, BitLength, Low, Or, Scale, Shr, Xor;
    SubnormalFitsClz(f, aAbs);
    LowId(aAbs, 32);
    LowId(f.MinNormal(), 32);
    ScaleDoubles(1, f.sig);
    BitLengthIs(f.MinNormal(), f.sig);
    BitLengthBounds(aAbs);
    BitLengthAtMost(aAbs, f.sig);
  }

  // ---- exactness ----

  /** Every finite value is kept, in the wider format's finer unit, and so is infinity. */
  ghost predicate WidensExactly(src: Format, dst: Format, aRep: nat)
    requires Widens(src, dst)
  {
    var r := Extend(src, dst, aRep);
    && r.Pattern?
    && dst.SignOf(r.bits) == src.SignOf(aRep)
    && if src.AbsOf(aRep) == src.Infinity() then dst.AbsOf(r.bits) == dst.Infinity()
       else dst.AbsOf(r.bits) < dst.Infinity()
            && dst.Mag(dst.AbsOf(r.bits)) == src.Scaled(BiasGap(dst, src) + dst.sig - src.sig, src.AbsOf(aRep))
  }

  /**
   A caller's test of the two formats: room for every renormalised exponent, and source significands
   that `__clz` can count.
   */
  predicate WideningIsSafe(src: Format, dst: Format)
    requires Widens(src, dst)
  {
    BiasGap(dst, src) >= src.sig && src.sig <= 31
  }

  lemma ExtendSign(src: Format, dst: Format, aRep: nat, abs: nat)
    requires Widens(src, dst) && aRep < Pow2(src.Bits())
    requires ExtendAbs(src, dst, aRep) == Pattern(abs) && abs < dst.SignMask()
    ensures var r := Extend(src, dst, aRep);
            r.Pattern? && dst.AbsOf(r.bits) == abs && dst.SignOf(r.bits) == src.SignOf(aRep)
  {
    hide And, BitLength, Low, Or, Scale, Shr, Xor, ExtendAbs;
    var ns, nd := src.sig + src.exp, dst.sig + dst.exp;
    var neg := src.SignOf(aRep);
    ShiftedBelow(aRep, ns, src.Bits(), 1);
    AndBit(aRep, ns);
    SmallPowers();
    ShlOfLow(Scale(neg, ns), nd - ns, nd + 1);
    ScaleScale(neg, ns, nd - ns);
    ScaleMonotone(neg, 1, nd);
    ScaleDoubles(1, nd);
    LowId(Scale(neg, nd), nd + 1);
    OrDisjoint(abs, neg, nd);
    SplitUnique(Extend(src, dst, aRep).bits, nd, neg, abs);
  }

  /** Low of a sum of two kept parts. */
  lemma LowOfKept(x: nat, y: nat, n: nat)
    requires x + y < Pow2(n)
    ensures Low(Low(x, n) + Low(y, n), n) == x + y
  {
    LowId(x, n);
    LowId(y, n);
    LowId(x + y, n);
  }

  lemma ExtendNormalExact(src: Format, dst: Format, aAbs: nat)
    requires Widens(src, dst) && src.MinNormal() <= aAbs < src.Infinity()
    ensures var r := ExtendNormal(src, dst, aAbs);
            r < dst.Infinity() && dst.Mag(r) == src.Scaled(BiasGap(dst, src) + dst.sig - src.sig, aAbs)
  {
    hide And, BitLength, Low, Or, Scale, Shr, Xor;
    var d, g, n := dst.sig - src.sig, BiasGap(dst, src), dst.Bits();
    var e, frac := src.ExpOf(aAbs), src.FracOf(aAbs);
    SplitAt(aAbs, src.sig);
    if e == 0 { ScaleMonotone(0, 0, src.sig); }
    if e >= src.InfExp() { ScaleMonotone(src.InfExp(), e, src.sig); }
    InfExpAtLeastThree(src);
    InfExpAtLeastThree(dst);
    BiasMonotone(src, dst);
    ScaleAdd(Scale(e, src.sig), frac, d);
    ScaleScale(e, src.sig, d);
    ScaleAdd(e, g, dst.sig);
    ScaleScale(1, src.sig, d);
    ScaleMonotone(frac, Pow2(src.sig), d);
    NormalBelowInfinity(dst, e + g, Scale(frac, d));
    InfinityFits(dst);
    ShlOfLow(aAbs, d, n);
    ShlOfLow(g, dst.sig, n);
    LowOfKept(Scale(aAbs, d), Scale(g, dst.sig), n);
    FieldsOf(dst, e + g, Scale(frac, d));
    ScaleAdd(Pow2(src.sig), frac, d);
    ScaleScale(Pow2(src.sig) + frac, d, e + g - 1);
    ScaleScale(Pow2(src.sig) + frac, e - 1, g + d);
  }

  /** Renormalising puts the leading one of a subnormal on the implicit bit. */
  lemma RenormalizedSignificand(src: Format, dst: Format, aAbs: nat)
    requires Widens(src, dst) && src.sig <= 31 && 0 < aAbs < src.MinNormal()
    ensures var scale := Renormalization(src, aAbs);
            && 1 <= scale <= src.sig
            && var s := Scale(aAbs, dst.sig - src.sig + scale);
               && Pow2(dst.sig) <= s < 2 * Pow2(dst.sig)
               && Shl(Low(aAbs, dst.Bits()), dst.sig - src.sig + scale, dst.Bits()) == s
               && Xor(s, dst.MinNormal()) == s - Pow2(dst.sig) < Pow2(dst.sig)
  {
    hide And, BitLength, Low, Or, Scale, Shr, Xor;
    var scale := Renormalization(src, aAbs);
    SubnormalScale(src, aAbs);
    BitLengthBounds(aAbs);
    var len, sh := BitLength(aAbs), dst.sig - src.sig + scale;
    ScaleMonotone(Pow2(len - 1), aAbs, sh);
    ScaleMonotone(aAbs, Pow2(len), sh);
    ScaleScale(1, len - 1, sh);
    ScaleScale(1, len, sh);
    ScaleDoubles(1, dst.sig);
    XorTop(Scale(aAbs, sh), dst.sig);
    Pow2Monotone(dst.sig + 1, dst.Bits());
    ShlOfLow(aAbs, sh, dst.Bits());
    LowId(Scale(aAbs, sh), dst.Bits());
  }

  /** The pattern with a renormalised significand and its adjusted exponent. */
  lemma ExtendSubnormalFields(src: Format, dst: Format, aAbs: nat)
    requires Widens(src, dst) && WideningIsSafe(src, dst) && 0 < aAbs < src.MinNormal()
    ensures var scale := Renormalization(src, aAbs);
            && 1 <= scale <= src.sig
            && var s, e := Scale(aAbs, dst.sig - src.sig + scale), BiasGap(dst, src) - scale + 1;
               && Pow2(dst.sig) <= s < 2 * Pow2(dst.sig)
               && 1 <= e < dst.InfExp()
               && ExtendSubnormal(src, dst, aAbs) == Pattern(Scale(e, dst.sig) + (s - Pow2(dst.sig)))
               && Scale(e, dst.sig) + (s - Pow2(dst.sig)) < dst.Infinity()
  {
    hide And, BitLength, Low, Or, Scale, Shr, Xor;
    var g, n := BiasGap(dst, src), dst.Bits();
    RenormalizedSignificand(src, dst, aAbs);
    var scale := Renormalization(src, aAbs);
    var s, e := Scale(aAbs, dst.sig - src.sig + scale), g - scale + 1;
    BiasMonotone(src, dst);
    InfExpAtLeastThree(src);
    InfExpAtLeastThree(dst);
    NormalBelowInfinity(dst, e, s - Pow2(dst.sig));
    InfinityFits(dst);
    ShlOfLow(e, dst.sig, n);
    LowId(Scale(e, dst.sig), n);
    OrDisjoint(s - Pow2(dst.sig), e, dst.sig);
  }

  lemma ExtendSubnormalExact(src: Format, dst: Format, aAbs: nat)
    requires Widens(src, dst) && WideningIsSafe(src, dst) && 0 < aAbs < src.MinNormal()
    ensures var r := ExtendSubnormal(src, dst, aAbs);
            && r.Pattern? && r.bits < dst.Infinity()
            && dst.Mag(r.bits) == src.Scaled(BiasGap(dst, src) + dst.sig - src.sig, aAbs)
  {
    hide And, BitLength, Low, Or, Scale, Shr, Xor;
    ExtendSubnormalFields(src, dst, aAbs);
    var d, scale := dst.sig - src.sig, Renormalization(src, aAbs);
    var s, e := Scale(aAbs, d + scale), BiasGap(dst, src) - scale + 1;
    FieldsOf(dst, e, s - Pow2(dst.sig));
    ScaleScale(aAbs, d + scale, e - 1);
    SubnormalPattern(src, aAbs);
  }

  lemma ExtendInfinity(src: Format, dst: Format)
    requires Widens(src, dst)
    ensures ExtendInfNaN(src, dst, src.Infinity()) == dst.Infinity()
  {
    var d, n, e, k := dst.sig - src.sig, dst.Bits(), src.InfExp(), src.sig - 1;
    ScaleAdd(e, e, k);
    SplitUnique(src.Infinity(), k, 2 * e, 0);
    AndBit(src.Infinity(), k);
    AndMask(src.Infinity(), k);
    ScaleMonotone(0, 0, k);
    ScaleMonotone(0, 0, d);
    LowId(0, n);
    OrCommutes(0, dst.Infinity());
  }

  lemma ExtendExact(src: Format, dst: Format, aRep: nat)
    requires Widens(src, dst) && WideningIsSafe(src, dst)
    requires aRep < Pow2(src.Bits()) && !src.IsNaN(aRep)
    ensures WidensExactly(src, dst, aRep)
  {
    hide And, BitLength, Low, Or, Scale, Shr, Xor;
    var aAbs, k := src.AbsOf(aRep), BiasGap(dst, src) + dst.sig - src.sig;
    AbsBelowSignMask(src, aRep);
    NormalOrSubnormal(src, aAbs);
    InfinityAboveMinNormal(dst);
    if aAbs == src.Infinity() {
      ExtendInfinity(src, dst);
    } else if aAbs >= src.MinNormal() {
      ExtendNormalExact(src, dst, aAbs);
    } else if aAbs > 0 {
      ExtendSubnormalExact(src, dst, aAbs);
    } else {
      SubnormalPattern(src, 0);
      SubnormalPattern(dst, 0);
      ScaleMonotone(0, 0, k);
    }
    ExtendSign(src, dst, aRep, ExtendAbs(src, dst, aRep).bits);
  }

  /** Otherwise the smallest subnormal loses its value. */
  lemma SmallestWidensWrongly(src: Format, dst: Format)
    requires Widens(src, dst) && !WideningIsSafe(src, dst)
    ensures 1 < Pow2(src.Bits()) && !src.IsNaN(1) && !WidensExactly(src, dst, 1)
  {
    hide And, BitLength, Low, Or, Scale, Shr, Xor;
    var k := BiasGap(dst, src) + dst.sig - src.sig;
    SmallestPattern(src, dst);
    SubnormalPattern(src, 1);
    if src.sig <= 31 {
      SmallestSubnormal(src, dst);
      EmptySignificand(dst, Extend(src, dst, 1).bits);
      Pow2Monotone(k, dst.sig);
    } else {
      SmallestCut(src, dst);
      ExtendSign(src, dst, 1, CutPattern(src, dst));
      CutMagnitude(src, dst);
      Pow2Monotone(k, dst.sig + BiasGap(dst, src));
      ScaleDoubles(1, dst.sig + BiasGap(dst, src));
    }
  }

  lemma SmallestPattern(src: Format, dst: Format)
    requires Widens(src, dst)
    ensures 1 < Pow2(src.sig) && 1 < Pow2(src.Bits()) && src.AbsOf(1) == 1 < src.Infinity()
    ensures ExtendAbs(src, dst, 1) == ExtendSubnormal(src, dst, 1) == Extend(src, dst, 1)
  {
    hide And, BitLength, Low, Or, Scale, Shr, Xor, ExtendSubnormal;
    SmallPowers();
    Pow2Monotone(1, src.sig);
    Pow2Monotone(src.sig, src.Bits());
    InfinityAboveMinNormal(src);
    LowId(1, src.sig + src.exp);
    AbsBelowSignMask(src, 1);
    NormalOrSubnormal(src, 1);
    NoSign(src, dst, 1);
    var r := ExtendSubnormal(src, dst, 1);
    if r.Pattern? { OrZero(r.bits); }
  }

  /** With too small a gap its significand field is empty. */
  lemma SmallestSubnormal(src: Format, dst: Format)
    requires Widens(src, dst) && src.sig <= 31 && 1 < Pow2(src.sig)
    ensures var r := ExtendSubnormal(src, dst, 1); r.Pattern? && Low(r.bits, dst.sig) == 0
  {
    hide And, BitLength, Low, Or, Scale, Shr, Xor;
    var n := dst.Bits();
    RenormalizedSignificand(src, dst, 1);
    SubnormalScale(src, 1);
    SmallPowers();
    BitLengthIs(1, 0);
    var exponent := ToUnsigned(BiasGap(dst, src) - src.sig + 1, n);
    LowShl(exponent, dst.sig, n);
    var high := Low(exponent, n - dst.sig);
    OrZero(Scale(high, dst.sig));
    SplitUnique(Scale(high, dst.sig), dst.sig, high, 0);
  }

  // ---- significands that __clz cuts ----

  /** gap + 2 with its lowest bit set */
  function CutExponent(src: Format, dst: Format): nat
    requires Widens(src, dst)
  {
    var e := BiasGap(dst, src) + 2;
    e + 1 - e % 2
  }

  /** What the smallest subnormal widens to when its format's leading bit is beyond 32 bits. */
  function CutPattern(src: Format, dst: Format): nat
    requires Widens(src, dst)
  {
    Scale(CutExponent(src, dst), dst.sig) + Pow2(dst.sig - src.sig - 1)
  }

  lemma SmallestCut(src: Format, dst: Format)
    requires Widens(src, dst) && src.sig >= 32
    ensures ExtendSubnormal(src, dst, 1) == Pattern(CutPattern(src, dst))
    ensures CutExponent(src, dst) <= dst.InfExp() && CutPattern(src, dst) < dst.SignMask()
  {
    hide And, BitLength, Low, Or, Scale, Shr, Xor;
    var d, n, e := dst.sig - src.sig, dst.Bits(), BiasGap(dst, src) + 2;
    CutScale(src);
    CutFits(src, dst);
    ShlOfLow(1, d - 1, n);
    LowId(Pow2(d - 1), n);
    Pow2Monotone(d, dst.sig);
    ScaleDoubles(1, d - 1);
    XorApart(Pow2(d - 1), dst.sig);
    ShlOfLow(e, dst.sig, n);
    LowId(Scale(e, dst.sig), n);
    OrApart(Pow2(d - 1), 1, e, dst.sig);
    OrCommutes(1, e);
    OrOne(e);
  }

  lemma CutScale(src: Format)
    requires src.Valid() && src.sig >= 32
    ensures Renormalization(src, 1) == -1
  {
    hide And, BitLength, Low, Or, Scale, Shr, Xor;
    SmallPowers();
    Pow2Monotone(1, 32);
    LowId(1, 32);
    BitLengthIs(1, 0);
    ScaleScale(1, src.sig - 32, 32);
    SplitUnique(src.MinNormal(), 32, Pow2(src.sig - 32), 0);
    BitLengthAtMost(0, 0);
  }

  lemma CutFits(src: Format, dst: Format)
    requires Widens(src, dst)
    ensures CutExponent(src, dst) <= dst.InfExp()
    ensures CutPattern(src, dst) < dst.SignMask() < Pow2(dst.Bits())
    ensures Scale(BiasGap(dst, src) + 2, dst.sig) < Pow2(dst.Bits())
    ensures Pow2(dst.sig - src.sig - 1) < Pow2(dst.sig) < Pow2(dst.Bits())
  {
    hide And, BitLength, Low, Or, Scale, Shr, Xor;
    var d, e := dst.sig - src.sig, CutExponent(src, dst);
    ExponentLimits(dst, src);
    InfExpAtLeastThree(src);
    InfExpAtLeastThree(dst);
    InfinityFits(dst);
    Pow2Monotone(d - 1, dst.sig - 1);
    ScaleDoubles(1, dst.sig - 1);
    ScaleMonotone(e, dst.InfExp(), dst.sig);
    ScaleMonotone(BiasGap(dst, src) + 2, dst.InfExp(), dst.sig);
    ScaleScale(1, dst.exp, dst.sig);
    ScaleAdd(dst.InfExp(), 1, dst.sig);
    Pow2Monotone(dst.sig, dst.sig + dst.exp);
  }

  /** It is a NaN, or far too large. */
  lemma CutMagnitude(src: Format, dst: Format)
    requires Widens(src, dst)
    ensures CutPattern(src, dst) > dst.Infinity()
         || dst.Mag(CutPattern(src, dst)) >= Pow2(dst.sig + BiasGap(dst, src) + 1)
  {
    hide And, BitLength, Low, Or, Scale, Shr, Xor;
    var e, m := CutExponent(src, dst), Pow2(dst.sig - src.sig - 1);
    CutFits(src, dst);
    FieldsOf(dst, e, m);
    ScaleScale(1, dst.sig, e - 1);
    ScaleMonotone(Pow2(dst.sig), Pow2(dst.sig) + m, e - 1);
    Pow2Monotone(dst.sig + BiasGap(dst, src) + 1, dst.sig + e - 1);
    Pow2Monotone(0, dst.sig - src.sig - 1);
    SmallPowers();
  }

  lemma NoSign(src: Format, dst: Format, a: nat)
    requires Widens(src, dst) && a < src.SignMask()
    ensures Shl(Low(And(a, src.SignMask()), dst.Bits()), dst.Bits() - src.Bits(), dst.Bits()) == 0
  {
    hide And, Low, Or, Scale, Shr;
    var ns := src.sig + src.exp;
    ScaleMonotone(0, 0, ns);
    SplitUnique(a, ns, 0, a);
    AndBit(a, ns);
    ScaleMonotone(0, 0, dst.Bits() - src.Bits());
    LowId(0, dst.Bits());
  }

  /** A pattern with an empty significand field is zero or at least the smallest normal. */
  lemma EmptySignificand(f: Format, p: nat)
    requires Low(p, f.sig) == 0
    ensures f.Mag(f.AbsOf(p)) == 0 || f.Mag(f.AbsOf(p)) >= Pow2(f.sig)
  {
    LowOfLow(p, f.sig, f.exp);
    var e := f.ExpOf(f.AbsOf(p));
    if e > 0 { ScaleScale(1, f.sig, e - 1); Pow2Monotone(f.sig, f.sig + e - 1); }
  }

  /** Widening is exact on every input that is not a NaN exactly when the formats pass the caller's test. */
  lemma ExtendExactIff(src: Format, dst: Format)
    requires Widens(src, dst)
    ensures (forall a: nat :: a < Pow2(src.Bits()) && !src.IsNaN(a) ==> WidensExactly(src, dst, a))
       <==> WideningIsSafe(src, dst)
  {
    if WideningIsSafe(src, dst) {
      forall a: nat | a < Pow2(src.Bits()) && !src.IsNaN(a)
        ensures WidensExactly(src, dst, a)
      {
        ExtendExact(src, dst, a);
      }
    } else {
      SmallestWidensWrongly(src, dst);
    }
  }

  // ---- NaNs ----

  /** The magnitude of a NaN, or of infinity, from its quiet bit and its payload. */
  function NaNOf(f: Format, quiet: nat, payload: nat): nat
    requires f.Valid()
  {
    f.Infinity() + Scale(quiet, f.sig - 1) + payload
  }

  /** A NaN, quiet or signalling, keeps its sign, its quiet bit and its whole payload. */
  lemma ExtendKeepsNaN(src: Format, dst: Format, aRep: nat, quiet: nat, payload: nat)
    requires Widens(src, dst) && aRep < Pow2(src.Bits())
    requires quiet <= 1 && payload < src.QuietBit() && src.AbsOf(aRep) == NaNOf(src, quiet, payload)
    ensures var r := Extend(src, dst, aRep);
            && r.Pattern?
            && dst.SignOf(r.bits) == src.SignOf(aRep)
            && dst.AbsOf(r.bits) == NaNOf(dst, quiet, Scale(payload, dst.sig - src.sig))
            && Scale(payload, dst.sig - src.sig) < dst.QuietBit()
  {
    hide And, BitLength, Low, Or, Scale, Shr, Xor, ExtendInfNaN, ExtendSubnormal, NaNOf;
    ExtendNaNPattern(src, dst, src.AbsOf(aRep), quiet, payload);
    AbsBelowSignMask(src, aRep);
    NormalOrSubnormal(src, src.AbsOf(aRep));
    NaNFields(src, quiet, payload);
    assert ExtendAbs(src, dst, aRep) == Pattern(ExtendInfNaN(src, dst, src.AbsOf(aRep)));
    ExtendSign(src, dst, aRep, ExtendInfNaN(src, dst, src.AbsOf(aRep)));
  }

  lemma ExtendNaNPattern(src: Format, dst: Format, aAbs: nat, quiet: nat, payload: nat)
    requires Widens(src, dst) && quiet <= 1 && payload < src.QuietBit() && aAbs == NaNOf(src, quiet, payload)
    ensures Scale(payload, dst.sig - src.sig) < dst.QuietBit()
    ensures ExtendInfNaN(src, dst, aAbs) == NaNOf(dst, quiet, Scale(payload, dst.sig - src.sig)) < dst.SignMask()
  {
    hide And, BitLength, Low, Or, Scale, Shr, Xor, NaNOf;
    var d := dst.sig - src.sig;
    NaNFields(src, quiet, payload);
    ScaleScale(1, src.sig - 1, d);
    ScaleScale(quiet, src.sig - 1, d);
    ScaleMonotone(payload, src.QuietBit(), d);
    ScaleMonotone(quiet, 1, dst.sig - 1);
    Pow2Monotone(dst.sig - 1, dst.Bits() - 1);
    ScaleDoubles(1, dst.Bits() - 1);
    ShlFits(Scale(quiet, src.sig - 1), d, dst.Bits());
    ShlFits(payload, d, dst.Bits());
    NaNFields(dst, quiet, Scale(payload, d));
  }

  /** Its fields, taken apart and put together. */
  lemma NaNFields(f: Format, quiet: nat, payload: nat)
    requires f.Valid() && quiet <= 1 && payload < f.QuietBit()
    ensures var p := NaNOf(f, quiet, payload);
            && f.Infinity() <= p < f.SignMask()
            && And(p, f.QuietBit()) == Scale(quiet, f.sig - 1) && And(p, f.QuietBit() - 1) == payload
            && Low(p, f.sig - 1) == payload && Shr(p, f.sig - 1) == 2 * f.InfExp() + quiet
            && Or(Or(f.Infinity(), Scale(quiet, f.sig - 1)), payload) == p
  {
    hide And, BitLength, Low, Or, Scale, Shr, Xor;
    var n, e := f.sig - 1, f.InfExp();
    var p := NaNOf(f, quiet, payload);
    ScaleAdd(e, e, n);
    ScaleAdd(2 * e, quiet, n);
    ScaleDoubles(1, n);
    ScaleDoubles(e, n);
    ScaleMonotone(quiet, 1, n);
    SplitUnique(p, n, 2 * e + quiet, payload);
    AndBit(p, n);
    AndMask(p, n);
    OrDisjoint(Scale(quiet, n), e, f.sig);
    OrDisjoint(payload, 2 * e + quiet, n);
    ScaleScale(1, f.exp, f.sig);
    ScaleAdd(e, 1, f.sig);
  }

  lemma ShlFits(x: nat, d: nat, n: nat)
    requires Scale(x, d) < Pow2(n)
    ensures Shl(Low(x, n), d, n) == Scale(x, d)
  {
    ShlOfLow(x, d, n);
    LowId(Scale(x, d), n);
  }

  // ---- the code's own form ----

  /** The conversion as written: one result, set by case and assembled in place. */
  method ExtendXfYf2(src: Format, dst: Format, aRep: nat) returns (result: Converted)
    requires Widens(src, dst) && aRep < Pow2(src.Bits())
    ensures result == Extend(src, dst, aRep)
  {
    hide And, BitLength, Low, Or, Scale, Shr, Xor;
    var d, dstBits := dst.sig - src.sig, dst.Bits();
    var aAbs := And(aRep, src.SignMask() - 1);
    var sign := And(aRep, src.SignMask());
    var absResult;
    InfinityAboveMinNormal(src);
    if WrapSub(aAbs, src.MinNormal(), src.Bits()) < src.Infinity() - src.MinNormal() {
      absResult := Shl(Low(aAbs, dstBits), d, dstBits);
      absResult := Low(absResult + Shl(Low(BiasGap(dst, src), dstBits), dst.sig, dstBits), dstBits);
    } else if aAbs >= src.Infinity() {
      absResult := dst.Infinity();
      absResult := Or(absResult, Shl(Low(And(aAbs, src.QuietBit()), dstBits), d, dstBits));
      absResult := Or(absResult, Shl(Low(And(aAbs, src.QuietBit() - 1), dstBits), d, dstBits));
    } else if aAbs != 0 {
      LowBound(aAbs, 32);
      LowBound(src.MinNormal(), 32);
      var zeros: int := Clz(Low(aAbs, 32));
      var zerosMinNormal: int := Clz(Low(src.MinNormal(), 32));
      var scale := zeros - zerosMinNormal;
      if !(0 <= d + scale < dstBits) {
        return Undefined;
      }
      absResult := Shl(Low(aAbs, dstBits), d + scale, dstBits);
      absResult := Xor(absResult, dst.MinNormal());
      var resultExponent := BiasGap(dst, src) - scale + 1;
      absResult := Or(absResult, Shl(ToUnsigned(resultExponent, dstBits), dst.sig, dstBits));
      assert ExtendSubnormal(src, dst, aAbs) == Pattern(absResult);
    } else {
      absResult := 0;
    }
    assert ExtendAbs(src, dst, aRep) == Pattern(absResult);
    result := Pattern(Or(absResult, Shl(Low(sign, dstBits), dst.Bits() - src.Bits(), dstBits)));
  }

  lemma SubnormalFitsClz(f: Format, aAbs: nat)
    requires f.Valid() && f.sig <= 31 && aAbs < f.MinNormal()
    ensures aAbs < Pow2(32) && f.MinNormal() < Pow2(32)
  {
    hide Scale;
    var n := 31;
    Pow2Monotone(f.sig, n);
    ScaleDoubles(1, n);
  }
}
