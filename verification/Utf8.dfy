/**
 UTF-8: the bytes 3rdparty/picojson/picojson.h writes for a code point, against section 3
 (the encoding) and section 4 (the well-formed byte sequences) of RFC 3629.
 */
module Utf8 {
  import opened Bits
  import opened JsonInput

  predicate IsScalar(c: int) {
    0 <= c < 0xd800 || 0xe000 <= c < 0x11_0000
  }

  // ---- the code ----

  /** The bytes pushed for a code point. */
  function Pushed(c: nat): Text {
    if c < 0x80 then [c]
    else
      (if c < 0x800 then [AsChar(Or(0xc0, Shr(c, 6)))]
       else
         (if c < 0x1_0000 then [AsChar(Or(0xe0, Shr(c, 12)))]
          else [AsChar(Or(0xf0, Shr(c, 18))), AsChar(Or(0x80, And(Shr(c, 12), 0x3f)))])
         + [AsChar(Or(0x80, And(Shr(c, 6), 0x3f)))])
      + [AsChar(Or(0x80, And(c, 0x3f)))]
  }

  /** The conversion to char keeps eight bits. */
  function AsChar(x: nat): Byte { x % 0x100 }

  /** The code point of a surrogate pair. */
  function Paired(first: nat, second: nat): nat
    requires 0xd800 <= first && 0xdc00 <= second
  {
    Or(Scale(first - 0xd800, 10), And(second - 0xdc00, 0x3ff)) + 0x1_0000
  }

  // ---- the standard ----

  /** Section 3 of RFC 3629: the bits of a scalar value, six to a continuation byte. */
  function Encode(c: int): Text
    requires IsScalar(c)
  {
    if c < 0x80 then [c]
    else if c < 0x800 then [0xc0 + c / 0x40, Tail(c)]
    else if c < 0x1_0000 then [0xe0 + c / 0x1000, Tail(c / 0x40), Tail(c)]
    else [0xf0 + c / 0x4_0000, Tail(c / 0x1000), Tail(c / 0x40), Tail(c)]
  }

  function Tail(c: int): Byte { 0x80 + c % 0x40 }

  predicate IsTail(b: int) { 0x80 <= b < 0xc0 }

  /** The length of the well-formed sequence at the head of t by section 4 of RFC 3629, or 0. */
  function WellFormed(t: Text): nat {
    if |t| >= 1 && t[0] < 0x80 then 1
    else if |t| >= 2 && 0xc2 <= t[0] < 0xe0 && IsTail(t[1]) then 2
    else if |t| >= 3 && IsTail(t[1]) && IsTail(t[2])
            && ((t[0] == 0xe0 && 0xa0 <= t[1]) || 0xe1 <= t[0] < 0xed || (t[0] == 0xed && t[1] < 0xa0) || 0xee <= t[0] < 0xf0)
    then 3
    else if |t| >= 4 && IsTail(t[1]) && IsTail(t[2]) && IsTail(t[3])
            && ((t[0] == 0xf0 && 0x90 <= t[1]) || 0xf1 <= t[0] < 0xf4 || (t[0] == 0xf4 && t[1] < 0x90))
    then 4
    else 0
  }

  /** The scalar value of a well-formed sequence. */
  function Value(t: Text): int
    requires WellFormed(t) > 0
  {
    match WellFormed(t)
    case 1 => t[0]
    case 2 => 0x40 * Without(0xc0, t[0]) + Without(0x80, t[1])
    case 3 => 0x1000 * Without(0xe0, t[0]) + 0x40 * Without(0x80, t[1]) + Without(0x80, t[2])
    case _ =>
      0x4_0000 * Without(0xf0, t[0]) + 0x1000 * Without(0x80, t[1])
      + 0x40 * Without(0x80, t[2]) + Without(0x80, t[3])
  }

  /** A byte without its leading mark. */
  function Without(mark: int, b: int): int { b - mark }

  datatype Decoded = Scalars(values: seq<int>) | Malformed

  function Decode(t: Text): Decoded {
    if t == [] then Scalars([])
    else
      var n := WellFormed(t);
      if n == 0 then Malformed
      else
        match Decode(t[n..])
        case Malformed => Malformed
        case Scalars(rest) => Scalars([Value(t)] + rest)
  }

  function EncodeAll(cs: seq<int>): Text
    requires forall c :: c in cs ==> IsScalar(c)
  {
    if cs == [] then [] else Encode(cs[0]) + EncodeAll(cs[1..])
  }

  // ---- UTF-16 ----

  predicate IsUnit(u: int) { 0 <= u < 0x1_0000 }

  predicate IsPair(first: int, second: int) {
    0xd800 <= first < 0xdc00 && 0xdc00 <= second < 0xe000
  }

  function Prepend(c: int, rest: Decoded): Decoded {
    if rest.Scalars? then Scalars([c] + rest.values) else Malformed
  }

  /** Section 2.2 of RFC 2781: the scalar values of a sequence of 16-bit units. */
  function DecodeUnits(us: seq<int>): Decoded {
    if us == [] then Scalars([])
    else if IsScalar(us[0]) then Prepend(us[0], DecodeUnits(us[1..]))
    else if |us| >= 2 && IsPair(us[0], us[1]) then
      Prepend(0x1_0000 + 0x400 * (us[0] - 0xd800) + (us[1] - 0xdc00), DecodeUnits(us[2..]))
    else Malformed
  }

  lemma {:induction false} DecodedAreScalars(us: seq<int>)
    ensures DecodeUnits(us).Scalars? ==> forall c :: c in DecodeUnits(us).values ==> IsScalar(c)
  {
    if us != [] {
      DecodedAreScalars(us[1..]);
      if |us| >= 2 { DecodedAreScalars(us[2..]); }
    }
  }

  // ---- what the code writes is the standard's encoding ----

  lemma ScaleBySix(x: nat)
    ensures Scale(x, 6) == 0x40 * x && Pow2(6) == 0x40
    ensures Scale(x, 10) == 0x400 * x && Pow2(10) == 0x400
  {
    FourMore(x, 0);
    FourMore(x, 4);
    assert Scale(x, 6) == Scale(x, 5) * 2 && Scale(x, 5) == Scale(x, 4) * 2;
    assert Scale(x, 10) == Scale(x, 9) * 2 && Scale(x, 9) == Scale(x, 8) * 2;
    FourMore(1, 0);
    FourMore(1, 4);
    assert Pow2(6) == Pow2(5) * 2 && Pow2(5) == Pow2(4) * 2;
    assert Pow2(10) == Pow2(9) * 2 && Pow2(9) == Pow2(8) * 2;
  }

  lemma FourMore(x: nat, n: nat)
    ensures Scale(x, n + 4) == 16 * Scale(x, n)
  {
    ScaleDoubles(x, n);
    ScaleDoubles(x, n + 1);
    ScaleDoubles(x, n + 2);
    ScaleDoubles(x, n + 3);
  }

  lemma SixBits(x: nat)
    ensures Shr(x, 6) == x / 0x40 && And(x, 0x3f) == x % 0x40
  {
    hide Scale, Shr, Low, And;
    ScaleBySix(x / 0x40);
    SplitUnique(x, 6, x / 0x40, x % 0x40);
    AndMask(x, 6);
  }

  /** A mark with its low six bits clear, joined with six bits. */
  lemma Marked(mark: nat, bits: nat)
    requires bits < 0x40
    ensures Or(0x40 * mark, bits) == 0x40 * mark + bits
  {
    hide Scale, Or;
    ScaleBySix(mark);
    OrDisjoint(bits, mark, 6);
  }

  /** A mark with its low bits clear, joined with few enough bits. */
  lemma MarkedBy(mark: nat, bits: nat, k: nat)
    requires bits < Pow2(k)
    ensures Or(Scale(mark, k), bits) == Scale(mark, k) + bits
  {
    OrDisjoint(bits, mark, k);
  }

  lemma Marks()
    ensures Scale(6, 5) == 0xc0 && Pow2(5) == 0x20
    ensures Scale(14, 4) == 0xe0 && Pow2(4) == 0x10
    ensures Scale(30, 3) == 0xf0 && Pow2(3) == 8
  {
    FourMore(6, 0);
    FourMore(14, 0);
    FourMore(1, 0);
    ScaleDoubles(6, 4);
    ScaleDoubles(1, 4);
    ScaleDoubles(30, 0);
    ScaleDoubles(30, 1);
    ScaleDoubles(30, 2);
    SmallPowers();
  }

  lemma TailIsPushed(x: nat)
    ensures Or(0x80, And(x, 0x3f)) == Tail(x)
  {
    hide Or, And;
    SixBits(x);
    Marked(2, x % 0x40);
  }

  lemma Shifts(c: nat)
    ensures Shr(c, 6) == c / 0x40 && Shr(c, 12) == c / 0x1000 && Shr(c, 18) == c / 0x4_0000
  {
    hide Shr, And;
    SixBits(c);
    SixBits(c / 0x40);
    SixBits(c / 0x1000);
    ShrShr(c, 6, 6);
    ShrShr(c, 12, 6);
  }

  lemma Heads(c: nat)
    requires 0x80 <= c < 0x11_0000
    ensures c < 0x800 ==> Or(0xc0, Shr(c, 6)) == 0xc0 + c / 0x40 < 0x100
    ensures 0x800 <= c < 0x1_0000 ==> Or(0xe0, Shr(c, 12)) == 0xe0 + c / 0x1000 < 0x100
    ensures 0x1_0000 <= c ==> Or(0xf0, Shr(c, 18)) == 0xf0 + c / 0x4_0000 < 0x100
  {
    hide Or, Shr, Scale, Pow2;
    Shifts(c);
    Marks();
    if c < 0x800 { MarkedBy(6, c / 0x40, 5); }
    else if c < 0x1_0000 { MarkedBy(14, c / 0x1000, 4); }
    else { MarkedBy(30, c / 0x4_0000, 3); }
  }

  /** What the code pushes is the standard's encoding. */
  lemma PushedIsEncode(c: nat)
    requires IsScalar(c)
    ensures Pushed(c) == Encode(c)
  {
    hide Or, And, Shr, Tail;
    if c >= 0x80 {
      Shifts(c);
      Heads(c);
      TailIsPushed(c);
      TailIsPushed(c / 0x40);
      TailIsPushed(c / 0x1000);
    }
  }

  /** The surrogate pair of a code point above U+FFFF. */
  function High(c: int): int { 0xd800 + (c - 0x1_0000) / 0x400 }

  function Lower(c: int): int { 0xdc00 + (c - 0x1_0000) % 0x400 }

  /** Pairing is the inverse of splitting, onto exactly the code points above U+FFFF. */
  lemma PairedInverts(first: nat, second: nat)
    requires 0xd800 <= first < 0xdc00 && 0xdc00 <= second < 0xe000
    ensures 0x1_0000 <= Paired(first, second) < 0x11_0000
    ensures Paired(first, second) == 0x1_0000 + 0x400 * (first - 0xd800) + (second - 0xdc00)
    ensures High(Paired(first, second)) == first && Lower(Paired(first, second)) == second
  {
    hide Or, And, Scale, Low, Pow2;
    var a, b := first - 0xd800, second - 0xdc00;
    ScaleBySix(a);
    AndMask(b, 10);
    LowId(b, 10);
    MarkedBy(a, b, 10);
    assert Paired(first, second) == 0x400 * a + b + 0x1_0000;
  }

  // ---- decoding the standard's encoding ----

  lemma EncodeIsWellFormed(c: int, rest: Text)
    requires IsScalar(c)
    ensures WellFormed(Encode(c) + rest) == |Encode(c)|
    ensures Value(Encode(c) + rest) == c
  {
    var t := Encode(c) + rest;
    assert forall i :: 0 <= i < |Encode(c)| ==> t[i] == Encode(c)[i];
    assert c / 0x1000 == c / 0x40 / 0x40 && c / 0x4_0000 == c / 0x1000 / 0x40;
  }

  lemma {:induction false} DecodeInvertsEncode(cs: seq<int>)
    requires forall c :: c in cs ==> IsScalar(c)
    ensures Decode(EncodeAll(cs)) == Scalars(cs)
  {
    if cs != [] {
      var rest := EncodeAll(cs[1..]);
      EncodeIsWellFormed(cs[0], rest);
      DecodeInvertsEncode(cs[1..]);
      assert (Encode(cs[0]) + rest)[|Encode(cs[0])|..] == rest;
    }
  }
}
