/** String literals of 3rdparty/picojson/picojson.h: what is printed parses back, and what \u escapes mean. */
module JsonEscapes {
  import opened JsonInput
  import opened JsonStrings
  import opened Utf8

  // ---- printing ----

  /** The letter of a byte's short escape, or -1. */
  function ShortEscape(c: Byte): int {
    if c == QUOTE || c == BACKSLASH || c == SLASH then c
    else if c == 8 then LOWER_B
    else if c == 12 then LOWER_F
    else if c == NEWLINE then LOWER_N
    else if c == RETURN then LOWER_R
    else if c == TAB then LOWER_T
    else -1
  }

  function LowerHex(d: int): Byte
    requires 0 <= d < 16
  {
    if d < 10 then ZERO + d else LOWER_A + (d - 10)
  }

  /** The text of one byte inside a literal. */
  function PrintedChar(c: Byte): Text {
    if ShortEscape(c) != -1 then [BACKSLASH, ShortEscape(c)]
    else if c < SPACE || c == 0x7f then [BACKSLASH, LOWER_U, ZERO, ZERO, LowerHex(c / 16), LowerHex(c % 16)]
    else [c]
  }

  function PrintedChars(str: Text): Text {
    if str == [] then [] else PrintedChar(str[0]) + PrintedChars(str[1..])
  }

  function PrintedString(str: Text): Text { [QUOTE] + PrintedChars(str) + [QUOTE] }

  lemma {:induction false} PrintedCharsStep(str: Text, i: nat)
    requires i < |str|
    ensures PrintedChars(str[..i + 1]) == PrintedChars(str[..i]) + PrintedChar(str[i])
  {
    if i == 0 {
      assert str[..1][1..] == [] == str[..0];
    } else {
      PrintedCharsStep(str[1..], i - 1);
      assert str[..i + 1][1..] == str[1..][..i] && str[..i][1..] == str[1..][..i - 1];
    }
  }

  // ---- a printed literal reads back as the bytes it was printed from ----

  lemma AtIndex(s: Text, p: nat, t: Text, i: nat)
    requires At(s, p, t) && i < |t|
    ensures CharAt(s, p + i) == t[i] && p + |t| <= |s|
  {
    assert s[p..p + |t|][i] == s[p + i];
  }

  lemma AtSplit(s: Text, p: nat, t: Text, u: Text)
    requires At(s, p, t + u)
    ensures At(s, p, t) && At(s, p + |t|, u)
  {
    assert s[p..p + |t|] == (t + u)[..|t|];
    assert s[p + |t|..p + |t| + |u|] == (t + u)[|t|..];
  }

  lemma HexReads(s: Text, p: nat, c: Byte)
    requires At(s, p, [ZERO, ZERO, LowerHex(c / 16), LowerHex(c % 16)])
    ensures Quadhex(s, p, 0, 0) == Done(c, p + 4)
  {
    hide Quadhex, At;
    var hex := [ZERO, ZERO, LowerHex(c / 16), LowerHex(c % 16)];
    AtIndex(s, p, hex, 0);
    AtIndex(s, p, hex, 1);
    AtIndex(s, p, hex, 2);
    AtIndex(s, p, hex, 3);
    QuadhexStep(s, p, 0, 0);
    QuadhexStep(s, p + 1, 1, 0);
    QuadhexStep(s, p + 2, 2, 0);
    QuadhexStep(s, p + 3, 3, c / 16);
    QuadhexStop(s, p + 4, c);
  }

  lemma AtEnds(s: Text, p: nat, t: Text)
    requires At(s, p, t)
    ensures p + |t| <= |s|
  {}

  lemma CharReads(s: Text, p: nat, c: Byte, out: Text)
    requires At(s, p, PrintedChar(c))
    ensures String(s, p, out) == String(s, p + |PrintedChar(c)|, out + [c])
  {
    hide Codepoint, At, Quadhex;
    AtIndex(s, p, PrintedChar(c), 0);
    if ShortEscape(c) != -1 {
      AtIndex(s, p, PrintedChar(c), 1);
    } else if c < SPACE || c == 0x7f {
      AtIndex(s, p, PrintedChar(c), 1);
      var hex := [ZERO, ZERO, LowerHex(c / 16), LowerHex(c % 16)];
      assert PrintedChar(c) == [BACKSLASH, LOWER_U] + hex;
      AtSplit(s, p, [BACKSLASH, LOWER_U], hex);
      HexReads(s, p + 2, c);
      SmallCodepoint(s, p + 2, c);
    }
  }

  lemma SmallCodepoint(s: Text, p: nat, c: Byte)
    requires p <= |s| && c < 0x80 && Quadhex(s, p, 0, 0) == Done(c, p + 4)
    ensures Codepoint(s, p) == Done([c], p + 4)
  {}

  /** Every byte string parses back from its printed literal, which ends at the closing quote. */
  lemma {:induction false} PrintedCharsRead(s: Text, p: nat, str: Text, out: Text)
    requires At(s, p, PrintedChars(str) + [QUOTE])
    ensures String(s, p, out) == Done(out + str, p + |PrintedChars(str)| + 1)
    decreases |str|
  {
    hide At, PrintedChar;
    if str == [] {
      assert PrintedChars(str) + [QUOTE] == [QUOTE] && out + str == out;
      AtIndex(s, p, [QUOTE], 0);
    } else {
      var head, tail := PrintedChar(str[0]), PrintedChars(str[1..]) + [QUOTE];
      assert PrintedChars(str) + [QUOTE] == head + tail;
      AtSplit(s, p, head, tail);
      AtEnds(s, p, head);
      CharReads(s, p, str[0], out);
      PrintedCharsRead(s, p + |head|, str[1..], out + [str[0]]);
      assert out + [str[0]] + str[1..] == out + str;
    }
  }

  // ---- the meaning of \u escapes ----

  /** The number written by the four hexadecimal digits at p, or -1. */
  function Unit(s: Text, p: nat): (u: int)
    ensures -1 <= u < 0x1_0000
  {
    if p + 4 <= |s| && HexDigit(s[p]) != -1 && HexDigit(s[p + 1]) != -1 && HexDigit(s[p + 2]) != -1 && HexDigit(s[p + 3]) != -1
    then 0x1000 * HexDigit(s[p]) + 0x100 * HexDigit(s[p + 1]) + 0x10 * HexDigit(s[p + 2]) + HexDigit(s[p + 3])
    else -1
  }

  lemma QuadhexIsUnit(s: Text, p: nat)
    requires p <= |s|
    ensures Quadhex(s, p, 0, 0).Done? <==> Unit(s, p) != -1
    ensures Unit(s, p) != -1 ==> Quadhex(s, p, 0, 0) == Done(Unit(s, p), p + 4)
  {
    hide Quadhex, HexDigit;
    QuadhexStep(s, p, 0, 0);
    var a := HexDigit(CharAt(s, p));
    if a != -1 {
      QuadhexStep(s, p + 1, 1, a);
      var b := HexDigit(CharAt(s, p + 1));
      if b != -1 {
        QuadhexStep(s, p + 2, 2, a * 16 + b);
        var c := HexDigit(CharAt(s, p + 2));
        if c != -1 {
          QuadhexStep(s, p + 3, 3, (a * 16 + b) * 16 + c);
          var d := HexDigit(CharAt(s, p + 3));
          if d != -1 { QuadhexStop(s, p + 4, ((a * 16 + b) * 16 + c) * 16 + d); }
        }
      }
    }
  }

  /** The scalar value written at p, after a first \u: by one unit or by a surrogate pair; else -1. */
  function Written(s: Text, p: nat): int {
    var first, second := Unit(s, p), Unit(s, p + 6);
    if first == -1 || IsScalar(first) then first
    else if first < 0xdc00 && CharAt(s, p + 4) == BACKSLASH && CharAt(s, p + 5) == LOWER_U && 0xdc00 <= second <= 0xdfff
    then 0x1_0000 + 0x400 * (first - 0xd800) + (second - 0xdc00)
    else -1
  }

  /** An escape is accepted exactly when it writes a scalar value, and stands for its UTF-8 encoding. */
  lemma CodepointMeaning(s: Text, p: nat)
    requires p <= |s|
    ensures Codepoint(s, p).Done? <==> Written(s, p) != -1
    ensures var c := Written(s, p);
            c != -1 ==> IsScalar(c) && Codepoint(s, p) == Done(Encode(c), p + if c < 0x1_0000 then 4 else 10)
  {
    hide Quadhex, Pushed, Encode, Paired, Unit;
    QuadhexIsUnit(s, p);
    var first := Unit(s, p);
    if first != -1 {
      if IsScalar(first) {
        PushedIsEncode(first);
      } else if first < 0xdc00 && CharAt(s, p + 4) == BACKSLASH && CharAt(s, p + 5) == LOWER_U {
        QuadhexIsUnit(s, p + 6);
        var second := Unit(s, p + 6);
        if 0xdc00 <= second <= 0xdfff {
          PairedInverts(first, second);
          PushedIsEncode(Paired(first, second));
        }
      }
    }
  }

  /** A literal is rejected at a surrogate that does not start a pair. */
  lemma LoneSurrogateRejected(s: Text, p: nat, out: Text)
    requires CharAt(s, p) == BACKSLASH && CharAt(s, p + 1) == LOWER_U
    requires 0xd800 <= Unit(s, p + 2) <= 0xdfff
    requires !(Unit(s, p + 2) < 0xdc00
               && CharAt(s, p + 6) == BACKSLASH && CharAt(s, p + 7) == LOWER_U && 0xdc00 <= Unit(s, p + 8) <= 0xdfff)
    ensures String(s, p, out).Failed?
  {
    hide Codepoint, Unit;
    CodepointMeaning(s, p + 2);
  }

  // ---- strings written only with \u escapes ----

  /** t is a \u escape of one 16-bit unit, in digits of either case. */
  predicate UnitEscape(t: Text, u: int) {
    |t| == 6 && t[0] == BACKSLASH && t[1] == LOWER_U && Unit(t, 2) == u >= 0
  }

  /** t writes the scalar value c: one escape, or a surrogate pair above U+FFFF. */
  predicate Spells(t: Text, c: int) {
    && IsScalar(c)
    && if c < 0x1_0000 then UnitEscape(t, c)
       else |t| == 12 && UnitEscape(t[..6], High(c)) && UnitEscape(t[6..], Lower(c))
  }

  function HexUnit(u: int): Text
    requires 0 <= u < 0x1_0000
  {
    [BACKSLASH, LOWER_U, LowerHex(u / 0x1000), LowerHex(u / 0x100 % 0x10), LowerHex(u / 0x10 % 0x10), LowerHex(u % 0x10)]
  }

  lemma LowerHexReads(d: int)
    requires 0 <= d < 16
    ensures HexDigit(LowerHex(d)) == d
  {}

  lemma FourDigits(a: int, b: int, c: int, d: int)
    requires 0 <= a < 16 && 0 <= b < 16 && 0 <= c < 16 && 0 <= d < 16
    ensures UnitEscape([BACKSLASH, LOWER_U, LowerHex(a), LowerHex(b), LowerHex(c), LowerHex(d)],
                       0x1000 * a + 0x100 * b + 0x10 * c + d)
  {
    hide HexDigit, LowerHex;
    LowerHexReads(a);
    LowerHexReads(b);
    LowerHexReads(c);
    LowerHexReads(d);
  }

  lemma DigitsOf(u: int)
    requires 0 <= u < 0x1_0000
    ensures u == 0x1000 * (u / 0x1000) + 0x100 * (u / 0x100 % 0x10) + 0x10 * (u / 0x10 % 0x10) + u % 0x10
  {
    assert u / 0x1000 == u / 0x100 / 0x10 && u / 0x100 == u / 0x10 / 0x10;
  }

  lemma HexUnitEscapes(u: int)
    requires 0 <= u < 0x1_0000
    ensures UnitEscape(HexUnit(u), u)
  {
    hide UnitEscape, LowerHex;
    DigitsOf(u);
    FourDigits(u / 0x1000, u / 0x100 % 0x10, u / 0x10 % 0x10, u % 0x10);
  }

  /** Every scalar value can be written. */
  lemma SpellingExists(c: int) returns (t: Text)
    requires IsScalar(c)
    ensures Spells(t, c)
  {
    hide UnitEscape, HexUnit;
    if c < 0x1_0000 {
      t := HexUnit(c);
      HexUnitEscapes(c);
    } else {
      HexUnitEscapes(High(c));
      HexUnitEscapes(Lower(c));
      HexUnitLength(High(c));
      HexUnitLength(Lower(c));
      t := HexUnit(High(c)) + HexUnit(Lower(c));
      assert t[..6] == HexUnit(High(c)) && t[6..] == HexUnit(Lower(c));
    }
  }

  lemma HexUnitLength(u: int)
    requires 0 <= u < 0x1_0000
    ensures |HexUnit(u)| == 6
  {}

  lemma UnitMoves(s: Text, p: nat, t: Text, u: int)
    requires At(s, p, t) && UnitEscape(t, u)
    ensures Unit(s, p + 2) == u && CharAt(s, p) == BACKSLASH && CharAt(s, p + 1) == LOWER_U
  {
    hide HexDigit;
    assert forall i :: 0 <= i < 6 ==> s[p..p + 6][i] == s[p + i] == t[i];
    assert s[p] == t[0] && s[p + 1] == t[1];
    assert s[p + 2] == t[2] && s[p + 3] == t[3] && s[p + 4] == t[4] && s[p + 5] == t[5];
  }

  lemma SpelledWrites(s: Text, p: nat, t: Text, c: int)
    requires At(s, p, t) && Spells(t, c)
    ensures p + 2 <= |s| && CharAt(s, p) == BACKSLASH && CharAt(s, p + 1) == LOWER_U
    ensures IsScalar(c) && Written(s, p + 2) == c && |t| == if c < 0x1_0000 then 6 else 12
  {
    hide Unit;
    if c < 0x1_0000 {
      UnitMoves(s, p, t, c);
    } else {
      assert t == t[..6] + t[6..];
      AtSplit(s, p, t[..6], t[6..]);
      UnitMoves(s, p, t[..6], High(c));
      UnitMoves(s, p + 6, t[6..], Lower(c));
    }
  }

  lemma SpelledReads(s: Text, p: nat, t: Text, c: int, out: Text)
    requires At(s, p, t) && Spells(t, c)
    ensures p + |t| <= |s| && String(s, p, out) == String(s, p + |t|, out + Encode(c))
  {
    hide Codepoint, Encode, Written, Spells;
    SpelledWrites(s, p, t, c);
    CodepointMeaning(s, p + 2);
  }

  function Joined(pieces: seq<Text>): Text {
    if pieces == [] then [] else pieces[0] + Joined(pieces[1..])
  }

  /**
   A literal written only with \u escapes, however its digits are capitalised, parses to the UTF-8
   encoding of its scalar values, and that encoding decodes to them.
   */
  lemma {:induction false} EscapesReadAsUtf8(s: Text, p: nat, pieces: seq<Text>, cs: seq<int>, out: Text)
    requires |pieces| == |cs| && forall i :: 0 <= i < |cs| ==> Spells(pieces[i], cs[i])
    requires At(s, p, Joined(pieces) + [QUOTE])
    ensures forall c :: c in cs ==> IsScalar(c)
    ensures String(s, p, out) == Done(out + EncodeAll(cs), p + |Joined(pieces)| + 1)
    ensures Decode(EncodeAll(cs)) == Scalars(cs)
    decreases |cs|
  {
    hide At, Encode, Decode, Spells;
    AllScalar(pieces, cs);
    DecodeInvertsEncode(cs);
    if cs == [] {
      assert Joined(pieces) + [QUOTE] == [QUOTE] && out + [] == out;
      AtIndex(s, p, [QUOTE], 0);
    } else {
      var tail := Joined(pieces[1..]) + [QUOTE];
      assert Joined(pieces) + [QUOTE] == pieces[0] + tail;
      AtSplit(s, p, pieces[0], tail);
      SpelledReads(s, p, pieces[0], cs[0], out);
      EscapesReadAsUtf8(s, p + |pieces[0]|, pieces[1..], cs[1..], out + Encode(cs[0]));
      assert out + Encode(cs[0]) + EncodeAll(cs[1..]) == out + EncodeAll(cs);
    }
  }

  lemma AllScalar(pieces: seq<Text>, cs: seq<int>)
    requires |pieces| == |cs| && forall i :: 0 <= i < |cs| ==> Spells(pieces[i], cs[i])
    ensures forall c :: c in cs ==> IsScalar(c)
  {
    forall i | 0 <= i < |cs| ensures IsScalar(cs[i]) { assert Spells(pieces[i], cs[i]); }
  }

  // ---- any 16-bit units ----

  /** The first of some escaped units, and the pair it may start with the next: what is written there. */
  lemma UnitsWrite(s: Text, p: nat, pieces: seq<Text>, us: seq<int>)
    requires |pieces| == |us| > 0 && forall i :: 0 <= i < |us| ==> UnitEscape(pieces[i], us[i])
    requires At(s, p, Joined(pieces) + [QUOTE])
    ensures p + 6 <= |s| && CharAt(s, p) == BACKSLASH && CharAt(s, p + 1) == LOWER_U && IsUnit(us[0])
    ensures At(s, p + 6, Joined(pieces[1..]) + [QUOTE])
    ensures |us| >= 2 ==> At(s, p + 12, Joined(pieces[2..]) + [QUOTE])
    ensures Written(s, p + 2) ==
            if IsScalar(us[0]) then us[0]
            else if |us| >= 2 && IsPair(us[0], us[1]) then 0x1_0000 + 0x400 * (us[0] - 0xd800) + (us[1] - 0xdc00)
            else -1
  {
    hide Unit, At;
    var tail := Joined(pieces[1..]) + [QUOTE];
    assert Joined(pieces) + [QUOTE] == pieces[0] + tail;
    AtSplit(s, p, pieces[0], tail);
    AtEnds(s, p, pieces[0]);
    UnitMoves(s, p, pieces[0], us[0]);
    if |us| >= 2 {
      var rest := Joined(pieces[2..]) + [QUOTE];
      assert pieces[1..][1..] == pieces[2..] && tail == pieces[1] + rest;
      AtSplit(s, p + 6, pieces[1], rest);
      UnitMoves(s, p + 6, pieces[1], us[1]);
    } else {
      assert tail == [QUOTE];
      AtIndex(s, p + 6, [QUOTE], 0);
    }
  }

  /**
   A literal of any 16-bit units, each written with an escape, is accepted if and only if the units are
   well-formed UTF-16, and then gives the UTF-8 encoding of what they decode to. A surrogate without its
   partner, wherever it stands among them, is rejected.
   */
  lemma {:induction false} UnitsReadIff(s: Text, p: nat, pieces: seq<Text>, us: seq<int>, out: Text)
    requires |pieces| == |us| && forall i :: 0 <= i < |us| ==> UnitEscape(pieces[i], us[i])
    requires At(s, p, Joined(pieces) + [QUOTE])
    ensures p <= |s| && (String(s, p, out).Done? <==> DecodeUnits(us).Scalars?)
    ensures DecodeUnits(us).Scalars? ==>
              var cs := DecodeUnits(us).values;
              && (forall c :: c in cs ==> IsScalar(c))
              && String(s, p, out) == Done(out + EncodeAll(cs), p + |Joined(pieces)| + 1)
    decreases |us|
  {
    hide At, Encode, Codepoint, Written, UnitEscape;
    DecodedAreScalars(us);
    AtEnds(s, p, Joined(pieces) + [QUOTE]);
    if us == [] {
      assert Joined(pieces) + [QUOTE] == [QUOTE] && out + [] == out;
      AtIndex(s, p, [QUOTE], 0);
    } else {
      UnitsWrite(s, p, pieces, us);
      CodepointMeaning(s, p + 2);
      var c := Written(s, p + 2);
      if c != -1 {
        var k := if IsScalar(us[0]) then 1 else 2;
        EscapeStep(s, p, c, out);
        JoinedDrop(pieces, us, k);
        UnitsReadIff(s, p + 6 * k, pieces[k..], us[k..], out + Encode(c));
        EncodePrepend(c, us, k, out);
      }
    }
  }

  /** The escape at p stands for the scalar value c. */
  lemma EscapeStep(s: Text, p: nat, c: int, out: Text)
    requires p + 2 <= |s| && CharAt(s, p) == BACKSLASH && CharAt(s, p + 1) == LOWER_U
    requires c != -1 && Written(s, p + 2) == c && IsScalar(c)
    ensures var q := p + if c < 0x1_0000 then 6 else 12;
            q <= |s| && String(s, p, out) == String(s, q, out + Encode(c))
  {
    hide Codepoint, Encode, Written;
    CodepointMeaning(s, p + 2);
  }

  lemma JoinedDrop(pieces: seq<Text>, us: seq<int>, k: nat)
    requires |pieces| == |us| && (k == 1 || k == 2) && k <= |us|
    requires forall i :: 0 <= i < |us| ==> UnitEscape(pieces[i], us[i])
    ensures |Joined(pieces)| == 6 * k + |Joined(pieces[k..])|
  {
    hide Unit;
    assert UnitEscape(pieces[0], us[0]);
    if k == 2 {
      assert UnitEscape(pieces[1], us[1]);
      assert pieces[1..][1..] == pieces[2..];
    }
  }

  lemma EncodePrepend(c: int, us: seq<int>, k: nat, out: Text)
    requires k <= |us| && IsScalar(c) && DecodeUnits(us) == Prepend(c, DecodeUnits(us[k..]))
    ensures DecodeUnits(us).Scalars? ==>
              && DecodeUnits(us[k..]).Scalars?
              && (forall d :: d in DecodeUnits(us).values ==> IsScalar(d))
              && (forall d :: d in DecodeUnits(us[k..]).values ==> IsScalar(d))
              && out + EncodeAll(DecodeUnits(us).values) == (out + Encode(c)) + EncodeAll(DecodeUnits(us[k..]).values)
  {
    hide DecodeUnits, Encode;
    DecodedAreScalars(us);
    DecodedAreScalars(us[k..]);
    if DecodeUnits(us).Scalars? {
      var cs, rest := DecodeUnits(us).values, DecodeUnits(us[k..]).values;
      assert cs[0] == c && cs[1..] == rest;
    }
  }
}
