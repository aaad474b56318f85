/** 3rdparty/picojson/picojson.h: string literals, printed and parsed. */
module JsonStrings {
  import opened JsonInput
  import opened Utf8

  // ---- what the parser computes, on positions ----

  /** The value of a hexadecimal digit, or -1. */
  function HexDigit(ch: int): (d: int)
    ensures -1 <= d < 16
  {
    if ZERO <= ch <= NINE then ch - ZERO
    else if UPPER_A <= ch <= UPPER_F then ch - UPPER_A + 10
    else if LOWER_A <= ch <= LOWER_F then ch - LOWER_A + 10
    else -1
  }

  /** Digits i to 3 of four hexadecimal digits, after the value of the earlier ones. */
  function Quadhex(s: Text, p: nat, i: nat, value: nat): (r: Outcome<nat>)
    requires p <= |s| && i <= 4
    ensures p <= r.next <= |s| && !r.Thrown? && !(r.Failed? && r.held)
    ensures r.Done? ==> r.next == p + 4 - i
    decreases 4 - i
  {
    if i == 4 then Done(value, p)
    else
      var digit := HexDigit(CharAt(s, p));
      if digit == -1 then Failed(p) else Quadhex(s, p + 1, i + 1, value * 16 + digit)
  }

  function Codepoint(s: Text, p: nat): (r: Outcome<Text>)
    requires p <= |s|
    ensures r.Within(p, s) && !r.Thrown?
    ensures r.Done? ==> p + 4 <= r.next
  {
    match Quadhex(s, p, 0, 0)
    case Failed(q, h) => Failed(q, h)
    case Done(first, q) =>
      if 0xdc00 <= first <= 0xdfff then Failed(q, true)
      else if 0xd800 <= first <= 0xdfff then SecondHalf(s, q, first)
      else Done(Pushed(first), q)
  }

  function SecondHalf(s: Text, p: nat, first: nat): (r: Outcome<Text>)
    requires p <= |s| && 0xd800 <= first
    ensures r.Within(p, s) && !r.Thrown?
  {
    if CharAt(s, p) != BACKSLASH then Failed(p)
    else if CharAt(s, p + 1) != LOWER_U then Failed(p + 1)
    else
      match Quadhex(s, p + 2, 0, 0)
      case Failed(q, h) => Failed(q, h)
      case Done(second, q) =>
        if 0xdc00 <= second <= 0xdfff then Done(Pushed(Paired(first, second)), q) else Failed(q, true)
  }

  /** What a one-character escape stands for, or -1. */
  function Unescaped(ch: int): int {
    if ch == QUOTE || ch == BACKSLASH || ch == SLASH then ch
    else if ch == LOWER_B then 8
    else if ch == LOWER_F then 12
    else if ch == LOWER_N then NEWLINE
    else if ch == LOWER_R then RETURN
    else if ch == LOWER_T then TAB
    else -1
  }

  /** The escape after a backslash at p - 1. */
  function Escape(s: Text, p: nat): (r: Outcome<Text>)
    requires p <= |s|
    ensures r.Within(p, s) && !r.Thrown?
  {
    var escape := CharAt(s, p);
    if escape == END then Failed(p)
    else if escape == LOWER_U then Codepoint(s, p + 1)
    else if Unescaped(escape) == -1 then Failed(p + 1, true)
    else Done([Unescaped(escape)], p + 1)
  }

  /** The rest of a string literal from p on, after the bytes in `out`. */
  function String(s: Text, p: nat, out: Text): (r: Outcome<Text>)
    requires p <= |s|
    ensures r.Within(p, s) && !r.Thrown?
    decreases |s| - p
  {
    var ch := CharAt(s, p);
    if ch < SPACE then Failed(p)
    else if ch == QUOTE then Done(out, p + 1)
    else if ch != BACKSLASH then String(s, p + 1, out + [ch])
    else
      match Escape(s, p + 1)
      case Failed(q, h) => Failed(q, h)
      case Done(bytes, q) => String(s, q, out + bytes)
  }

  // ---- the parser ----

  lemma QuadhexStep(s: Text, p: nat, i: nat, value: nat)
    requires p <= |s| && i < 4
    ensures var digit := HexDigit(CharAt(s, p));
            Quadhex(s, p, i, value) == if digit == -1 then Failed(p) else Quadhex(s, p + 1, i + 1, value * 16 + digit)
  {}

  lemma QuadhexStop(s: Text, p: nat, value: nat)
    requires p <= |s|
    ensures Quadhex(s, p, 4, value) == Done(value, p)
  {}

  method ParseQuadhex(input: Input) returns (value: int)
    requires input.Valid()
    modifies input
    ensures input.Valid()
    ensures var r := Quadhex(input.text, old(input.Next()), 0, 0);
            input.Stands(r) && value == (if r.Done? then r.value else -1) && (r.Done? ==> input.consumed)
  {
    hide Newlines, Quadhex;
    var uni := 0;
    ghost var p := input.Next();
    for i := 0 to 4
      invariant input.Valid() && input.Next() == p + i && uni >= 0 && (i > 0 ==> input.consumed)
      invariant Quadhex(input.text, p, 0, 0) == Quadhex(input.text, p + i, i, uni)
    {
      QuadhexStep(input.text, p + i, i, uni);
      var hex := input.Getc();
      if hex == END {
        return -1;
      }
      if ZERO <= hex <= NINE {
        hex := hex - ZERO;
      } else if UPPER_A <= hex <= UPPER_F {
        hex := hex - (UPPER_A - 10);
      } else if LOWER_A <= hex <= LOWER_F {
        hex := hex - (LOWER_A - 10);
      } else {
        input.Ungetc();
        return -1;
      }
      uni := uni * 16 + hex;
    }
    QuadhexStop(input.text, p + 4, uni);
    return uni;
  }

  method ParseCodepoint(input: Input, before: Text) returns (ok: bool, out: Text)
    requires input.Valid()
    modifies input
    ensures input.Valid()
    ensures var r := Codepoint(input.text, old(input.Next()));
            input.Stands(r) && ok == r.Done? && (ok ==> out == before + r.value)
  {
    hide Quadhex, Newlines, Pushed, Paired;
    out := before;
    var uni := ParseQuadhex(input);
    if uni == -1 {
      return false, out;
    }
    if 0xd800 <= uni <= 0xdfff {
      if 0xdc00 <= uni {
        return false, out;
      }
      var ch := input.Getc();
      if ch == BACKSLASH {
        ch := input.Getc();
      } else {
        ch := END;
      }
      if ch != LOWER_U {
        input.Ungetc();
        return false, out;
      }
      var second := ParseQuadhex(input);
      if !(0xdc00 <= second <= 0xdfff) {
        return false, out;
      }
      uni := Paired(uni, second);
    }
    out := out + Pushed(uni);
    return true, out;
  }

  method ParseEscape(input: Input, before: Text) returns (ok: bool, out: Text)
    requires input.Valid()
    modifies input
    ensures input.Valid()
    ensures var r := Escape(input.text, old(input.Next()));
            input.Stands(r) && ok == r.Done? && (ok ==> out == before + r.value)
  {
    hide Codepoint, Newlines;
    out := before;
    var ch := input.Getc();
    if ch == END {
      return false, out;
    }
    if ch == LOWER_U {
      ok, out := ParseCodepoint(input, out);
    } else if Unescaped(ch) != -1 {
      return true, out + [Unescaped(ch)];
    } else {
      return false, out;
    }
  }

  method ParseString(input: Input, before: Text) returns (ok: bool, out: Text)
    requires input.Valid()
    modifies input
    ensures input.Valid()
    ensures var r := String(input.text, old(input.Next()), before);
            input.Stands(r) && ok == r.Done? && (ok ==> out == r.value)
  {
    hide Escape, Newlines;
    out := before;
    ghost var p := input.Next();
    while true
      invariant input.Valid()
      invariant String(input.text, p, before) == String(input.text, input.Next(), out)
      decreases |input.text| - input.Next()
    {
      var ch := input.Getc();
      if ch < SPACE {
        input.Ungetc();
        return false, out;
      } else if ch == QUOTE {
        return true, out;
      } else if ch == BACKSLASH {
        ok, out := ParseEscape(input, out);
        if !ok {
          return;
        }
      } else {
        out := out + [ch];
      }
    }
  }
}
