/** 3rdparty/picojson/picojson.h: parsing inverts serialization, in compact and in pretty form. */
module JsonRoundTrip {
  import opened JsonInput
  import opened JsonStrings
  import opened JsonEscapes
  import opened JsonParser
  import opened JsonPrinter

  // ---- the library functions ----

  predicate AllDigits(t: Text) { forall i :: 0 <= i < |t| ==> ZERO <= t[i] <= NINE }

  /** An optional minus sign and one or more decimal digits. */
  predicate IsDecimal(t: Text) {
    |t| > 0 && AllDigits(Digits(t)) && |Digits(t)| > 0
  }

  function Digits(t: Text): Text {
    if |t| > 0 && t[0] == MINUS then t[1..] else t
  }

  function DigitsValue(t: Text): nat
    requires AllDigits(t)
  {
    if t == [] then 0 else 10 * DigitsValue(t[..|t| - 1]) + (t[|t| - 1] - ZERO)
  }

  function DecimalValue(t: Text): int
    requires IsDecimal(t)
  {
    if t[0] == MINUS then 0 - DigitsValue(Digits(t)) else DigitsValue(t)
  }

  /** strtod is exact on the decimal integers that a double holds exactly. */
  ghost predicate ReadsIntegers(strtod: Strtod) {
    forall t :: IsDecimal(t) && -TWO_TO_THE_53 < DecimalValue(t) as real < TWO_TO_THE_53 ==>
      strtod(t) == Finite(DecimalValue(t) as real)
  }

  /** A text that the parser hands to strtod as one number. */
  predicate IsNumberText(t: Text) {
    |t| > 0 && StartsNumber(t[0]) && forall i :: 0 <= i < |t| ==> IsNumberChar(t[i])
  }

  /** Every number of l that is not a small integer is printed so that strtod gets it back. */
  predicate Printable(strtod: Strtod, format: Format, l: Listing)
    decreases l
  {
    match l
    case NumberNode(x) => IsSmallInteger(x) || (IsNumberText(format(x)) && strtod(format(x)) == Finite(x))
    case ArrayNode(items) => forall k :: 0 <= k < |items| ==> Printable(strtod, format, items[k])
    case ObjectNode(entries) => forall k :: 0 <= k < |entries| ==> Printable(strtod, format, entries[k].value)
    case _ => true
  }

  // ---- numbers ----

  lemma {:induction false} NatTextReads(n: nat)
    ensures AllDigits(NatText(n)) && |NatText(n)| > 0 && DigitsValue(NatText(n)) == n
  {
    if n < 10 {
      assert NatText(n)[..0] == [];
    } else {
      NatTextReads(n / 10);
      assert NatText(n)[..|NatText(n)| - 1] == NatText(n / 10);
    }
  }

  lemma IntTextReads(n: int)
    ensures IsDecimal(IntText(n)) && DecimalValue(IntText(n)) == n && IsNumberText(IntText(n))
  {
    hide NatText, DigitsValue;
    var digits := NatText(if n < 0 then -n else n);
    NatTextReads(if n < 0 then -n else n);
    if n < 0 { assert IntText(n)[1..] == digits; }
  }

  lemma NumberTextReads(strtod: Strtod, format: Format, x: real)
    requires ReadsIntegers(strtod) && Printable(strtod, format, NumberNode(x))
    ensures IsNumberText(NumberText(format, x)) && strtod(NumberText(format, x)) == Finite(x)
  {
    hide IntText, DecimalValue, IsDecimal;
    IntTextReads(x.Floor);
  }

  lemma {:induction false} NumberEndIs(s: Text, p: nat, q: nat)
    requires p <= q <= |s| && !IsNumberChar(CharAt(s, q)) && forall i :: p <= i < q ==> IsNumberChar(s[i])
    ensures NumberEnd(s, p) == q
    decreases q - p
  {
    if p < q { NumberEndIs(s, p + 1, q); }
  }

  /** A run of number characters that is not continued is what the parser hands to strtod. */
  lemma NumberTaken(c: Context, strtod: Strtod, s: Text, p: nat, t: Text)
    requires At(s, p, t) && IsNumberText(t) && !IsNumberChar(CharAt(s, p + |t|))
    ensures Parse(c, strtod, s, p) == NumberAt(c, strtod, s, p)
    ensures NumberEnd(s, p) == p + |t| <= |s| && s[p..NumberEnd(s, p)] == t
  {
    hide Bracketed, Braced, Items, Members, String, NumberEnd;
    forall i | p <= i < p + |t| ensures IsNumberChar(s[i]) {
      assert s[p..p + |t|][i - p] == s[i];
    }
    assert s[p] == s[p..p + |t|][0];
    NumberEndIs(s, p, p + |t|);
  }

  lemma NumberReads(c: Context, strtod: Strtod, s: Text, p: nat, t: Text, x: real)
    requires At(s, p, t) && IsNumberText(t) && strtod(t) == Finite(x) && !IsNumberChar(CharAt(s, p + |t|))
    ensures Parse(c, strtod, s, p) == Done(c.Keep(Number(x)), p + |t|)
  {
    hide Parse, NumberEnd, IsNumberText;
    NumberTaken(c, strtod, s, p, t);
  }

  // ---- white space ----

  lemma {:induction false} SpacesAre(n: nat)
    ensures |Spaces(n)| == n && forall i :: 0 <= i < n ==> Spaces(n)[i] == SPACE
  {
    if n > 0 { SpacesAre(n - 1); }
  }

  lemma {:induction false} SkipsRun(s: Text, p: nat, n: nat)
    requires p + n <= |s| && forall i :: p <= i < p + n ==> IsSpace(s[i])
    ensures SkipSpace(s, p) == SkipSpace(s, p + n)
    decreases n
  {
    if n > 0 { SkipsRun(s, p + 1, n - 1); }
  }

  lemma IndentSkipped(s: Text, p: nat, indent: int)
    requires indent >= -1 && At(s, p, Indent(indent))
    ensures p + |Indent(indent)| <= |s| && SkipSpace(s, p) == SkipSpace(s, p + |Indent(indent)|)
  {
    hide SkipSpace, Spaces;
    var t := Indent(indent);
    if indent != -1 { SpacesAre(indent * 2); }
    forall i | p <= i < p + |t| ensures IsSpace(s[i]) {
      assert s[p..p + |t|][i - p] == s[i];
    }
    SkipsRun(s, p, |t|);
  }

  /** Leading white space does not matter. */
  lemma ParseSkips(c: Context, strtod: Strtod, s: Text, p: nat, q: nat)
    requires p <= |s| && q <= |s| && SkipSpace(s, p) == SkipSpace(s, q)
    ensures Parse(c, strtod, s, p) == Parse(c, strtod, s, q)
  {
    hide SkipSpace, Bracketed, Braced, String, Word, NumberAt;
  }

  lemma NoSpace(s: Text, p: nat)
    requires p <= |s| && !IsSpace(CharAt(s, p))
    ensures SkipSpace(s, p) == p
  {}

  /** A closing bracket or brace, after the line break of the pretty form. */
  lemma CloseReads(s: Text, p: nat, t: Text, indent: int, ch: Byte)
    requires indent >= -1 && (t == [] || t == Indent(indent)) && At(s, p, t + [ch])
    requires ch == RIGHT_BRACKET || ch == RIGHT_BRACE
    ensures p + |t| < |s| && SkipSpace(s, p) == p + |t| && CharAt(s, p + |t|) == ch
    ensures !IsNumberChar(CharAt(s, p))
  {
    hide SkipSpace, Spaces;
    AtSplit(s, p, t, [ch]);
    AtIndex(s, p + |t|, [ch], 0);
    NoSpace(s, p + |t|);
    if t != [] {
      AtIndex(s, p, t, 0);
      IndentSkipped(s, p, indent);
    }
  }

  // ---- values ----

  lemma WordReads(s: Text, p: nat, rest: Text, v: Value)
    requires At(s, p, rest)
    ensures Word(s, p, rest, v) == Done(v, p + |rest|)
  {
    var n := Common(s, p, rest, 0);
    if n < |rest| { AtIndex(s, p, rest, n); }
  }

  /** A printed value starts with a character that is no white space and closes nothing. */
  lemma BodyStart(strtod: Strtod, format: Format, l: Listing, indent: int)
    requires indent >= -1 && Printable(strtod, format, l)
    ensures var t := Body(format, l, indent);
            |t| > 0 && !IsSpace(t[0]) && t[0] != RIGHT_BRACKET && t[0] != RIGHT_BRACE
  {
    hide ItemTexts, EntryTexts, ItemsEnd, EntriesEnd, PrintedChars, NatText;
    if l.NumberNode? && IsSmallInteger(l.x) { IntTextReads(l.x.Floor); }
  }

  /** In pretty or compact form, at any depth: what stands at p as the text of l parses to its value. */
  lemma {:induction false} BodyReads(
    c: Context, strtod: Strtod, format: Format, s: Text, p: nat, l: Listing, indent: int)
    requires indent >= -1 && ReadsIntegers(strtod) && Printable(strtod, format, l)
    requires At(s, p, Body(format, l, indent))
    requires l.NumberNode? ==> !IsNumberChar(CharAt(s, p + |Body(format, l, indent)|))
    ensures Parse(c, strtod, s, p) == Done(c.Keep(ToValue(l)), p + |Body(format, l, indent)|)
    decreases l, 2
  {
    hide Parse, At, ReadsIntegers;
    match l {
      case NumberNode(x) =>
        NumberTextReads(strtod, format, x);
        NumberReads(c, strtod, s, p, NumberText(format, x), x);
      case StringNode(bytes) => StringReads(c, strtod, s, p, bytes);
      case ArrayNode(_) => ArrayReads(c, strtod, format, s, p, l, indent);
      case ObjectNode(_) => ObjectReads(c, strtod, format, s, p, l, indent);
      case NullNode => KeywordReads(c, strtod, s, p, LOWER_N, ULL, Null);
      case BoolNode(b) =>
        if b { KeywordReads(c, strtod, s, p, LOWER_T, RUE, Bool(true)); }
        else { KeywordReads(c, strtod, s, p, LOWER_F, ALSE, Bool(false)); }
    }
  }

  lemma KeywordReads(c: Context, strtod: Strtod, s: Text, p: nat, first: Byte, rest: Text, v: Value)
    requires At(s, p, [first] + rest)
    requires (first == LOWER_N && rest == ULL && v == Null)
             || (first == LOWER_T && rest == RUE && v == Bool(true))
             || (first == LOWER_F && rest == ALSE && v == Bool(false))
    ensures Parse(c, strtod, s, p) == Done(c.Keep(v), p + 1 + |rest|)
  {
    hide Word, At, SkipSpace;
    AtSplit(s, p, [first], rest);
    AtIndex(s, p, [first], 0);
    NoSpace(s, p);
    WordReads(s, p + 1, rest, c.Keep(v));
  }

  lemma StringReads(c: Context, strtod: Strtod, s: Text, p: nat, bytes: Text)
    requires At(s, p, PrintedString(bytes))
    ensures Parse(c, strtod, s, p) == Done(c.Keep(Str(bytes)), p + |PrintedString(bytes)|)
  {
    hide At, SkipSpace, String;
    LiteralReads(s, p, bytes);
    NoSpace(s, p);
  }

  lemma LiteralReads(s: Text, p: nat, bytes: Text)
    requires At(s, p, PrintedString(bytes))
    ensures p + |PrintedString(bytes)| <= |s| && CharAt(s, p) == QUOTE
    ensures String(s, p + 1, []) == Done(bytes, p + |PrintedString(bytes)|)
  {
    hide At, String;
    var tail := PrintedChars(bytes) + [QUOTE];
    assert PrintedString(bytes) == [QUOTE] + tail;
    AtSplit(s, p, [QUOTE], tail);
    AtIndex(s, p, [QUOTE], 0);
    AtEnds(s, p, PrintedString(bytes));
    PrintedCharsRead(s, p + 1, bytes, []);
    assert [] + bytes == bytes;
  }

  // ---- arrays ----

  lemma {:induction false} ArrayReads(
    c: Context, strtod: Strtod, format: Format, s: Text, p: nat, l: Listing, indent: int)
    requires indent >= -1 && ReadsIntegers(strtod) && Printable(strtod, format, l) && l.ArrayNode?
    requires At(s, p, Body(format, l, indent))
    ensures Parse(c, strtod, s, p) == Done(c.Keep(ToValue(l)), p + |Body(format, l, indent)|)
    decreases l, 1
  {
    hide Items, At, SkipSpace, ReadsIntegers, Print, Printable, Context.Keep, Indent;
    var deeper := Deeper(indent);
    var rest := ItemTexts(format, l, 0, deeper) + ItemsEnd(l, indent);
    assert Body(format, l, indent) == [LEFT_BRACKET] + rest;
    AtSplit(s, p, [LEFT_BRACKET], rest);
    AtIndex(s, p, [LEFT_BRACKET], 0);
    NoSpace(s, p);
    if l.items == [] {
      assert rest == [] + [RIGHT_BRACKET];
      CloseReads(s, p + 1, [], -1, RIGHT_BRACKET);
    } else {
      FirstItem(c, strtod, format, s, p + 1, l, indent);
    }
  }

  /** What follows the first item's indentation: the item, the others and the closing bracket. */
  function ItemsFrom(format: Format, l: Listing, k: nat, indent: int): Text
    requires l.ArrayNode? && k < |l.items| && indent >= -1
  {
    Print(format, l.items[k], Deeper(indent)) + (ItemTexts(format, l, k + 1, Deeper(indent)) + ItemsEnd(l, indent))
  }

  lemma {:induction false} FirstItem(
    c: Context, strtod: Strtod, format: Format, s: Text, p: nat, l: Listing, indent: int)
    requires indent >= -1 && ReadsIntegers(strtod) && Printable(strtod, format, l) && l.ArrayNode? && l.items != []
    requires At(s, p, ItemTexts(format, l, 0, Deeper(indent)) + ItemsEnd(l, indent))
    ensures p <= |s| && Bracketed(c, strtod, s, p) ==
            Done(c.Keep(ToValue(l)), p + |ItemTexts(format, l, 0, Deeper(indent)) + ItemsEnd(l, indent)|)
    decreases l, 0, |l.items| + 1
  {
    hide Items, At, SkipSpace, ReadsIntegers, Print, Context.Keep, Indent, ItemsEnd;
    var deeper := Deeper(indent);
    var tail := ItemsFrom(format, l, 0, indent);
    assert ItemTexts(format, l, 0, deeper) + ItemsEnd(l, indent) == Indent(deeper) + tail;
    AtSplit(s, p, Indent(deeper), tail);
    IndentSkipped(s, p, deeper);
    var q := p + |Indent(deeper)|;
    ItemStart(strtod, format, s, q, l, 0, indent);
    NoSpace(s, q);
    ItemsRead(c, strtod, format, s, q, l, 0, indent, []);
    assert [] + ItemValues(l, 0) == ItemValues(l, 0);
  }

  lemma ItemStart(strtod: Strtod, format: Format, s: Text, q: nat, l: Listing, k: nat, indent: int)
    requires indent >= -1 && l.ArrayNode? && k < |l.items| && Printable(strtod, format, l)
    requires At(s, q, ItemsFrom(format, l, k, indent))
    ensures q <= |s| && !IsSpace(CharAt(s, q)) && CharAt(s, q) != RIGHT_BRACKET
  {
    hide At, Body, ItemTexts, ItemsEnd;
    BodyStart(strtod, format, l.items[k], Deeper(indent));
    AtIndex(s, q, ItemsFrom(format, l, k, indent), 0);
  }

  /** What follows the item. */
  function ItemTail(format: Format, l: Listing, k: nat, indent: int): Text
    requires l.ArrayNode? && k < |l.items| && indent >= -1
  {
    if k + 1 < |l.items| then [COMMA] + (Indent(Deeper(indent)) + ItemsFrom(format, l, k + 1, indent))
    else Indent(indent) + [RIGHT_BRACKET]
  }

  lemma ItemsSplit(format: Format, l: Listing, k: nat, indent: int)
    requires l.ArrayNode? && k < |l.items| && indent >= -1
    ensures ItemsFrom(format, l, k, indent) ==
            Body(format, l.items[k], Deeper(indent)) + ItemTail(format, l, k, indent)
  {
    hide Body, Indent;
    var deeper := Deeper(indent);
    var item := Body(format, l.items[k], deeper);
    assert Print(format, l.items[k], deeper) == item;
    if k + 1 < |l.items| {
      var texts, end := ItemTexts(format, l, k + 2, deeper), ItemsEnd(l, indent);
      var next := Print(format, l.items[k + 1], deeper);
      assert ItemTexts(format, l, k + 1, deeper) == [COMMA] + ((Indent(deeper) + next) + texts);
      Reassociate([COMMA], Indent(deeper), next, texts, end);
    } else {
      assert ItemTexts(format, l, k + 1, deeper) == [];
      assert [] + ItemsEnd(l, indent) == Indent(indent) + [RIGHT_BRACKET];
    }
  }

  lemma Reassociate(a: Text, b: Text, c: Text, d: Text, e: Text)
    ensures (a + ((b + c) + d)) + e == a + (b + (c + (d + e)))
  {}

  lemma {:induction false} ItemsRead(
    c: Context, strtod: Strtod, format: Format, s: Text, p: nat, l: Listing, k: nat, indent: int, items: seq<Value>)
    requires indent >= -1 && ReadsIntegers(strtod) && Printable(strtod, format, l) && l.ArrayNode? && k < |l.items|
    requires At(s, p, ItemsFrom(format, l, k, indent))
    ensures p <= |s| && Items(c, strtod, s, p, items) ==
            Done(c.Keep(Array(items + ItemValues(l, k))), p + |ItemsFrom(format, l, k, indent)|)
    decreases l, 0, |l.items| - k
  {
    hide Items, ItemsFrom, Parse, At, SkipSpace, ReadsIntegers, Body, Indent;
    var deeper := Deeper(indent);
    var item, tail := Body(format, l.items[k], deeper), ItemTail(format, l, k, indent);
    ItemsSplit(format, l, k, indent);
    AtSplit(s, p, item, tail);
    AtEnds(s, p, item);
    var q, v := p + |item|, ToValue(l.items[k]);
    if k + 1 < |l.items| {
      var next := ItemsFrom(format, l, k + 1, indent);
      var z := CommaReads(s, q, deeper, next);
      BodyReads(c, strtod, format, s, p, l.items[k], deeper);
      ItemThenMore(c, strtod, s, p, q, z, items, v);
      ItemsRead(c, strtod, format, s, z, l, k + 1, indent, c.Append(items, v));
      assert (items + [v]) + ItemValues(l, k + 1) == items + ItemValues(l, k);
    } else {
      CloseReads(s, q, Indent(indent), indent, RIGHT_BRACKET);
      BodyReads(c, strtod, format, s, p, l.items[k], deeper);
      ItemThenClose(c, strtod, s, p, q, items, v);
      assert ItemValues(l, k) == [v] + [] == [v];
    }
  }

  /** A comma and the line break of the pretty form, before what comes next. */
  lemma CommaReads(s: Text, q: nat, indent: int, next: Text) returns (z: nat)
    requires indent >= -1 && At(s, q, [COMMA] + (Indent(indent) + next))
    ensures q < |s| && CharAt(s, q) == COMMA && SkipSpace(s, q) == q && !IsNumberChar(CharAt(s, q))
    ensures z == q + 1 + |Indent(indent)| <= |s| && SkipSpace(s, q + 1) == SkipSpace(s, z) && At(s, z, next)
  {
    hide At, SkipSpace, Indent;
    AtSplit(s, q, [COMMA], Indent(indent) + next);
    AtSplit(s, q + 1, Indent(indent), next);
    AtIndex(s, q, [COMMA], 0);
    NoSpace(s, q);
    IndentSkipped(s, q + 1, indent);
    z := q + 1 + |Indent(indent)|;
  }

  lemma ItemThenMore(
    c: Context, strtod: Strtod, s: Text, p: nat, q: nat, z: nat, items: seq<Value>, v: Value)
    requires p <= |s| && q < |s| && z <= |s| && Parse(c, strtod, s, p) == Done(c.Keep(v), q)
    requires SkipSpace(s, q) == q && CharAt(s, q) == COMMA && SkipSpace(s, q + 1) == SkipSpace(s, z)
    ensures Items(c, strtod, s, p, items) == Items(c, strtod, s, z, c.Append(items, v))
  {
    hide Items, Parse, SkipSpace;
    ItemsTurn(c, strtod, s, p, items);
    ItemsSkip(c, strtod, s, q + 1, z, c.Append(items, v));
  }

  lemma ItemThenClose(c: Context, strtod: Strtod, s: Text, p: nat, q: nat, items: seq<Value>, v: Value)
    requires p <= |s| && q <= |s| && Parse(c, strtod, s, p) == Done(c.Keep(v), q)
    requires CharAt(s, SkipSpace(s, q)) == RIGHT_BRACKET
    ensures Items(c, strtod, s, p, items) == Done(c.Keep(Array(items + [v])), SkipSpace(s, q) + 1)
  {
    hide Items, Parse, SkipSpace;
    ItemsTurn(c, strtod, s, p, items);
  }

  lemma ItemsSkip(c: Context, strtod: Strtod, s: Text, p: nat, q: nat, items: seq<Value>)
    requires p <= |s| && q <= |s| && SkipSpace(s, p) == SkipSpace(s, q)
    ensures Items(c, strtod, s, p, items) == Items(c, strtod, s, q, items)
  {
    hide Items, Parse, SkipSpace;
    ParseSkips(c, strtod, s, p, q);
    ItemsTurn(c, strtod, s, p, items);
    ItemsTurn(c, strtod, s, q, items);
  }

  // ---- objects ----

  lemma {:induction false} ObjectReads(
    c: Context, strtod: Strtod, format: Format, s: Text, p: nat, l: Listing, indent: int)
    requires indent >= -1 && ReadsIntegers(strtod) && Printable(strtod, format, l) && l.ObjectNode?
    requires At(s, p, Body(format, l, indent))
    ensures Parse(c, strtod, s, p) == Done(c.Keep(ToValue(l)), p + |Body(format, l, indent)|)
    decreases l, 1
  {
    hide Members, At, SkipSpace, ReadsIntegers, Print, Printable, Context.Keep, Indent;
    var deeper := Deeper(indent);
    var rest := EntryTexts(format, l, 0, deeper) + EntriesEnd(l, indent);
    assert Body(format, l, indent) == [LEFT_BRACE] + rest;
    AtSplit(s, p, [LEFT_BRACE], rest);
    AtIndex(s, p, [LEFT_BRACE], 0);
    NoSpace(s, p);
    if l.entries == [] {
      assert rest == [] + [RIGHT_BRACE];
      CloseReads(s, p + 1, [], -1, RIGHT_BRACE);
    } else {
      FirstEntry(c, strtod, format, s, p + 1, l, indent);
    }
  }

  /** What follows an entry's indentation: the entry, the others and the closing brace. */
  function EntriesFrom(format: Format, l: Listing, k: nat, indent: int): Text
    requires l.ObjectNode? && k < |l.entries| && indent >= -1
  {
    (KeyText(l.entries[k].key, Deeper(indent)) + Print(format, l.entries[k].value, Deeper(indent)))
    + (EntryTexts(format, l, k + 1, Deeper(indent)) + EntriesEnd(l, indent))
  }

  lemma {:induction false} FirstEntry(
    c: Context, strtod: Strtod, format: Format, s: Text, p: nat, l: Listing, indent: int)
    requires indent >= -1 && ReadsIntegers(strtod) && Printable(strtod, format, l) && l.ObjectNode? && l.entries != []
    requires At(s, p, EntryTexts(format, l, 0, Deeper(indent)) + EntriesEnd(l, indent))
    ensures p <= |s| && Braced(c, strtod, s, p) ==
            Done(c.Keep(ToValue(l)), p + |EntryTexts(format, l, 0, Deeper(indent)) + EntriesEnd(l, indent)|)
    decreases l, 0, |l.entries| + 1
  {
    hide Members, At, SkipSpace, ReadsIntegers, Print, Context.Keep, Indent, EntriesEnd, KeyText;
    var deeper := Deeper(indent);
    var tail := EntriesFrom(format, l, 0, indent);
    assert EntryTexts(format, l, 0, deeper) + EntriesEnd(l, indent) == Indent(deeper) + tail;
    AtSplit(s, p, Indent(deeper), tail);
    IndentSkipped(s, p, deeper);
    var q := p + |Indent(deeper)|;
    EntryStart(format, s, q, l, 0, indent);
    NoSpace(s, q);
    MembersRead(c, strtod, format, s, q, l, 0, indent, map[]);
  }

  lemma EntryStart(format: Format, s: Text, q: nat, l: Listing, k: nat, indent: int)
    requires indent >= -1 && l.ObjectNode? && k < |l.entries|
    requires At(s, q, EntriesFrom(format, l, k, indent))
    ensures q <= |s| && CharAt(s, q) == QUOTE
  {
    hide At, Print, EntryTexts, EntriesEnd;
    AtIndex(s, q, EntriesFrom(format, l, k, indent), 0);
  }

  /** What follows the entry. */
  function EntryTail(format: Format, l: Listing, k: nat, indent: int): Text
    requires l.ObjectNode? && k < |l.entries| && indent >= -1
  {
    if k + 1 < |l.entries| then [COMMA] + (Indent(Deeper(indent)) + EntriesFrom(format, l, k + 1, indent))
    else Indent(indent) + [RIGHT_BRACE]
  }

  lemma EntriesSplit(format: Format, l: Listing, k: nat, indent: int)
    requires l.ObjectNode? && k < |l.entries| && indent >= -1
    ensures EntriesFrom(format, l, k, indent) ==
            KeyText(l.entries[k].key, Deeper(indent))
            + (Body(format, l.entries[k].value, Deeper(indent)) + EntryTail(format, l, k, indent))
  {
    hide Body, Indent, KeyText;
    var deeper := Deeper(indent);
    var key, value := KeyText(l.entries[k].key, deeper), Body(format, l.entries[k].value, deeper);
    assert Print(format, l.entries[k].value, deeper) == value;
    if k + 1 < |l.entries| {
      var texts, end := EntryTexts(format, l, k + 2, deeper), EntriesEnd(l, indent);
      var next := KeyText(l.entries[k + 1].key, deeper) + Print(format, l.entries[k + 1].value, deeper);
      assert EntryTexts(format, l, k + 1, deeper) == [COMMA] + ((Indent(deeper) + next) + texts);
      Reassociate([COMMA], Indent(deeper), next, texts, end);
    } else {
      assert EntryTexts(format, l, k + 1, deeper) == [];
      assert [] + EntriesEnd(l, indent) == Indent(indent) + [RIGHT_BRACE];
    }
  }

  lemma KeyReads(s: Text, p: nat, key: Text, indent: int)
    requires At(s, p, KeyText(key, indent))
    ensures p + |KeyText(key, indent)| <= |s| && p <= |s| && Key(s, p).Done? && Key(s, p).value == key
    ensures SkipSpace(s, Key(s, p).next) == SkipSpace(s, p + |KeyText(key, indent)|)
  {
    hide At, String, PrintedString;
    var literal, gap := PrintedString(key), if indent == -1 then [] else [SPACE];
    assert KeyText(key, indent) == literal + ([COLON] + gap);
    AtSplit(s, p, literal, [COLON] + gap);
    var q := p + |literal|;
    AtSplit(s, q, [COLON], gap);
    AtIndex(s, q, [COLON], 0);
    AtEnds(s, q + 1, gap);
    if indent != -1 { AtIndex(s, q + 1, [SPACE], 0); }
    LiteralReads(s, p, key);
    NoSpace(s, p);
    NoSpace(s, q);
  }

  /** An entry's key and value. */
  lemma {:induction false} EntryReads(
    c: Context, strtod: Strtod, format: Format, s: Text, p: nat, key: Text, l: Listing, indent: int)
    requires indent >= -1 && ReadsIntegers(strtod) && Printable(strtod, format, l)
    requires At(s, p, KeyText(key, indent)) && At(s, p + |KeyText(key, indent)|, Body(format, l, indent))
    requires !IsNumberChar(CharAt(s, p + |KeyText(key, indent)| + |Body(format, l, indent)|))
    ensures p <= |s| && Member(c, strtod, s, p) ==
            Done(Field(key, c.Keep(ToValue(l))), p + |KeyText(key, indent)| + |Body(format, l, indent)|)
    decreases l, 3
  {
    hide Parse, At, SkipSpace, ReadsIntegers, Body, Key, KeyText, Context.Keep;
    KeyReads(s, p, key, indent);
    var q := p + |KeyText(key, indent)|;
    BodyReads(c, strtod, format, s, q, l, indent);
    ParseSkips(c, strtod, s, Key(s, p).next, q);
  }

  lemma {:induction false} MembersRead(
    c: Context, strtod: Strtod, format: Format, s: Text, p: nat, l: Listing, k: nat, indent: int, members: map<Text, Value>)
    requires indent >= -1 && ReadsIntegers(strtod) && Printable(strtod, format, l) && l.ObjectNode? && k < |l.entries|
    requires At(s, p, EntriesFrom(format, l, k, indent))
    requires c.DefaultContext? ==> members == MemberValues(l, k)
    ensures p <= |s| && Members(c, strtod, s, p, members) ==
            Done(c.Keep(Object(MemberValues(l, |l.entries|))), p + |EntriesFrom(format, l, k, indent)|)
    decreases l, 0, |l.entries| - k
  {
    hide Members, Member, EntriesFrom, Parse, At, SkipSpace, ReadsIntegers, Body, Indent, KeyText;
    var deeper, key, value := Deeper(indent), l.entries[k].key, l.entries[k].value;
    var lead, item, tail := KeyText(key, deeper), Body(format, value, deeper), EntryTail(format, l, k, indent);
    EntriesSplit(format, l, k, indent);
    AtSplit(s, p, lead, item + tail);
    AtSplit(s, p + |lead|, item, tail);
    AtEnds(s, p + |lead|, item);
    var q, v := p + |lead| + |item|, ToValue(value);
    assert c.DefaultContext? ==> c.Put(members, key, v) == MemberValues(l, k + 1);
    if k + 1 < |l.entries| {
      var next := EntriesFrom(format, l, k + 1, indent);
      var z := CommaReads(s, q, deeper, next);
      EntryReads(c, strtod, format, s, p, key, value, deeper);
      EntryThenMore(c, strtod, s, p, q, z, members, key, v);
      MembersRead(c, strtod, format, s, z, l, k + 1, indent, c.Put(members, key, v));
    } else {
      CloseReads(s, q, Indent(indent), indent, RIGHT_BRACE);
      EntryReads(c, strtod, format, s, p, key, value, deeper);
      EntryThenClose(c, strtod, s, p, q, members, key, v);
    }
  }

  lemma EntryThenMore(
    c: Context, strtod: Strtod, s: Text, p: nat, q: nat, z: nat, members: map<Text, Value>, key: Text, v: Value)
    requires p <= |s| && q < |s| && z <= |s| && Member(c, strtod, s, p) == Done(Field(key, c.Keep(v)), q)
    requires SkipSpace(s, q) == q && CharAt(s, q) == COMMA && SkipSpace(s, q + 1) == SkipSpace(s, z)
    ensures Members(c, strtod, s, p, members) == Members(c, strtod, s, z, c.Put(members, key, v))
  {
    hide Members, Member, SkipSpace;
    MembersTurn(c, strtod, s, p, members);
    MembersSkip(c, strtod, s, q + 1, z, c.Put(members, key, v));
  }

  lemma EntryThenClose(
    c: Context, strtod: Strtod, s: Text, p: nat, q: nat, members: map<Text, Value>, key: Text, v: Value)
    requires p <= |s| && q <= |s| && Member(c, strtod, s, p) == Done(Field(key, c.Keep(v)), q)
    requires CharAt(s, SkipSpace(s, q)) == RIGHT_BRACE
    ensures Members(c, strtod, s, p, members) == Done(c.Keep(Object(c.Put(members, key, v))), SkipSpace(s, q) + 1)
  {
    hide Members, Member, SkipSpace;
    MembersTurn(c, strtod, s, p, members);
  }

  lemma MemberSkips(c: Context, strtod: Strtod, s: Text, p: nat, q: nat)
    requires p <= |s| && q <= |s| && SkipSpace(s, p) == SkipSpace(s, q)
    ensures Member(c, strtod, s, p) == Member(c, strtod, s, q)
  {
    hide Parse, SkipSpace, String;
    assert Key(s, p) == Key(s, q);
  }

  lemma MembersSkip(c: Context, strtod: Strtod, s: Text, p: nat, q: nat, members: map<Text, Value>)
    requires p <= |s| && q <= |s| && SkipSpace(s, p) == SkipSpace(s, q)
    ensures Members(c, strtod, s, p, members) == Members(c, strtod, s, q, members)
  {
    hide Members, Member, Parse, SkipSpace;
    MemberSkips(c, strtod, s, p, q);
    MembersTurn(c, strtod, s, p, members);
    MembersTurn(c, strtod, s, q, members);
  }

  // ---- the theorems ----

  /**
   Parsing the compact or the pretty text of a value, in any order of its members and whatever comes
   after it that does not continue a number, gives the value back and stops after its last character:
   before the newline that ends a pretty text.
   */
  lemma RoundTrip(c: Context, strtod: Strtod, format: Format, l: Listing, prettify: bool, after: Text)
    requires ReadsIntegers(strtod) && Printable(strtod, format, l)
    requires l.NumberNode? ==> prettify || after == [] || !IsNumberChar(after[0])
    ensures var text := Print(format, l, if prettify then 0 else -1);
            Parse(c, strtod, text + after, 0) == Done(c.Keep(ToValue(l)), |text| - if prettify then 1 else 0)
  {
    hide Parse, At, ReadsIntegers, Printable, Body;
    var indent := if prettify then 0 else -1;
    var body, text := Body(format, l, indent), Print(format, l, indent);
    var s := text + after;
    assert s[..|body|] == body;
    AtHead(s, body);
    BodyReads(c, strtod, format, s, 0, l, indent);
  }

  lemma AtHead(s: Text, t: Text)
    requires |t| <= |s| && s[..|t|] == t
    ensures At(s, 0, t)
  {}

  /** Two listings with the same text list the same value. */
  lemma PrintIsInjective(strtod: Strtod, format: Format, l: Listing, m: Listing, prettify: bool)
    requires ReadsIntegers(strtod) && Printable(strtod, format, l) && Printable(strtod, format, m)
    requires Print(format, l, if prettify then 0 else -1) == Print(format, m, if prettify then 0 else -1)
    ensures ToValue(l) == ToValue(m)
  {
    hide Parse, ReadsIntegers, Printable, Print;
    RoundTrip(DefaultContext, strtod, format, l, prettify, []);
    RoundTrip(DefaultContext, strtod, format, m, prettify, []);
  }

  // ---- every value has listings, in every order of its members ----

  predicate DistinctKeys(entries: seq<Entry>) {
    forall i, j :: 0 <= i < j < |entries| ==> entries[i].key != entries[j].key
  }

  lemma {:induction false} MembersOf(l: Listing, k: nat)
    requires l.ObjectNode? && k <= |l.entries| && DistinctKeys(l.entries)
    ensures forall i :: 0 <= i < k ==>
              l.entries[i].key in MemberValues(l, k) && MemberValues(l, k)[l.entries[i].key] == ToValue(l.entries[i].value)
    ensures forall key :: key in MemberValues(l, k) ==> exists i :: 0 <= i < k && l.entries[i].key == key
  {
    hide ToValue;
    if k > 0 { MembersOf(l, k - 1); }
  }

  /** The order of iteration does not matter. */
  lemma OrderIsFree(l: Listing, m: Listing)
    requires l.ObjectNode? && m.ObjectNode? && DistinctKeys(l.entries) && DistinctKeys(m.entries)
    requires forall e :: e in l.entries <==> e in m.entries
    ensures ToValue(l) == ToValue(m)
  {
    hide MemberValues;
    var a, b := MemberValues(l, |l.entries|), MemberValues(m, |m.entries|);
    SameMembers(l, m);
    SameMembers(m, l);
    assert a.Keys == b.Keys;
  }

  lemma SameMembers(l: Listing, m: Listing)
    requires l.ObjectNode? && m.ObjectNode? && DistinctKeys(l.entries) && DistinctKeys(m.entries)
    requires forall e :: e in l.entries ==> e in m.entries
    ensures var a, b := MemberValues(l, |l.entries|), MemberValues(m, |m.entries|);
            a.Keys <= b.Keys && forall key :: key in a ==> key in b && a[key] == b[key]
  {
    hide MemberValues, ToValue;
    MembersOf(l, |l.entries|);
    MembersOf(m, |m.entries|);
    forall key | key in MemberValues(l, |l.entries|)
      ensures key in MemberValues(m, |m.entries|)
      ensures MemberValues(l, |l.entries|)[key] == MemberValues(m, |m.entries|)[key]
    {
      var i :| 0 <= i < |l.entries| && l.entries[i].key == key;
      assert l.entries[i] in m.entries;
    }
  }

  /** Every value can be listed. */
  lemma {:induction false} ListingExists(v: Value) returns (l: Listing)
    ensures ToValue(l) == v
    decreases v, 1
  {
    match v
    case Null => l := NullNode;
    case Bool(b) => l := BoolNode(b);
    case Number(x) => l := NumberNode(x);
    case Str(bytes) => l := StringNode(bytes);
    case Array(items) =>
      var nodes: seq<Listing> := [];
      for k := 0 to |items|
        invariant |nodes| == k && forall i :: 0 <= i < k ==> ToValue(nodes[i]) == items[i]
      {
        var node := ListingExists(items[k]);
        nodes := nodes + [node];
      }
      l := ArrayNode(nodes);
      ItemValuesAre(l, 0);
    case Object(members) =>
      var entries := EntriesExist(v);
      l := ObjectNode(entries);
      MembersOf(l, |entries|);
      assert MemberValues(l, |entries|) == members;
  }

  lemma {:induction false} EntriesExist(v: Value) returns (entries: seq<Entry>)
    requires v.Object?
    ensures DistinctKeys(entries)
    ensures forall i :: 0 <= i < |entries| ==>
              entries[i].key in v.members && ToValue(entries[i].value) == v.members[entries[i].key]
    ensures forall key :: key in v.members ==> exists i :: 0 <= i < |entries| && entries[i].key == key
    decreases v, 0
  {
    hide ToValue;
    entries := [];
    var left := v.members.Keys;
    while left != {}
      invariant left <= v.members.Keys && DistinctKeys(entries)
      invariant forall i :: 0 <= i < |entries| ==> entries[i].key in v.members && entries[i].key !in left
      invariant forall i :: 0 <= i < |entries| ==> ToValue(entries[i].value) == v.members[entries[i].key]
      invariant forall key :: key in v.members && key !in left ==> exists i :: 0 <= i < |entries| && entries[i].key == key
      decreases left
    {
      var key :| key in left;
      var node := ListingExists(v.members[key]);
      ghost var before := entries;
      entries := entries + [Entry(key, node)];
      left := left - {key};
      assert entries[|before|].key == key;
      assert forall i :: 0 <= i < |before| ==> entries[i] == before[i];
    }
  }

  lemma {:induction false} ItemValuesAre(l: Listing, k: nat)
    requires l.ArrayNode? && k <= |l.items|
    ensures |ItemValues(l, k)| == |l.items| - k
    ensures forall i :: k <= i < |l.items| ==> ItemValues(l, k)[i - k] == ToValue(l.items[i])
    decreases |l.items| - k
  {
    hide ToValue;
    if k < |l.items| { ItemValuesAre(l, k + 1); }
  }
}
