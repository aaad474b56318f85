/** 3rdparty/picojson/picojson.h: what is printed is JSON, compact without white space, pretty with its lines indented. */
module JsonPrinted {
  import opened JsonInput
  import opened JsonStrings
  import opened JsonEscapes
  import opened JsonParser
  import opened JsonPrinter
  import opened JsonRoundTrip
  import opened JsonGrammar

  // ---- the derivation of a printed value ----

  /** A line break before a line with so many brackets open; nothing in compact form. */
  function Break(pretty: bool, depth: nat): Text {
    if pretty then [NEWLINE] + seq(2 * depth, i => SPACE) else []
  }

  function PieceFor(c: Byte): Piece {
    if ShortEscape(c) != -1 then Short(ShortEscape(c))
    else if c < SPACE || c == 0x7f then Unicode([BACKSLASH, LOWER_U, ZERO, ZERO, LowerHex(c / 16), LowerHex(c % 16)], c)
    else Raw(c)
  }

  function PiecesFor(bytes: Text): seq<Piece> {
    if bytes == [] then [] else [PieceFor(bytes[0])] + PiecesFor(bytes[1..])
  }

  /** A listing as written inside `depth` brackets. */
  function DocFor(format: Format, l: Listing, pretty: bool, depth: nat): Doc
    decreases l, 1
  {
    match l
    case NullNode => NullDoc
    case BoolNode(b) => BoolDoc(b)
    case NumberNode(x) => NumberDoc(NumberText(format, x))
    case StringNode(bytes) => StringDoc(PiecesFor(bytes))
    case ArrayNode(items) => if items == [] then EmptyArray([]) else ArrayDoc(ItemsFor(format, l, 0, pretty, depth))
    case ObjectNode(entries) =>
      if entries == [] then EmptyObject([]) else ObjectDoc(EntriesFor(format, l, 0, pretty, depth))
  }

  /** Every item on a line of its own, and so the closing bracket. */
  function ItemsFor(format: Format, l: Listing, k: nat, pretty: bool, depth: nat): ItemList
    requires l.ArrayNode? && k < |l.items|
    decreases l, 0, |l.items| - k
  {
    var d := DocFor(format, l.items[k], pretty, depth + 1);
    if k + 1 == |l.items| then LastItem(Slot(Break(pretty, depth + 1), d, Break(pretty, depth)))
    else MoreItems(Slot(Break(pretty, depth + 1), d, []), ItemsFor(format, l, k + 1, pretty, depth))
  }

  /** The same for entries, with a space after each colon. */
  function EntriesFor(format: Format, l: Listing, k: nat, pretty: bool, depth: nat): EntryList
    requires l.ObjectNode? && k < |l.entries|
    decreases l, 0, |l.entries| - k
  {
    var name := Name(Break(pretty, depth + 1), PiecesFor(l.entries[k].key), []);
    var d, gap := DocFor(format, l.entries[k].value, pretty, depth + 1), if pretty then [SPACE] else [];
    if k + 1 == |l.entries| then LastEntry(name, Slot(gap, d, Break(pretty, depth)))
    else MoreEntries(name, Slot(gap, d, []), EntriesFor(format, l, k + 1, pretty, depth))
  }

  // ---- numbers ----

  lemma {:induction false} NoLeadingZero(n: nat)
    ensures n > 0 ==> NatText(n)[0] != ZERO
    ensures |NatText(n)| > 0 && (n < 10 ==> |NatText(n)| == 1)
  {
    if n >= 10 { NoLeadingZero(n / 10); }
  }

  /** An integer is printed as its sign and its digits, without a leading zero, a fraction or an exponent. */
  lemma IntTextIsPlain(n: int)
    ensures var parts := Parts(n < 0, NatText(if n < 0 then -n else n), [], [], []);
            parts.Valid() && parts.AsText() == IntText(n)
    ensures IsJsonNumber(IntText(n))
  {
    var m := if n < 0 then -n else n;
    NoLeadingZero(m);
    NatTextReads(m);
    var parts := Parts(n < 0, NatText(m), [], [], []);
    assert parts.AsText() == IntText(n);
  }

  lemma {:induction false} DigitsAreUnique(t: Text, n: nat)
    requires |t| > 0 && AllDigits(t) && (t[0] == ZERO ==> |t| == 1) && DigitsValue(t) == n
    ensures t == NatText(n)
    decreases |t|
  {
    var m := |t| - 1;
    if m > 0 {
      LeadingDigit(t[..m]);
      DigitsAreUnique(t[..m], DigitsValue(t[..m]));
      assert t == t[..m] + [t[m]];
    } else {
      assert t[..0] == [];
    }
  }

  lemma {:induction false} LeadingDigit(t: Text)
    requires |t| > 0 && AllDigits(t) && t[0] != ZERO
    ensures DigitsValue(t) > 0
  {
    var m := |t| - 1;
    if m > 0 { LeadingDigit(t[..m]); } else { assert t[..0] == []; }
  }

  /** It is the only such text with that value, minus zero apart. */
  lemma IntTextIsUnique(n: int, parts: Parts)
    requires parts.Valid() && parts.fraction == [] && parts.exponent == []
    requires n == if parts.minus then 0 - DigitsValue(parts.whole) else DigitsValue(parts.whole)
    requires parts.minus ==> n != 0
    ensures parts.AsText() == IntText(n)
  {
    DigitsAreUnique(parts.whole, if n < 0 then -n else n);
  }

  // ---- strings ----

  lemma PieceIsPrinted(c: Byte)
    ensures PieceFor(c).Valid() && PieceFor(c).AsText() == PrintedChar(c) && PieceFor(c).Bytes() == [c]
  {
    if ShortEscape(c) == -1 && (c < SPACE || c == 0x7f) {
      FourDigits(0, 0, c / 16, c % 16);
      LowerHexReads(0);
    }
  }

  lemma {:induction false} PiecesArePrinted(bytes: Text)
    ensures AllValid(PiecesFor(bytes)) && Chars(PiecesFor(bytes)) == PrintedChars(bytes)
    ensures Bytes(PiecesFor(bytes)) == bytes
  {
    hide PieceFor, PrintedChar, Piece.Valid, Piece.AsText, Piece.Bytes;
    if bytes != [] {
      PieceIsPrinted(bytes[0]);
      PiecesArePrinted(bytes[1..]);
      assert PiecesFor(bytes)[1..] == PiecesFor(bytes[1..]);
      assert bytes == [bytes[0]] + bytes[1..];
    }
  }

  /** No spelling is shorter than the one printed, but for a bare slash or delete. */
  lemma PrintedIsShortest(c: Byte, piece: Piece)
    requires piece.Valid() && piece.Bytes() == [c] && piece != Raw(SLASH) && piece != Raw(0x7f)
    ensures |PrintedChar(c)| <= |piece.AsText()|
  {}

  /** Neither control characters nor delete, and a backslash before every quote and every slash. */
  predicate IsPlain(t: Text) {
    forall i :: 0 <= i < |t| ==>
      && t[i] >= SPACE && t[i] != 0x7f
      && (t[i] == QUOTE || t[i] == SLASH ==> i > 0 && t[i - 1] == BACKSLASH)
  }

  lemma JoinPlain(t: Text, u: Text)
    requires IsPlain(t) && IsPlain(u)
    ensures IsPlain(t + u)
  {
    var w := t + u;
    forall i | 0 <= i < |w|
      ensures w[i] >= SPACE && w[i] != 0x7f && (w[i] == QUOTE || w[i] == SLASH ==> i > 0 && w[i - 1] == BACKSLASH)
    {
      var k := if i < |t| then i else i - |t|;
      assert w[i] == if i < |t| then t[k] else u[k];
      if k > 0 { assert w[i - 1] == if i < |t| then t[k - 1] else u[k - 1]; }
    }
  }

  lemma {:induction false} PrintedIsPlain(bytes: Text)
    ensures IsPlain(PrintedChars(bytes))
  {
    hide PrintedChar;
    if bytes != [] {
      PlainChar(bytes[0]);
      PrintedIsPlain(bytes[1..]);
      JoinPlain(PrintedChar(bytes[0]), PrintedChars(bytes[1..]));
    }
  }

  lemma PlainChar(c: Byte)
    ensures IsPlain(PrintedChar(c))
  {}

  lemma LiteralIsPrinted(bytes: Text)
    ensures Literal(PiecesFor(bytes)) == PrintedString(bytes)
  {
    PiecesArePrinted(bytes);
  }

  // ---- the text ----

  lemma {:induction false} SpacesAreSeq(n: nat)
    ensures Spaces(n) == seq(n, i => SPACE)
  {
    SpacesAre(n);
  }

  function IndentOf(pretty: bool, depth: nat): int { if pretty then depth else -1 }

  lemma BreakIsIndent(pretty: bool, depth: nat)
    ensures Break(pretty, depth) == Indent(IndentOf(pretty, depth))
    ensures Deeper(IndentOf(pretty, depth)) == IndentOf(pretty, depth + 1)
  {
    SpacesAreSeq(depth * 2);
  }

  /** The printed text is that of the derivation. */
  lemma {:induction false} BodyIsDoc(format: Format, l: Listing, pretty: bool, depth: nat)
    ensures Body(format, l, IndentOf(pretty, depth)) == DocText(DocFor(format, l, pretty, depth))
    decreases l, 2
  {
    hide PrintedString, PiecesFor, Literal, NumberText, Indent, Break;
    BreakIsIndent(pretty, depth);
    match l
    case StringNode(bytes) => LiteralIsPrinted(bytes);
    case ArrayNode(items) =>
      if items != [] {
        ItemsAreDoc(format, l, 0, pretty, depth);
        FirstItemText(format, l, IndentOf(pretty, depth));
      }
    case ObjectNode(entries) =>
      if entries != [] {
        EntriesAreDoc(format, l, 0, pretty, depth);
        FirstEntryText(format, l, IndentOf(pretty, depth));
      }
    case _ =>
  }

  lemma FirstItemText(format: Format, l: Listing, indent: int)
    requires l.ArrayNode? && l.items != [] && indent >= -1
    ensures Body(format, l, indent) == [LEFT_BRACKET] + (Indent(Deeper(indent)) + ItemsFrom(format, l, 0, indent))
  {
    hide Print, Indent, ItemsEnd;
    assert ItemTexts(format, l, 0, Deeper(indent)) + ItemsEnd(l, indent)
        == Indent(Deeper(indent)) + ItemsFrom(format, l, 0, indent);
  }

  lemma FirstEntryText(format: Format, l: Listing, indent: int)
    requires l.ObjectNode? && l.entries != [] && indent >= -1
    ensures Body(format, l, indent) == [LEFT_BRACE] + (Indent(Deeper(indent)) + EntriesFrom(format, l, 0, indent))
  {
    hide Print, Indent, EntriesEnd, KeyText;
    assert EntryTexts(format, l, 0, Deeper(indent)) + EntriesEnd(l, indent)
        == Indent(Deeper(indent)) + EntriesFrom(format, l, 0, indent);
  }

  lemma {:induction false} ItemsAreDoc(format: Format, l: Listing, k: nat, pretty: bool, depth: nat)
    requires l.ArrayNode? && k < |l.items|
    ensures Indent(IndentOf(pretty, depth + 1)) + ItemsFrom(format, l, k, IndentOf(pretty, depth))
         == ItemsText(ItemsFor(format, l, k, pretty, depth))
    decreases l, 1, |l.items| - k
  {
    hide Body, DocText, DocFor, ItemsFrom, Indent, Break;
    var indent := IndentOf(pretty, depth);
    BreakIsIndent(pretty, depth);
    BreakIsIndent(pretty, depth + 1);
    ItemsSplit(format, l, k, indent);
    BodyIsDoc(format, l.items[k], pretty, depth + 1);
    if k + 1 < |l.items| { ItemsAreDoc(format, l, k + 1, pretty, depth); }
  }

  lemma {:induction false} EntriesAreDoc(format: Format, l: Listing, k: nat, pretty: bool, depth: nat)
    requires l.ObjectNode? && k < |l.entries|
    ensures Indent(IndentOf(pretty, depth + 1)) + EntriesFrom(format, l, k, IndentOf(pretty, depth))
         == EntriesText(EntriesFor(format, l, k, pretty, depth))
    decreases l, 1, |l.entries| - k
  {
    hide Body, DocText, DocFor, EntriesFrom, Indent, Break, KeyText, PiecesFor, NameText, SlotText;
    var indent, key := IndentOf(pretty, depth), l.entries[k].key;
    BreakIsIndent(pretty, depth);
    BreakIsIndent(pretty, depth + 1);
    EntriesSplit(format, l, k, indent);
    BodyIsDoc(format, l.entries[k].value, pretty, depth + 1);
    var entries := EntriesFor(format, l, k, pretty, depth);
    if k + 1 < |l.entries| {
      EntriesAreDoc(format, l, k + 1, pretty, depth);
      EntryIsDoc(key, pretty, depth, entries.slot, [COMMA] + EntriesText(entries.rest));
      assert EntryTail(format, l, k, indent) == [COMMA] + EntriesText(entries.rest);
      assert [] + ([COMMA] + EntriesText(entries.rest)) == [COMMA] + EntriesText(entries.rest);
    } else {
      EntryIsDoc(key, pretty, depth, entries.slot, [RIGHT_BRACE]);
    }
  }

  /** A key and its value, as printed and as derived. */
  lemma EntryIsDoc(key: Text, pretty: bool, depth: nat, slot: Slot, rest: Text)
    requires slot.before == if pretty then [SPACE] else []
    ensures Indent(IndentOf(pretty, depth + 1))
            + (KeyText(key, IndentOf(pretty, depth + 1)) + (DocText(slot.value) + (slot.after + rest)))
         == NameText(Name(Break(pretty, depth + 1), PiecesFor(key), [])) + (SlotText(slot) + rest)
  {
    hide DocText, Indent, Break, PrintedString, Literal, PiecesFor;
    BreakIsIndent(pretty, depth + 1);
    LiteralIsPrinted(key);
    var a, b, c := Break(pretty, depth + 1), Literal(PiecesFor(key)), DocText(slot.value);
    assert KeyText(key, IndentOf(pretty, depth + 1)) == b + ([COLON] + slot.before);
    Regroup(a, b, slot.before, c, slot.after, rest);
  }

  lemma Regroup(a: Text, b: Text, gap: Text, c: Text, d: Text, rest: Text)
    ensures a + ((b + ([COLON] + gap)) + (c + (d + rest))) == (a + (b + ([] + [COLON]))) + ((gap + (c + d)) + rest)
  {
    assert [] + [COLON] == [COLON];
  }

  // ---- it is JSON ----

  /** The numbers that are not printed as integers are printed as numbers of RFC 8259. */
  ghost predicate PrintsNumbers(format: Format) { forall x :: !IsSmallInteger(x) ==> IsJsonNumber(format(x)) }

  lemma BreakIsGap(pretty: bool, depth: nat)
    ensures IsGap(Break(pretty, depth))
  {}

  lemma NumberIsJson(format: Format, x: real)
    requires PrintsNumbers(format)
    ensures IsJsonNumber(NumberText(format, x))
  {
    hide IsJsonNumber, IntText;
    if IsSmallInteger(x) { IntTextIsPlain(x.Floor); }
  }

  lemma {:induction false} DocIsValid(format: Format, l: Listing, pretty: bool, depth: nat)
    requires PrintsNumbers(format)
    ensures Valid(IsJsonNumber, DocFor(format, l, pretty, depth))
    decreases l, 1
  {
    hide PrintsNumbers, IsJsonNumber, NumberText, PiecesFor;
    match l
    case NumberNode(x) => NumberIsJson(format, x);
    case StringNode(bytes) => PiecesArePrinted(bytes);
    case ArrayNode(items) => if items != [] { ItemsAreValid(format, l, 0, pretty, depth); }
    case ObjectNode(entries) => if entries != [] { EntriesAreValid(format, l, 0, pretty, depth); }
    case _ =>
  }

  lemma {:induction false} ItemsAreValid(format: Format, l: Listing, k: nat, pretty: bool, depth: nat)
    requires PrintsNumbers(format) && l.ArrayNode? && k < |l.items|
    ensures ItemsValid(IsJsonNumber, ItemsFor(format, l, k, pretty, depth))
    decreases l, 0, |l.items| - k
  {
    hide PrintsNumbers, IsJsonNumber, DocFor, Valid, Break;
    BreakIsGap(pretty, depth);
    BreakIsGap(pretty, depth + 1);
    DocIsValid(format, l.items[k], pretty, depth + 1);
    if k + 1 < |l.items| { ItemsAreValid(format, l, k + 1, pretty, depth); }
  }

  lemma {:induction false} EntriesAreValid(format: Format, l: Listing, k: nat, pretty: bool, depth: nat)
    requires PrintsNumbers(format) && l.ObjectNode? && k < |l.entries|
    ensures EntriesValid(IsJsonNumber, EntriesFor(format, l, k, pretty, depth))
    decreases l, 0, |l.entries| - k
  {
    hide PrintsNumbers, IsJsonNumber, DocFor, Valid, Break, PiecesFor;
    BreakIsGap(pretty, depth);
    BreakIsGap(pretty, depth + 1);
    PiecesArePrinted(l.entries[k].key);
    DocIsValid(format, l.entries[k].value, pretty, depth + 1);
    if k + 1 < |l.entries| { EntriesAreValid(format, l, k + 1, pretty, depth); }
  }

  // ---- white space ----

  /** The derivation without its white space. */
  function Squeezed(d: Doc): Doc {
    match d
    case EmptyArray(_) => EmptyArray([])
    case ArrayDoc(items) => ArrayDoc(SqueezedItems(items))
    case EmptyObject(_) => EmptyObject([])
    case ObjectDoc(entries) => ObjectDoc(SqueezedEntries(entries))
    case _ => d
  }

  function SqueezedSlot(slot: Slot): Slot { Slot([], Squeezed(slot.value), []) }

  function SqueezedItems(items: ItemList): ItemList {
    match items
    case LastItem(slot) => LastItem(SqueezedSlot(slot))
    case MoreItems(slot, rest) => MoreItems(SqueezedSlot(slot), SqueezedItems(rest))
  }

  function SqueezedEntries(entries: EntryList): EntryList {
    match entries
    case LastEntry(name, slot) => LastEntry(Name([], name.chars, []), SqueezedSlot(slot))
    case MoreEntries(name, slot, rest) => MoreEntries(Name([], name.chars, []), SqueezedSlot(slot), SqueezedEntries(rest))
  }

  /**
   Each item and entry on a line of its own, indented by two spaces for every bracket open around it, the
   bracket that closes it on a line of its own too, one space after each colon, and nothing else.
   */
  predicate LaidOut(d: Doc, depth: nat) {
    match d
    case EmptyArray(gap) => gap == []
    case ArrayDoc(items) => ItemsLaidOut(items, depth)
    case EmptyObject(gap) => gap == []
    case ObjectDoc(entries) => EntriesLaidOut(entries, depth)
    case _ => true
  }

  predicate ItemsLaidOut(items: ItemList, depth: nat) {
    && items.slot.before == Break(true, depth + 1) && LaidOut(items.slot.value, depth + 1)
    && items.slot.after == (if items.LastItem? then Break(true, depth) else [])
    && (items.MoreItems? ==> ItemsLaidOut(items.rest, depth))
  }

  predicate EntriesLaidOut(entries: EntryList, depth: nat) {
    && entries.name.before == Break(true, depth + 1) && entries.name.after == []
    && entries.slot.before == [SPACE] && LaidOut(entries.slot.value, depth + 1)
    && entries.slot.after == (if entries.LastEntry? then Break(true, depth) else [])
    && (entries.MoreEntries? ==> EntriesLaidOut(entries.rest, depth))
  }

  lemma {:induction false} DocLayout(format: Format, l: Listing, depth: nat)
    ensures LaidOut(DocFor(format, l, true, depth), depth)
    ensures Squeezed(DocFor(format, l, true, depth)) == DocFor(format, l, false, depth)
         == Squeezed(DocFor(format, l, false, depth))
    decreases l, 1
  {
    hide Break, NumberText, PiecesFor;
    match l
    case ArrayNode(items) => if items != [] { ItemsLayout(format, l, 0, depth); }
    case ObjectNode(entries) => if entries != [] { EntriesLayout(format, l, 0, depth); }
    case _ =>
  }

  lemma NoBreak(depth: nat)
    ensures Break(false, depth) == []
  {}

  lemma {:induction false} ItemsLayout(format: Format, l: Listing, k: nat, depth: nat)
    requires l.ArrayNode? && k < |l.items|
    ensures ItemsLaidOut(ItemsFor(format, l, k, true, depth), depth)
    ensures SqueezedItems(ItemsFor(format, l, k, true, depth)) == ItemsFor(format, l, k, false, depth)
         == SqueezedItems(ItemsFor(format, l, k, false, depth))
    decreases l, 0, |l.items| - k
  {
    hide Break, DocFor, LaidOut, Squeezed;
    NoBreak(depth);
    NoBreak(depth + 1);
    DocLayout(format, l.items[k], depth + 1);
    if k + 1 < |l.items| { ItemsLayout(format, l, k + 1, depth); }
  }

  lemma {:induction false} EntriesLayout(format: Format, l: Listing, k: nat, depth: nat)
    requires l.ObjectNode? && k < |l.entries|
    ensures EntriesLaidOut(EntriesFor(format, l, k, true, depth), depth)
    ensures SqueezedEntries(EntriesFor(format, l, k, true, depth)) == EntriesFor(format, l, k, false, depth)
         == SqueezedEntries(EntriesFor(format, l, k, false, depth))
    decreases l, 0, |l.entries| - k
  {
    hide Break, DocFor, LaidOut, Squeezed, PiecesFor;
    NoBreak(depth);
    NoBreak(depth + 1);
    DocLayout(format, l.entries[k].value, depth + 1);
    if k + 1 < |l.entries| { EntriesLayout(format, l, k + 1, depth); }
  }

  /** There is one layout for each text. */
  lemma {:induction false} LayoutIsUnique(d: Doc, e: Doc, depth: nat)
    requires LaidOut(d, depth) && LaidOut(e, depth) && Squeezed(d) == Squeezed(e)
    ensures d == e
    decreases d
  {
    hide Break;
    match d
    case ArrayDoc(items) => ItemsLayoutIsUnique(items, e.items, depth);
    case ObjectDoc(entries) => EntriesLayoutIsUnique(entries, e.entries, depth);
    case _ =>
  }

  lemma {:induction false} ItemsLayoutIsUnique(a: ItemList, b: ItemList, depth: nat)
    requires ItemsLaidOut(a, depth) && ItemsLaidOut(b, depth) && SqueezedItems(a) == SqueezedItems(b)
    ensures a == b
    decreases a
  {
    hide Break;
    LayoutIsUnique(a.slot.value, b.slot.value, depth + 1);
    if a.MoreItems? { ItemsLayoutIsUnique(a.rest, b.rest, depth); }
  }

  lemma {:induction false} EntriesLayoutIsUnique(a: EntryList, b: EntryList, depth: nat)
    requires EntriesLaidOut(a, depth) && EntriesLaidOut(b, depth) && SqueezedEntries(a) == SqueezedEntries(b)
    ensures a == b
    decreases a
  {
    hide Break;
    LayoutIsUnique(a.slot.value, b.slot.value, depth + 1);
    if a.MoreEntries? { EntriesLayoutIsUnique(a.rest, b.rest, depth); }
  }

  // ---- the theorem ----

  /**
   The text of every listing is a text of RFC 8259. The compact one has no white space between its tokens,
   and the pretty one is the same with its lines laid out, and a newline at the end.
   */
  lemma PrintedIsJson(format: Format, l: Listing)
    requires PrintsNumbers(format)
    ensures var compact, pretty := DocFor(format, l, false, 0), DocFor(format, l, true, 0);
            && Valid(IsJsonNumber, compact) && Valid(IsJsonNumber, pretty)
            && Print(format, l, -1) == DocText(compact) && Print(format, l, 0) == DocText(pretty) + [NEWLINE]
            && Squeezed(compact) == compact == Squeezed(pretty) && LaidOut(pretty, 0)
  {
    hide Body, DocText, DocFor, Valid, LaidOut, Squeezed, PrintsNumbers;
    DocIsValid(format, l, false, 0);
    DocIsValid(format, l, true, 0);
    BodyIsDoc(format, l, false, 0);
    BodyIsDoc(format, l, true, 0);
    DocLayout(format, l, 0);
  }
}
