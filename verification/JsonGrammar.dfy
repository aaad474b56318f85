/**
 The texts that 3rdparty/picojson/picojson.h accepts, as a grammar: that of sections 2 to 7 of RFC 8259, with any
 white space between tokens and any spelling of the characters of a string, and with looser numbers.
 */
module JsonGrammar {
  import opened JsonInput
  import opened JsonStrings
  import opened JsonEscapes
  import opened JsonParser
  import opened JsonRoundTrip
  import opened Utf8

  // ---- derivations ----

  /** One character of a string literal as written: a byte, a short escape, or a \u escape or pair of them. */
  datatype Piece = Raw(b: Byte) | Short(letter: Byte) | Unicode(escape: Text, c: int) {
    /** Section 7 of RFC 8259, on the bytes of a UTF-8 text. */
    predicate Valid() {
      match this
      case Raw(b) => b >= SPACE && b != QUOTE && b != BACKSLASH
      case Short(letter) => Unescaped(letter) != -1
      case Unicode(escape, c) => Spells(escape, c)
    }

    function AsText(): Text {
      match this
      case Raw(b) => [b]
      case Short(letter) => [BACKSLASH, letter]
      case Unicode(escape, _) => escape
    }

    /** What it stands for; nothing if it is not valid. */
    function Bytes(): Text {
      match this
      case Raw(b) => [b]
      case Short(letter) => if Unescaped(letter) == -1 then [] else [Unescaped(letter)]
      case Unicode(_, c) => if IsScalar(c) then Encode(c) else []
    }
  }

  datatype Doc =
    | NullDoc
    | BoolDoc(b: bool)
    | NumberDoc(t: Text)
    | StringDoc(chars: seq<Piece>)
    | EmptyArray(gap: Text)
    | ArrayDoc(items: ItemList)
    | EmptyObject(gap: Text)
    | ObjectDoc(entries: EntryList)

  /** A value between white space. */
  datatype Slot = Slot(before: Text, value: Doc, after: Text)

  /** A key between white space. */
  datatype Name = Name(before: Text, chars: seq<Piece>, after: Text)

  datatype ItemList = LastItem(slot: Slot) | MoreItems(slot: Slot, rest: ItemList)

  datatype EntryList = LastEntry(name: Name, slot: Slot) | MoreEntries(name: Name, slot: Slot, rest: EntryList)

  // ---- their texts ----

  function Chars(chars: seq<Piece>): Text {
    if chars == [] then [] else chars[0].AsText() + Chars(chars[1..])
  }

  function Literal(chars: seq<Piece>): Text { [QUOTE] + (Chars(chars) + [QUOTE]) }

  function DocText(d: Doc): Text {
    match d
    case NullDoc => [LOWER_N] + ULL
    case BoolDoc(b) => if b then [LOWER_T] + RUE else [LOWER_F] + ALSE
    case NumberDoc(t) => t
    case StringDoc(chars) => Literal(chars)
    case EmptyArray(gap) => [LEFT_BRACKET] + (gap + [RIGHT_BRACKET])
    case ArrayDoc(items) => [LEFT_BRACKET] + ItemsText(items)
    case EmptyObject(gap) => [LEFT_BRACE] + (gap + [RIGHT_BRACE])
    case ObjectDoc(entries) => [LEFT_BRACE] + EntriesText(entries)
  }

  function SlotText(slot: Slot): Text { slot.before + (DocText(slot.value) + slot.after) }

  function NameText(name: Name): Text { name.before + (Literal(name.chars) + (name.after + [COLON])) }

  /** What follows the left bracket. */
  function ItemsText(items: ItemList): Text {
    match items
    case LastItem(slot) => SlotText(slot) + [RIGHT_BRACKET]
    case MoreItems(slot, rest) => SlotText(slot) + ([COMMA] + ItemsText(rest))
  }

  /** What follows the left brace. */
  function EntriesText(entries: EntryList): Text {
    match entries
    case LastEntry(name, slot) => NameText(name) + (SlotText(slot) + [RIGHT_BRACE])
    case MoreEntries(name, slot, rest) => NameText(name) + (SlotText(slot) + ([COMMA] + EntriesText(rest)))
  }

  // ---- their validity, given what a number is ----

  predicate IsGap(t: Text) { forall i :: 0 <= i < |t| ==> IsSpace(t[i]) }

  predicate AllValid(chars: seq<Piece>) { forall i :: 0 <= i < |chars| ==> chars[i].Valid() }

  ghost predicate Valid(number: Text -> bool, d: Doc) {
    match d
    case NumberDoc(t) => number(t)
    case StringDoc(chars) => AllValid(chars)
    case EmptyArray(gap) => IsGap(gap)
    case ArrayDoc(items) => ItemsValid(number, items)
    case EmptyObject(gap) => IsGap(gap)
    case ObjectDoc(entries) => EntriesValid(number, entries)
    case _ => true
  }

  ghost predicate SlotValid(number: Text -> bool, slot: Slot) {
    IsGap(slot.before) && Valid(number, slot.value) && IsGap(slot.after)
  }

  predicate NameValid(name: Name) { IsGap(name.before) && AllValid(name.chars) && IsGap(name.after) }

  ghost predicate ItemsValid(number: Text -> bool, items: ItemList) {
    SlotValid(number, items.slot) && (items.MoreItems? ==> ItemsValid(number, items.rest))
  }

  ghost predicate EntriesValid(number: Text -> bool, entries: EntryList) {
    && NameValid(entries.name) && SlotValid(number, entries.slot)
    && (entries.MoreEntries? ==> EntriesValid(number, entries.rest))
  }

  // ---- their values ----

  function Bytes(chars: seq<Piece>): Text {
    if chars == [] then [] else chars[0].Bytes() + Bytes(chars[1..])
  }

  function NumberOf(strtod: Strtod, t: Text): real {
    match strtod(t)
    case Finite(x) => x
    case _ => 0.0
  }

  function DocValue(strtod: Strtod, d: Doc): Value {
    match d
    case NullDoc => Null
    case BoolDoc(b) => Bool(b)
    case NumberDoc(t) => Number(NumberOf(strtod, t))
    case StringDoc(chars) => Str(Bytes(chars))
    case EmptyArray(_) => Array([])
    case ArrayDoc(items) => Array(ItemsValue(strtod, items))
    case EmptyObject(_) => Object(map[])
    case ObjectDoc(entries) => Object(EntriesValue(strtod, entries, map[]))
  }

  function ItemsValue(strtod: Strtod, items: ItemList): seq<Value> {
    [DocValue(strtod, items.slot.value)] + if items.MoreItems? then ItemsValue(strtod, items.rest) else []
  }

  /** A later entry replaces an earlier one of the same name. */
  function EntriesValue(strtod: Strtod, entries: EntryList, members: map<Text, Value>): map<Text, Value> {
    var more := members[Bytes(entries.name.chars) := DocValue(strtod, entries.slot.value)];
    if entries.MoreEntries? then EntriesValue(strtod, entries.rest, more) else more
  }

  // ---- numbers ----

  /** What the parser takes for a number: a run of its characters of which strtod makes a value. */
  predicate Reads(c: Context, strtod: Strtod, t: Text) {
    IsNumberText(t) && (strtod(t).Finite? || (c.NullContext? && strtod(t).Infinite?))
  }

  function Readable(c: Context, strtod: Strtod): Text -> bool { (t: Text) => Reads(c, strtod, t) }

  /** Whatever is taken for a number is a run of its characters. */
  ghost predicate Runs(number: Text -> bool) { forall t :: number(t) ==> IsNumberText(t) }

  lemma NumberRunReads(c: Context, strtod: Strtod, s: Text, p: nat, t: Text)
    requires At(s, p, t) && Reads(c, strtod, t) && !IsNumberChar(CharAt(s, p + |t|))
    ensures Parse(c, strtod, s, p) == Done(c.Keep(Number(NumberOf(strtod, t))), p + |t|)
  {
    hide Parse, NumberEnd, IsNumberText;
    NumberTaken(c, strtod, s, p, t);
  }

  // ---- strings ----

  lemma PieceReads(s: Text, p: nat, piece: Piece, out: Text)
    requires At(s, p, piece.AsText()) && piece.Valid()
    ensures p + |piece.AsText()| <= |s|
    ensures String(s, p, out) == String(s, p + |piece.AsText()|, out + piece.Bytes())
  {
    hide Codepoint, At, Encode, UnitEscape;
    AtEnds(s, p, piece.AsText());
    match piece
    case Raw(_) => AtIndex(s, p, piece.AsText(), 0);
    case Short(_) =>
      AtIndex(s, p, piece.AsText(), 0);
      AtIndex(s, p, piece.AsText(), 1);
    case Unicode(escape, c) => SpelledReads(s, p, escape, c, out);
  }

  lemma {:induction false} CharsRead(s: Text, p: nat, chars: seq<Piece>, out: Text)
    requires At(s, p, Chars(chars) + [QUOTE]) && AllValid(chars)
    ensures String(s, p, out) == Done(out + Bytes(chars), p + |Chars(chars)| + 1)
    decreases |chars|
  {
    hide At, Piece.AsText, Piece.Bytes, Piece.Valid;
    if chars == [] {
      assert Chars(chars) + [QUOTE] == [QUOTE] && out + Bytes(chars) == out;
      AtIndex(s, p, [QUOTE], 0);
    } else {
      var head, tail := chars[0].AsText(), Chars(chars[1..]) + [QUOTE];
      assert Chars(chars) + [QUOTE] == head + tail;
      AtSplit(s, p, head, tail);
      PieceReads(s, p, chars[0], out);
      CharsRead(s, p + |head|, chars[1..], out + chars[0].Bytes());
      assert out + chars[0].Bytes() + Bytes(chars[1..]) == out + Bytes(chars);
    }
  }

  lemma LiteralIsRead(s: Text, p: nat, chars: seq<Piece>)
    requires At(s, p, Literal(chars)) && AllValid(chars)
    ensures p + |Literal(chars)| <= |s| && CharAt(s, p) == QUOTE
    ensures String(s, p + 1, []) == Done(Bytes(chars), p + |Literal(chars)|)
  {
    hide At, String, Chars;
    AtSplit(s, p, [QUOTE], Chars(chars) + [QUOTE]);
    AtIndex(s, p, [QUOTE], 0);
    AtEnds(s, p, Literal(chars));
    CharsRead(s, p + 1, chars, []);
    assert [] + Bytes(chars) == Bytes(chars);
  }

  // ---- white space ----

  lemma GapSkipped(s: Text, p: nat, gap: Text)
    requires At(s, p, gap) && IsGap(gap)
    ensures p + |gap| <= |s| && SkipSpace(s, p) == SkipSpace(s, p + |gap|)
  {
    hide SkipSpace;
    forall i | p <= i < p + |gap| ensures IsSpace(s[i]) {
      assert s[p..p + |gap|][i - p] == s[i];
    }
    SkipsRun(s, p, |gap|);
  }

  /** White space and a character that is none. */
  lemma GapThen(s: Text, p: nat, gap: Text, ch: Byte, rest: Text)
    requires At(s, p, gap + ([ch] + rest)) && IsGap(gap) && !IsSpace(ch)
    ensures p + |gap| < |s| && SkipSpace(s, p) == p + |gap| && CharAt(s, p + |gap|) == ch
    ensures At(s, p + |gap| + 1, rest)
    ensures !IsNumberChar(ch) ==> !IsNumberChar(CharAt(s, p))
  {
    hide SkipSpace, At;
    AtSplit(s, p, gap, [ch] + rest);
    AtSplit(s, p + |gap|, [ch], rest);
    AtIndex(s, p + |gap|, [ch], 0);
    GapSkipped(s, p, gap);
    NoSpace(s, p + |gap|);
    if gap != [] { AtIndex(s, p, gap, 0); }
  }

  /** A value starts with a character that is no white space and closes nothing. */
  lemma DocStart(number: Text -> bool, d: Doc)
    requires Runs(number) && Valid(number, d)
    ensures var t := DocText(d); |t| > 0 && !IsSpace(t[0]) && t[0] != RIGHT_BRACKET && t[0] != RIGHT_BRACE
  {
    hide ItemsText, EntriesText, Chars, ItemsValid, EntriesValid;
  }

  // ---- every text of the grammar is read ----

  /** At any place, what stands there as the text of a derivation parses to its value. */
  lemma {:induction false} DocReads(c: Context, strtod: Strtod, s: Text, p: nat, d: Doc)
    requires At(s, p, DocText(d)) && Valid(Readable(c, strtod), d)
    requires d.NumberDoc? ==> !IsNumberChar(CharAt(s, p + |DocText(d)|))
    ensures Parse(c, strtod, s, p) == Done(c.Keep(DocValue(strtod, d)), p + |DocText(d)|)
    decreases d, 1
  {
    hide Parse, At, Items, Members, ItemsText, EntriesText;
    match d {
      case NullDoc => KeywordReads(c, strtod, s, p, LOWER_N, ULL, Null);
      case BoolDoc(b) =>
        if b { KeywordReads(c, strtod, s, p, LOWER_T, RUE, Bool(true)); }
        else { KeywordReads(c, strtod, s, p, LOWER_F, ALSE, Bool(false)); }
      case NumberDoc(t) => NumberRunReads(c, strtod, s, p, t);
      case StringDoc(chars) => StringIsRead(c, strtod, s, p, chars);
      case EmptyArray(gap) =>
        AtSplit(s, p, [LEFT_BRACKET], gap + [RIGHT_BRACKET]);
        EmptyReads(c, strtod, s, p, gap, RIGHT_BRACKET);
      case ArrayDoc(items) =>
        AtSplit(s, p, [LEFT_BRACKET], ItemsText(items));
        AtIndex(s, p, [LEFT_BRACKET], 0);
        ArrayStarts(Readable(c, strtod), c, strtod, s, p, items);
        ItemsAreRead(c, strtod, s, p + 1, items, []);
        assert [] + ItemsValue(strtod, items) == ItemsValue(strtod, items);
      case EmptyObject(gap) =>
        AtSplit(s, p, [LEFT_BRACE], gap + [RIGHT_BRACE]);
        EmptyReads(c, strtod, s, p, gap, RIGHT_BRACE);
      case ObjectDoc(entries) =>
        AtSplit(s, p, [LEFT_BRACE], EntriesText(entries));
        AtIndex(s, p, [LEFT_BRACE], 0);
        ObjectStarts(Readable(c, strtod), c, strtod, s, p, entries);
        EntriesAreRead(c, strtod, s, p + 1, entries, map[]);
    }
  }

  lemma StringIsRead(c: Context, strtod: Strtod, s: Text, p: nat, chars: seq<Piece>)
    requires At(s, p, Literal(chars)) && AllValid(chars)
    ensures Parse(c, strtod, s, p) == Done(c.Keep(Str(Bytes(chars))), p + |Literal(chars)|)
  {
    hide At, SkipSpace, String, Literal;
    LiteralIsRead(s, p, chars);
    NoSpace(s, p);
  }

  lemma EmptyReads(c: Context, strtod: Strtod, s: Text, p: nat, gap: Text, close: Byte)
    requires close == RIGHT_BRACKET || close == RIGHT_BRACE
    requires At(s, p, [if close == RIGHT_BRACKET then LEFT_BRACKET else LEFT_BRACE]) && At(s, p + 1, gap + [close])
    requires IsGap(gap)
    ensures Parse(c, strtod, s, p) ==
            Done(c.Keep(if close == RIGHT_BRACKET then Array([]) else Object(map[])), p + 2 + |gap|)
  {
    hide At, SkipSpace, String, Items, Members;
    var open := if close == RIGHT_BRACKET then LEFT_BRACKET else LEFT_BRACE;
    AtIndex(s, p, [open], 0);
    NoSpace(s, p);
    assert gap + [close] == gap + ([close] + []);
    GapThen(s, p + 1, gap, close, []);
  }

  /** The first character after the white space is not that of an empty array. */
  lemma ArrayStarts(number: Text -> bool, c: Context, strtod: Strtod, s: Text, p: nat, items: ItemList)
    requires p < |s| && CharAt(s, p) == LEFT_BRACKET && At(s, p + 1, ItemsText(items))
    requires Runs(number) && ItemsValid(number, items)
    ensures Parse(c, strtod, s, p) == Items(c, strtod, s, p + 1, [])
  {
    hide At, SkipSpace, String, Items, Braced, DocText, Valid, Context.Keep;
    NoSpace(s, p);
    var slot := items.slot;
    var tail := slot.after + if items.LastItem? then [RIGHT_BRACKET] else [COMMA] + ItemsText(items.rest);
    assert ItemsText(items) == slot.before + (DocText(slot.value) + tail);
    StartOfSlot(number, s, p + 1, slot, tail);
    var z := p + 1 + |slot.before|;
    ItemsSkip(c, strtod, s, p + 1, z, []);
  }

  lemma StartOfSlot(number: Text -> bool, s: Text, p: nat, slot: Slot, tail: Text)
    requires At(s, p, slot.before + (DocText(slot.value) + tail)) && Runs(number) && SlotValid(number, slot)
    ensures var z := p + |slot.before|;
            && z < |s| && SkipSpace(s, p) == SkipSpace(s, z) == z
            && CharAt(s, z) != RIGHT_BRACKET && CharAt(s, z) != RIGHT_BRACE
  {
    hide At, SkipSpace, DocText, Valid;
    DocStart(number, slot.value);
    AtSplit(s, p, slot.before, DocText(slot.value) + tail);
    AtIndex(s, p + |slot.before|, DocText(slot.value) + tail, 0);
    GapSkipped(s, p, slot.before);
    NoSpace(s, p + |slot.before|);
  }

  /** A value between white space, and the character after it. */
  lemma {:induction false} SlotReads(c: Context, strtod: Strtod, s: Text, p: nat, slot: Slot, ch: Byte, rest: Text)
    requires At(s, p, SlotText(slot) + ([ch] + rest)) && SlotValid(Readable(c, strtod), slot)
    requires !IsSpace(ch) && !IsNumberChar(ch)
    ensures p <= |s|
    ensures var o, z := Parse(c, strtod, s, p), p + |SlotText(slot)|;
            && o.Done? && o.value == c.Keep(DocValue(strtod, slot.value))
            && z < |s| && SkipSpace(s, o.next) == z && CharAt(s, z) == ch && At(s, z + 1, rest)
    decreases slot, 2
  {
    hide At, SkipSpace, DocText, Parse, Valid, DocValue, Context.Keep;
    var text := DocText(slot.value);
    var tail := slot.after + ([ch] + rest);
    assert SlotText(slot) + ([ch] + rest) == slot.before + (text + tail);
    AtEnds(s, p, slot.before + (text + tail));
    StartOfSlot(Readable(c, strtod), s, p, slot, tail);
    AtSplit(s, p, slot.before, text + tail);
    AtSplit(s, p + |slot.before|, text, tail);
    var z := p + |slot.before|;
    GapThen(s, z + |text|, slot.after, ch, rest);
    DocReads(c, strtod, s, z, slot.value);
    ParseSkips(c, strtod, s, p, z);
  }

  lemma {:induction false} ItemsAreRead(c: Context, strtod: Strtod, s: Text, p: nat, items: ItemList, before: seq<Value>)
    requires At(s, p, ItemsText(items)) && ItemsValid(Readable(c, strtod), items)
    ensures p <= |s| && Items(c, strtod, s, p, before) ==
            Done(c.Keep(Array(before + ItemsValue(strtod, items))), p + |ItemsText(items)|)
    decreases items, 3
  {
    hide At, SkipSpace, DocText, SlotText, Parse, Valid, DocValue, Items, SlotValid;
    var slot, v := items.slot, DocValue(strtod, items.slot.value);
    AtEnds(s, p, ItemsText(items));
    ItemsTurn(c, strtod, s, p, before);
    match items
    case LastItem(_) =>
      assert ItemsText(items) == SlotText(slot) + ([RIGHT_BRACKET] + []);
      SlotReads(c, strtod, s, p, slot, RIGHT_BRACKET, []);
      assert ItemsValue(strtod, items) == [v] + [] == [v];
    case MoreItems(_, rest) =>
      SlotReads(c, strtod, s, p, slot, COMMA, ItemsText(rest));
      ItemsAreRead(c, strtod, s, p + |SlotText(slot)| + 1, rest, c.Append(before, v));
      assert (before + [v]) + ItemsValue(strtod, rest) == before + ItemsValue(strtod, items);
  }

  // ---- objects ----

  lemma NameShape(name: Name, rest: Text) returns (quoted: Text)
    ensures var tail := Literal(name.chars) + (name.after + ([COLON] + rest));
            NameText(name) + rest == name.before + tail && tail == [QUOTE] + quoted
  {
    hide Chars;
    quoted := (Chars(name.chars) + [QUOTE]) + (name.after + ([COLON] + rest));
  }

  lemma NameReads(s: Text, p: nat, name: Name, rest: Text)
    requires At(s, p, NameText(name) + rest) && NameValid(name)
    ensures var q := p + |NameText(name)|;
            q <= |s| && Key(s, p) == Done(Bytes(name.chars), q) && At(s, q, rest)
    ensures SkipSpace(s, p) == p + |name.before| && CharAt(s, p + |name.before|) == QUOTE
  {
    hide At, SkipSpace, String, Literal, AllValid, Bytes;
    var literal := Literal(name.chars);
    var tail := name.after + ([COLON] + rest);
    var quoted := NameShape(name, rest);
    AtEnds(s, p, name.before + (literal + tail));
    GapThen(s, p, name.before, QUOTE, quoted);
    AtSplit(s, p, name.before, literal + tail);
    AtSplit(s, p + |name.before|, literal, tail);
    LiteralIsRead(s, p + |name.before|, name.chars);
    GapThen(s, p + |name.before| + |literal|, name.after, COLON, rest);
  }

  lemma ObjectStarts(number: Text -> bool, c: Context, strtod: Strtod, s: Text, p: nat, entries: EntryList)
    requires p < |s| && CharAt(s, p) == LEFT_BRACE && At(s, p + 1, EntriesText(entries))
    requires EntriesValid(number, entries)
    ensures Parse(c, strtod, s, p) == Members(c, strtod, s, p + 1, map[])
  {
    hide At, SkipSpace, String, Members, Bracketed, DocText, SlotText, SlotValid, NameText, NameValid, Context.Keep;
    NoSpace(s, p);
    var name := entries.name;
    var tail := SlotText(entries.slot)
                + if entries.LastEntry? then [RIGHT_BRACE] else [COMMA] + EntriesText(entries.rest);
    assert EntriesText(entries) == NameText(name) + tail;
    NameReads(s, p + 1, name, tail);
    var z := p + 1 + |name.before|;
    NoSpace(s, z);
    MembersSkip(c, strtod, s, p + 1, z, map[]);
  }

  /** A key, its value and the character after it. */
  lemma {:induction false} EntryIsRead(
    c: Context, strtod: Strtod, s: Text, p: nat, name: Name, slot: Slot, ch: Byte, rest: Text)
    requires At(s, p, NameText(name) + (SlotText(slot) + ([ch] + rest)))
    requires NameValid(name) && SlotValid(Readable(c, strtod), slot) && !IsSpace(ch) && !IsNumberChar(ch)
    ensures p <= |s|
    ensures var o, z := Member(c, strtod, s, p), p + |NameText(name)| + |SlotText(slot)|;
            && o.Done? && o.value == Field(Bytes(name.chars), c.Keep(DocValue(strtod, slot.value)))
            && z < |s| && SkipSpace(s, o.next) == z && CharAt(s, z) == ch && At(s, z + 1, rest)
    decreases slot, 3
  {
    hide At, SkipSpace, DocText, NameText, SlotText, Parse, Valid, DocValue, NameValid, SlotValid, Key, Context.Keep;
    AtEnds(s, p, NameText(name) + (SlotText(slot) + ([ch] + rest)));
    NameReads(s, p, name, SlotText(slot) + ([ch] + rest));
    SlotReads(c, strtod, s, p + |NameText(name)|, slot, ch, rest);
  }

  lemma {:induction false} EntriesAreRead(
    c: Context, strtod: Strtod, s: Text, p: nat, entries: EntryList, members: map<Text, Value>)
    requires At(s, p, EntriesText(entries)) && EntriesValid(Readable(c, strtod), entries)
    ensures p <= |s|
    ensures Members(c, strtod, s, p, members) ==
            Done(c.Keep(Object(EntriesValue(strtod, entries, members))), p + |EntriesText(entries)|)
    decreases entries, 4
  {
    hide At, SkipSpace, DocText, NameText, SlotText, Member, Valid, DocValue, Members, SlotValid, NameValid, Bytes;
    var name, slot := entries.name, entries.slot;
    var key, v := Bytes(name.chars), DocValue(strtod, slot.value);
    AtEnds(s, p, EntriesText(entries));
    MembersTurn(c, strtod, s, p, members);
    match entries
    case LastEntry(_, _) =>
      assert EntriesText(entries) == NameText(name) + (SlotText(slot) + ([RIGHT_BRACE] + []));
      EntryIsRead(c, strtod, s, p, name, slot, RIGHT_BRACE, []);
    case MoreEntries(_, _, rest) =>
      EntryIsRead(c, strtod, s, p, name, slot, COMMA, EntriesText(rest));
      EntriesAreRead(c, strtod, s, p + |NameText(name)| + |SlotText(slot)| + 1, rest, c.Put(members, key, v));
      if c.NullContext? { EntriesAreRead(c, strtod, s, p + |NameText(name)| + |SlotText(slot)| + 1, rest, members); }
  }

  // ---- every text that is read is one of the grammar ----

  lemma AtJoin(s: Text, p: nat, t: Text, u: Text)
    requires At(s, p, t) && At(s, p + |t|, u)
    ensures At(s, p, t + u)
  {
    assert s[p..p + |t + u|] == s[p..p + |t|] + s[p + |t|..p + |t| + |u|];
  }

  /** The part of a text between two positions, and what is known to stand there. */
  lemma Stretch(s: Text, p: nat, q: nat) returns (t: Text)
    requires p <= q <= |s|
    ensures At(s, p, t) && |t| == q - p && forall i :: 0 <= i < |t| ==> t[i] == s[p + i]
  {
    t := s[p..q];
  }

  lemma GapAt(s: Text, p: nat) returns (gap: Text)
    requires p <= |s|
    ensures At(s, p, gap) && IsGap(gap) && p + |gap| == SkipSpace(s, p)
  {
    hide At, SkipSpace;
    gap := Stretch(s, p, SkipSpace(s, p));
  }

  lemma CharIsAt(s: Text, p: nat, ch: Byte)
    requires CharAt(s, p) == ch
    ensures At(s, p, [ch])
  {}

  /** An escape that writes a scalar value spells it. */
  lemma WrittenSpells(s: Text, p: nat, c: int) returns (t: Text)
    requires CharAt(s, p) == BACKSLASH && CharAt(s, p + 1) == LOWER_U && c == Written(s, p + 2) && c != -1
    ensures At(s, p, t) && Spells(t, c) && |t| == if c < 0x1_0000 then 6 else 12
  {
    hide Unit, At;
    t := UnitAt(s, p);
    if !IsScalar(Unit(s, p + 2)) {
      var u := UnitAt(s, p + 6);
      AtJoin(s, p, t, u);
      assert (t + u)[..6] == t && (t + u)[6..] == u;
      t := t + u;
    }
  }

  lemma UnitAt(s: Text, p: nat) returns (t: Text)
    requires CharAt(s, p) == BACKSLASH && CharAt(s, p + 1) == LOWER_U && Unit(s, p + 2) != -1
    ensures At(s, p, t) && UnitEscape(t, Unit(s, p + 2)) && |t| == 6
  {
    t := s[p..p + 6];
    assert t[0] == s[p] && t[1] == s[p + 1];
    assert t[2] == s[p + 2] && t[3] == s[p + 3] && t[4] == s[p + 4] && t[5] == s[p + 5];
  }

  /** One character of a literal, whether or not the literal ends well. */
  lemma PieceAt(s: Text, p: nat) returns (piece: Piece)
    requires p <= |s| && CharAt(s, p) >= SPACE && CharAt(s, p) != QUOTE
    requires CharAt(s, p) == BACKSLASH ==> Escape(s, p + 1).Done?
    ensures piece.Valid() && At(s, p, piece.AsText()) && |piece.AsText()| > 0
  {
    hide At, Codepoint, Written, Spells;
    var ch := CharAt(s, p);
    if ch != BACKSLASH {
      piece := Raw(ch);
      CharIsAt(s, p, ch);
    } else if CharAt(s, p + 1) == LOWER_U {
      CodepointMeaning(s, p + 2);
      var c := Written(s, p + 2);
      var escape := WrittenSpells(s, p, c);
      piece := Unicode(escape, c);
    } else {
      var letter := CharAt(s, p + 1);
      piece := Short(letter);
      CharIsAt(s, p, ch);
      CharIsAt(s, p + 1, letter);
      AtJoin(s, p, [ch], [letter]);
      assert [ch] + [letter] == piece.AsText();
    }
  }

  lemma {:induction false} CharsOf(s: Text, p: nat, out: Text) returns (chars: seq<Piece>)
    requires p <= |s| && String(s, p, out).Done?
    ensures AllValid(chars) && At(s, p, Chars(chars) + [QUOTE])
    decreases |s| - p
  {
    hide At, Piece.AsText, Piece.Valid, Piece.Bytes, String;
    if CharAt(s, p) == QUOTE {
      chars := [];
      CharIsAt(s, p, QUOTE);
      assert Chars(chars) + [QUOTE] == [QUOTE];
    } else {
      StringStep(s, p, out);
      var piece := PieceAt(s, p);
      PieceReads(s, p, piece, out);
      var rest := CharsOf(s, p + |piece.AsText()|, out + piece.Bytes());
      chars := [piece] + rest;
      AtJoin(s, p, piece.AsText(), Chars(rest) + [QUOTE]);
      assert chars[1..] == rest;
      assert Chars(chars) + [QUOTE] == piece.AsText() + (Chars(rest) + [QUOTE]);
    }
  }

  lemma StringStep(s: Text, p: nat, out: Text)
    requires p <= |s| && String(s, p, out).Done? && CharAt(s, p) != QUOTE
    ensures CharAt(s, p) >= SPACE && (CharAt(s, p) == BACKSLASH ==> Escape(s, p + 1).Done?)
  {
    hide Escape;
  }

  lemma LiteralOf(s: Text, p: nat) returns (chars: seq<Piece>)
    requires p < |s| && CharAt(s, p) == QUOTE && String(s, p + 1, []).Done?
    ensures AllValid(chars) && At(s, p, Literal(chars))
    ensures String(s, p + 1, []) == Done(Bytes(chars), p + |Literal(chars)|)
  {
    hide At, String, Chars, Bytes, AllValid;
    chars := CharsOf(s, p + 1, []);
    CharIsAt(s, p, QUOTE);
    AtJoin(s, p, [QUOTE], Chars(chars) + [QUOTE]);
    LiteralIsRead(s, p, chars);
  }

  lemma WordOf(s: Text, p: nat, first: Byte, rest: Text, v: Value)
    requires p < |s| && CharAt(s, p) == first && Word(s, p + 1, rest, v).Done?
    ensures At(s, p, [first] + rest)
  {
    hide At;
    var t := Stretch(s, p + 1, p + 1 + |rest|);
    assert t == rest;
    CharIsAt(s, p, first);
    AtJoin(s, p, [first], rest);
  }

  lemma NumberOfText(c: Context, strtod: Strtod, s: Text, p: nat) returns (t: Text)
    requires p <= |s| && StartsNumber(CharAt(s, p)) && NumberAt(c, strtod, s, p).Done?
    ensures At(s, p, t) && Reads(c, strtod, t) && !IsNumberChar(CharAt(s, p + |t|))
  {
    var q := NumberEnd(s, p);
    t := s[p..q];
    assert p < q;
    assert t[0] == s[p];
    assert forall i :: 0 <= i < |t| ==> t[i] == s[p + i];
  }

  /** What is read at p, after white space: a derivation whose text stands there. */
  lemma {:induction false} DocOf(c: Context, strtod: Strtod, s: Text, p: nat) returns (gap: Text, d: Doc)
    requires p <= |s| && Parse(c, strtod, s, p).Done?
    ensures IsGap(gap) && Valid(Readable(c, strtod), d) && At(s, p, gap) && At(s, p + |gap|, DocText(d))
    ensures d.NumberDoc? ==> !IsNumberChar(CharAt(s, p + |gap| + |DocText(d)|))
    ensures Parse(c, strtod, s, p) == Done(c.Keep(DocValue(strtod, d)), p + |gap| + |DocText(d)|)
    decreases |s| - p, 1
  {
    hide At, SkipSpace, String, Word, NumberAt, Items, Members, ItemsText, EntriesText, Context.Keep, Literal, Chars;
    gap := GapAt(s, p);
    var q := p + |gap|;
    var ch := CharAt(s, q);
    NoSpace(s, q);
    ParseSkips(c, strtod, s, p, q);
    if ch == LOWER_N {
      d := NullDoc;
      WordOf(s, q, LOWER_N, ULL, Null);
    } else if ch == LOWER_F {
      d := BoolDoc(false);
      WordOf(s, q, LOWER_F, ALSE, c.Keep(Bool(false)));
    } else if ch == LOWER_T {
      d := BoolDoc(true);
      WordOf(s, q, LOWER_T, RUE, c.Keep(Bool(true)));
    } else if ch == QUOTE {
      var chars := LiteralOf(s, q);
      d := StringDoc(chars);
    } else if ch == LEFT_BRACKET {
      d := ArrayOf(c, strtod, s, q);
    } else if ch == LEFT_BRACE {
      d := ObjectOf(c, strtod, s, q);
    } else {
      var t := NumberOfText(c, strtod, s, q);
      d := NumberDoc(t);
    }
    DocReads(c, strtod, s, q, d);
  }

  lemma {:induction false} ArrayOf(c: Context, strtod: Strtod, s: Text, p: nat) returns (d: Doc)
    requires p < |s| && CharAt(s, p) == LEFT_BRACKET && Bracketed(c, strtod, s, p + 1).Done?
    ensures Valid(Readable(c, strtod), d) && At(s, p, DocText(d)) && !d.NumberDoc?
    decreases |s| - p, 0
  {
    hide At, SkipSpace, Items, ItemsText, ItemsValid;
    CharIsAt(s, p, LEFT_BRACKET);
    var z := SkipSpace(s, p + 1);
    if CharAt(s, z) == RIGHT_BRACKET {
      var gap := GapAt(s, p + 1);
      d := EmptyArray(gap);
      CharIsAt(s, z, RIGHT_BRACKET);
      AtJoin(s, p + 1, gap, [RIGHT_BRACKET]);
      AtJoin(s, p, [LEFT_BRACKET], gap + [RIGHT_BRACKET]);
    } else {
      SkipTwice(s, p + 1);
      ItemsSkip(c, strtod, s, p + 1, z, []);
      var items := ItemsOf(c, strtod, s, p + 1, []);
      d := ArrayDoc(items);
      AtJoin(s, p, [LEFT_BRACKET], ItemsText(items));
    }
  }

  lemma SkipTwice(s: Text, p: nat)
    requires p <= |s|
    ensures SkipSpace(s, SkipSpace(s, p)) == SkipSpace(s, p)
  {
    NoSpace(s, SkipSpace(s, p));
  }

  /** A value that is read, and the white space after it. */
  lemma {:induction false} SlotRead(c: Context, strtod: Strtod, s: Text, p: nat) returns (slot: Slot)
    requires p <= |s| && Parse(c, strtod, s, p).Done?
    ensures SlotValid(Readable(c, strtod), slot) && At(s, p, SlotText(slot))
    ensures p + |SlotText(slot)| == SkipSpace(s, Parse(c, strtod, s, p).next)
    decreases |s| - p, 2
  {
    hide At, SkipSpace, Parse, DocText, Valid, DocValue, Context.Keep;
    var before, d := DocOf(c, strtod, s, p);
    var after := GapAt(s, Parse(c, strtod, s, p).next);
    slot := Slot(before, d, after);
    AtJoin(s, p + |before|, DocText(d), after);
    AtJoin(s, p, before, DocText(d) + after);
  }

  /** And the character after that. */
  lemma {:induction false} SlotOf(c: Context, strtod: Strtod, s: Text, p: nat, ch: Byte) returns (slot: Slot)
    requires p <= |s| && Parse(c, strtod, s, p).Done?
    requires CharAt(s, SkipSpace(s, Parse(c, strtod, s, p).next)) == ch
    ensures SlotValid(Readable(c, strtod), slot) && At(s, p, SlotText(slot)) && At(s, p + |SlotText(slot)|, [ch])
    ensures p + |SlotText(slot)| == SkipSpace(s, Parse(c, strtod, s, p).next)
    decreases |s| - p, 3
  {
    hide At, SkipSpace, Parse, SlotText, SlotValid;
    slot := SlotRead(c, strtod, s, p);
    CharIsAt(s, p + |SlotText(slot)|, ch);
  }

  lemma {:induction false} ItemsOf(c: Context, strtod: Strtod, s: Text, p: nat, before: seq<Value>)
    returns (items: ItemList)
    requires p <= |s| && Items(c, strtod, s, p, before).Done?
    ensures ItemsValid(Readable(c, strtod), items) && At(s, p, ItemsText(items))
    decreases |s| - p, 4
  {
    hide At, SkipSpace, Parse, DocText, SlotText, SlotValid, Items;
    ItemsTurn(c, strtod, s, p, before);
    var o := Parse(c, strtod, s, p);
    var ch := CharAt(s, SkipSpace(s, o.next));
    var slot := SlotOf(c, strtod, s, p, ch);
    if ch == COMMA {
      var rest := ItemsOf(c, strtod, s, p + |SlotText(slot)| + 1, c.Append(before, o.value));
      items := MoreItems(slot, rest);
      AtJoin(s, p + |SlotText(slot)|, [COMMA], ItemsText(rest));
      AtJoin(s, p, SlotText(slot), [COMMA] + ItemsText(rest));
    } else {
      items := LastItem(slot);
      AtJoin(s, p, SlotText(slot), [RIGHT_BRACKET]);
    }
  }

  lemma {:induction false} ObjectOf(c: Context, strtod: Strtod, s: Text, p: nat) returns (d: Doc)
    requires p < |s| && CharAt(s, p) == LEFT_BRACE && Braced(c, strtod, s, p + 1).Done?
    ensures Valid(Readable(c, strtod), d) && At(s, p, DocText(d)) && !d.NumberDoc?
    decreases |s| - p, 0
  {
    hide At, SkipSpace, Members, EntriesText, EntriesValid;
    CharIsAt(s, p, LEFT_BRACE);
    var z := SkipSpace(s, p + 1);
    if CharAt(s, z) == RIGHT_BRACE {
      var gap := GapAt(s, p + 1);
      d := EmptyObject(gap);
      CharIsAt(s, z, RIGHT_BRACE);
      AtJoin(s, p + 1, gap, [RIGHT_BRACE]);
      AtJoin(s, p, [LEFT_BRACE], gap + [RIGHT_BRACE]);
    } else {
      SkipTwice(s, p + 1);
      MembersSkip(c, strtod, s, p + 1, z, map[]);
      var entries := EntriesOf(c, strtod, s, p + 1, map[]);
      d := ObjectDoc(entries);
      AtJoin(s, p, [LEFT_BRACE], EntriesText(entries));
    }
  }

  lemma NameOf(s: Text, p: nat) returns (name: Name)
    requires p <= |s| && Key(s, p).Done?
    ensures NameValid(name) && At(s, p, NameText(name)) && p + |NameText(name)| == Key(s, p).next
  {
    hide At, SkipSpace, String, Literal, AllValid, Bytes;
    var before := GapAt(s, p);
    var q := p + |before|;
    var chars := LiteralOf(s, q);
    var after := GapAt(s, q + |Literal(chars)|);
    name := Name(before, chars, after);
    var y := q + |Literal(chars)| + |after|;
    CharIsAt(s, y, COLON);
    AtJoin(s, y - |after|, after, [COLON]);
    AtJoin(s, q, Literal(chars), after + [COLON]);
    AtJoin(s, p, before, Literal(chars) + (after + [COLON]));
  }

  lemma {:induction false} EntriesOf(c: Context, strtod: Strtod, s: Text, p: nat, members: map<Text, Value>)
    returns (entries: EntryList)
    requires p <= |s| && Members(c, strtod, s, p, members).Done?
    ensures EntriesValid(Readable(c, strtod), entries) && At(s, p, EntriesText(entries))
    decreases |s| - p, 4
  {
    hide At, SkipSpace, Parse, DocText, SlotText, SlotValid, NameText, NameValid, Members, Key;
    MembersTurn(c, strtod, s, p, members);
    var o := Member(c, strtod, s, p);
    var ch := CharAt(s, SkipSpace(s, o.next));
    var name := NameOf(s, p);
    var q := p + |NameText(name)|;
    var slot := SlotOf(c, strtod, s, q, ch);
    var z := q + |SlotText(slot)|;
    if ch == COMMA {
      var rest := EntriesOf(c, strtod, s, z + 1, c.Put(members, o.value.key, o.value.value));
      entries := MoreEntries(name, slot, rest);
      AtJoin(s, z, [COMMA], EntriesText(rest));
      AtJoin(s, q, SlotText(slot), [COMMA] + EntriesText(rest));
      AtJoin(s, p, NameText(name), SlotText(slot) + ([COMMA] + EntriesText(rest)));
    } else {
      entries := LastEntry(name, slot);
      AtJoin(s, q, SlotText(slot), [RIGHT_BRACE]);
      AtJoin(s, p, NameText(name), SlotText(slot) + [RIGHT_BRACE]);
    }
  }

  // ---- the theorems ----

  /** The derivation d, after the white space gap, stands at p, ends at q and has the value v. */
  ghost predicate Derives(
    number: Text -> bool, strtod: Strtod, s: Text, p: nat, gap: Text, d: Doc, v: Value, q: nat)
  {
    && IsGap(gap) && Valid(number, d) && At(s, p, gap + DocText(d)) && q == p + |gap| + |DocText(d)|
    && (d.NumberDoc? ==> !IsNumberChar(CharAt(s, q)))
    && v == DocValue(strtod, d)
  }

  lemma DerivedIsRead(
    c: Context, strtod: Strtod, s: Text, p: nat, gap: Text, d: Doc, v: Value, q: nat)
    requires Derives(Readable(c, strtod), strtod, s, p, gap, d, v, q)
    ensures p <= |s| && Parse(c, strtod, s, p) == Done(c.Keep(v), q)
  {
    hide At, Parse, Valid, DocText, DocValue;
    AtSplit(s, p, gap, DocText(d));
    AtEnds(s, p, gap);
    GapSkipped(s, p, gap);
    DocReads(c, strtod, s, p + |gap|, d);
    ParseSkips(c, strtod, s, p, p + |gap|);
  }

  /**
   A value is accepted at p and ends at q exactly when a text of the grammar stands there, its number, if it is
   one, not continued; and the value read is that of the derivation.
   */
  lemma AcceptedIff(strtod: Strtod, s: Text, p: nat, v: Value, q: nat)
    requires p <= |s|
    ensures Parse(DefaultContext, strtod, s, p) == Done(v, q)
       <==> exists gap, d :: Derives(Readable(DefaultContext, strtod), strtod, s, p, gap, d, v, q)
  {
    hide At, Parse, Valid, DocText, DocValue, Derives;
    if Parse(DefaultContext, strtod, s, p) == Done(v, q) {
      var gap, d := DocOf(DefaultContext, strtod, s, p);
      AtJoin(s, p, gap, DocText(d));
      assert Derives(Readable(DefaultContext, strtod), strtod, s, p, gap, d, v, q) by {
        DerivesFrom(Readable(DefaultContext, strtod), strtod, s, p, gap, d, q);
      }
    }
    forall gap, d | Derives(Readable(DefaultContext, strtod), strtod, s, p, gap, d, v, q)
      ensures Parse(DefaultContext, strtod, s, p) == Done(v, q)
    {
      DerivedIsRead(DefaultContext, strtod, s, p, gap, d, v, q);
    }
  }

  lemma DerivesFrom(number: Text -> bool, strtod: Strtod, s: Text, p: nat, gap: Text, d: Doc, q: nat)
    requires IsGap(gap) && Valid(number, d) && At(s, p, gap + DocText(d)) && q == p + |gap| + |DocText(d)|
    requires d.NumberDoc? ==> !IsNumberChar(CharAt(s, q))
    ensures Derives(number, strtod, s, p, gap, d, DocValue(strtod, d), q)
  {}

  // ---- the grammar of RFC 8259 ----

  /** Section 6: a minus sign, the digits before the point, those after it, and the exponent. */
  datatype Parts = Parts(minus: bool, whole: Text, fraction: Text, mark: Text, exponent: Text) {
    predicate Valid() {
      && |whole| > 0 && AllDigits(whole) && (whole[0] == ZERO ==> |whole| == 1)
      && AllDigits(fraction)
      && (if exponent == [] then mark == []
          else AllDigits(exponent) && |mark| > 0 && (mark[0] == LOWER_E || mark[0] == UPPER_E)
               && (|mark| == 1 || (|mark| == 2 && (mark[1] == PLUS || mark[1] == MINUS))))
    }

    function AsText(): Text {
      (if minus then [MINUS] else []) + whole + (if fraction == [] then [] else [DOT] + fraction) + mark + exponent
    }
  }

  ghost predicate IsJsonNumber(t: Text) { exists n: Parts :: n.Valid() && n.AsText() == t }

  /** strtod reads every number of RFC 8259 whole. */
  ghost predicate ReadsNumbers(strtod: Strtod) {
    forall t :: IsJsonNumber(t) ==> !strtod(t).Partial?
  }

  lemma JsonNumberIsRun(t: Text)
    requires IsJsonNumber(t)
    ensures IsNumberText(t)
  {
    var n: Parts :| n.Valid() && n.AsText() == t;
    var sign, point := if n.minus then [MINUS] else [], if n.fraction == [] then [] else [DOT] + n.fraction;
    JoinRuns(sign, n.whole);
    JoinRuns(sign + n.whole, point);
    JoinRuns(sign + n.whole + point, n.mark);
    JoinRuns(sign + n.whole + point + n.mark, n.exponent);
    assert StartsNumber((sign + n.whole)[0]);
  }

  predicate IsRun(t: Text) { forall i :: 0 <= i < |t| ==> IsNumberChar(t[i]) }

  lemma JoinRuns(t: Text, u: Text)
    requires IsRun(t) && IsRun(u)
    ensures IsRun(t + u) && (|t| > 0 ==> (t + u)[0] == t[0])
  {}

  lemma {:induction false} ValidWith(f: Text -> bool, g: Text -> bool, h: Text -> bool, d: Doc)
    requires Valid(f, d) && Valid(g, d) && forall t :: f(t) && g(t) ==> h(t)
    ensures Valid(h, d)
    decreases d
  {
    match d
    case ArrayDoc(items) => ItemsValidWith(f, g, h, items);
    case ObjectDoc(entries) => EntriesValidWith(f, g, h, entries);
    case _ =>
  }

  lemma {:induction false} ItemsValidWith(f: Text -> bool, g: Text -> bool, h: Text -> bool, items: ItemList)
    requires ItemsValid(f, items) && ItemsValid(g, items) && forall t :: f(t) && g(t) ==> h(t)
    ensures ItemsValid(h, items)
    decreases items
  {
    hide Valid;
    ValidWith(f, g, h, items.slot.value);
    if items.MoreItems? { ItemsValidWith(f, g, h, items.rest); }
  }

  lemma {:induction false} EntriesValidWith(f: Text -> bool, g: Text -> bool, h: Text -> bool, entries: EntryList)
    requires EntriesValid(f, entries) && EntriesValid(g, entries) && forall t :: f(t) && g(t) ==> h(t)
    ensures EntriesValid(h, entries)
    decreases entries
  {
    hide Valid;
    ValidWith(f, g, h, entries.slot.value);
    if entries.MoreEntries? { EntriesValidWith(f, g, h, entries.rest); }
  }

  // ---- numbers out of range ----

  /** Runs that strtod reads whole, in range or not. */
  function Whole(strtod: Strtod): Text -> bool { (t: Text) => IsNumberText(t) && !strtod(t).Partial? }

  function Finites(strtod: Strtod): Text -> bool { Readable(DefaultContext, strtod) }

  lemma InfiniteThrows(strtod: Strtod, s: Text, p: nat, t: Text)
    requires At(s, p, t) && IsNumberText(t) && strtod(t).Infinite? && !IsNumberChar(CharAt(s, p + |t|))
    ensures Parse(DefaultContext, strtod, s, p).Thrown?
  {
    hide Parse, NumberEnd, IsNumberText;
    NumberTaken(DefaultContext, strtod, s, p, t);
  }

  /** A text with a number out of range is not rejected: the first such number throws. */
  lemma {:induction false} DocThrows(strtod: Strtod, s: Text, p: nat, d: Doc)
    requires At(s, p, DocText(d)) && Valid(Whole(strtod), d) && !Valid(Finites(strtod), d)
    requires d.NumberDoc? ==> !IsNumberChar(CharAt(s, p + |DocText(d)|))
    ensures p <= |s| && Parse(DefaultContext, strtod, s, p).Thrown?
    decreases d, 1
  {
    hide Parse, At, Items, Members, ItemsText, EntriesText;
    AtEnds(s, p, DocText(d));
    match d
    case NumberDoc(t) => InfiniteThrows(strtod, s, p, t);
    case ArrayDoc(items) =>
      AtSplit(s, p, [LEFT_BRACKET], ItemsText(items));
      AtIndex(s, p, [LEFT_BRACKET], 0);
      ArrayStarts(Whole(strtod), DefaultContext, strtod, s, p, items);
      ItemsThrow(strtod, s, p + 1, items, []);
    case ObjectDoc(entries) =>
      AtSplit(s, p, [LEFT_BRACE], EntriesText(entries));
      AtIndex(s, p, [LEFT_BRACE], 0);
      ObjectStarts(Whole(strtod), DefaultContext, strtod, s, p, entries);
      EntriesThrow(strtod, s, p + 1, entries, map[]);
    case _ =>
  }

  lemma {:induction false} SlotThrows(strtod: Strtod, s: Text, p: nat, slot: Slot, ch: Byte, rest: Text)
    requires At(s, p, SlotText(slot) + ([ch] + rest)) && !IsSpace(ch) && !IsNumberChar(ch)
    requires SlotValid(Whole(strtod), slot) && !SlotValid(Finites(strtod), slot)
    ensures p <= |s| && Parse(DefaultContext, strtod, s, p).Thrown?
    decreases slot, 2
  {
    hide At, SkipSpace, DocText, Parse, Valid;
    var text := DocText(slot.value);
    var tail := slot.after + ([ch] + rest);
    assert SlotText(slot) + ([ch] + rest) == slot.before + (text + tail);
    AtEnds(s, p, slot.before + (text + tail));
    StartOfSlot(Whole(strtod), s, p, slot, tail);
    AtSplit(s, p, slot.before, text + tail);
    AtSplit(s, p + |slot.before|, text, tail);
    var z := p + |slot.before|;
    GapThen(s, z + |text|, slot.after, ch, rest);
    DocThrows(strtod, s, z, slot.value);
    ParseSkips(DefaultContext, strtod, s, p, z);
  }

  lemma {:induction false} ItemsThrow(strtod: Strtod, s: Text, p: nat, items: ItemList, before: seq<Value>)
    requires At(s, p, ItemsText(items)) && ItemsValid(Whole(strtod), items) && !ItemsValid(Finites(strtod), items)
    ensures p <= |s| && Items(DefaultContext, strtod, s, p, before).Thrown?
    decreases items, 3
  {
    hide At, SkipSpace, DocText, SlotText, Parse, Valid, DocValue, Items, SlotValid;
    AtEnds(s, p, ItemsText(items));
    ItemsTurn(DefaultContext, strtod, s, p, before);
    var slot := items.slot;
    var ch := if items.LastItem? then RIGHT_BRACKET else COMMA;
    var rest := if items.LastItem? then [] else ItemsText(items.rest);
    assert ItemsText(items) == SlotText(slot) + ([ch] + rest);
    if !SlotValid(Finites(strtod), slot) {
      SlotThrows(strtod, s, p, slot, ch, rest);
    } else {
      SlotReads(DefaultContext, strtod, s, p, slot, ch, rest);
      ItemsThrow(strtod, s, p + |SlotText(slot)| + 1, items.rest, before + [DocValue(strtod, slot.value)]);
    }
  }

  lemma {:induction false} EntriesThrow(strtod: Strtod, s: Text, p: nat, entries: EntryList, members: map<Text, Value>)
    requires At(s, p, EntriesText(entries))
    requires EntriesValid(Whole(strtod), entries) && !EntriesValid(Finites(strtod), entries)
    ensures p <= |s| && Members(DefaultContext, strtod, s, p, members).Thrown?
    decreases entries, 4
  {
    hide At, SkipSpace, DocText, NameText, SlotText, Parse, Valid, DocValue, Members, SlotValid, NameValid, Bytes, Key;
    AtEnds(s, p, EntriesText(entries));
    MembersTurn(DefaultContext, strtod, s, p, members);
    var name, slot := entries.name, entries.slot;
    var ch := if entries.LastEntry? then RIGHT_BRACE else COMMA;
    var rest := if entries.LastEntry? then [] else EntriesText(entries.rest);
    assert EntriesText(entries) == NameText(name) + (SlotText(slot) + ([ch] + rest));
    if !SlotValid(Finites(strtod), slot) {
      NameReads(s, p, name, SlotText(slot) + ([ch] + rest));
      SlotThrows(strtod, s, p + |NameText(name)|, slot, ch, rest);
    } else {
      EntryIsRead(DefaultContext, strtod, s, p, name, slot, ch, rest);
      var more := members[Bytes(name.chars) := DocValue(strtod, slot.value)];
      EntriesThrow(strtod, s, p + |NameText(name)| + |SlotText(slot)| + 1, entries.rest, more);
    }
  }

  lemma JsonNumbersRead(strtod: Strtod, d: Doc)
    requires ReadsNumbers(strtod) && Valid(IsJsonNumber, d)
    ensures Valid(Whole(strtod), d) && (Valid(t => strtod(t).Finite?, d) <==> Valid(Finites(strtod), d))
  {
    hide Valid, IsNumberText, IsJsonNumber;
    var finite := t => strtod(t).Finite?;
    forall t | IsJsonNumber(t) ensures IsNumberText(t) { JsonNumberIsRun(t); }
    ValidWith(IsJsonNumber, IsJsonNumber, Whole(strtod), d);
    if Valid(finite, d) { ValidWith(IsJsonNumber, finite, Finites(strtod), d); }
    if Valid(Finites(strtod), d) { ValidWith(Finites(strtod), Finites(strtod), finite, d); }
  }

  /**
   Every text of RFC 8259, with any white space, any order and repetition of keys and any spelling of the
   characters, is accepted with its value and to its end if its numbers are in range; else it throws.
   */
  lemma JsonTextIsRead(strtod: Strtod, gap: Text, d: Doc, after: Text)
    requires ReadsNumbers(strtod) && IsGap(gap) && Valid(IsJsonNumber, d)
    requires after == [] || !IsNumberChar(after[0])
    ensures var o := Parse(DefaultContext, strtod, (gap + DocText(d)) + after, 0);
            if Valid(t => strtod(t).Finite?, d) then o == Done(DocValue(strtod, d), |gap| + |DocText(d)|) else o.Thrown?
  {
    hide At, Parse, Valid, DocText, DocValue, SkipSpace, ReadsNumbers, IsGap, Finites, Readable, Whole;
    var s := (gap + DocText(d)) + after;
    AtHead(s, gap + DocText(d));
    AtSplit(s, 0, gap, DocText(d));
    GapSkipped(s, 0, gap);
    ParseSkips(DefaultContext, strtod, s, 0, |gap|);
    JsonNumbersRead(strtod, d);
    if Valid(Finites(strtod), d) {
      assert Finites(strtod) == Readable(DefaultContext, strtod) by { FinitesAre(strtod); }
      DocReads(DefaultContext, strtod, s, |gap|, d);
    } else {
      DocThrows(strtod, s, |gap|, d);
    }
  }

  lemma FinitesAre(strtod: Strtod)
    ensures Finites(strtod) == Readable(DefaultContext, strtod)
  {}
}
