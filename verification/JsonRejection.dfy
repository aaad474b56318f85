/** 3rdparty/picojson/picojson.h: a text is rejected at the first character with which no text of the grammar goes on. */
module JsonRejection {
  import opened JsonInput
  import opened JsonStrings
  import opened JsonEscapes
  import opened JsonParser
  import opened JsonRoundTrip
  import opened JsonGrammar
  import opened JsonLookahead

  // ---- beginnings ----

  /** What stands between p and n is a beginning of t. */
  predicate Begins(s: Text, p: nat, n: nat, t: Text) {
    p <= n <= |s| && n - p <= |t| && s[p..n] == t[..n - p]
  }

  lemma BeginsAll(s: Text, p: nat, t: Text)
    requires At(s, p, t)
    ensures Begins(s, p, p + |t|, t)
  {}

  lemma BeginsMore(s: Text, p: nat, n: nat, t: Text, u: Text)
    requires Begins(s, p, n, t)
    ensures Begins(s, p, n, t + u)
  {
    assert (t + u)[..n - p] == t[..n - p];
  }

  lemma BeginsAfter(s: Text, p: nat, n: nat, t: Text, u: Text)
    requires At(s, p, t) && Begins(s, p + |t|, n, u)
    ensures Begins(s, p, n, t + u)
  {
    assert s[p..n] == s[p..p + |t|] + s[p + |t|..n];
    assert (t + u)[..n - p] == t + u[..n - p - |t|];
  }

  lemma BeginsNothing(s: Text, p: nat, t: Text)
    requires p <= |s|
    ensures Begins(s, p, p, t)
  {}

  // ---- the two mistakes that are found late ----

  /** A run of number characters of which strtod makes nothing. */
  predicate BadNumber(strtod: Strtod, s: Text, i: nat, n: nat) {
    i <= n <= |s| && IsNumberText(s[i..n]) && !IsNumberChar(CharAt(s, n)) && strtod(s[i..n]).Partial?
  }

  /** An escape that is none. */
  predicate BadEscape(s: Text, i: nat, n: nat, held: bool) {
    CharAt(s, i) == BACKSLASH && Escape(s, i + 1) == Failed(n, held)
  }

  ghost predicate AfterBadEscape(s: Text, n: nat, held: bool) { exists i :: BadEscape(s, i, n, held) }

  ghost predicate FoundLate(strtod: Strtod, s: Text, n: nat, held: bool) {
    (exists i :: BadNumber(strtod, s, i, n)) || AfterBadEscape(s, n, held)
  }

  // ---- strings ----

  lemma {:induction false} CharsStuck(s: Text, p: nat, out: Text) returns (late: bool, chars: seq<Piece>)
    requires p <= |s| && String(s, p, out).Failed?
    ensures late ==> AfterBadEscape(s, String(s, p, out).next, String(s, p, out).held)
    ensures !late ==> AllValid(chars) && At(s, p, Chars(chars)) && p + |Chars(chars)| == String(s, p, out).next
    decreases |s| - p
  {
    hide At, Escape, Piece.AsText, Piece.Valid, Piece.Bytes;
    var ch := CharAt(s, p);
    late, chars := false, [];
    if ch < SPACE {
      AtNothing(s, p);
    } else if ch == BACKSLASH && Escape(s, p + 1).Failed? {
      late := true;
      assert BadEscape(s, p, String(s, p, out).next, String(s, p, out).held);
    } else {
      var piece := PieceAt(s, p);
      PieceReads(s, p, piece, out);
      var rest;
      late, rest := CharsStuck(s, p + |piece.AsText()|, out + piece.Bytes());
      chars := [piece] + rest;
      assert chars[1..] == rest;
      if !late { AtJoin(s, p, piece.AsText(), Chars(rest)); }
    }
  }

  lemma AtNothing(s: Text, p: nat)
    requires p <= |s|
    ensures At(s, p, [])
  {}

  lemma LiteralStuck(s: Text, p: nat) returns (late: bool, chars: seq<Piece>)
    requires p < |s| && CharAt(s, p) == QUOTE && String(s, p + 1, []).Failed?
    ensures late ==> AfterBadEscape(s, String(s, p + 1, []).next, String(s, p + 1, []).held)
    ensures !late ==> AllValid(chars) && Begins(s, p, String(s, p + 1, []).next, Literal(chars))
  {
    hide At, String, Chars, AllValid, Begins, BadEscape;
    late, chars := CharsStuck(s, p + 1, []);
    if !late {
      CharIsAt(s, p, QUOTE);
      BeginsAll(s, p + 1, Chars(chars));
      BeginsMore(s, p + 1, p + 1 + |Chars(chars)|, Chars(chars), [QUOTE]);
      BeginsAfter(s, p, p + 1 + |Chars(chars)|, [QUOTE], Chars(chars) + [QUOTE]);
    }
  }

  // ---- values ----

  lemma WordStuck(s: Text, p: nat, first: Byte, rest: Text, v: Value)
    requires p < |s| && CharAt(s, p) == first && Word(s, p + 1, rest, v).Failed?
    ensures Begins(s, p, Word(s, p + 1, rest, v).next, [first] + rest)
  {
    var n := Common(s, p + 1, rest, 0);
    assert s[p + 1..p + 1 + n] == rest[..n];
    CharIsAt(s, p, first);
    BeginsAfter(s, p, p + 1 + n, [first], rest);
  }

  lemma NumberStuck(c: Context, strtod: Strtod, s: Text, p: nat)
    requires p <= |s| && StartsNumber(CharAt(s, p)) && NumberAt(c, strtod, s, p).Failed?
    ensures BadNumber(strtod, s, p, NumberAt(c, strtod, s, p).next)
  {
    var q := NumberEnd(s, p);
    assert p < q;
    assert s[p..q][0] == s[p];
    assert forall i :: 0 <= i < q - p ==> s[p..q][i] == s[p + i];
  }

  /** A derivation that begins with what was read before the place of rejection. */
  ghost predicate GoesOn(c: Context, strtod: Strtod, s: Text, p: nat, n: nat, gap: Text, d: Doc) {
    IsGap(gap) && Valid(Readable(c, strtod), d) && Begins(s, p, n, gap + DocText(d))
  }

  lemma {:induction false} DocStuck(c: Context, strtod: Strtod, s: Text, p: nat) returns (late: bool, gap: Text, d: Doc)
    requires p <= |s| && Parse(c, strtod, s, p).Failed?
    ensures var o := Parse(c, strtod, s, p);
            if late then FoundLate(strtod, s, o.next, o.held) else GoesOn(c, strtod, s, p, o.next, gap, d)
    decreases |s| - p, 1
  {
    hide At, SkipSpace, String, Word, NumberAt, Items, Members, ItemsText, EntriesText, Literal, Chars, Begins;
    hide BadNumber, BadEscape, ItemsValid, EntriesValid, AllValid;
    gap := GapAt(s, p);
    var q, n := p + |gap|, Parse(c, strtod, s, p).next;
    var ch := CharAt(s, q);
    late, d := false, NullDoc;
    if ch == LOWER_N {
      WordStuck(s, q, LOWER_N, ULL, Null);
    } else if ch == LOWER_F {
      d := BoolDoc(false);
      WordStuck(s, q, LOWER_F, ALSE, c.Keep(Bool(false)));
    } else if ch == LOWER_T {
      d := BoolDoc(true);
      WordStuck(s, q, LOWER_T, RUE, c.Keep(Bool(true)));
    } else if ch == QUOTE {
      var chars;
      late, chars := LiteralStuck(s, q);
      d := StringDoc(chars);
    } else if ch == LEFT_BRACKET {
      late, d := ArrayStuck(c, strtod, s, q);
    } else if ch == LEFT_BRACE {
      late, d := ObjectStuck(c, strtod, s, q);
    } else if StartsNumber(ch) {
      late := true;
      NumberStuck(c, strtod, s, q);
    } else {
      BeginsNothing(s, q, DocText(d));
    }
    if !late { BeginsAfter(s, p, n, gap, DocText(d)); }
  }

  // ---- arrays ----

  lemma {:induction false} ArrayStuck(c: Context, strtod: Strtod, s: Text, p: nat) returns (late: bool, d: Doc)
    requires p < |s| && CharAt(s, p) == LEFT_BRACKET && Bracketed(c, strtod, s, p + 1).Failed?
    ensures var o := Bracketed(c, strtod, s, p + 1);
            if late then FoundLate(strtod, s, o.next, o.held)
            else Valid(Readable(c, strtod), d) && Begins(s, p, o.next, DocText(d))
    decreases |s| - p, 0
  {
    hide At, SkipSpace, Items, ItemsText, ItemsValid, Begins, FoundLate;
    CharIsAt(s, p, LEFT_BRACKET);
    SkipTwice(s, p + 1);
    ItemsSkip(c, strtod, s, p + 1, SkipSpace(s, p + 1), []);
    var items;
    late, items := ItemsStuck(c, strtod, s, p + 1, []);
    d := ArrayDoc(items);
    if !late { BeginsAfter(s, p, Bracketed(c, strtod, s, p + 1).next, [LEFT_BRACKET], ItemsText(items)); }
  }

  /** A value that breaks off in an array or an object, and what would close it. */
  lemma {:induction false} SlotStuck(c: Context, strtod: Strtod, s: Text, p: nat, rest: Text)
    returns (late: bool, slot: Slot)
    requires p <= |s| && Parse(c, strtod, s, p).Failed?
    ensures var o := Parse(c, strtod, s, p);
            if late then FoundLate(strtod, s, o.next, o.held)
            else SlotValid(Readable(c, strtod), slot) && Begins(s, p, o.next, SlotText(slot) + rest)
    decreases |s| - p, 2
  {
    hide At, Parse, DocText, Valid, Begins, FoundLate;
    var gap, d;
    late, gap, d := DocStuck(c, strtod, s, p);
    slot := Slot(gap, d, []);
    if !late {
      assert SlotText(slot) == gap + DocText(d);
      BeginsMore(s, p, Parse(c, strtod, s, p).next, SlotText(slot), rest);
    }
  }

  lemma {:induction false} ItemsStuck(c: Context, strtod: Strtod, s: Text, p: nat, before: seq<Value>)
    returns (late: bool, items: ItemList)
    requires p <= |s| && Items(c, strtod, s, p, before).Failed?
    ensures var o := Items(c, strtod, s, p, before);
            if late then FoundLate(strtod, s, o.next, o.held)
            else ItemsValid(Readable(c, strtod), items) && Begins(s, p, o.next, ItemsText(items))
    decreases |s| - p, 3
  {
    hide At, SkipSpace, Parse, DocText, SlotText, SlotValid, Items, Begins, FoundLate;
    ItemsTurn(c, strtod, s, p, before);
    var o, n := Parse(c, strtod, s, p), Items(c, strtod, s, p, before).next;
    if o.Failed? {
      var slot;
      late, slot := SlotStuck(c, strtod, s, p, [RIGHT_BRACKET]);
      items := LastItem(slot);
    } else {
      late := false;
      var slot := SlotRead(c, strtod, s, p);
      var z := p + |SlotText(slot)|;
      items := LastItem(slot);
      BeginsAll(s, p, SlotText(slot));
      BeginsMore(s, p, z, SlotText(slot), [RIGHT_BRACKET]);
      if CharAt(s, z) == COMMA {
        var rest;
        late, rest := ItemsStuck(c, strtod, s, z + 1, c.Append(before, o.value));
        items := MoreItems(slot, rest);
        if !late {
          CharIsAt(s, z, COMMA);
          BeginsAfter(s, z, n, [COMMA], ItemsText(rest));
          BeginsAfter(s, p, n, SlotText(slot), [COMMA] + ItemsText(rest));
        }
      }
    }
  }

  // ---- objects ----

  lemma {:induction false} ObjectStuck(c: Context, strtod: Strtod, s: Text, p: nat) returns (late: bool, d: Doc)
    requires p < |s| && CharAt(s, p) == LEFT_BRACE && Braced(c, strtod, s, p + 1).Failed?
    ensures var o := Braced(c, strtod, s, p + 1);
            if late then FoundLate(strtod, s, o.next, o.held)
            else Valid(Readable(c, strtod), d) && Begins(s, p, o.next, DocText(d))
    decreases |s| - p, 0
  {
    hide At, SkipSpace, Members, EntriesText, EntriesValid, Begins, FoundLate;
    CharIsAt(s, p, LEFT_BRACE);
    SkipTwice(s, p + 1);
    MembersSkip(c, strtod, s, p + 1, SkipSpace(s, p + 1), map[]);
    var entries;
    late, entries := EntriesStuck(c, strtod, s, p + 1, map[]);
    d := ObjectDoc(entries);
    if !late { BeginsAfter(s, p, Braced(c, strtod, s, p + 1).next, [LEFT_BRACE], EntriesText(entries)); }
  }

  lemma NameStuck(s: Text, p: nat, rest: Text) returns (late: bool, name: Name)
    requires p <= |s| && Key(s, p).Failed?
    ensures late ==> AfterBadEscape(s, Key(s, p).next, Key(s, p).held)
    ensures !late ==> NameValid(name) && Begins(s, p, Key(s, p).next, NameText(name) + rest)
  {
    hide At, SkipSpace, String, Literal, Bytes, Begins, BadEscape;
    var n := Key(s, p).next;
    var before := GapAt(s, p);
    var q := p + |before|;
    late, name := false, Name(before, [], []);
    if CharAt(s, q) != QUOTE {
      BeginsAll(s, p, before);
      BeginsMore(s, p, n, before, Literal(name.chars) + (name.after + [COLON]));
    } else if String(s, q + 1, []).Failed? {
      var chars;
      late, chars := LiteralStuck(s, q);
      name := Name(before, chars, []);
      if !late {
        BeginsMore(s, q, n, Literal(chars), [] + [COLON]);
        BeginsAfter(s, p, n, before, Literal(chars) + ([] + [COLON]));
      }
    } else {
      var chars := LiteralOf(s, q);
      var after := GapAt(s, q + |Literal(chars)|);
      name := Name(before, chars, after);
      BeginsAll(s, q + |Literal(chars)|, after);
      BeginsMore(s, q + |Literal(chars)|, n, after, [COLON]);
      BeginsAfter(s, q, n, Literal(chars), after + [COLON]);
      BeginsAfter(s, p, n, before, Literal(chars) + (after + [COLON]));
    }
    if !late { BeginsMore(s, p, n, NameText(name), rest); }
  }

  lemma {:induction false} EntriesStuck(c: Context, strtod: Strtod, s: Text, p: nat, members: map<Text, Value>)
    returns (late: bool, entries: EntryList)
    requires p <= |s| && Members(c, strtod, s, p, members).Failed?
    ensures var o := Members(c, strtod, s, p, members);
            if late then FoundLate(strtod, s, o.next, o.held)
            else EntriesValid(Readable(c, strtod), entries) && Begins(s, p, o.next, EntriesText(entries))
    decreases |s| - p, 3
  {
    hide At, SkipSpace, Parse, DocText, SlotText, SlotValid, NameText, NameValid, Members, Key, Begins, BadEscape, BadNumber;
    MembersTurn(c, strtod, s, p, members);
    var n := Members(c, strtod, s, p, members).next;
    if Key(s, p).Failed? {
      var name;
      var slot := EmptySlot(c, strtod);
      late, name := NameStuck(s, p, SlotText(slot) + [RIGHT_BRACE]);
      entries := LastEntry(name, slot);
    } else {
      var name := NameOf(s, p);
      var q := p + |NameText(name)|;
      var o := Parse(c, strtod, s, q);
      if o.Failed? {
        var slot;
        late, slot := SlotStuck(c, strtod, s, q, [RIGHT_BRACE]);
        entries := LastEntry(name, slot);
        if !late { BeginsAfter(s, p, n, NameText(name), SlotText(slot) + [RIGHT_BRACE]); }
      } else {
        late := false;
        var slot := SlotRead(c, strtod, s, q);
        var z := q + |SlotText(slot)|;
        entries := LastEntry(name, slot);
        BeginsAll(s, q, SlotText(slot));
        BeginsMore(s, q, z, SlotText(slot), [RIGHT_BRACE]);
        BeginsAfter(s, p, z, NameText(name), SlotText(slot) + [RIGHT_BRACE]);
        if CharAt(s, z) == COMMA {
          var rest;
          late, rest := EntriesStuck(c, strtod, s, z + 1, c.Put(members, Key(s, p).value, o.value));
          entries := MoreEntries(name, slot, rest);
          if !late {
            CharIsAt(s, z, COMMA);
            BeginsAfter(s, z, n, [COMMA], EntriesText(rest));
            BeginsAfter(s, q, n, SlotText(slot), [COMMA] + EntriesText(rest));
            BeginsAfter(s, p, n, NameText(name), SlotText(slot) + ([COMMA] + EntriesText(rest)));
          }
        }
      }
    }
  }

  lemma EmptySlot(c: Context, strtod: Strtod) returns (slot: Slot)
    ensures SlotValid(Readable(c, strtod), slot)
  {
    slot := Slot([], NullDoc, []);
  }

  // ---- the theorem ----

  /** Some text that is accepted at p is the same as s before n. */
  ghost predicate Viable(c: Context, strtod: Strtod, s: Text, p: nat, n: nat) {
    n <= |s| && p <= n && exists t :: n <= |t| && t[..n] == s[..n] && Parse(c, strtod, t, p).Done?
  }

  /**
   A text is rejected at n only if every text that is the same up to the character at n is rejected there; and
   what comes before n is the beginning of a text that is accepted, unless it ends in a run of number characters
   that is no number, or in an escape that is none.
   */
  lemma RejectedIsStuck(c: Context, strtod: Strtod, s: Text, p: nat)
    requires p <= |s| && Parse(c, strtod, s, p).Failed?
    ensures var o := Parse(c, strtod, s, p);
            && (forall t :: Same(s, t, o.next) ==> p <= |t| && Parse(c, strtod, t, p) == o)
            && (Viable(c, strtod, s, p, o.next) || FoundLate(strtod, s, o.next, o.held))
  {
    hide Parse, Same, FoundLate, GoesOn;
    var o := Parse(c, strtod, s, p);
    forall t | Same(s, t, o.next) ensures p <= |t| && Parse(c, strtod, t, p) == o { ParseLocal(c, strtod, s, t, p); }
    var late, gap, d := DocStuck(c, strtod, s, p);
    if !late {
      var t := GoOn(c, strtod, s, p, o.next, gap, d);
    }
  }

  lemma GoOn(c: Context, strtod: Strtod, s: Text, p: nat, n: nat, gap: Text, d: Doc) returns (t: Text)
    requires GoesOn(c, strtod, s, p, n, gap, d)
    ensures p <= n <= |s| && n <= |t| && t[..n] == s[..n] && Parse(c, strtod, t, p).Done?
  {
    hide Parse, DocText, Valid, DocValue, SkipSpace;
    t := s[..p] + (gap + DocText(d));
    assert t[p..p + |gap|] == gap && t[p + |gap|..] == DocText(d);
    assert s[..n] == s[..p] + s[p..n];
    GapSkipped(t, p, gap);
    DocReads(c, strtod, t, p + |gap|, d);
    ParseSkips(c, strtod, t, p, p + |gap|);
  }
}
