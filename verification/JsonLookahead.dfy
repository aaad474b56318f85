/** 3rdparty/picojson/picojson.h: the parser stops at the character that decides, and never looks past it. */
module JsonLookahead {
  import opened JsonInput
  import opened JsonStrings
  import opened JsonParser
  import opened Utf8

  /** Two texts are the same up to position n, and have the same character, or both none, there. */
  predicate Same(s: Text, t: Text, n: nat) {
    n <= |s| && n <= |t| && s[..n] == t[..n] && CharAt(s, n) == CharAt(t, n)
  }

  lemma SameBefore(s: Text, t: Text, m: nat, n: nat)
    requires Same(s, t, n) && m <= n
    ensures Same(s, t, m)
  {
    assert s[..m] == s[..n][..m] && t[..m] == t[..n][..m];
    if m < n { assert s[..n][m] == t[..n][m]; }
  }

  lemma SameChar(s: Text, t: Text, m: nat, n: nat)
    requires Same(s, t, n) && m <= n
    ensures CharAt(s, m) == CharAt(t, m)
  {
    SameBefore(s, t, m, n);
  }

  lemma {:induction false} SkipSpaceLocal(s: Text, t: Text, p: nat)
    requires p <= |s| && Same(s, t, SkipSpace(s, p))
    ensures p <= |t| && SkipSpace(t, p) == SkipSpace(s, p)
    decreases |s| - p
  {
    SameChar(s, t, p, SkipSpace(s, p));
    if IsSpace(CharAt(s, p)) { SkipSpaceLocal(s, t, p + 1); }
  }

  lemma {:induction false} NumberEndLocal(s: Text, t: Text, p: nat)
    requires p <= |s| && Same(s, t, NumberEnd(s, p))
    ensures p <= |t| && NumberEnd(t, p) == NumberEnd(s, p)
    decreases |s| - p
  {
    SameChar(s, t, p, NumberEnd(s, p));
    if IsNumberChar(CharAt(s, p)) { NumberEndLocal(s, t, p + 1); }
  }

  lemma {:induction false} CommonLocal(s: Text, t: Text, p: nat, word: Text, i: nat)
    requires i <= |word| && p + i <= |s| && Same(s, t, p + Common(s, p, word, i))
    ensures p + i <= |t| && Common(t, p, word, i) == Common(s, p, word, i)
    decreases |word| - i
  {
    SameChar(s, t, p + i, p + Common(s, p, word, i));
    if i < |word| && CharAt(s, p + i) == word[i] { CommonLocal(s, t, p, word, i + 1); }
  }

  // ---- strings ----

  lemma {:induction false} QuadhexLocal(s: Text, t: Text, p: nat, i: nat, value: nat)
    requires p <= |s| && i <= 4 && Same(s, t, Quadhex(s, p, i, value).next)
    ensures p <= |t| && Quadhex(t, p, i, value) == Quadhex(s, p, i, value)
    decreases 4 - i
  {
    SameChar(s, t, p, Quadhex(s, p, i, value).next);
    if i < 4 && HexDigit(CharAt(s, p)) != -1 { QuadhexLocal(s, t, p + 1, i + 1, value * 16 + HexDigit(CharAt(s, p))); }
  }

  lemma SecondHalfLocal(s: Text, t: Text, p: nat, first: nat)
    requires p <= |s| && 0xd800 <= first && Same(s, t, SecondHalf(s, p, first).next)
    ensures p <= |t| && SecondHalf(t, p, first) == SecondHalf(s, p, first)
  {
    hide Quadhex, Pushed, Paired;
    var n := SecondHalf(s, p, first).next;
    SameChar(s, t, p, n);
    if CharAt(s, p) == BACKSLASH {
      SameChar(s, t, p + 1, n);
      if CharAt(s, p + 1) == LOWER_U { QuadhexLocal(s, t, p + 2, 0, 0); }
    }
  }

  lemma CodepointLocal(s: Text, t: Text, p: nat)
    requires p <= |s| && Same(s, t, Codepoint(s, p).next)
    ensures p <= |t| && Codepoint(t, p) == Codepoint(s, p)
  {
    hide Quadhex, SecondHalf, Pushed;
    var first := Quadhex(s, p, 0, 0);
    SameBefore(s, t, first.next, Codepoint(s, p).next);
    QuadhexLocal(s, t, p, 0, 0);
    if first.Done? && 0xd800 <= first.value < 0xdc00 { SecondHalfLocal(s, t, first.next, first.value); }
  }

  lemma EscapeLocal(s: Text, t: Text, p: nat)
    requires p <= |s| && Same(s, t, Escape(s, p).next)
    ensures p <= |t| && Escape(t, p) == Escape(s, p)
  {
    hide Codepoint;
    SameChar(s, t, p, Escape(s, p).next);
    if CharAt(s, p) == LOWER_U { CodepointLocal(s, t, p + 1); }
  }

  lemma {:induction false} StringLocal(s: Text, t: Text, p: nat, out: Text)
    requires p <= |s| && Same(s, t, String(s, p, out).next)
    ensures p <= |t| && String(t, p, out) == String(s, p, out)
    decreases |s| - p
  {
    hide Escape;
    var n := String(s, p, out).next;
    SameChar(s, t, p, n);
    var ch := CharAt(s, p);
    if ch >= SPACE && ch != QUOTE {
      if ch != BACKSLASH {
        StringLocal(s, t, p + 1, out + [ch]);
      } else {
        var o := Escape(s, p + 1);
        SameBefore(s, t, o.next, n);
        EscapeLocal(s, t, p + 1);
        if o.Done? { StringLocal(s, t, o.next, out + o.value); }
      }
    }
  }

  // ---- values ----

  lemma WordLocal(s: Text, t: Text, p: nat, rest: Text, v: Value)
    requires p <= |s| && Same(s, t, Word(s, p, rest, v).next)
    ensures p <= |t| && Word(t, p, rest, v) == Word(s, p, rest, v)
  {
    CommonLocal(s, t, p, rest, 0);
  }

  lemma NumberLocal(c: Context, strtod: Strtod, s: Text, t: Text, p: nat)
    requires p <= |s| && Same(s, t, NumberEnd(s, p))
    ensures p <= |t| && NumberAt(c, strtod, t, p) == NumberAt(c, strtod, s, p)
  {
    hide NumberEnd;
    NumberEndLocal(s, t, p);
    var q := NumberEnd(s, p);
    assert s[p..q] == s[..q][p..] && t[p..q] == t[..q][p..];
  }

  /** The outcome at p, and where it is reached, are the same in every text that is the same up to there. */
  lemma {:induction false} ParseLocal(c: Context, strtod: Strtod, s: Text, t: Text, p: nat)
    requires p <= |s| && Same(s, t, Parse(c, strtod, s, p).next)
    ensures p <= |t| && Parse(c, strtod, t, p) == Parse(c, strtod, s, p)
    decreases |s| - p, 1
  {
    hide SkipSpace, String, Word, NumberAt, Bracketed, Braced, Same;
    var n, q := Parse(c, strtod, s, p).next, SkipSpace(s, p);
    SameBefore(s, t, q, n);
    SkipSpaceLocal(s, t, p);
    SameChar(s, t, q, n);
    SameLength(s, t, n);
    var ch := CharAt(s, q);
    if ch == LOWER_N {
      WordLocal(s, t, q + 1, ULL, Null);
    } else if ch == LOWER_F {
      WordLocal(s, t, q + 1, ALSE, c.Keep(Bool(false)));
    } else if ch == LOWER_T {
      WordLocal(s, t, q + 1, RUE, c.Keep(Bool(true)));
    } else if ch == QUOTE {
      StringLocal(s, t, q + 1, []);
    } else if ch == LEFT_BRACKET {
      BracketedLocal(c, strtod, s, t, q + 1);
    } else if ch == LEFT_BRACE {
      BracedLocal(c, strtod, s, t, q + 1);
    } else if StartsNumber(ch) {
      NumberLocal(c, strtod, s, t, q);
    }
  }

  lemma SameLength(s: Text, t: Text, n: nat)
    requires Same(s, t, n)
    ensures n <= |s| && n <= |t|
  {}

  lemma {:induction false} BracketedLocal(c: Context, strtod: Strtod, s: Text, t: Text, p: nat)
    requires p <= |s| && Same(s, t, Bracketed(c, strtod, s, p).next)
    ensures p <= |t| && Bracketed(c, strtod, t, p) == Bracketed(c, strtod, s, p)
    decreases |s| - p, 4
  {
    hide SkipSpace, Items, Same;
    var n, z := Bracketed(c, strtod, s, p).next, SkipSpace(s, p);
    SameBefore(s, t, z, n);
    SkipSpaceLocal(s, t, p);
    SameChar(s, t, z, n);
    SameLength(s, t, n);
    if CharAt(s, z) != RIGHT_BRACKET { ItemsLocal(c, strtod, s, t, z, []); }
  }

  lemma {:induction false} ItemsLocal(c: Context, strtod: Strtod, s: Text, t: Text, p: nat, items: seq<Value>)
    requires p <= |s| && Same(s, t, Items(c, strtod, s, p, items).next)
    ensures p <= |t| && Items(c, strtod, t, p, items) == Items(c, strtod, s, p, items)
    decreases |s| - p, 2
  {
    hide SkipSpace, Parse, Items, Same;
    ItemsTurn(c, strtod, s, p, items);
    var n, o := Items(c, strtod, s, p, items).next, Parse(c, strtod, s, p);
    SameBefore(s, t, o.next, n);
    ParseLocal(c, strtod, s, t, p);
    ItemsTurn(c, strtod, t, p, items);
    if o.Done? {
      var z := SkipSpace(s, o.next);
      SameBefore(s, t, z, n);
      SkipSpaceLocal(s, t, o.next);
      SameChar(s, t, z, n);
      if CharAt(s, z) == COMMA { ItemsLocal(c, strtod, s, t, z + 1, c.Append(items, o.value)); }
    }
  }

  lemma {:induction false} BracedLocal(c: Context, strtod: Strtod, s: Text, t: Text, p: nat)
    requires p <= |s| && Same(s, t, Braced(c, strtod, s, p).next)
    ensures p <= |t| && Braced(c, strtod, t, p) == Braced(c, strtod, s, p)
    decreases |s| - p, 4
  {
    hide SkipSpace, Members, Same;
    var n, z := Braced(c, strtod, s, p).next, SkipSpace(s, p);
    SameBefore(s, t, z, n);
    SkipSpaceLocal(s, t, p);
    SameChar(s, t, z, n);
    SameLength(s, t, n);
    if CharAt(s, z) != RIGHT_BRACE { MembersLocal(c, strtod, s, t, z, map[]); }
  }

  lemma KeyLocal(s: Text, t: Text, p: nat)
    requires p <= |s| && Same(s, t, Key(s, p).next)
    ensures p <= |t| && Key(t, p) == Key(s, p)
  {
    hide SkipSpace, String, Same;
    var n, q := Key(s, p).next, SkipSpace(s, p);
    SameBefore(s, t, q, n);
    SkipSpaceLocal(s, t, p);
    SameChar(s, t, q, n);
    SameLength(s, t, n);
    if CharAt(s, q) == QUOTE {
      var o := String(s, q + 1, []);
      SameBefore(s, t, o.next, n);
      StringLocal(s, t, q + 1, []);
      if o.Done? {
        var y := SkipSpace(s, o.next);
        SameBefore(s, t, y, n);
        SkipSpaceLocal(s, t, o.next);
        SameChar(s, t, y, n);
      }
    }
  }

  lemma {:induction false} MemberLocal(c: Context, strtod: Strtod, s: Text, t: Text, p: nat)
    requires p <= |s| && Same(s, t, Member(c, strtod, s, p).next)
    ensures p <= |t| && Member(c, strtod, t, p) == Member(c, strtod, s, p)
    decreases |s| - p, 2
  {
    hide Parse, Key, Same;
    var n, o := Member(c, strtod, s, p).next, Key(s, p);
    SameBefore(s, t, o.next, n);
    KeyLocal(s, t, p);
    if o.Done? { ParseLocal(c, strtod, s, t, o.next); }
  }

  lemma {:induction false} MembersLocal(c: Context, strtod: Strtod, s: Text, t: Text, p: nat, members: map<Text, Value>)
    requires p <= |s| && Same(s, t, Members(c, strtod, s, p, members).next)
    ensures p <= |t| && Members(c, strtod, t, p, members) == Members(c, strtod, s, p, members)
    decreases |s| - p, 3
  {
    hide SkipSpace, Member, Members, Same;
    MembersTurn(c, strtod, s, p, members);
    var n, o := Members(c, strtod, s, p, members).next, Member(c, strtod, s, p);
    SameBefore(s, t, o.next, n);
    MemberLocal(c, strtod, s, t, p);
    MembersTurn(c, strtod, t, p, members);
    if o.Done? {
      var z := SkipSpace(s, o.next);
      SameBefore(s, t, z, n);
      SkipSpaceLocal(s, t, o.next);
      SameChar(s, t, z, n);
      if CharAt(s, z) == COMMA {
        MembersLocal(c, strtod, s, t, z + 1, c.Put(members, o.value.key, o.value.value));
      }
    }
  }
}
