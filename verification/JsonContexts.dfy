/** The two parse contexts of 3rdparty/picojson/picojson.h accept the same texts. */
module JsonContexts {
  import opened JsonInput
  import opened JsonStrings
  import opened JsonParser

  // ---- the numbers of a text ----

  /** A number the parser hands to strtod: the characters from start to end. */
  datatype Token = Token(start: nat, end: nat)

  /** The numbers read from p on by the context that only checks, in the order it reads them. */
  function Numbers(strtod: Strtod, s: Text, p: nat): seq<Token>
    requires p <= |s|
    decreases |s| - p, 1
  {
    var q := SkipSpace(s, p);
    var ch := CharAt(s, q);
    if ch == LEFT_BRACKET then
      var z := SkipSpace(s, q + 1);
      if CharAt(s, z) == RIGHT_BRACKET then [] else ItemNumbers(strtod, s, z)
    else if ch == LEFT_BRACE then
      var z := SkipSpace(s, q + 1);
      if CharAt(s, z) == RIGHT_BRACE then [] else MemberNumbers(strtod, s, z)
    else if StartsNumber(ch) then [Token(q, NumberEnd(s, q))]
    else []
  }

  function ItemNumbers(strtod: Strtod, s: Text, p: nat): seq<Token>
    requires p <= |s|
    decreases |s| - p, 2
  {
    var n := Parse(NullContext, strtod, s, p);
    Numbers(strtod, s, p) +
    if n.Done? && CharAt(s, SkipSpace(s, n.next)) == COMMA then ItemNumbers(strtod, s, SkipSpace(s, n.next) + 1) else []
  }

  function MemberNumbers(strtod: Strtod, s: Text, p: nat): seq<Token>
    requires p <= |s|
    decreases |s| - p, 2
  {
    var key := Key(s, p);
    if !key.Done? then []
    else
      var n := Parse(NullContext, strtod, s, key.next);
      Numbers(strtod, s, key.next) +
      if n.Done? && CharAt(s, SkipSpace(s, n.next)) == COMMA then MemberNumbers(strtod, s, SkipSpace(s, n.next) + 1) else []
  }

  predicate OutOfRange(strtod: Strtod, s: Text, t: Token) {
    t.start <= t.end <= |s| && strtod(s[t.start..t.end]).Infinite?
  }

  /** The first number out of range, if any. */
  function First(strtod: Strtod, s: Text, ts: seq<Token>): seq<Token> {
    if ts == [] then [] else if OutOfRange(strtod, s, ts[0]) then [ts[0]] else First(strtod, s, ts[1..])
  }

  lemma {:induction false} FirstOfBoth(strtod: Strtod, s: Text, a: seq<Token>, b: seq<Token>)
    ensures First(strtod, s, a + b) == if First(strtod, s, a) != [] then First(strtod, s, a) else First(strtod, s, b)
  {
    hide OutOfRange;
    if a == [] {
      assert a + b == b;
    } else {
      FirstOfBoth(strtod, s, a[1..], b);
      assert (a + b)[1..] == a[1..] + b;
    }
  }

  lemma {:induction false} FirstIff(strtod: Strtod, s: Text, ts: seq<Token>)
    ensures First(strtod, s, ts) == [] ==> forall t :: t in ts ==> !OutOfRange(strtod, s, t)
    ensures First(strtod, s, ts) != [] ==>
              exists k :: 0 <= k < |ts| && IsFirst(strtod, s, ts, k) && First(strtod, s, ts) == [ts[k]]
  {
    hide OutOfRange;
    if ts != [] {
      FirstIff(strtod, s, ts[1..]);
      if OutOfRange(strtod, s, ts[0]) {
        assert IsFirst(strtod, s, ts, 0);
      } else if First(strtod, s, ts) != [] {
        var k :| 0 <= k < |ts[1..]| && IsFirst(strtod, s, ts[1..], k) && First(strtod, s, ts[1..]) == [ts[1..][k]];
        assert IsFirst(strtod, s, ts, k + 1) by {
          forall j | 0 <= j < k + 1 ensures !OutOfRange(strtod, s, ts[j]) {
            if j > 0 { assert ts[j] == ts[1..][j - 1]; }
          }
        }
      }
    }
  }

  predicate IsFirst(strtod: Strtod, s: Text, ts: seq<Token>, k: nat)
    requires k < |ts|
  {
    OutOfRange(strtod, s, ts[k]) && forall j :: 0 <= j < k ==> !OutOfRange(strtod, s, ts[j])
  }

  // ---- the two contexts side by side ----

  /** The outcome without the value. */
  function Erased(d: Outcome<Value>): Outcome<Value> {
    if d.Done? then Done(Null, d.next) else d
  }

  /**
   Both contexts come to one end where no number is out of range; at the first one that is, the building
   context throws. The checking context never does.
   */
  predicate Agree(strtod: Strtod, s: Text, ts: seq<Token>, d: Outcome<Value>, n: Outcome<Value>) {
    && !n.Thrown?
    && if First(strtod, s, ts) == [] then n == Erased(d) else d == Thrown(First(strtod, s, ts)[0].end)
  }

  lemma {:induction false} ParseAgrees(strtod: Strtod, s: Text, p: nat)
    requires p <= |s|
    ensures Agree(strtod, s, Numbers(strtod, s, p),
                  Parse(DefaultContext, strtod, s, p), Parse(NullContext, strtod, s, p))
    decreases |s| - p, 1
  {
    hide Items, Members, String, Word, SkipSpace, ItemNumbers, MemberNumbers, NumberAt;
    var q := SkipSpace(s, p);
    var ch := CharAt(s, q);
    if ch == LEFT_BRACKET {
      var z := SkipSpace(s, q + 1);
      if CharAt(s, z) != RIGHT_BRACKET { ItemsAgree(strtod, s, z, [], []); }
    } else if ch == LEFT_BRACE {
      var z := SkipSpace(s, q + 1);
      if CharAt(s, z) != RIGHT_BRACE { MembersAgree(strtod, s, z, map[], map[]); }
    } else if ch == LOWER_N {
      WordAgrees(s, q + 1, ULL, Null);
    } else if ch == LOWER_F {
      WordAgrees(s, q + 1, ALSE, Bool(false));
    } else if ch == LOWER_T {
      WordAgrees(s, q + 1, RUE, Bool(true));
    } else if ch != QUOTE && StartsNumber(ch) {
      NumberAgrees(strtod, s, q);
    }
  }

  lemma NumberAgrees(strtod: Strtod, s: Text, q: nat)
    requires q <= |s|
    ensures Agree(strtod, s, [Token(q, NumberEnd(s, q))],
                  NumberAt(DefaultContext, strtod, s, q), NumberAt(NullContext, strtod, s, q))
  {
    hide NumberEnd;
    var t := Token(q, NumberEnd(s, q));
    assert [t][1..] == [];
    assert First(strtod, s, [t]) == if OutOfRange(strtod, s, t) then [t] else [];
  }

  lemma WordAgrees(s: Text, p: nat, rest: Text, v: Value)
    requires p <= |s|
    ensures Word(s, p, rest, Null) == Erased(Word(s, p, rest, v)) && !Word(s, p, rest, v).Thrown?
  {}

  lemma {:induction false} ItemsAgree(strtod: Strtod, s: Text, p: nat, a: seq<Value>, b: seq<Value>)
    requires p <= |s|
    ensures Agree(strtod, s, ItemNumbers(strtod, s, p),
                  Items(DefaultContext, strtod, s, p, a), Items(NullContext, strtod, s, p, b))
    decreases |s| - p, 2
  {
    hide Parse, Items, SkipSpace, Numbers, First;
    ParseAgrees(strtod, s, p);
    ItemsTurn(DefaultContext, strtod, s, p, a);
    ItemsTurn(NullContext, strtod, s, p, b);
    ItemsNeverThrow(strtod, s, p, b);
    var d, n := Parse(DefaultContext, strtod, s, p), Parse(NullContext, strtod, s, p);
    var z := SkipSpace(s, n.next);
    var more := n.Done? && CharAt(s, z) == COMMA;
    FirstOfBoth(strtod, s, Numbers(strtod, s, p), if more then ItemNumbers(strtod, s, z + 1) else []);
    NoneFirst(strtod, s);
    if more && d.Done? { ItemsAgree(strtod, s, z + 1, a + [d.value], b); }
  }

  lemma NoneFirst(strtod: Strtod, s: Text)
    ensures First(strtod, s, []) == []
  {}

  lemma {:induction false} MembersAgree(strtod: Strtod, s: Text, p: nat, a: map<Text, Value>, b: map<Text, Value>)
    requires p <= |s|
    ensures Agree(strtod, s, MemberNumbers(strtod, s, p),
                  Members(DefaultContext, strtod, s, p, a), Members(NullContext, strtod, s, p, b))
    decreases |s| - p, 2
  {
    hide Parse, Member, Members, SkipSpace, Key, Numbers, First, Context.Put;
    MemberIs(DefaultContext, strtod, s, p);
    MemberIs(NullContext, strtod, s, p);
    MembersTurn(DefaultContext, strtod, s, p, a);
    MembersTurn(NullContext, strtod, s, p, b);
    MembersNeverThrow(strtod, s, p, b);
    NoneFirst(strtod, s);
    if Key(s, p).Done? {
      var q := Key(s, p).next;
      ParseAgrees(strtod, s, q);
      var d, n := Parse(DefaultContext, strtod, s, q), Parse(NullContext, strtod, s, q);
      var z := SkipSpace(s, n.next);
      var more := n.Done? && CharAt(s, z) == COMMA;
      FirstOfBoth(strtod, s, Numbers(strtod, s, q), if more then MemberNumbers(strtod, s, z + 1) else []);
      if more && d.Done? {
        var key := Key(s, p).value;
        MembersAgree(strtod, s, z + 1, DefaultContext.Put(a, key, d.value), NullContext.Put(b, key, n.value));
      }
    }
  }

  lemma MemberIs(c: Context, strtod: Strtod, s: Text, p: nat)
    requires p <= |s|
    ensures var key, m := Key(s, p), Member(c, strtod, s, p);
            if !key.Done? then m == Failed(key.next, key.held)
            else
              var o := Parse(c, strtod, s, key.next);
              && (o.Done? ==> m == Done(Field(key.value, o.value), o.next))
              && (o.Failed? ==> m == Failed(o.next, o.held))
              && (o.Thrown? ==> m == Thrown(o.next))
  {
    hide Parse, Key;
  }

  // ---- the checking context never throws ----

  lemma {:induction false} NeverThrows(strtod: Strtod, s: Text, p: nat)
    requires p <= |s|
    ensures !Parse(NullContext, strtod, s, p).Thrown?
    decreases |s| - p, 1
  {
    hide Items, Members, String, SkipSpace;
    var q := SkipSpace(s, p);
    var ch := CharAt(s, q);
    if ch == LEFT_BRACKET {
      ItemsNeverThrow(strtod, s, SkipSpace(s, q + 1), []);
    } else if ch == LEFT_BRACE {
      MembersNeverThrow(strtod, s, SkipSpace(s, q + 1), map[]);
    }
  }

  lemma {:induction false} ItemsNeverThrow(strtod: Strtod, s: Text, p: nat, b: seq<Value>)
    requires p <= |s|
    ensures !Items(NullContext, strtod, s, p, b).Thrown?
    decreases |s| - p, 2
  {
    hide Parse, Items, SkipSpace;
    NeverThrows(strtod, s, p);
    ItemsTurn(NullContext, strtod, s, p, b);
    var n := Parse(NullContext, strtod, s, p);
    if n.Done? && CharAt(s, SkipSpace(s, n.next)) == COMMA {
      ItemsNeverThrow(strtod, s, SkipSpace(s, n.next) + 1, b);
    }
  }

  lemma {:induction false} MembersNeverThrow(strtod: Strtod, s: Text, p: nat, b: map<Text, Value>)
    requires p <= |s|
    ensures !Members(NullContext, strtod, s, p, b).Thrown?
    decreases |s| - p, 2
  {
    hide Parse, Members, SkipSpace, Key;
    MembersTurn(NullContext, strtod, s, p, b);
    if Key(s, p).Done? {
      NeverThrows(strtod, s, Key(s, p).next);
    }
    var n := Member(NullContext, strtod, s, p);
    if n.Done? && CharAt(s, SkipSpace(s, n.next)) == COMMA {
      MembersNeverThrow(strtod, s, SkipSpace(s, n.next) + 1, b);
    }
  }

  // ---- where the numbers stand ----

  /** No number goes on across this position. */
  predicate IsBreak(s: Text, p: nat) { p == 0 || !IsNumberChar(CharAt(s, p - 1)) }

  /** A maximal run of number characters that starts as a number does. */
  predicate IsToken(s: Text, t: Token) {
    && t.start < |s| && StartsNumber(s[t.start]) && IsBreak(s, t.start)
    && t.end == NumberEnd(s, t.start)
  }

  predicate AreTokens(s: Text, ts: seq<Token>) { forall t :: t in ts ==> IsToken(s, t) }

  lemma SpaceIsBreak(s: Text, p: nat)
    requires p <= |s| && IsBreak(s, p)
    ensures IsBreak(s, SkipSpace(s, p))
  {
    var q := SkipSpace(s, p);
    if q > p { assert IsSpace(s[q - 1]); }
  }

  lemma {:induction false} NumbersAreTokens(strtod: Strtod, s: Text, p: nat)
    requires p <= |s| && IsBreak(s, p)
    ensures AreTokens(s, Numbers(strtod, s, p))
    decreases |s| - p, 1
  {
    hide SkipSpace, ItemNumbers, MemberNumbers;
    SpaceIsBreak(s, p);
    var q := SkipSpace(s, p);
    if CharAt(s, q) == LEFT_BRACKET || CharAt(s, q) == LEFT_BRACE {
      SpaceIsBreak(s, q + 1);
      var z := SkipSpace(s, q + 1);
      if CharAt(s, q) == LEFT_BRACKET { ItemNumbersAreTokens(strtod, s, z); } else { MemberNumbersAreTokens(strtod, s, z); }
    }
  }

  lemma {:induction false} ItemNumbersAreTokens(strtod: Strtod, s: Text, p: nat)
    requires p <= |s| && IsBreak(s, p)
    ensures AreTokens(s, ItemNumbers(strtod, s, p))
    decreases |s| - p, 2
  {
    hide SkipSpace, Numbers, Parse, IsToken;
    NumbersAreTokens(strtod, s, p);
    var n := Parse(NullContext, strtod, s, p);
    if n.Done? && CharAt(s, SkipSpace(s, n.next)) == COMMA {
      ItemNumbersAreTokens(strtod, s, SkipSpace(s, n.next) + 1);
    }
  }

  lemma {:induction false} MemberNumbersAreTokens(strtod: Strtod, s: Text, p: nat)
    requires p <= |s|
    ensures AreTokens(s, MemberNumbers(strtod, s, p))
    decreases |s| - p, 2
  {
    hide SkipSpace, Numbers, Parse, IsToken, Key;
    if Key(s, p).Done? {
      KeyEndsInColon(s, p);
      NumbersAreTokens(strtod, s, Key(s, p).next);
      var n := Parse(NullContext, strtod, s, Key(s, p).next);
      if n.Done? && CharAt(s, SkipSpace(s, n.next)) == COMMA {
        MemberNumbersAreTokens(strtod, s, SkipSpace(s, n.next) + 1);
      }
    }
  }

  lemma KeyEndsInColon(s: Text, p: nat)
    requires p <= |s| && Key(s, p).Done?
    ensures CharAt(s, Key(s, p).next - 1) == COLON
  {
    hide SkipSpace, String;
  }

  // ---- the theorem ----

  /** No number that stands in the text is out of range. */
  ghost predicate InRange(strtod: Strtod, s: Text) {
    forall t :: IsToken(s, t) ==> !OutOfRange(strtod, s, t)
  }

  /**
   The building context throws if and only if a number read is out of range, and then at the first such
   number; otherwise both contexts accept or reject alike and end at one position. In particular they agree
   on every text whose numbers are in range.
   */
  lemma ContextsAgree(strtod: Strtod, s: Text, p: nat)
    requires p <= |s|
    ensures var d, n := Parse(DefaultContext, strtod, s, p), Parse(NullContext, strtod, s, p);
            var ts := Numbers(strtod, s, p);
            && !n.Thrown?
            && (d.Thrown? <==> exists t :: t in ts && OutOfRange(strtod, s, t))
            && (d.Thrown? ==> exists k :: 0 <= k < |ts| && IsFirst(strtod, s, ts, k) && d.next == ts[k].end)
            && (!d.Thrown? ==> d.next == n.next && (d.Done? <==> n.Done?) && (d.Failed? ==> n == d))
            && (IsBreak(s, p) && InRange(strtod, s) ==> !d.Thrown?)
  {
    hide Parse, Numbers, OutOfRange, IsToken;
    var ts := Numbers(strtod, s, p);
    ParseAgrees(strtod, s, p);
    FirstIff(strtod, s, ts);
    if IsBreak(s, p) { NumbersAreTokens(strtod, s, p); }
  }
}
