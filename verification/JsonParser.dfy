/** 3rdparty/picojson/picojson.h: the recursive-descent parser and its two contexts. */
module JsonParser {
  import opened JsonInput
  import opened JsonStrings

  datatype Value =
    | Null
    | Bool(b: bool)
    | Number(x: real)
    | Str(bytes: Text)
    | Array(items: seq<Value>)
    | Object(members: map<Text, Value>)

  /** What strtod makes of a text: part of it, all of it, or all of it but out of range. */
  datatype Converted = Partial | Finite(x: real) | Infinite

  type Strtod = Text -> Converted

  /** default_parse_context builds the value; null_parse_context only checks the syntax. */
  datatype Context = DefaultContext | NullContext {
    function Keep(v: Value): Value { if DefaultContext? then v else Null }

    function Append(items: seq<Value>, v: Value): seq<Value> { if DefaultContext? then items + [v] else items }

    function Put(members: map<Text, Value>, key: Text, v: Value): map<Text, Value> {
      if DefaultContext? then members[key := v] else members
    }
  }

  const ULL: Text := [117, 108, 108]
  const ALSE: Text := [97, 108, 115, 101]
  const RUE: Text := [114, 117, 101]

  // ---- what the parser computes, on positions ----

  predicate IsNumberChar(ch: int) {
    ZERO <= ch <= NINE || ch == PLUS || ch == MINUS || ch == LOWER_E || ch == UPPER_E || ch == DOT
  }

  predicate StartsNumber(ch: int) { ZERO <= ch <= NINE || ch == MINUS }

  /** The first position from p on that holds no character of a number. */
  function NumberEnd(s: Text, p: nat): (q: nat)
    requires p <= |s|
    ensures p <= q <= |s|
    ensures forall i :: p <= i < q ==> IsNumberChar(s[i])
    ensures !IsNumberChar(CharAt(s, q))
    decreases |s| - p
  {
    if IsNumberChar(CharAt(s, p)) then NumberEnd(s, p + 1) else p
  }

  function Word(s: Text, p: nat, rest: Text, v: Value): (r: Outcome<Value>)
    requires p <= |s|
    ensures p <= r.next <= |s| && !(r.Failed? && r.held)
  {
    var n := Common(s, p, rest, 0);
    if n == |rest| then Done(v, p + n) else Failed(p + n)
  }

  function NumberAt(c: Context, strtod: Strtod, s: Text, p: nat): (r: Outcome<Value>)
    requires p <= |s|
    ensures r.next == NumberEnd(s, p) && !(r.Failed? && r.held)
  {
    var q := NumberEnd(s, p);
    match strtod(s[p..q])
    case Partial => Failed(q)
    case Finite(x) => Done(c.Keep(Number(x)), q)
    case Infinite => if c.DefaultContext? then Thrown(q) else Done(Null, q)
  }

  function Parse(c: Context, strtod: Strtod, s: Text, p: nat): (r: Outcome<Value>)
    requires p <= |s|
    ensures r.Within(p, s)
    decreases |s| - p, 1
  {
    var q := SkipSpace(s, p);
    var ch := CharAt(s, q);
    if ch == LOWER_N then Word(s, q + 1, ULL, Null)
    else if ch == LOWER_F then Word(s, q + 1, ALSE, c.Keep(Bool(false)))
    else if ch == LOWER_T then Word(s, q + 1, RUE, c.Keep(Bool(true)))
    else if ch == QUOTE then
      match String(s, q + 1, [])
      case Failed(z, h) => Failed(z, h)
      case Done(bytes, z) => Done(c.Keep(Str(bytes)), z)
    else if ch == LEFT_BRACKET then Bracketed(c, strtod, s, q + 1)
    else if ch == LEFT_BRACE then Braced(c, strtod, s, q + 1)
    else if StartsNumber(ch) then NumberAt(c, strtod, s, q)
    else Failed(q)
  }

  /** What follows a left bracket. */
  function Bracketed(c: Context, strtod: Strtod, s: Text, p: nat): (r: Outcome<Value>)
    requires p <= |s|
    ensures r.Within(p, s)
    decreases |s| - p, 4
  {
    var z := SkipSpace(s, p);
    if CharAt(s, z) == RIGHT_BRACKET then Done(c.Keep(Array([])), z + 1) else Items(c, strtod, s, z, [])
  }

  /** The rest of an array, from an item on. */
  function Items(c: Context, strtod: Strtod, s: Text, p: nat, items: seq<Value>): (r: Outcome<Value>)
    requires p <= |s|
    ensures r.Within(p, s)
    decreases |s| - p, 2
  {
    match Parse(c, strtod, s, p)
    case Failed(q, h) => Failed(q, h)
    case Thrown(q) => Thrown(q)
    case Done(v, q) =>
      var z := SkipSpace(s, q);
      if CharAt(s, z) == COMMA then Items(c, strtod, s, z + 1, c.Append(items, v))
      else if CharAt(s, z) == RIGHT_BRACKET then Done(c.Keep(Array(c.Append(items, v))), z + 1)
      else Failed(z)
  }

  /** What follows a left brace. */
  function Braced(c: Context, strtod: Strtod, s: Text, p: nat): (r: Outcome<Value>)
    requires p <= |s|
    ensures r.Within(p, s)
    decreases |s| - p, 4
  {
    var z := SkipSpace(s, p);
    if CharAt(s, z) == RIGHT_BRACE then Done(c.Keep(Object(map[])), z + 1) else Members(c, strtod, s, z, map[])
  }

  /** A key and its colon. */
  function Key(s: Text, p: nat): (r: Outcome<Text>)
    requires p <= |s|
    ensures r.Within(p, s) && !r.Thrown?
  {
    var q := SkipSpace(s, p);
    if CharAt(s, q) != QUOTE then Failed(q)
    else
      match String(s, q + 1, [])
      case Failed(z, h) => Failed(z, h)
      case Done(key, z) =>
        var y := SkipSpace(s, z);
        if CharAt(s, y) == COLON then Done(key, y + 1) else Failed(y)
  }

  /** A key, its colon and its value. */
  function Member(c: Context, strtod: Strtod, s: Text, p: nat): (r: Outcome<Field>)
    requires p <= |s|
    ensures r.Within(p, s)
    decreases |s| - p, 2
  {
    match Key(s, p)
    case Failed(q, h) => Failed(q, h)
    case Done(key, q) =>
      match Parse(c, strtod, s, q)
      case Failed(z, h) => Failed(z, h)
      case Thrown(z) => Thrown(z)
      case Done(v, z) => Done(Field(key, v), z)
  }

  datatype Field = Field(key: Text, value: Value)

  /** The rest of an object, from a key on. */
  function Members(c: Context, strtod: Strtod, s: Text, p: nat, members: map<Text, Value>): (r: Outcome<Value>)
    requires p <= |s|
    ensures r.Within(p, s)
    decreases |s| - p, 3
  {
    match Member(c, strtod, s, p)
    case Failed(q, h) => Failed(q, h)
    case Thrown(q) => Thrown(q)
    case Done(f, q) =>
      var z := SkipSpace(s, q);
      if CharAt(s, z) == COMMA then Members(c, strtod, s, z + 1, c.Put(members, f.key, f.value))
      else if CharAt(s, z) == RIGHT_BRACE then Done(c.Keep(Object(c.Put(members, f.key, f.value))), z + 1)
      else Failed(z)
  }

  // ---- the parser ----

  datatype Reply = Accepts(value: Value) | Rejects | Throws

  function ReplyOf(r: Outcome<Value>): Reply {
    match r
    case Done(v, _) => Accepts(v)
    case Failed(_, _) => Rejects
    case Thrown(_) => Throws
  }

  method ParseNumber(input: Input) returns (number: Text)
    requires input.Valid()
    modifies input
    ensures input.Valid() && !input.consumed && input.Next() == NumberEnd(input.text, old(input.Next()))
    ensures number == input.text[old(input.Next())..input.Next()]
  {
    hide Newlines;
    number := [];
    ghost var p := input.Next();
    while true
      invariant input.Valid() && p <= input.Next() <= |input.text|
      invariant NumberEnd(input.text, input.Next()) == NumberEnd(input.text, p)
      invariant number == input.text[p..input.Next()]
      decreases |input.text| - input.Next()
    {
      var ch := input.Getc();
      if IsNumberChar(ch) {
        number := number + [ch];
      } else {
        input.Ungetc();
        break;
      }
    }
  }

  method ParseWord(input: Input, rest: Text, v: Value) returns (r: Reply)
    requires input.Valid()
    modifies input
    ensures input.Valid()
    ensures var o := Word(input.text, old(input.Next()), rest, v);
            r == ReplyOf(o) && input.Stands(o)
  {
    hide Newlines;
    var ok := input.Match(rest);
    return if ok then Accepts(v) else Rejects;
  }

  method ParseValue(c: Context, strtod: Strtod, input: Input) returns (r: Reply)
    requires input.Valid()
    modifies input
    ensures input.Valid()
    ensures var o := Parse(c, strtod, input.text, old(input.Next()));
            r == ReplyOf(o) && input.Stands(o)
    decreases |input.text| - input.Next(), 1
  {
    hide Newlines, Bracketed, Braced, String, Word;
    input.SkipWs();
    var ch := input.Getc();
    if ch == LOWER_N {
      r := ParseWord(input, ULL, Null);
    } else if ch == LOWER_F {
      r := ParseWord(input, ALSE, c.Keep(Bool(false)));
    } else if ch == LOWER_T {
      r := ParseWord(input, RUE, c.Keep(Bool(true)));
    } else if ch == QUOTE {
      var ok, bytes := ParseString(input, []);
      r := if ok then Accepts(c.Keep(Str(bytes))) else Rejects;
    } else if ch == LEFT_BRACKET {
      r := ParseArray(c, strtod, input);
    } else if ch == LEFT_BRACE {
      r := ParseObject(c, strtod, input);
    } else if StartsNumber(ch) {
      input.Ungetc();
      var number := ParseNumber(input);
      match strtod(number)
      case Partial => r := Rejects;
      case Finite(x) => r := Accepts(c.Keep(Number(x)));
      case Infinite => r := if c.DefaultContext? then Throws else Accepts(Null);
    } else {
      input.Ungetc();
      r := Rejects;
    }
  }

  /** One turn of the loop over items. */
  lemma ItemsTurn(c: Context, strtod: Strtod, s: Text, p: nat, items: seq<Value>)
    requires p <= |s|
    ensures var o, r := Parse(c, strtod, s, p), Items(c, strtod, s, p, items);
            && (o.Failed? ==> r == Failed(o.next, o.held))
            && (o.Thrown? ==> r == Thrown(o.next))
            && (o.Done? ==>
                  var z, longer := SkipSpace(s, o.next), c.Append(items, o.value);
                  r == if CharAt(s, z) == COMMA then Items(c, strtod, s, z + 1, longer)
                       else if CharAt(s, z) == RIGHT_BRACKET then Done(c.Keep(Array(longer)), z + 1) else Failed(z))
  {
    hide Parse, SkipSpace;
  }

  method ParseArray(c: Context, strtod: Strtod, input: Input) returns (r: Reply)
    requires input.Valid()
    modifies input
    ensures input.Valid()
    ensures var o := Bracketed(c, strtod, input.text, old(input.Next()));
            r == ReplyOf(o) && input.Stands(o)
    decreases |input.text| - input.Next(), 2
  {
    hide Newlines, Parse, Items, SkipSpace, Context.Keep, Context.Append;
    ghost var start := input.Next();
    var items: seq<Value> := [];
    var ok := input.Expect(RIGHT_BRACKET);
    if ok {
      return Accepts(c.Keep(Array([])));
    }
    ghost var p := input.Next();
    while true
      invariant input.Valid() && start <= input.Next() <= |input.text|
      invariant Items(c, strtod, input.text, p, []) == Items(c, strtod, input.text, input.Next(), items)
      decreases |input.text| - input.Next()
    {
      ItemsTurn(c, strtod, input.text, input.Next(), items);
      r := ParseValue(c, strtod, input);
      if !r.Accepts? {
        return;
      }
      items := c.Append(items, r.value);
      var more := input.Expect(COMMA);
      if !more {
        break;
      }
    }
    ok := input.Expect(RIGHT_BRACKET);
    return if ok then Accepts(c.Keep(Array(items))) else Rejects;
  }

  method ParseKey(input: Input) returns (ok: bool, key: Text)
    requires input.Valid()
    modifies input
    ensures input.Valid()
    ensures var o := Key(input.text, old(input.Next()));
            ok == o.Done? && input.Stands(o) && (ok ==> key == o.value)
  {
    hide Newlines, String;
    key := [];
    ok := input.Expect(QUOTE);
    if ok {
      ok, key := ParseString(input, []);
      if ok {
        ok := input.Expect(COLON);
      }
    }
  }

  method ParseMember(c: Context, strtod: Strtod, input: Input) returns (r: Reply, key: Text)
    requires input.Valid()
    modifies input
    ensures input.Valid()
    ensures var o := Member(c, strtod, input.text, old(input.Next()));
            && input.Stands(o)
            && r == match o { case Done(f, _) => Accepts(f.value) case Failed(_, _) => Rejects case Thrown(_) => Throws }
            && (o.Done? ==> key == o.value.key)
    decreases |input.text| - input.Next(), 2
  {
    hide Newlines, Parse, Key;
    var ok;
    ok, key := ParseKey(input);
    if !ok {
      return Rejects, key;
    }
    r := ParseValue(c, strtod, input);
  }

  /** One turn of the loop over members. */
  lemma MembersTurn(c: Context, strtod: Strtod, s: Text, p: nat, members: map<Text, Value>)
    requires p <= |s|
    ensures var o, r := Member(c, strtod, s, p), Members(c, strtod, s, p, members);
            && (o.Failed? ==> r == Failed(o.next, o.held))
            && (o.Thrown? ==> r == Thrown(o.next))
            && (o.Done? ==>
                  var z, longer := SkipSpace(s, o.next), c.Put(members, o.value.key, o.value.value);
                  r == if CharAt(s, z) == COMMA then Members(c, strtod, s, z + 1, longer)
                       else if CharAt(s, z) == RIGHT_BRACE then Done(c.Keep(Object(longer)), z + 1) else Failed(z))
  {
    hide Member, SkipSpace;
  }

  method ParseObject(c: Context, strtod: Strtod, input: Input) returns (r: Reply)
    requires input.Valid()
    modifies input
    ensures input.Valid()
    ensures var o := Braced(c, strtod, input.text, old(input.Next()));
            r == ReplyOf(o) && input.Stands(o)
    decreases |input.text| - input.Next(), 3
  {
    hide Newlines, Member, Members, SkipSpace, Context.Keep, Context.Put;
    ghost var start := input.Next();
    var members: map<Text, Value> := map[];
    var ok := input.Expect(RIGHT_BRACE);
    if ok {
      return Accepts(c.Keep(Object(map[])));
    }
    ghost var p := input.Next();
    while true
      invariant input.Valid() && start <= input.Next() <= |input.text|
      invariant Members(c, strtod, input.text, p, map[]) == Members(c, strtod, input.text, input.Next(), members)
      decreases |input.text| - input.Next()
    {
      MembersTurn(c, strtod, input.text, input.Next(), members);
      var key;
      r, key := ParseMember(c, strtod, input);
      if !r.Accepts? {
        return;
      }
      members := c.Put(members, key, r.value);
      var more := input.Expect(COMMA);
      if !more {
        break;
      }
    }
    ok := input.Expect(RIGHT_BRACE);
    return if ok then Accepts(c.Keep(Object(members))) else Rejects;
  }

  // ---- a whole text ----

  /** The position after the line that p is on. */
  function LineEnd(s: Text, p: nat): (q: nat)
    requires p <= |s|
    ensures p <= q <= |s|
    decreases |s| - p
  {
    if p == |s| then p else if s[p] == NEWLINE then p + 1 else LineEnd(s, p + 1)
  }

  /** The printable rest of the line that p is on. */
  function Near(s: Text, p: nat): Text
    requires p <= |s|
    decreases |s| - p
  {
    if p == |s| || s[p] == NEWLINE then []
    else (if s[p] >= SPACE then [s[p]] else []) + Near(s, p + 1)
  }

  /**
   Parses a value at the head of a text. Returns the position after it; or, for a text that is
   rejected, the number of the line and the rest of it, and the position after that line. A newline that
   was the last character read (an escape that is none) is not counted yet.
   */
  method ParseText(c: Context, strtod: Strtod, text: Text) returns (r: Reply, position: nat, line: nat, near: Text)
    ensures r == ReplyOf(Parse(c, strtod, text, 0))
    ensures position <= |text|
    ensures r.Accepts? ==> 0 < position == Parse(c, strtod, text, 0).next
    ensures r.Rejects? ==>
              var o := Parse(c, strtod, text, 0);
              && position == LineEnd(text, o.next)
              && near == Near(text, o.next)
              && line == 1 + Newlines(text[..if o.held then o.next - 1 else o.next])
  {
    hide Newlines, Parse, LineEnd, Near;
    var input := new Input(text);
    r := ParseValue(c, strtod, input);
    line, near, position := input.line, [], 0;
    if r.Throws? {
      return;
    }
    if r.Rejects? {
      near := RestOfLine(input);
    }
    position := input.Cur();
  }

  /** Reads the line to its end. */
  method RestOfLine(input: Input) returns (near: Text)
    requires input.Valid()
    modifies input
    ensures input.Valid() && input.Next() == LineEnd(input.text, old(input.Next()))
    ensures near == Near(input.text, old(input.Next()))
  {
    hide Newlines;
    near := [];
    ghost var p := input.Next();
    while true
      invariant input.Valid() && p <= input.Next() <= |input.text|
      invariant LineEnd(input.text, input.Next()) == LineEnd(input.text, p)
      invariant near + Near(input.text, input.Next()) == Near(input.text, p)
      decreases |input.text| - input.Next()
    {
      var ch := input.Getc();
      if ch == END || ch == NEWLINE {
        break;
      } else if ch >= SPACE {
        near := near + [ch];
      }
    }
  }
}
