/** 3rdparty/picojson/picojson.h: the characters of a text and the cursor over it. */
module JsonInput {

  type Byte = x: int | 0 <= x < 256

  type Text = seq<Byte>

  const TAB: Byte := 9
  const NEWLINE: Byte := 10
  const RETURN: Byte := 13
  const SPACE: Byte := 32
  const QUOTE: Byte := 34
  const PLUS: Byte := 43
  const COMMA: Byte := 44
  const MINUS: Byte := 45
  const DOT: Byte := 46
  const SLASH: Byte := 47
  const ZERO: Byte := 48
  const NINE: Byte := 57
  const COLON: Byte := 58
  const UPPER_A: Byte := 65
  const UPPER_E: Byte := 69
  const UPPER_F: Byte := 70
  const LEFT_BRACKET: Byte := 91
  const BACKSLASH: Byte := 92
  const RIGHT_BRACKET: Byte := 93
  const LOWER_A: Byte := 97
  const LOWER_B: Byte := 98
  const LOWER_E: Byte := 101
  const LOWER_F: Byte := 102
  const LOWER_N: Byte := 110
  const LOWER_R: Byte := 114
  const LOWER_T: Byte := 116
  const LOWER_U: Byte := 117
  const LEFT_BRACE: Byte := 123
  const RIGHT_BRACE: Byte := 125

  const END := -1

  /**
   How a parsing step ends, and the position of the next character to be read. A failed step has usually
   put the offending character back; it may also end holding the last character it read.
   */
  datatype Outcome<+T> = Done(value: T, next: nat) | Failed(next: nat, held: bool := false) | Thrown(next: nat) {
    /** The outcome of a step begun at p lies inside the text, and has moved if it succeeded or holds a character. */
    predicate Within(p: nat, s: Text) {
      p <= next <= |s| && (Done? || (Failed? && held) ==> p < next)
    }
  }

  // ---- what the cursor's operations mean, on positions ----

  /** The character at a position, or -1 past the end. */
  function CharAt(s: Text, p: nat): int {
    if p < |s| then s[p] else END
  }

  predicate IsSpace(ch: int) {
    ch == SPACE || ch == TAB || ch == NEWLINE || ch == RETURN
  }

  /** The first position from p on that holds no white space. */
  function SkipSpace(s: Text, p: nat): (q: nat)
    requires p <= |s|
    ensures p <= q <= |s|
    ensures forall i :: p <= i < q ==> IsSpace(s[i])
    ensures !IsSpace(CharAt(s, q))
    decreases |s| - p
  {
    if IsSpace(CharAt(s, p)) then SkipSpace(s, p + 1) else p
  }

  /** The text t stands at position p. */
  predicate At(s: Text, p: nat, t: Text) {
    p + |t| <= |s| && s[p..p + |t|] == t
  }

  /** The first index from i on where t differs from the text at p. */
  function Common(s: Text, p: nat, t: Text, i: nat): (n: nat)
    requires i <= |t| && p + i <= |s|
    ensures i <= n <= |t| && p + n <= |s|
    ensures forall k :: i <= k < n ==> s[p + k] == t[k]
    ensures n < |t| ==> CharAt(s, p + n) != t[n]
    decreases |t| - i
  {
    if i == |t| || CharAt(s, p + i) != t[i] then i else Common(s, p, t, i + 1)
  }

  function Newlines(s: Text): nat {
    if s == [] then 0 else Newlines(s[..|s| - 1]) + if s[|s| - 1] == NEWLINE then 1 else 0
  }

  lemma NewlinesStep(s: Text, p: nat)
    requires p < |s|
    ensures Newlines(s[..p + 1]) == Newlines(s[..p]) + if s[p] == NEWLINE then 1 else 0
  {
    assert s[..p + 1][..p] == s[..p];
  }

  // ---- the cursor ----

  /** A cursor that passes a character only when the next one is asked for. */
  class Input {
    const text: Text
    var cur: nat
    var consumed: bool
    var line: nat

    constructor (text: Text)
      ensures this.text == text && Valid() && Next() == 0 && line == 1
    {
      this.text := text;
      cur, consumed, line := 0, false, 1;
    }

    /** The cursor is inside the text, and the line number counts the newlines it has passed. */
    ghost predicate Valid()
      reads this
    {
      && cur <= |text|
      && (consumed ==> cur < |text|)
      && line == 1 + Newlines(text[..cur])
    }

    /** The position of the next character to be read. */
    function Next(): nat
      reads this
    {
      if consumed then cur + 1 else cur
    }

    /** The cursor stands where a step with this outcome leaves it. */
    ghost predicate Stands<T>(o: Outcome<T>)
      reads this
    {
      Next() == o.next && (o.Failed? ==> consumed == o.held)
    }

    method Getc() returns (ch: int)
      requires Valid()
      modifies this
      ensures Valid()
      ensures ch == CharAt(text, old(Next())) && cur == old(Next())
      ensures consumed <==> ch != END
    {
      if consumed {
        NewlinesStep(text, cur);
        if text[cur] == NEWLINE {
          line := line + 1;
        }
        cur := cur + 1;
      }
      if cur == |text| {
        consumed := false;
        return END;
      }
      consumed := true;
      return text[cur];
    }

    method Ungetc()
      requires Valid()
      modifies this
      ensures Valid() && !consumed && cur == old(cur) && line == old(line)
    {
      consumed := false;
    }

    /**
     The position after everything read. A newline passed here is not counted: the line number stays
     right exactly when the character passed is not a newline.
     */
    method Cur() returns (position: nat)
      requires Valid()
      modifies this
      ensures position == Next() == old(Next()) && line == old(line)
      ensures Valid() <==> !old(consumed) || text[old(cur)] != NEWLINE
    {
      if consumed {
        NewlinesStep(text, cur);
        consumed := false;
        cur := cur + 1;
      }
      position := cur;
    }

    method SkipWs()
      requires Valid()
      modifies this
      ensures Valid() && !consumed && Next() == SkipSpace(text, old(Next()))
    {
      while true
        invariant Valid() && SkipSpace(text, Next()) == SkipSpace(text, old(Next()))
        decreases |text| - Next()
      {
        var ch := Getc();
        if !IsSpace(ch) {
          Ungetc();
          break;
        }
      }
    }

    method Expect(expected: Byte) returns (ok: bool)
      requires Valid()
      modifies this
      ensures Valid()
      ensures var q := SkipSpace(text, old(Next()));
              ok == (CharAt(text, q) == expected) && Next() == (if ok then q + 1 else q) && (!ok ==> !consumed)
    {
      SkipWs();
      var ch := Getc();
      if ch != expected {
        Ungetc();
        return false;
      }
      return true;
    }

    method Match(pattern: Text) returns (ok: bool)
      requires Valid()
      modifies this
      ensures Valid()
      ensures var n := Common(text, old(Next()), pattern, 0);
              ok == (n == |pattern|) && Next() == old(Next()) + n && (!ok ==> !consumed)
    {
      var i := 0;
      ghost var p := Next();
      while i < |pattern|
        invariant Valid() && 0 <= i <= |pattern| && Next() == p + i
        invariant Common(text, p, pattern, 0) == Common(text, p, pattern, i)
      {
        var ch := Getc();
        if ch != pattern[i] {
          Ungetc();
          return false;
        }
        i := i + 1;
      }
      return true;
    }
  }
}
