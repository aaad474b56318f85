/** 3rdparty/picojson/picojson.h: serialization, compact (indent -1) and pretty (indent 0 and up). */
module JsonPrinter {
  import opened JsonInput
  import opened JsonEscapes
  import opened JsonParser

  /** A value as the serializer walks it: its objects with their members in some order of iteration. */
  datatype Listing =
    | NullNode
    | BoolNode(b: bool)
    | NumberNode(x: real)
    | StringNode(bytes: Text)
    | ArrayNode(items: seq<Listing>)
    | ObjectNode(entries: seq<Entry>)

  datatype Entry = Entry(key: Text, value: Listing)

  /** The value listed. */
  function ToValue(l: Listing): Value
    decreases l, 1
  {
    match l
    case NullNode => Null
    case BoolNode(b) => Bool(b)
    case NumberNode(x) => Number(x)
    case StringNode(bytes) => Str(bytes)
    case ArrayNode(items) => Array(ItemValues(l, 0))
    case ObjectNode(entries) => Object(MemberValues(l, |entries|))
  }

  /** The values of the items from k on. */
  function ItemValues(l: Listing, k: nat): seq<Value>
    requires l.ArrayNode? && k <= |l.items|
    decreases l, 0, |l.items| - k
  {
    if k == |l.items| then [] else [ToValue(l.items[k])] + ItemValues(l, k + 1)
  }

  /** The members given by the first k entries. */
  function MemberValues(l: Listing, k: nat): map<Text, Value>
    requires l.ObjectNode? && k <= |l.entries|
    decreases l, 0, k
  {
    if k == 0 then map[] else MemberValues(l, k - 1)[l.entries[k - 1].key := ToValue(l.entries[k - 1].value)]
  }

  /** How a double is printed with 17 significant digits. */
  type Format = real -> Text

  const TWO_TO_THE_53 := 9007199254740992.0

  const NULL_TEXT: Text := [LOWER_N] + ULL
  const TRUE_TEXT: Text := [LOWER_T] + RUE
  const FALSE_TEXT: Text := [LOWER_F] + ALSE

  // ---- numbers ----

  function NatText(n: nat): Text {
    if n < 10 then [ZERO + n] else NatText(n / 10) + [ZERO + n % 10]
  }

  function IntText(n: int): Text {
    if n < 0 then [MINUS] + NatText(-n) else NatText(n)
  }

  predicate IsSmallInteger(x: real) {
    -TWO_TO_THE_53 < x < TWO_TO_THE_53 && x == x.Floor as real
  }

  function NumberText(format: Format, x: real): Text {
    if IsSmallInteger(x) then IntText(x.Floor) else format(x)
  }

  // ---- what the serializer writes ----

  function Spaces(n: nat): Text {
    if n == 0 then [] else Spaces(n - 1) + [SPACE]
  }

  /** A new line, indented by two for each level; nothing in compact form. */
  function Indent(indent: int): Text
    requires indent >= -1
  {
    if indent == -1 then [] else [NEWLINE] + Spaces(indent * 2)
  }

  function Deeper(indent: int): (r: int)
    requires indent >= -1
    ensures r == -1 || r >= 1
  {
    if indent == -1 then -1 else indent + 1
  }

  /** A value without the newline that ends a pretty text. */
  function Body(format: Format, l: Listing, indent: int): Text
    requires indent >= -1
    decreases l, 2
  {
    match l
    case NullNode => NULL_TEXT
    case BoolNode(b) => if b then TRUE_TEXT else FALSE_TEXT
    case NumberNode(x) => NumberText(format, x)
    case StringNode(bytes) => PrintedString(bytes)
    case ArrayNode(items) =>
      [LEFT_BRACKET] + ItemTexts(format, l, 0, Deeper(indent)) + ItemsEnd(l, indent)
    case ObjectNode(entries) =>
      [LEFT_BRACE] + EntryTexts(format, l, 0, Deeper(indent)) + EntriesEnd(l, indent)
  }

  function Print(format: Format, l: Listing, indent: int): Text
    requires indent >= -1
    decreases l, 3
  {
    Body(format, l, indent) + if indent == 0 then [NEWLINE] else []
  }

  function ItemsEnd(l: Listing, indent: int): Text
    requires l.ArrayNode? && indent >= -1
  {
    (if l.items == [] then [] else Indent(indent)) + [RIGHT_BRACKET]
  }

  function EntriesEnd(l: Listing, indent: int): Text
    requires l.ObjectNode? && indent >= -1
  {
    (if l.entries == [] then [] else Indent(indent)) + [RIGHT_BRACE]
  }

  /** The items from k on, each after a comma but the first. */
  function ItemTexts(format: Format, l: Listing, k: nat, indent: int): Text
    requires l.ArrayNode? && k <= |l.items| && indent >= -1
    decreases l, 1, |l.items| - k
  {
    if k == |l.items| then []
    else (if k == 0 then [] else [COMMA]) + (ItemText(format, l, k, indent) + ItemTexts(format, l, k + 1, indent))
  }

  function ItemText(format: Format, l: Listing, k: nat, indent: int): Text
    requires l.ArrayNode? && k < |l.items| && indent >= -1
    decreases l, 0
  {
    Indent(indent) + Print(format, l.items[k], indent)
  }

  function EntryTexts(format: Format, l: Listing, k: nat, indent: int): Text
    requires l.ObjectNode? && k <= |l.entries| && indent >= -1
    decreases l, 1, |l.entries| - k
  {
    if k == |l.entries| then []
    else (if k == 0 then [] else [COMMA]) + (EntryText(format, l, k, indent) + EntryTexts(format, l, k + 1, indent))
  }

  function EntryText(format: Format, l: Listing, k: nat, indent: int): Text
    requires l.ObjectNode? && k < |l.entries| && indent >= -1
    decreases l, 0
  {
    Indent(indent) + KeyText(l.entries[k].key, indent) + Print(format, l.entries[k].value, indent)
  }

  function KeyText(key: Text, indent: int): Text {
    PrintedString(key) + [COLON] + if indent == -1 then [] else [SPACE]
  }

  // ---- the serializer ----

  /** What an output iterator has appended so far. */
  class Output {
    var text: Text

    constructor ()
      ensures text == []
    {
      text := [];
    }

    method Append(t: Text)
      modifies this
      ensures text == old(text) + t
    {
      text := text + t;
    }

    method SerializeString(str: Text)
      modifies this
      ensures text == old(text) + PrintedString(str)
    {
      text := text + [QUOTE];
      ghost var start := text;
      for i := 0 to |str|
        invariant text == start + PrintedChars(str[..i])
      {
        PrintedCharsStep(str, i);
        text := text + PrintedChar(str[i]);
      }
      assert str[..|str|] == str;
      text := text + [QUOTE];
      assert text == old(text) + PrintedString(str);
    }

    method WriteIndent(indent: int)
      requires indent >= 0
      modifies this
      ensures text == old(text) + Indent(indent)
    {
      text := text + [NEWLINE];
      ghost var start := text;
      for i := 0 to indent * 2
        invariant text == start + Spaces(i)
      {
        text := text + [SPACE];
      }
    }

    /** One turn of the loop over items. */
    method SerializeItem(format: Format, l: Listing, k: nat, indent: int)
      requires l.ArrayNode? && k < |l.items| && (indent == -1 || indent >= 1)
      modifies this
      ensures text + ItemTexts(format, l, k + 1, indent) == old(text) + ItemTexts(format, l, k, indent)
      decreases l, 1
    {
      hide Print, Indent, KeyText;
      if k != 0 {
        text := text + [COMMA];
      }
      if indent != -1 {
        WriteIndent(indent);
      } else {
        CompactIndent();
      }
      Serialize(format, l.items[k], indent);
      assert text == old(text) + ((if k == 0 then [] else [COMMA]) + ItemText(format, l, k, indent));
    }

    method SerializeArray(format: Format, l: Listing, indent: int)
      requires l.ArrayNode? && indent >= -1
      modifies this
      ensures text == old(text) + Body(format, l, indent)
      decreases l, 2
    {
      hide Print, Indent, ItemText;
      text := text + [LEFT_BRACKET];
      var deeper := if indent != -1 then indent + 1 else indent;
      ghost var start := text;
      for k := 0 to |l.items|
        invariant text + ItemTexts(format, l, k, deeper) == start + ItemTexts(format, l, 0, deeper)
      {
        SerializeItem(format, l, k, deeper);
      }
      assert text == start + ItemTexts(format, l, 0, deeper);
      if indent != -1 && l.items != [] {
        WriteIndent(indent);
      } else if indent == -1 {
        CompactIndent();
      }
      text := text + [RIGHT_BRACKET];
      assert text == start + (ItemTexts(format, l, 0, deeper) + ItemsEnd(l, indent));
    }

    /** One turn of the loop over entries. */
    method SerializeEntry(format: Format, l: Listing, k: nat, indent: int)
      requires l.ObjectNode? && k < |l.entries| && (indent == -1 || indent >= 1)
      modifies this
      ensures text + EntryTexts(format, l, k + 1, indent) == old(text) + EntryTexts(format, l, k, indent)
      decreases l, 1
    {
      hide Print, Indent, KeyText;
      if k != 0 {
        text := text + [COMMA];
      }
      if indent != -1 {
        WriteIndent(indent);
      } else {
        CompactIndent();
      }
      SerializeKey(l.entries[k].key, indent);
      Serialize(format, l.entries[k].value, indent);
      assert text == old(text) + ((if k == 0 then [] else [COMMA]) + EntryText(format, l, k, indent));
    }

    method SerializeObject(format: Format, l: Listing, indent: int)
      requires l.ObjectNode? && indent >= -1
      modifies this
      ensures text == old(text) + Body(format, l, indent)
      decreases l, 2
    {
      hide Print, Indent, EntryText;
      text := text + [LEFT_BRACE];
      var deeper := if indent != -1 then indent + 1 else indent;
      ghost var start := text;
      for k := 0 to |l.entries|
        invariant text + EntryTexts(format, l, k, deeper) == start + EntryTexts(format, l, 0, deeper)
      {
        SerializeEntry(format, l, k, deeper);
      }
      assert text == start + EntryTexts(format, l, 0, deeper);
      if indent != -1 && l.entries != [] {
        WriteIndent(indent);
      } else if indent == -1 {
        CompactIndent();
      }
      text := text + [RIGHT_BRACE];
      assert text == start + (EntryTexts(format, l, 0, deeper) + EntriesEnd(l, indent));
    }

    method SerializeKey(key: Text, indent: int)
      modifies this
      ensures text == old(text) + KeyText(key, indent)
    {
      hide PrintedString;
      SerializeString(key);
      text := text + [COLON];
      if indent != -1 {
        text := text + [SPACE];
      }
    }

    method Serialize(format: Format, l: Listing, indent: int)
      requires indent >= -1
      modifies this
      ensures text == old(text) + Print(format, l, indent)
      decreases l, 3
    {
      hide PrintedString, ItemTexts, EntryTexts;
      match l {
        case StringNode(bytes) => SerializeString(bytes);
        case ArrayNode(_) => SerializeArray(format, l, indent);
        case ObjectNode(_) => SerializeObject(format, l, indent);
        case NullNode => Append(NULL_TEXT);
        case BoolNode(b) => Append(if b then TRUE_TEXT else FALSE_TEXT);
        case NumberNode(x) => Append(NumberText(format, x));
      }
      assert text == old(text) + Body(format, l, indent);
      if indent == 0 {
        text := text + [NEWLINE];
      }
    }
  }

  lemma CompactIndent()
    ensures Indent(-1) == []
  {}

  /** value::serialize */
  method SerializeValue(format: Format, l: Listing, prettify: bool) returns (text: Text)
    ensures text == Print(format, l, if prettify then 0 else -1)
  {
    hide Print;
    var out := new Output();
    out.Serialize(format, l, if prettify then 0 else -1);
    text := out.text;
  }
}
