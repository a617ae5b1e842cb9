/** The DOM of a parsed TOML document, as the core receives it from the
    DOM builder (which is not part of this model). Every node exposes the
    text range of the syntax it was built from. */
module Dom {
  import opened Wrappers

  /** A half-open byte interval `[start, end)` of the document text
      (rowan's `TextRange`). */
  datatype TextRange = TextRange(start: nat, end: nat)

  /** rowan's `TextRange::cover`: the smallest range holding both. */
  function Cover(a: TextRange, b: TextRange): (r: TextRange)
    ensures r.start <= a.start && r.start <= b.start
    ensures r.end >= a.end && r.end >= b.end
    ensures r.start == a.start || r.start == b.start
    ensures r.end == a.end || r.end == b.end
  {
    TextRange(if a.start <= b.start then a.start else b.start,
              if a.end >= b.end then a.end else b.end)
  }

  /** How an integer literal is written. */
  datatype IntegerRepr = Dec | Bin | Oct | Hex

  /** The four TOML string flavours. */
  datatype StringKind = Basic | MultiLine | Literal | MultiLineLiteral

  /** A key: its dotted segments (`keys_str`), its full text
      (`full_key_string`), the same with quotes stripped
      (`full_key_string_stripped`) and the range of its syntax. */
  datatype KeyNode = KeyNode(segments: seq<string>, fullKey: string,
                             fullKeyStripped: string, syntax: TextRange)

  /** A key/value pair of a table or of the document root. */
  datatype EntryNode = EntryNode(key: KeyNode, value: ValueNode, syntax: TextRange)

  /** A table: its entries in source order, the range of its syntax, and
      the ranges it is spread over (`text_ranges`). */
  datatype TableNode = TableNode(entries: seq<EntryNode>, syntax: TextRange,
                                 textRanges: seq<TextRange>)

  /** An array: its items in source order, the range of its syntax, and
      the ranges it is spread over (`text_ranges`). */
  datatype ArrayNode = ArrayNode(items: seq<ValueNode>, syntax: TextRange,
                                 textRanges: seq<TextRange>)

  /** The document root: its top-level entries in source order. */
  datatype RootNode = RootNode(entries: seq<EntryNode>, syntax: TextRange)

  /** A value. Scalars carry their literal text as written (`syntax().to_string()`);
      strings carry their decoded content (`into_content`). */
  datatype ValueNode =
    | BoolNode(text: string, syntax: TextRange)
    | StringNode(kind: StringKind, content: string, syntax: TextRange)
    | IntegerNode(repr: IntegerRepr, text: string, syntax: TextRange)
    | FloatNode(text: string, syntax: TextRange)
    | DateNode(text: string, syntax: TextRange)
    | ArrayValue(arr: ArrayNode)
    | TableValue(table: TableNode)
    | InvalidNode(syntax: TextRange)
    | EmptyNode

  /** Any DOM node. */
  datatype Node =
    | RootOf(root: RootNode)
    | TableOf(table: TableNode)
    | KeyOf(key: KeyNode)
    | EntryOf(entry: EntryNode)
    | ValueOf(value: ValueNode)
    | ArrayOf(arr: ArrayNode)

  /** `text_ranges()` of a value: a scalar lies in the one range of its
      syntax, a table or array in the ranges it records, `Empty` in none. */
  function TextRanges(v: ValueNode): seq<TextRange>
  {
    match v
    case ArrayValue(a) => a.textRanges
    case TableValue(t) => t.textRanges
    case EmptyNode => []
    case _ => [v.syntax]
  }

  /** No `Empty` value occurs anywhere in `v`. */
  predicate NoEmpty(v: ValueNode)
    decreases v
  {
    match v
    case EmptyNode => false
    case ArrayValue(a) => forall i | 0 <= i < |a.items| :: NoEmpty(a.items[i])
    case TableValue(t) => forall i | 0 <= i < |t.entries| :: NoEmpty(t.entries[i].value)
    case _ => true
  }
}
