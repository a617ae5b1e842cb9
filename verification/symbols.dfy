/** The document symbol handler (taplo-lsp/src/handlers/document_symbols.rs):
    the outline of a document, one symbol per value, nested along arrays
    and tables. */
module Symbols {
  import opened Wrappers
  import opened Dom
  import opened Lsp

  /** `join_ranges`: the one range spanning a list of text ranges. */
  type Join = seq<TextRange> -> TextRange

  /** `mapper.range(..)`: a text range as line/character positions. */
  function MapRange(pos: Mapper, r: TextRange): LspRange
  {
    LspRange(pos(r.start), pos(r.end))
  }

  /** The line/character order follows the offset order. */
  ghost predicate Monotone(pos: Mapper)
  {
    forall a: nat, b: nat | a <= b :: PosLe(pos(a), pos(b))
  }

  /** `ensure_non_empty_key`: an empty key is shown as `''`. */
  function EnsureNonEmptyKey(s: string): (r: string)
    ensures r != []
    ensures s != [] ==> r == s
    ensures s == [] ==> r == "''"
  {
    if s == [] then "''" else s
  }

  // ------------------------------------------------------- decimal names

  function DigitChar(d: nat): (c: char)
    requires d < 10
    ensures '0' <= c <= '9' && c as int - '0' as int == d
  {
    ('0' as int + d) as char
  }

  predicate IsDecimal(s: string)
  {
    forall k | 0 <= k < |s| :: '0' <= s[k] <= '9'
  }

  /** `i.to_string()`: the decimal digits of `n`, without leading zeros. */
  function NatToString(n: nat): (s: string)
    ensures |s| >= 1 && IsDecimal(s)
    ensures |s| > 1 ==> s[0] != '0'
    decreases n
  {
    if n < 10 then [DigitChar(n)] else NatToString(n / 10) + [DigitChar(n % 10)]
  }

  /** The number a string of decimal digits denotes. */
  function DecimalValue(s: string): nat
    requires IsDecimal(s)
    decreases |s|
  {
    if s == [] then 0
    else DecimalValue(s[..|s| - 1]) * 10 + (s[|s| - 1] as int - '0' as int)
  }

  /** Reading an index's name back gives the index. */
  lemma {:induction false} NatToStringRoundTrip(n: nat)
    ensures DecimalValue(NatToString(n)) == n
    decreases n
  {
    if n >= 10 {
      var s := NatToString(n);
      assert s[..|s| - 1] == NatToString(n / 10);
      NatToStringRoundTrip(n / 10);
    }
  }

  /** Different indices get different names. */
  lemma NatToStringInjective(m: nat, n: nat)
    ensures NatToString(m) == NatToString(n) <==> m == n
  {
    NatToStringRoundTrip(m);
    NatToStringRoundTrip(n);
  }

  // ------------------------------------------------------------- symbols

  /** The values that get a symbol: everything but `Invalid` and `Empty`. */
  predicate Produces(v: ValueNode)
  {
    !(v.InvalidNode? || v.EmptyNode?)
  }

  /** What `symbols_for_value` pushes for `v`: nothing for `Invalid` and
      `Empty`, otherwise one symbol named `name`, covering the key range
      (when there is one) and the value, and selecting the key (or the
      value when there is no key). */
  function SymbolsFor(join: Join, pos: Mapper, name: string, keyRange: Option<TextRange>, v: ValueNode)
    : seq<DocumentSymbol>
    decreases v, 2
  {
    if !Produces(v) then []
    else
      var own := join(TextRanges(v));
      var range := if keyRange.Some? then Cover(keyRange.value, own) else own;
      var selection := if keyRange.Some? then keyRange.value else own;
      [DocumentSymbol(name, KindOf(v), MapRange(pos, range), MapRange(pos, selection), Children(join, pos, v))]
  }

  /** The symbol kind of each value shape that gets a symbol. */
  function KindOf(v: ValueNode): SymbolKind
  {
    match v
    case BoolNode(_, _) => SymBoolean
    case StringNode(_, _, _) => SymString
    case IntegerNode(_, _, _) | FloatNode(_, _) => SymNumber
    case DateNode(_, _) => SymField
    case ArrayValue(_) => SymArray
    case _ => SymObject
  }

  /** The children of a symbol: those of an array's items or of a table's
      entries; a scalar has none. */
  function Children(join: Join, pos: Mapper, v: ValueNode): Option<seq<DocumentSymbol>>
    decreases v, 1
  {
    match v
    case ArrayValue(a) => Some(ItemSymbols(join, pos, v, |a.items|))
    case TableValue(t) => Some(EntrySymbols(join, pos, v, |t.entries|))
    case _ => None
  }

  /** The symbols of an array's first `n` items: each named by its index,
      without a key range. */
  function ItemSymbols(join: Join, pos: Mapper, v: ValueNode, n: nat): seq<DocumentSymbol>
    requires v.ArrayValue? && n <= |v.arr.items|
    decreases v, 0, n
  {
    if n == 0 then []
    else ItemSymbols(join, pos, v, n - 1) + SymbolsFor(join, pos, NatToString(n - 1), None, v.arr.items[n - 1])
  }

  /** The symbols of a table's first `n` entries: each named by its full
      key, with the key's range. */
  function EntrySymbols(join: Join, pos: Mapper, v: ValueNode, n: nat): seq<DocumentSymbol>
    requires v.TableValue? && n <= |v.table.entries|
    decreases v, 0, n
  {
    if n == 0 then []
    else
      var c := v.table.entries[n - 1];
      EntrySymbols(join, pos, v, n - 1) + SymbolsFor(join, pos, c.key.fullKey, Some(c.key.syntax), c.value)
  }

  /** The symbol a top-level entry contributes: named by its full key (or
      `''`), without a key range. */
  function RootSymbol(join: Join, pos: Mapper, e: EntryNode): seq<DocumentSymbol>
  {
    SymbolsFor(join, pos, EnsureNonEmptyKey(e.key.fullKey), None, e.value)
  }

  /** The outline of a document whose root has `entries`, in entry order. */
  function RootSymbols(join: Join, pos: Mapper, entries: seq<EntryNode>): seq<DocumentSymbol>
    decreases |entries|
  {
    if entries == [] then []
    else RootSymbols(join, pos, entries[..|entries| - 1]) + RootSymbol(join, pos, entries[|entries| - 1])
  }

  // ------------------------------------------------------------- methods

  /** `symbols_for_value`: appends the symbol of `v` to `symbols`. */
  method SymbolsForValue(join: Join, pos: Mapper, name: string, keyRange: Option<TextRange>,
                         v: ValueNode, symbols: seq<DocumentSymbol>)
    returns (symbols': seq<DocumentSymbol>)
    ensures symbols' == symbols + SymbolsFor(join, pos, name, keyRange, v)
    decreases v, 1
  {
    var own := MapRange(pos, join(TextRanges(v)));
    var range := own;
    if keyRange.Some? {
      range := MapRange(pos, Cover(keyRange.value, join(TextRanges(v))));
    }
    var selection := own;
    if keyRange.Some? {
      selection := MapRange(pos, keyRange.value);
    }

    match v {
      case BoolNode(_, _) =>
        symbols' := symbols + [DocumentSymbol(name, SymBoolean, range, selection, None)];
      case StringNode(_, _, _) =>
        symbols' := symbols + [DocumentSymbol(name, SymString, range, selection, None)];
      case IntegerNode(_, _, _) =>
        symbols' := symbols + [DocumentSymbol(name, SymNumber, range, selection, None)];
      case FloatNode(_, _) =>
        symbols' := symbols + [DocumentSymbol(name, SymNumber, range, selection, None)];
      case DateNode(_, _) =>
        symbols' := symbols + [DocumentSymbol(name, SymField, range, selection, None)];
      case ArrayValue(_) =>
        var childSymbols := ArrayChildSymbols(join, pos, v);
        symbols' := symbols + [DocumentSymbol(name, SymArray, range, selection, Some(childSymbols))];
      case TableValue(_) =>
        var childSymbols := TableChildSymbols(join, pos, v);
        symbols' := symbols + [DocumentSymbol(name, SymObject, range, selection, Some(childSymbols))];
      case InvalidNode(_) =>
        symbols' := symbols;
      case EmptyNode =>
        symbols' := symbols;
    }
  }

  /** The loop over an array's items, naming each by its index. */
  method ArrayChildSymbols(join: Join, pos: Mapper, v: ValueNode) returns (childSymbols: seq<DocumentSymbol>)
    requires v.ArrayValue?
    ensures childSymbols == ItemSymbols(join, pos, v, |v.arr.items|)
    decreases v, 0
  {
    var items := v.arr.items;
    childSymbols := [];
    var i := 0;
    while i < |items|
      invariant 0 <= i <= |items|
      invariant childSymbols == ItemSymbols(join, pos, v, i)
    {
      assert items[i] < v;
      childSymbols := SymbolsForValue(join, pos, NatToString(i), None, items[i], childSymbols);
      i := i + 1;
    }
  }

  /** The loop over a table's entries, naming each by its key. */
  method TableChildSymbols(join: Join, pos: Mapper, v: ValueNode) returns (childSymbols: seq<DocumentSymbol>)
    requires v.TableValue?
    ensures childSymbols == EntrySymbols(join, pos, v, |v.table.entries|)
    decreases v, 0
  {
    var entries := v.table.entries;
    childSymbols := [];
    var i := 0;
    while i < |entries|
      invariant 0 <= i <= |entries|
      invariant childSymbols == EntrySymbols(join, pos, v, i)
    {
      var c := entries[i];
      assert c.value < v;
      childSymbols := SymbolsForValue(join, pos, c.key.fullKey, Some(c.key.syntax), c.value, childSymbols);
      i := i + 1;
    }
  }

  /** `create_symbols`: the outline of a document whose root has `entries`. */
  method CreateSymbols(join: Join, pos: Mapper, entries: seq<EntryNode>) returns (symbols: seq<DocumentSymbol>)
    ensures symbols == RootSymbols(join, pos, entries)
  {
    symbols := [];
    var i := 0;
    while i < |entries|
      invariant 0 <= i <= |entries|
      invariant symbols == RootSymbols(join, pos, entries[..i])
    {
      var entry := entries[i];
      assert entries[..i + 1][..i] == entries[..i];
      symbols := SymbolsForValue(join, pos, EnsureNonEmptyKey(entry.key.fullKey), None, entry.value, symbols);
      i := i + 1;
    }
    assert entries[..i] == entries;
  }

  // -------------------------------------------------------------- lemmas

  /** `symbols_for_value` pushes at most one symbol: none for `Invalid`
      and `Empty`, otherwise one named `name`, whose kind follows the
      value's shape and which has children exactly for arrays and tables. */
  lemma SymbolShape(join: Join, pos: Mapper, name: string, keyRange: Option<TextRange>, v: ValueNode)
    ensures var r := SymbolsFor(join, pos, name, keyRange, v);
            && |r| <= 1
            && (r == [] <==> !Produces(v))
            && (r != [] ==> r[0].name == name)
            && (r != [] ==> (r[0].children.Some? <==> v.ArrayValue? || v.TableValue?))
            && (r != [] && v.BoolNode? ==> r[0].kind == SymBoolean)
            && (r != [] && v.StringNode? ==> r[0].kind == SymString)
            && (r != [] && (v.IntegerNode? || v.FloatNode?) ==> r[0].kind == SymNumber)
            && (r != [] && v.DateNode? ==> r[0].kind == SymField)
            && (r != [] && v.ArrayValue? ==> r[0].kind == SymArray)
            && (r != [] && v.TableValue? ==> r[0].kind == SymObject)
  {
  }

  /** With a key range the symbol selects the key; without one it covers
      and selects the value's own range. */
  lemma SymbolRanges(join: Join, pos: Mapper, name: string, keyRange: Option<TextRange>, v: ValueNode)
    requires Produces(v)
    ensures var s := SymbolsFor(join, pos, name, keyRange, v)[0];
            && (keyRange.None? ==>
                  s.range == s.selectionRange == MapRange(pos, join(TextRanges(v))))
            && (keyRange.Some? ==>
                  s.selectionRange == MapRange(pos, keyRange.value)
                  && s.range == MapRange(pos, Cover(keyRange.value, join(TextRanges(v)))))
  {
  }

  /** With a monotone mapper a symbol's range contains both its selection
      and the value's own range. */
  lemma SelectionWithinRange(join: Join, pos: Mapper, name: string, keyRange: Option<TextRange>, v: ValueNode)
    requires Monotone(pos) && Produces(v)
    ensures var s := SymbolsFor(join, pos, name, keyRange, v)[0];
            && Contains(s.range, s.selectionRange)
            && Contains(s.range, MapRange(pos, join(TextRanges(v))))
  {
    SymbolRanges(join, pos, name, keyRange, v);
    if keyRange.Some? {
      var k, j := keyRange.value, join(TextRanges(v));
      var c := Cover(k, j);
      assert PosLe(pos(c.start), pos(k.start)) && PosLe(pos(k.end), pos(c.end));
      assert PosLe(pos(c.start), pos(j.start)) && PosLe(pos(j.end), pos(c.end));
    }
  }

  /** The indices below `n` of the items that get a symbol. */
  function ProducingIndices(items: seq<ValueNode>, n: nat): (idx: seq<nat>)
    requires n <= |items|
    ensures forall k | 0 <= k < |idx| :: idx[k] < n && Produces(items[idx[k]])
    ensures forall k, l | 0 <= k < l < |idx| :: idx[k] < idx[l]
    ensures forall j | 0 <= j < n && Produces(items[j]) :: j in idx
    decreases n
  {
    if n == 0 then []
    else ProducingIndices(items, n - 1) + (if Produces(items[n - 1]) then [n - 1] else [])
  }

  /** The children of an array are the symbols of its producing items, in
      order, each named by the item's own index: a skipped item still uses
      up its index. */
  lemma {:induction false} ItemSymbolsIndexed(join: Join, pos: Mapper, v: ValueNode, n: nat)
    requires v.ArrayValue? && n <= |v.arr.items|
    ensures var cs, idx := ItemSymbols(join, pos, v, n), ProducingIndices(v.arr.items, n);
            && |cs| == |idx|
            && forall k | 0 <= k < |cs| ::
                 cs[k] == SymbolsFor(join, pos, NatToString(idx[k]), None, v.arr.items[idx[k]])[0]
    decreases n
  {
    if n > 0 {
      ItemSymbolsIndexed(join, pos, v, n - 1);
    }
  }

  /** The children of an array have pairwise different names, and each name
      is the decimal index of an item that gets a symbol. */
  lemma ArrayChildNames(join: Join, pos: Mapper, v: ValueNode)
    requires v.ArrayValue?
    ensures var cs := Children(join, pos, v).value;
            && (forall k | 0 <= k < |cs| ::
                  IsDecimal(cs[k].name)
                  && DecimalValue(cs[k].name) < |v.arr.items|
                  && Produces(v.arr.items[DecimalValue(cs[k].name)]))
            && (forall k, l | 0 <= k < l < |cs| :: cs[k].name != cs[l].name)
  {
    var n := |v.arr.items|;
    var cs, idx := ItemSymbols(join, pos, v, n), ProducingIndices(v.arr.items, n);
    ItemSymbolsIndexed(join, pos, v, n);
    forall k | 0 <= k < |cs|
      ensures IsDecimal(cs[k].name) && DecimalValue(cs[k].name) == idx[k]
    {
      NatToStringRoundTrip(idx[k]);
    }
    forall k, l | 0 <= k < l < |cs| ensures cs[k].name != cs[l].name {
      NatToStringInjective(idx[k], idx[l]);
    }
  }

  lemma {:induction false} IndicesComplete(items: seq<ValueNode>, n: nat)
    requires n <= |items| && forall j | 0 <= j < n :: Produces(items[j])
    ensures var idx := ProducingIndices(items, n);
            |idx| == n && forall k | 0 <= k < n :: idx[k] == k
    decreases n
  {
    if n > 0 {
      IndicesComplete(items, n - 1);
    }
  }

  /** When every item gets a symbol, the array has one child per item, the
      `k`-th named `k`, covering and selecting the item itself. */
  lemma ArrayChildrenComplete(join: Join, pos: Mapper, v: ValueNode)
    requires v.ArrayValue? && forall j | 0 <= j < |v.arr.items| :: Produces(v.arr.items[j])
    ensures var cs := Children(join, pos, v).value;
            && |cs| == |v.arr.items|
            && forall k | 0 <= k < |cs| ::
                 cs[k].name == NatToString(k)
                 && cs[k].range == cs[k].selectionRange == MapRange(pos, join(TextRanges(v.arr.items[k])))
  {
    var n := |v.arr.items|;
    var cs, idx := ItemSymbols(join, pos, v, n), ProducingIndices(v.arr.items, n);
    ItemSymbolsIndexed(join, pos, v, n);
    IndicesComplete(v.arr.items, n);
    forall k | 0 <= k < |cs|
      ensures cs[k].name == NatToString(k)
      ensures cs[k].range == cs[k].selectionRange == MapRange(pos, join(TextRanges(v.arr.items[k])))
    {
      SymbolRanges(join, pos, NatToString(k), None, v.arr.items[k]);
    }
  }

  /** When every entry gets a symbol, a table's first `n` entries give one
      child each, in order, named by the entry's full key (not made
      non-empty) and selecting the key's range. */
  lemma {:induction false} TableChildren(join: Join, pos: Mapper, v: ValueNode, n: nat)
    requires v.TableValue? && n <= |v.table.entries|
    requires forall j | 0 <= j < n :: Produces(v.table.entries[j].value)
    ensures var cs := EntrySymbols(join, pos, v, n);
            && |cs| == n
            && forall k | 0 <= k < n ::
                 cs[k].name == v.table.entries[k].key.fullKey
                 && cs[k].selectionRange == MapRange(pos, v.table.entries[k].key.syntax)
    decreases n
  {
    if n > 0 {
      TableChildren(join, pos, v, n - 1);
      var c := v.table.entries[n - 1];
      SymbolShape(join, pos, c.key.fullKey, Some(c.key.syntax), c.value);
      SymbolRanges(join, pos, c.key.fullKey, Some(c.key.syntax), c.value);
    }
  }

  /** Each top-level entry yields at most one symbol; every top-level
      symbol has a non-empty name and is selected by its whole range. */
  lemma {:induction false} RootSymbolsShape(join: Join, pos: Mapper, entries: seq<EntryNode>)
    ensures var ss := RootSymbols(join, pos, entries);
            && |ss| <= |entries|
            && forall k | 0 <= k < |ss| :: ss[k].name != [] && ss[k].range == ss[k].selectionRange
    decreases |entries|
  {
    if entries != [] {
      var e := entries[|entries| - 1];
      RootSymbolsShape(join, pos, entries[..|entries| - 1]);
      SymbolShape(join, pos, EnsureNonEmptyKey(e.key.fullKey), None, e.value);
      if Produces(e.value) {
        SymbolRanges(join, pos, EnsureNonEmptyKey(e.key.fullKey), None, e.value);
      }
    }
  }

  /** When every top-level value gets a symbol, the outline has one symbol
      per entry, in order, under the entry's (non-empty) key. */
  lemma {:induction false} RootSymbolsComplete(join: Join, pos: Mapper, entries: seq<EntryNode>)
    requires forall j | 0 <= j < |entries| :: Produces(entries[j].value)
    ensures var ss := RootSymbols(join, pos, entries);
            && |ss| == |entries|
            && forall k | 0 <= k < |ss| :: ss[k].name == EnsureNonEmptyKey(entries[k].key.fullKey)
    decreases |entries|
  {
    if entries != [] {
      var e := entries[|entries| - 1];
      RootSymbolsComplete(join, pos, entries[..|entries| - 1]);
      SymbolShape(join, pos, EnsureNonEmptyKey(e.key.fullKey), None, e.value);
    }
  }
}
