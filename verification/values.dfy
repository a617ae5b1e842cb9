/** The value resolver of taplo/src/value.rs: turns DOM nodes into the
    TOML values they denote, failing as a whole on the first bad part. */
module Values {
  import opened Wrappers
  import opened Dom
  import opened Radix

  type U64 = x: int | 0 <= x <= U64_MAX
  type I64 = x: int | I64_MIN <= x <= I64_MAX

  /** The bit pattern of an IEEE 754 double; its arithmetic is not modelled. */
  datatype F64 = F64(bits: bv64)

  /** The calendar fields a date library produces; not interpreted here. */
  type Stamp = seq<int>

  /** The four TOML date-time kinds (present when a date library is built in). */
  datatype Date =
    | OffsetDateTime(stamp: Stamp)
    | LocalDateTime(stamp: Stamp)
    | LocalDate(stamp: Stamp)
    | LocalTime(stamp: Stamp)

  /** One entry of a `Map`; the map keeps its entries in insertion order. */
  datatype MapEntry = MapEntry(key: string, value: Value)

  /** Every value a TOML document can hold. */
  datatype Value =
    | Bool(b: bool)
    | UnsizedInteger(u: U64)
    | Integer(i: I64)
    | Float(f: F64)
    | Date(date: Date)
    | String(s: string)
    | Array(items: seq<Value>)
    | Map(entries: seq<MapEntry>)

  /** What a failed conversion reports besides `InvalidValue` (the boxed
      `Other` errors of the source). */
  datatype Cause =
    | UnescapeError
    | InvalidDate(text: string)
    | ParseInt(kind: IntErrorKind)
    | ParseBool
    | ParseFloat

  datatype Error = InvalidValue | Other(cause: Cause)

  /** The date parsers of a date library, tried in a fixed order; each
      either recognises the whole text or fails. */
  datatype DateParsers = DateParsers(
    offsetDateTime: string -> Option<Stamp>,
    localDateTime: string -> Option<Stamp>,
    localTime: string -> Option<Stamp>,
    localDate: string -> Option<Stamp>)

  /** The build-time date feature: `chrono`, `time`, or neither. */
  datatype DateFeature = Chrono(parsers: DateParsers) | Time(parsers: DateParsers) | NoDates

  /** The pieces the resolver calls but does not define: key unescaping,
      the float parser, and the date feature. */
  datatype Env = Env(unescape: string -> Option<string>,
                     parseF64: string -> Option<F64>,
                     dates: DateFeature)

  // ---------------------------------------------------------------- accessors

  function AsBool(v: Value): (r: Option<bool>)
    ensures r.Some? <==> v.Bool?
    ensures r.Some? ==> v == Bool(r.value)
  {
    match v
    case Bool(b) => Some(b)
    case _ => None
  }

  function AsU64(v: Value): (r: Option<U64>)
    ensures r.Some? <==> v.UnsizedInteger?
    ensures r.Some? ==> v == UnsizedInteger(r.value)
  {
    match v
    case UnsizedInteger(u) => Some(u)
    case _ => None
  }

  function AsI64(v: Value): (r: Option<I64>)
    ensures r.Some? <==> v.Integer?
    ensures r.Some? ==> v == Integer(r.value)
  {
    match v
    case Integer(i) => Some(i)
    case _ => None
  }

  function AsF64(v: Value): (r: Option<F64>)
    ensures r.Some? <==> v.Float?
    ensures r.Some? ==> v == Float(r.value)
  {
    match v
    case Float(f) => Some(f)
    case _ => None
  }

  function AsDate(v: Value): (r: Option<Date>)
    ensures r.Some? <==> v.Date?
    ensures r.Some? ==> v == Value.Date(r.value)
  {
    match v
    case Date(d) => Some(d)
    case _ => None
  }

  function AsStr(v: Value): (r: Option<string>)
    ensures r.Some? <==> v.String?
    ensures r.Some? ==> v == String(r.value)
  {
    match v
    case String(s) => Some(s)
    case _ => None
  }

  function AsArray(v: Value): (r: Option<seq<Value>>)
    ensures r.Some? <==> v.Array?
    ensures r.Some? ==> v == Array(r.value)
  {
    match v
    case Array(items) => Some(items)
    case _ => None
  }

  function AsMap(v: Value): (r: Option<seq<MapEntry>>)
    ensures r.Some? <==> v.Map?
    ensures r.Some? ==> v == Map(r.value)
  {
    match v
    case Map(m) => Some(m)
    case _ => None
  }

  // ------------------------------------------------------- text normalising

  /** `str::replace`: every non-overlapping occurrence of `from`, found
      left to right, is replaced by `to`. */
  function Replace(s: string, from: string, to: string): string
    requires |from| > 0
    decreases |s|
  {
    if |s| < |from| then s
    else if s[..|from|] == from then to + Replace(s[|from|..], from, to)
    else [s[0]] + Replace(s[1..], from, to)
  }

  /** Replacing one character by another rewrites exactly that character,
      position by position. */
  lemma {:induction false} ReplaceCharPointwise(s: string, a: char, b: char)
    ensures |Replace(s, [a], [b])| == |s|
    ensures forall i | 0 <= i < |s| :: Replace(s, [a], [b])[i] == if s[i] == a then b else s[i]
    decreases |s|
  {
    if |s| > 0 {
      ReplaceCharPointwise(s[1..], a, b);
      var r := Replace(s, [a], [b]);
      var tail := Replace(s[1..], [a], [b]);
      assert r == [if s[0] == a then b else s[0]] + tail;
      forall i | 0 <= i < |s| ensures r[i] == if s[i] == a then b else s[i] {
        if i > 0 { assert r[i] == tail[i - 1]; assert s[i] == s[1..][i - 1]; }
      }
    }
  }

  /** Replacing one character by nothing deletes exactly its occurrences and
      keeps every other character, in order. */
  lemma {:induction false} ReplaceCharDeletes(s: string, a: char)
    ensures Replace(s, [a], []) == Without(s, a)
    decreases |s|
  {
    if |s| > 0 {
      ReplaceCharDeletes(s[1..], a);
      assert s[..1] == [s[0]];
    }
  }

  /** `s` with every occurrence of `a` left out. */
  function Without(s: string, a: char): (r: string)
    ensures a !in r
    ensures forall c | c != a :: multiset(r)[c] == multiset(s)[c]
    decreases |s|
  {
    if s == [] then []
    else
      assert s == [s[0]] + s[1..];
      if s[0] == a then Without(s[1..], a) else [s[0]] + Without(s[1..], a)
  }

  /** `str::trim_start_matches(prefix)`: drop `prefix` from the front for as
      long as it is there. */
  function TrimStartMatches(s: string, prefix: string): (r: string)
    requires |prefix| > 0
    ensures |r| <= |s| && r == s[|s| - |r|..]
    ensures !(|r| >= |prefix| && r[..|prefix|] == prefix)
    decreases |s|
  {
    if |s| >= |prefix| && s[..|prefix|] == prefix then
      var rest := s[|prefix|..];
      var r := TrimStartMatches(rest, prefix);
      assert s[|s| - |r|..] == rest[|rest| - |r|..];
      r
    else s
  }

  /** `n` copies of `p`, one after the other. */
  function Rep(p: string, n: nat): string
  {
    if n == 0 then [] else p + Rep(p, n - 1)
  }

  /** How many copies of the prefix `trim_start_matches` removes. */
  function Trimmed(s: string, prefix: string): nat
    requires |prefix| > 0
    decreases |s|
  {
    if |s| >= |prefix| && s[..|prefix|] == prefix then 1 + Trimmed(s[|prefix|..], prefix) else 0
  }

  /** What `trim_start_matches` removes is a whole number of copies of the
      prefix; with the contract of `TrimStartMatches` (what is left does not
      start with the prefix) this determines the result. */
  lemma {:induction false} TrimStartMatchesCopies(s: string, prefix: string)
    requires |prefix| > 0
    ensures s == Rep(prefix, Trimmed(s, prefix)) + TrimStartMatches(s, prefix)
    decreases |s|
  {
    if |s| >= |prefix| && s[..|prefix|] == prefix {
      var rest := s[|prefix|..];
      TrimStartMatchesCopies(rest, prefix);
      var a, r := Rep(prefix, Trimmed(rest, prefix)), TrimStartMatches(rest, prefix);
      assert TrimStartMatches(s, prefix) == r;
      assert Rep(prefix, Trimmed(s, prefix)) == prefix + a;
      assert s == prefix + rest;
      Regroup(s, prefix, rest, a, r);
    }
  }

  lemma Regroup(s: string, p: string, rest: string, a: string, r: string)
    requires s == p + rest && rest == a + r
    ensures s == (p + a) + r
  {
  }

  /** The date text as the source normalises it: every ' ' and every 't'
      becomes 'T'. */
  function NormaliseDate(text: string): (r: string)
    ensures |r| == |text|
    ensures forall i | 0 <= i < |r| :: r[i] == if text[i] == ' ' || text[i] == 't' then 'T' else text[i]
  {
    var spaced := Replace(text, " ", "T");
    ReplaceCharPointwise(text, ' ', 'T');
    ReplaceCharPointwise(spaced, 't', 'T');
    Replace(spaced, "t", "T")
  }

  // ----------------------------------------------------------- scalar values

  /** `bool::from_str`: exactly "true" and "false". */
  function ConvertBool(text: string): (r: Result<Value, Error>)
    ensures r.Ok? <==> text == "true" || text == "false"
    ensures r.Ok? ==> r.value == Bool(text == "true")
    ensures r.Err? ==> r.error == Other(ParseBool)
  {
    if text == "true" then Ok(Bool(true))
    else if text == "false" then Ok(Bool(false))
    else Err(Other(ParseBool))
  }

  /** All four string kinds yield the decoded content as it is. */
  function ConvertString(kind: StringKind, content: string): (r: Result<Value, Error>)
    ensures r == Ok(String(content))
  {
    match kind
    case Basic => Ok(String(content))
    case MultiLine => Ok(String(content))
    case Literal => Ok(String(content))
    case MultiLineLiteral => Ok(String(content))
  }

  /** A signed 64-bit parse first, an unsigned one when that fails, and the
      unsigned parse's error when both fail. */
  function ParseInteger(digits: string, radix: Radix): Result<Value, Error>
  {
    match ParseI64(digits, radix)
    case Ok(i) => Ok(Integer(i))
    case Err(_) =>
      match ParseU64(digits, radix)
      case Ok(u) => Ok(UnsizedInteger(u))
      case Err(kind) => Err(Other(ParseInt(kind)))
  }

  function RadixOf(repr: IntegerRepr): Radix
  {
    match repr
    case Dec => 10
    case Bin => 2
    case Oct => 8
    case Hex => 16
  }

  /** The digits the parser is given: underscores removed, then the base
      prefix trimmed for binary, octal and hexadecimal. */
  function IntegerDigits(repr: IntegerRepr, text: string): string
  {
    var plain := Replace(text, "_", "");
    match repr
    case Dec => plain
    case Bin => TrimStartMatches(plain, "0b")
    case Oct => TrimStartMatches(plain, "0o")
    case Hex => TrimStartMatches(plain, "0x")
  }

  function ConvertInteger(repr: IntegerRepr, text: string): (r: Result<Value, Error>)
    ensures r.Ok? ==> r.value.Integer? || r.value.UnsizedInteger?
  {
    ParseInteger(IntegerDigits(repr, text), RadixOf(repr))
  }

  /** Underscores removed, "nan" respelt "NaN", then the float parser. */
  function ConvertFloat(env: Env, text: string): (r: Result<Value, Error>)
    ensures r.Ok? ==> r.value.Float?
  {
    match env.parseF64(Replace(Replace(text, "_", ""), "nan", "NaN"))
    case Some(f) => Ok(Float(f))
    case None => Err(Other(ParseFloat))
  }

  /** With a date library: the first of offset date-time, local date-time,
      local time and local date that parses the normalised text; without one,
      the normalised text as a string. */
  function ConvertDate(env: Env, text: string): (r: Result<Value, Error>)
  {
    var d := NormaliseDate(text);
    match env.dates
    case NoDates => Ok(String(d))
    case _ =>
      var p := env.dates.parsers;
      if p.offsetDateTime(d).Some? then Ok(Value.Date(OffsetDateTime(p.offsetDateTime(d).value)))
      else if p.localDateTime(d).Some? then Ok(Value.Date(LocalDateTime(p.localDateTime(d).value)))
      else if p.localTime(d).Some? then Ok(Value.Date(LocalTime(p.localTime(d).value)))
      else if p.localDate(d).Some? then Ok(Value.Date(LocalDate(p.localDate(d).value)))
      else Err(Other(InvalidDate(d)))
  }

  // ------------------------------------------------------------------- maps

  function Keys(m: seq<MapEntry>): (ks: seq<string>)
    ensures |ks| == |m|
  {
    seq(|m|, i requires 0 <= i < |m| => m[i].key)
  }

  predicate Distinct(ks: seq<string>)
  {
    forall i, j | 0 <= i < j < |ks| :: ks[i] != ks[j]
  }

  /** `IndexMap::insert`: a key already present keeps its place and takes
      the new value; a new key goes to the end. */
  function Insert(m: seq<MapEntry>, k: string, v: Value): (r: seq<MapEntry>)
    decreases |m|
  {
    if m == [] then [MapEntry(k, v)]
    else if m[0].key == k then [MapEntry(k, v)] + m[1..]
    else [m[0]] + Insert(m[1..], k, v)
  }

  /** A new key is appended, after every key already there; an existing
      key keeps its place, so the key sequence does not change. */
  lemma {:induction false} InsertKeys(m: seq<MapEntry>, k: string, v: Value)
    ensures Keys(Insert(m, k, v)) == if k in Keys(m) then Keys(m) else Keys(m) + [k]
    decreases |m|
  {
    if m == [] {
      assert Keys([MapEntry(k, v)]) == [k];
    } else {
      var head := [m[0]];
      KeysAppend(head, m[1..]);
      assert m == head + m[1..];
      assert Keys(head) == [m[0].key];
      if m[0].key == k {
        KeysAppend([MapEntry(k, v)], m[1..]);
        assert Keys([MapEntry(k, v)]) == [k];
      } else {
        var tail := Insert(m[1..], k, v);
        InsertKeys(m[1..], k, v);
        KeysAppend(head, tail);
        assert (k in Keys(m)) == (k in Keys(m[1..]));
      }
    }
  }

  /** A key not yet in the map goes to the end, after every pair already
      there. */
  lemma {:induction false} InsertAppends(m: seq<MapEntry>, k: string, v: Value)
    requires k !in Keys(m)
    ensures Insert(m, k, v) == m + [MapEntry(k, v)]
    decreases |m|
  {
    if m != [] {
      assert Keys(m)[0] == m[0].key;
      assert Keys(m[1..]) == Keys(m)[1..];
      InsertAppends(m[1..], k, v);
      assert [m[0]] + (m[1..] + [MapEntry(k, v)]) == m + [MapEntry(k, v)];
    }
  }

  /** The inserted pair is in the map afterwards. */
  lemma {:induction false} InsertContains(m: seq<MapEntry>, k: string, v: Value)
    ensures MapEntry(k, v) in Insert(m, k, v)
    decreases |m|
  {
    if m != [] && m[0].key != k {
      InsertContains(m[1..], k, v);
      assert Insert(m, k, v) == [m[0]] + Insert(m[1..], k, v);
    }
  }

  /** Insertion keeps the keys of a map distinct. */
  lemma InsertDistinct(m: seq<MapEntry>, k: string, v: Value)
    requires Distinct(Keys(m))
    ensures Distinct(Keys(Insert(m, k, v)))
  {
    InsertKeys(m, k, v);
    if k !in Keys(m) {
      var ks := Keys(m) + [k];
      forall i, j | 0 <= i < j < |ks| ensures ks[i] != ks[j] {
        if j == |ks| - 1 {
          assert ks[i] == Keys(m)[i];
        } else {
          assert ks[i] == Keys(m)[i] && ks[j] == Keys(m)[j];
        }
      }
    }
  }

  /** The pairs `ps` inserted one by one, in order (`collect` into an
      `IndexMap`). */
  function InsertAll(m: seq<MapEntry>, ps: seq<MapEntry>): seq<MapEntry>
    decreases |ps|
  {
    if ps == [] then m else InsertAll(Insert(m, ps[0].key, ps[0].value), ps[1..])
  }

  /** Inserting any pairs keeps the keys distinct. */
  lemma {:induction false} InsertAllDistinct(m: seq<MapEntry>, ps: seq<MapEntry>)
    requires Distinct(Keys(m))
    ensures Distinct(Keys(InsertAll(m, ps)))
    decreases |ps|
  {
    if ps != [] {
      InsertDistinct(m, ps[0].key, ps[0].value);
      InsertAllDistinct(Insert(m, ps[0].key, ps[0].value), ps[1..]);
    }
  }

  /** When no key repeats, inserting the pairs just appends them. */
  lemma {:induction false} InsertAllFresh(m: seq<MapEntry>, ps: seq<MapEntry>)
    requires Distinct(Keys(m + ps))
    ensures InsertAll(m, ps) == m + ps
    decreases |ps|
  {
    if ps != [] {
      var p, rest := ps[0], ps[1..];
      assert m + ps == m + [p] + rest;
      KeysAppend(m + [p], rest);
      KeysAppend(m, [p]);
      assert Keys([p]) == [p.key];
      DistinctNotBefore(Keys(m), p.key, Keys(rest));
      InsertAppends(m, p.key, p.value);
      InsertAllFresh(m + [p], rest);
    }
  }

  lemma KeysAppend(a: seq<MapEntry>, b: seq<MapEntry>)
    ensures Keys(a + b) == Keys(a) + Keys(b)
  {
  }

  /** In a distinct sequence `a + [k] + b`, `k` does not occur in `a`. */
  lemma DistinctNotBefore(a: seq<string>, k: string, b: seq<string>)
    requires Distinct(a + [k] + b)
    ensures k !in a
  {
    var all := a + [k] + b;
    forall m | 0 <= m < |a| ensures a[m] != k {
      assert all[m] == a[m] && all[|a|] == k;
    }
  }

  // ------------------------------------------------------------- structures

  /** Converting `v` reaches an `Empty` node, where the source panics
      (taplo/src/value.rs:255). Conversion stops at the first error, so an
      `Empty` node after a failing item or entry is never reached. */
  predicate Panics(env: Env, v: ValueNode)
    decreases v, 0
  {
    match v
    case EmptyNode => true
    case ArrayValue(a) => ItemsPanic(env, a, 0)
    case TableValue(t) => EntriesPanic(env, t, 0)
    case _ => false
  }

  /** Converting the items from index `i` on reaches an `Empty` node: an
      item panics, after the items before it all converted. */
  predicate ItemsPanic(env: Env, a: ArrayNode, i: nat)
    requires i <= |a.items|
    decreases a, 2, |a.items| - i
  {
    i < |a.items|
    && (ItemPanics(env, a, i)
        || (ConvertItem(env, a, i).Ok? && ItemsPanic(env, a, i + 1)))
  }

  /** Converting item `j` reaches an `Empty` node. */
  predicate ItemPanics(env: Env, a: ArrayNode, j: nat)
    requires j < |a.items|
    decreases a, 0, 0
  {
    Panics(env, a.items[j])
  }

  /** Converting entry `i` reaches an `Empty` node: its key unescapes and
      its value panics. */
  predicate EntryPanics(env: Env, t: TableNode, i: nat)
    requires i < |t.entries|
    decreases t, 0, 0
  {
    env.unescape(t.entries[i].key.fullKeyStripped).Some? && Panics(env, t.entries[i].value)
  }

  /** Converting the entries from index `i` on reaches an `Empty` node. */
  predicate EntriesPanic(env: Env, t: TableNode, i: nat)
    requires i <= |t.entries|
    decreases t, 2, |t.entries| - i
  {
    i < |t.entries|
    && (EntryPanics(env, t, i)
        || (ConvertEntry(env, t, i).Ok? && EntriesPanic(env, t, i + 1)))
  }

  /** `TryFrom<ValueNode>`. Reaching `Empty` is a panic in the source, so it
      is ruled out by the precondition; `Invalid` is an error. */
  function ConvertValue(env: Env, v: ValueNode): (r: Result<Value, Error>)
    requires !Panics(env, v)
    ensures v.InvalidNode? ==> r == Err(InvalidValue)
    decreases v, 1
  {
    match v
    case BoolNode(text, _) => ConvertBool(text)
    case StringNode(kind, content, _) => ConvertString(kind, content)
    case IntegerNode(repr, text, _) => ConvertInteger(repr, text)
    case FloatNode(text, _) => ConvertFloat(env, text)
    case ArrayValue(a) => ConvertArray(env, a)
    case DateNode(text, _) => ConvertDate(env, text)
    case TableValue(t) => ConvertTable(env, t)
    case InvalidNode(_) => Err(InvalidValue)
  }

  /** One step of the `map`: item `j` converted. */
  function ConvertItem(env: Env, a: ArrayNode, j: nat): (r: Result<Value, Error>)
    requires j < |a.items| && !ItemPanics(env, a, j)
    decreases a, 1, 0
  {
    ConvertValue(env, a.items[j])
  }

  /** `TryFrom<ArrayNode>`: all items or the first error. */
  function ConvertArray(env: Env, a: ArrayNode): (r: Result<Value, Error>)
    requires !ItemsPanic(env, a, 0)
    ensures r.Ok? ==> r.value.Array?
    decreases a, 4
  {
    match ConvertItems(env, a, 0)
    case Ok(items) => Ok(Array(items))
    case Err(e) => Err(e)
  }

  /** The items from index `i` on, converted in order, stopping at the
      first failure (`collect` into a `Result<Vec<_>, _>`). */
  function ConvertItems(env: Env, a: ArrayNode, i: nat): (r: Result<seq<Value>, Error>)
    requires i <= |a.items| && !ItemsPanic(env, a, i)
    ensures r.Ok? ==> |r.value| == |a.items| - i
    decreases a, 3, |a.items| - i
  {
    if i == |a.items| then Ok([])
    else
      match ConvertItem(env, a, i)
      case Err(e) => Err(e)
      case Ok(x) =>
        match ConvertItems(env, a, i + 1)
        case Err(e) => Err(e)
        case Ok(rest) => Ok([x] + rest)
  }

  /** `TryFrom<TableNode>`: a map of the unescaped full keys, in entry order. */
  function ConvertTable(env: Env, t: TableNode): (r: Result<Value, Error>)
    requires !EntriesPanic(env, t, 0)
    ensures r.Ok? ==> r.value.Map?
    decreases t, 4
  {
    match ConvertEntries(env, t, 0, [])
    case Ok(m) => Ok(Map(m))
    case Err(e) => Err(e)
  }

  /** One step of the fold: the entry's key is unescaped first, then its
      value converted. */
  function ConvertEntry(env: Env, t: TableNode, i: nat): (r: Result<MapEntry, Error>)
    requires i < |t.entries| && !EntryPanics(env, t, i)
    decreases t, 1, 0
  {
    var e := t.entries[i];
    match env.unescape(e.key.fullKeyStripped)
    case None => Err(Other(UnescapeError))
    case Some(k) =>
      match ConvertValue(env, e.value)
      case Err(err) => Err(err)
      case Ok(x) => Ok(MapEntry(k, x))
  }

  /** The fold over the entries from index `i` on, inserting each converted
      pair into the map built so far (`try_fold`). */
  function ConvertEntries(env: Env, t: TableNode, i: nat, acc: seq<MapEntry>): (r: Result<seq<MapEntry>, Error>)
    requires i <= |t.entries| && !EntriesPanic(env, t, i)
    decreases t, 3, |t.entries| - i
  {
    if i == |t.entries| then Ok(acc)
    else
      match ConvertEntry(env, t, i)
      case Err(err) => Err(err)
      case Ok(p) => ConvertEntries(env, t, i + 1, Insert(acc, p.key, p.value))
  }

  /** The document's top-level entries, seen as a table. */
  function RootTable(root: RootNode): TableNode
  {
    TableNode(root.entries, root.syntax, [root.syntax])
  }

  /** `TryFrom<RootNode>`: the same fold as for a table, over the
      document's top-level entries. */
  function ConvertRoot(env: Env, root: RootNode): (r: Result<Value, Error>)
    requires !EntriesPanic(env, RootTable(root), 0)
    ensures r.Ok? ==> r.value.Map?
  {
    ConvertTable(env, RootTable(root))
  }

  /** `TryFrom<Node>`: only roots, tables, values and arrays convert; any
      other node kind is unreachable in the source. */
  function ConvertNode(env: Env, n: Node): (r: Result<Value, Error>)
    requires n.RootOf? || n.TableOf? || n.ValueOf? || n.ArrayOf?
    requires n.RootOf? ==> !EntriesPanic(env, RootTable(n.root), 0)
    requires n.TableOf? ==> !EntriesPanic(env, n.table, 0)
    requires n.ValueOf? ==> !Panics(env, n.value)
    requires n.ArrayOf? ==> !ItemsPanic(env, n.arr, 0)
    ensures n.RootOf? ==> r == ConvertRoot(env, n.root)
    ensures n.TableOf? ==> r == ConvertTable(env, n.table)
    ensures n.ValueOf? ==> r == ConvertValue(env, n.value)
    ensures n.ArrayOf? ==> r == ConvertArray(env, n.arr)
  {
    match n
    case RootOf(root) => ConvertRoot(env, root)
    case TableOf(t) => ConvertTable(env, t)
    case ValueOf(v) => ConvertValue(env, v)
    case ArrayOf(a) => ConvertArray(env, a)
  }

  // ------------------------------------------------------------------ lemmas

  /** Only an `Empty` node can make the conversion panic: a value without
      one never does. */
  lemma {:induction false} NoEmptyNeverPanics(env: Env, v: ValueNode)
    requires NoEmpty(v)
    ensures !Panics(env, v)
    decreases v, 0
  {
    match v
    case ArrayValue(a) => NoEmptyItemsNeverPanic(env, a, 0);
    case TableValue(t) => NoEmptyEntriesNeverPanic(env, t, 0);
    case _ =>
  }

  lemma {:induction false} NoEmptyItemsNeverPanic(env: Env, a: ArrayNode, i: nat)
    requires i <= |a.items|
    requires forall j | i <= j < |a.items| :: NoEmpty(a.items[j])
    ensures !ItemsPanic(env, a, i)
    decreases a, 1, |a.items| - i
  {
    if i < |a.items| {
      NoEmptyNeverPanics(env, a.items[i]);
      NoEmptyItemsNeverPanic(env, a, i + 1);
    }
  }

  lemma {:induction false} NoEmptyEntriesNeverPanic(env: Env, t: TableNode, i: nat)
    requires i <= |t.entries|
    requires forall j | i <= j < |t.entries| :: NoEmpty(t.entries[j].value)
    ensures !EntriesPanic(env, t, i)
    decreases t, 1, |t.entries| - i
  {
    if i < |t.entries| {
      NoEmptyNeverPanics(env, t.entries[i].value);
      NoEmptyEntriesNeverPanic(env, t, i + 1);
    }
  }

  /** An `Empty` item after an invalid one is never reached: `[Invalid,
      Empty]` is an `InvalidValue` error. */
  lemma EmptyAfterInvalidItem(env: Env, r: TextRange)
    ensures var a := ArrayNode([InvalidNode(r), EmptyNode], r, [r]);
            !ItemsPanic(env, a, 0) && ConvertArray(env, a) == Err(InvalidValue)
  {
    var a := ArrayNode([InvalidNode(r), EmptyNode], r, [r]);
    assert a.items[0] == InvalidNode(r);
    assert !ItemPanics(env, a, 0);
    assert ConvertItem(env, a, 0) == ConvertValue(env, InvalidNode(r)) == Err(InvalidValue);
  }

  /** An `Empty` value after an entry whose key does not unescape is never
      reached: the table is an `UnescapeError`. */
  lemma EmptyAfterUnescapeFailure(env: Env, k0: KeyNode, k1: KeyNode, r: TextRange)
    requires env.unescape(k0.fullKeyStripped).None?
    ensures var t := TableNode([EntryNode(k0, BoolNode("true", r), r), EntryNode(k1, EmptyNode, r)], r, [r]);
            !EntriesPanic(env, t, 0) && ConvertTable(env, t) == Err(Other(UnescapeError))
  {
    var t := TableNode([EntryNode(k0, BoolNode("true", r), r), EntryNode(k1, EmptyNode, r)], r, [r]);
    assert !EntryPanics(env, t, 0) && ConvertEntry(env, t, 0).Err?;
  }

  /** Item `j` is the first item from `i` on that fails, with error `e`. */
  predicate ItemFailsFirstAt(env: Env, a: ArrayNode, i: nat, j: nat, e: Error)
  {
    i <= j < |a.items| && !ItemPanics(env, a, j) && ConvertItem(env, a, j) == Err(e)
    && forall k | i <= k < j :: !ItemPanics(env, a, k) && ConvertItem(env, a, k).Ok?
  }

  /** Array conversion is all-or-nothing: it succeeds exactly when every
      item converts; otherwise it reports the error of the first item that
      fails. */
  lemma {:induction false} ConvertItemsOutcome(env: Env, a: ArrayNode, i: nat)
    requires i <= |a.items| && !ItemsPanic(env, a, i)
    ensures ConvertItems(env, a, i).Ok? <==>
              forall j | i <= j < |a.items| :: !ItemPanics(env, a, j) && ConvertItem(env, a, j).Ok?
    ensures ConvertItems(env, a, i).Err? ==>
              exists j :: ItemFailsFirstAt(env, a, i, j, ConvertItems(env, a, i).error)
    decreases |a.items| - i
  {
    if i < |a.items| {
      var x := ConvertItem(env, a, i);
      if x.Ok? {
        ConvertItemsOutcome(env, a, i + 1);
        var rest := ConvertItems(env, a, i + 1);
        if rest.Err? {
          assert ConvertItems(env, a, i) == Err(rest.error);
          var j :| ItemFailsFirstAt(env, a, i + 1, j, rest.error);
          assert ItemFailsFirstAt(env, a, i, j, rest.error);
        }
      } else {
        assert ConvertItems(env, a, i) == Err(x.error);
        assert ItemFailsFirstAt(env, a, i, i, x.error);
        assert ConvertItem(env, a, i).Err?;
      }
    }
  }

  /** A successful array conversion keeps length and order: item `j` of the
      result is the conversion of item `j`. */
  lemma {:induction false} ConvertItemsValues(env: Env, a: ArrayNode, i: nat)
    requires i <= |a.items| && !ItemsPanic(env, a, i)
    requires ConvertItems(env, a, i).Ok?
    ensures forall j | i <= j < |a.items| ::
              !ItemPanics(env, a, j) && ConvertItem(env, a, j).Ok?
              && ConvertItems(env, a, i).value[j - i] == ConvertItem(env, a, j).value
    decreases |a.items| - i
  {
    if i < |a.items| {
      var x := ConvertItem(env, a, i);
      var rest := ConvertItems(env, a, i + 1);
      ConvertItemsValues(env, a, i + 1);
      var r := ConvertItems(env, a, i).value;
      assert r == [x.value] + rest.value;
      forall j | i <= j < |a.items|
        ensures !ItemPanics(env, a, j) && ConvertItem(env, a, j).Ok? && r[j - i] == ConvertItem(env, a, j).value
      {
        if j > i { assert r[j - i] == rest.value[j - (i + 1)]; }
      }
    }
  }

  lemma ConvertArrayCorrect(env: Env, a: ArrayNode)
    requires !ItemsPanic(env, a, 0)
    ensures ConvertArray(env, a).Ok? <==> forall j | 0 <= j < |a.items| :: !ItemPanics(env, a, j) && ConvertItem(env, a, j).Ok?
    ensures ConvertArray(env, a).Ok? ==>
              |ConvertArray(env, a).value.items| == |a.items|
              && forall j | 0 <= j < |a.items| ::
                   ConvertArray(env, a).value.items[j] == ConvertItem(env, a, j).value
    ensures ConvertArray(env, a).Err? ==>
              exists j :: ItemFailsFirstAt(env, a, 0, j, ConvertArray(env, a).error)
  {
    ConvertItemsOutcome(env, a, 0);
    if ConvertArray(env, a).Ok? {
      ConvertItemsValues(env, a, 0);
    }
  }

  /** The pairs the entries from `i` on produce when they all convert. */
  function EntryPairs(env: Env, t: TableNode, i: nat): (ps: seq<MapEntry>)
    requires i <= |t.entries|
    requires forall j | i <= j < |t.entries| :: !EntryPanics(env, t, j) && ConvertEntry(env, t, j).Ok?
    ensures |ps| == |t.entries| - i
    ensures forall j | i <= j < |t.entries| :: ps[j - i] == ConvertEntry(env, t, j).value
    decreases |t.entries| - i
  {
    if i == |t.entries| then []
    else [ConvertEntry(env, t, i).value] + EntryPairs(env, t, i + 1)
  }

  /** An entry converts exactly when its key unescapes and its value
      converts, to the pair of the two; an unescape failure is reported
      before anything about the value, which is then never looked at. */
  lemma ConvertEntryCorrect(env: Env, t: TableNode, i: nat)
    requires i < |t.entries| && !EntryPanics(env, t, i)
    ensures var e := t.entries[i];
            var k := env.unescape(e.key.fullKeyStripped);
            var r := ConvertEntry(env, t, i);
            && (r.Ok? <==> k.Some? && ConvertValue(env, e.value).Ok?)
            && (r.Ok? ==> r.value == MapEntry(k.value, ConvertValue(env, e.value).value))
            && (k.None? ==> r == Err(Other(UnescapeError)))
            && (k.Some? && ConvertValue(env, e.value).Err? ==> r == Err(ConvertValue(env, e.value).error))
  {
  }

  /** Entry `j` is the first entry from `i` on that fails, with error `e`. */
  predicate FailsFirstAt(env: Env, t: TableNode, i: nat, j: nat, e: Error)
  {
    i <= j < |t.entries| && !EntryPanics(env, t, j) && ConvertEntry(env, t, j) == Err(e)
    && forall k | i <= k < j :: !EntryPanics(env, t, k) && ConvertEntry(env, t, k).Ok?
  }

  /** The map fold succeeds exactly when every entry converts, and a
      failure is the error of the first entry that does not. */
  lemma {:induction false} ConvertEntriesOutcome(env: Env, t: TableNode, i: nat, acc: seq<MapEntry>)
    requires i <= |t.entries| && !EntriesPanic(env, t, i)
    ensures ConvertEntries(env, t, i, acc).Ok? <==>
              forall j | i <= j < |t.entries| :: !EntryPanics(env, t, j) && ConvertEntry(env, t, j).Ok?
    ensures ConvertEntries(env, t, i, acc).Err? ==>
              exists j :: FailsFirstAt(env, t, i, j, ConvertEntries(env, t, i, acc).error)
    decreases |t.entries| - i
  {
    if i < |t.entries| {
      var step := ConvertEntry(env, t, i);
      if step.Ok? {
        var acc' := Insert(acc, step.value.key, step.value.value);
        ConvertEntriesOutcome(env, t, i + 1, acc');
        assert ConvertEntries(env, t, i, acc) == ConvertEntries(env, t, i + 1, acc');
        if ConvertEntries(env, t, i + 1, acc').Err? {
          var j :| FailsFirstAt(env, t, i + 1, j, ConvertEntries(env, t, i + 1, acc').error);
          assert FailsFirstAt(env, t, i, j, ConvertEntries(env, t, i, acc).error);
        }
      } else {
        assert ConvertEntries(env, t, i, acc) == Err(step.error);
        assert FailsFirstAt(env, t, i, i, step.error);
        assert ConvertEntry(env, t, i).Err?;
      }
    }
  }

  /** The entries' pairs, when every entry converts, inserted one by one
      from `acc` on: that is the whole fold. */
  lemma {:induction false} ConvertEntriesFold(env: Env, t: TableNode, i: nat, acc: seq<MapEntry>)
    requires i <= |t.entries| && !EntriesPanic(env, t, i)
    requires forall j | i <= j < |t.entries| :: !EntryPanics(env, t, j) && ConvertEntry(env, t, j).Ok?
    ensures ConvertEntries(env, t, i, acc) == Ok(InsertAll(acc, EntryPairs(env, t, i)))
    decreases |t.entries| - i
  {
    if i < |t.entries| {
      var p := ConvertEntry(env, t, i).value;
      var pairs := EntryPairs(env, t, i);
      assert pairs == [p] + EntryPairs(env, t, i + 1);
      assert pairs[0] == p && pairs[1..] == EntryPairs(env, t, i + 1);
      ConvertEntriesFold(env, t, i + 1, Insert(acc, p.key, p.value));
    }
  }

  /** Table (and root) conversion: all-or-nothing over the entries; the map
      is the entries' pairs inserted in entry order, so its keys are
      distinct, and with distinct unescaped keys it is exactly the pairs; a
      failure is the first failing entry's error. */
  lemma ConvertTableCorrect(env: Env, t: TableNode)
    requires !EntriesPanic(env, t, 0)
    ensures ConvertTable(env, t).Ok? <==> forall j | 0 <= j < |t.entries| :: !EntryPanics(env, t, j) && ConvertEntry(env, t, j).Ok?
    ensures ConvertTable(env, t).Ok? ==>
              ConvertTable(env, t).value.entries == InsertAll([], EntryPairs(env, t, 0))
              && Distinct(Keys(ConvertTable(env, t).value.entries))
    ensures ConvertTable(env, t).Ok? && Distinct(Keys(EntryPairs(env, t, 0))) ==>
              ConvertTable(env, t).value.entries == EntryPairs(env, t, 0)
    ensures ConvertTable(env, t).Err? ==>
              exists j :: FailsFirstAt(env, t, 0, j, ConvertTable(env, t).error)
  {
    ConvertEntriesOutcome(env, t, 0, []);
    if ConvertTable(env, t).Ok? {
      var pairs := EntryPairs(env, t, 0);
      ConvertEntriesFold(env, t, 0, []);
      InsertAllDistinct([], pairs);
      assert [] + pairs == pairs;
      if Distinct(Keys(pairs)) {
        InsertAllFresh([], pairs);
      }
    }
  }

  /** A well-formed integer literal: an optional sign and at least one digit. */
  predicate WellFormedNumber(s: string, radix: Radix)
  {
    |Unsigned(s)| > 0 && AllDigits(Unsigned(s), radix)
  }

  /** Integer conversion: a literal whose number fits in i64 becomes
      `Integer` of that number; a non-negative one that only fits in u64
      becomes `UnsizedInteger`, so an `UnsizedInteger` is always above
      i64::MAX; anything else is an error. */
  lemma ConvertIntegerCorrect(repr: IntegerRepr, text: string)
    ensures var ds, radix := IntegerDigits(repr, text), RadixOf(repr);
            var r := ConvertInteger(repr, text);
            && (r.Ok? <==> WellFormedNumber(ds, radix) && I64_MIN <= Denotes(ds, radix) <= U64_MAX)
            && (r.Ok? && r.value.Integer? ==> r.value.i == Denotes(ds, radix))
            && (r.Ok? && r.value.UnsizedInteger? ==>
                  r.value.u == Denotes(ds, radix) && r.value.u > I64_MAX)
  {
    var ds, radix := IntegerDigits(repr, text), RadixOf(repr);
    FromStrRadixCorrect(ds, radix, true, I64_MIN, I64_MAX);
    FromStrRadixCorrect(ds, radix, false, 0, U64_MAX);
    if WellFormedNumber(ds, radix) {
      PositionalGrows(0, Unsigned(ds), radix);
    }
  }

  /** The digits never contain an underscore. */
  lemma IntegerDigitsNoUnderscore(repr: IntegerRepr, text: string)
    ensures '_' !in IntegerDigits(repr, text)
  {
    var plain := Replace(text, "_", "");
    ReplaceCharDeletes(text, '_');
    assert '_' !in plain;
    match repr
    case Dec =>
    case Bin =>
      var r := TrimStartMatches(plain, "0b");
      assert forall c | c in r :: c in plain;
    case Oct =>
      var r := TrimStartMatches(plain, "0o");
      assert forall c | c in r :: c in plain;
    case Hex =>
      var r := TrimStartMatches(plain, "0x");
      assert forall c | c in r :: c in plain;
  }

  /** The parsers of a date library, in the order they are tried. */
  function Attempts(p: DateParsers): seq<string -> Option<Stamp>>
  {
    [p.offsetDateTime, p.localDateTime, p.localTime, p.localDate]
  }

  /** The position in `Attempts` of the parser that produces a date kind. */
  function AttemptOf(d: Date): nat
  {
    match d
    case OffsetDateTime(_) => 0
    case LocalDateTime(_) => 1
    case LocalTime(_) => 2
    case LocalDate(_) => 3
  }

  /** With a date library, a date is what the first parser that accepts the
      normalised text makes of it, and an `InvalidDate` error carrying that
      text when none does; without one it is that text as a string. */
  lemma ConvertDateCorrect(env: Env, text: string)
    ensures var d, r := NormaliseDate(text), ConvertDate(env, text);
            && (env.dates.NoDates? ==> r == Ok(String(d)))
            && (!env.dates.NoDates? ==>
                  var ps := Attempts(env.dates.parsers);
                  && (r.Err? <==> forall j | 0 <= j < 4 :: ps[j](d).None?)
                  && (r.Err? ==> r.error == Other(InvalidDate(d)))
                  && (r.Ok? ==> (r.value.Date?
                        && ps[AttemptOf(r.value.date)](d) == Some(r.value.date.stamp)
                        && forall j | 0 <= j < AttemptOf(r.value.date) :: ps[j](d).None?)))
  {
    if !env.dates.NoDates? {
      var p := env.dates.parsers;
      var ps := Attempts(p);
      assert ps[0] == p.offsetDateTime && ps[1] == p.localDateTime;
      assert ps[2] == p.localTime && ps[3] == p.localDate;
    }
  }

  /** Without a date library the date text has no space and no lower-case
      't' left, and is otherwise unchanged. */
  lemma DateWithoutLibrary(env: Env, text: string)
    requires env.dates.NoDates?
    ensures ConvertDate(env, text).Ok? && ConvertDate(env, text).value.String?
    ensures var s := ConvertDate(env, text).value.s;
            |s| == |text| && ' ' !in s && 't' !in s
            && forall i | 0 <= i < |s| && text[i] != ' ' && text[i] != 't' :: s[i] == text[i]
  {
  }

  lemma ConvertHexExample()
    ensures ConvertInteger(Hex, "0x1A") == Ok(Integer(26))
  {
    HexDigitsExample();
    HexValueExample();
  }

  lemma HexDigitsExample()
    ensures IntegerDigits(Hex, "0x1A") == "1A"
  {
    assert Replace("0x1A", "_", "") == "0x1A";
    assert "0x1A"[..2] == "0x" && "0x1A"[2..] == "1A";
    assert "1A"[..2] != "0x";
  }

  lemma HexValueExample()
    ensures ParseI64("1A", 16) == Ok(26)
  {
    assert DigitOf('1', 16) == Some(1) && DigitOf('A', 16) == Some(10);
    assert "1A"[1..] == "A" && "A"[1..] == [];
    assert AccumulatePos(1, "A", 16, I64_MAX) == Ok(26);
  }
}
