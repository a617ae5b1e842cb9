/** Schema validation of DOM nodes (taplo/src/verify.rs): every node hands
    itself to an external validator, one call at a time; tables, arrays and
    the root go through a map or sequence validator and collect every error
    instead of stopping at the first. The validator itself is external: it
    is an `Oracle` that answers each call given the calls made before it. */
module Verify {
  import opened Wrappers
  import opened Dom
  import opened Radix
  import Values

  // ------------------------------------------------------------------ errors

  /** What an error message is made from: a fixed text, or a conversion
      error rendered with `to_string`. */
  datatype Message = Text(text: string) | Describe(err: Values.Error)

  /** A validator error: `custom(message)`, or `first += second`. What the
      validator makes of `+=` is its own business; the model keeps both. */
  datatype VError = Custom(msg: Message) | Merged(first: VError, second: VError)

  /** The messages an error holds, in the order they were added. */
  function Leaves(e: VError): (ms: seq<Message>)
    ensures |ms| >= 1
  {
    match e
    case Custom(m) => [m]
    case Merged(a, b) => Leaves(a) + Leaves(b)
  }

  function OptLeaves(e: Option<VError>): seq<Message>
  {
    match e
    case None => []
    case Some(x) => Leaves(x)
  }

  /** One step of the collecting loops: `*errs += err` when an error is
      already held, `errs = Some(err)` when not, nothing on success. */
  function Absorb(errs: Option<VError>, answer: Option<VError>): (r: Option<VError>)
    ensures r.None? <==> errs.None? && answer.None?
    ensures OptLeaves(r) == OptLeaves(errs) + OptLeaves(answer)
  {
    match answer
    case None => errs
    case Some(err) =>
      match errs
      case None => Some(err)
      case Some(held) => Some(Merged(held, err))
  }

  /** The closing `match errs { Some(e) => Err(e), None => Ok(()) }`. */
  function ToResult(errs: Option<VError>): (r: Result<(), VError>)
    ensures r.Ok? <==> errs.None?
    ensures r.Err? ==> Some(r.error) == errs
  {
    match errs
    case None => Ok(())
    case Some(e) => Err(e)
  }

  // ------------------------------------------------------------------ calls

  /** The integer widths the validator distinguishes. */
  datatype Width = W8 | W16 | W32 | W64

  /** A call made on the validator (or on the map or sequence validator it
      hands out). */
  datatype Call =
    | WithSpan(span: TextRange)
    | ValidateMap(len: nat)
    | StringEntry(key: KeyNode, value: ValueNode)
    | MapEnd
    | ValidateSeq(len: nat)
    | Element(item: ValueNode)
    | SeqEnd
    | ValidateBool(b: bool)
    | ValidateStr(s: string)
    | ValidateUnsigned(width: Width, u: int)
    | ValidateSigned(width: Width, i: int)
    | ValidateF64(f: Values.F64)

  /** The external validator: its answer to a call, given every call made
      before it (`None` is `Ok(())`). `with_span` cannot fail and its
      answer is never looked at. */
  type Oracle = (seq<Call>, Call) -> Option<VError>

  /** What a validation returns, and every call it made, in order. */
  datatype Outcome = Outcome(res: Result<(), VError>, log: seq<Call>)

  /** The `validate_string_entry` calls for `entries`, in order. */
  function EntryCalls(entries: seq<EntryNode>): (cs: seq<Call>)
    ensures |cs| == |entries|
    ensures forall i | 0 <= i < |entries| :: cs[i] == StringEntry(entries[i].key, entries[i].value)
  {
    seq(|entries|, i requires 0 <= i < |entries| => StringEntry(entries[i].key, entries[i].value))
  }

  /** The `validate_element` calls for `items`, in order. */
  function ElementCalls(items: seq<ValueNode>): (cs: seq<Call>)
    ensures |cs| == |items|
    ensures forall i | 0 <= i < |items| :: cs[i] == Element(items[i])
  {
    seq(|items|, i requires 0 <= i < |items| => Element(items[i]))
  }

  // ------------------------------------------------------------- collecting

  /** The errors of `calls`, made one after the other from `log` on, folded
      into `errs`. */
  function Collect(oracle: Oracle, log: seq<Call>, calls: seq<Call>, errs: Option<VError>): Option<VError>
    decreases |calls|
  {
    if calls == [] then errs
    else Collect(oracle, log + [calls[0]], calls[1..], Absorb(errs, oracle(log, calls[0])))
  }

  /** The messages of every failing call among `calls`, in call order. */
  function Failures(oracle: Oracle, log: seq<Call>, calls: seq<Call>): seq<Message>
    decreases |calls|
  {
    if calls == [] then []
    else OptLeaves(oracle(log, calls[0])) + Failures(oracle, log + [calls[0]], calls[1..])
  }

  /** Every one of `calls`, made in order from `log` on, succeeds. */
  predicate AllPass(oracle: Oracle, log: seq<Call>, calls: seq<Call>)
  {
    forall j | 0 <= j < |calls| :: oracle(log + calls[..j], calls[j]).None?
  }

  lemma AllPassCons(oracle: Oracle, log: seq<Call>, calls: seq<Call>)
    requires calls != []
    ensures AllPass(oracle, log, calls) <==>
              oracle(log, calls[0]).None? && AllPass(oracle, log + [calls[0]], calls[1..])
  {
    var rest := calls[1..];
    forall j | 0 <= j < |rest|
      ensures log + calls[..j + 1] == (log + [calls[0]]) + rest[..j] && rest[j] == calls[j + 1]
    {
      assert calls[..j + 1] == [calls[0]] + rest[..j];
    }
    assert log + calls[..0] == log;
    if oracle(log, calls[0]).None? && AllPass(oracle, log + [calls[0]], rest) {
      forall j | 0 <= j < |calls| ensures oracle(log + calls[..j], calls[j]).None? {
        if j > 0 {
          assert oracle((log + [calls[0]]) + rest[..j - 1], rest[j - 1]).None?;
        }
      }
    }
  }

  /** The collected error holds the messages of every failing call, after
      those already held and in call order, and there is none exactly when
      nothing was held and every call passed. */
  lemma {:induction false} CollectCorrect(oracle: Oracle, log: seq<Call>, calls: seq<Call>, errs: Option<VError>)
    ensures OptLeaves(Collect(oracle, log, calls, errs)) == OptLeaves(errs) + Failures(oracle, log, calls)
    ensures Collect(oracle, log, calls, errs).None? <==> errs.None? && AllPass(oracle, log, calls)
    decreases |calls|
  {
    if calls != [] {
      var c, rest, log1 := calls[0], calls[1..], log + [calls[0]];
      var errs' := Absorb(errs, oracle(log, c));
      assert Collect(oracle, log, calls, errs) == Collect(oracle, log1, rest, errs');
      assert Failures(oracle, log, calls) == OptLeaves(oracle(log, c)) + Failures(oracle, log1, rest);
      CollectCorrect(oracle, log1, rest, errs');
      MessagesRegroup(OptLeaves(errs), OptLeaves(oracle(log, c)), Failures(oracle, log1, rest));
      AllPassCons(oracle, log, calls);
    }
  }

  lemma MessagesRegroup(a: seq<Message>, b: seq<Message>, c: seq<Message>)
    ensures (a + b) + c == a + (b + c)
  {
  }

  /** Collecting over one more call is one more `Absorb`. */
  lemma {:induction false} CollectSnoc(oracle: Oracle, log: seq<Call>, calls: seq<Call>, c: Call, errs: Option<VError>)
    ensures Collect(oracle, log, calls + [c], errs) ==
              Absorb(Collect(oracle, log, calls, errs), oracle(log + calls, c))
    decreases |calls|
  {
    if calls == [] {
      assert [] + [c] == [c];
      assert log + [] == log;
    } else {
      var rest, log1 := calls[1..], log + [calls[0]];
      var e1 := Absorb(errs, oracle(log, calls[0]));
      SnocTail(calls, c);
      CollectSnoc(oracle, log1, rest, c, e1);
      AppendFirst(log, calls);
    }
  }

  lemma SnocTail(calls: seq<Call>, c: Call)
    requires calls != []
    ensures (calls + [c])[0] == calls[0] && (calls + [c])[1..] == calls[1..] + [c]
  {
  }

  lemma AppendFirst(log: seq<Call>, calls: seq<Call>)
    requires calls != []
    ensures log + [calls[0]] + calls[1..] == log + calls
  {
    assert calls == [calls[0]] + calls[1..];
  }

  /** Collecting over one more item of `items`. */
  lemma CollectStep(oracle: Oracle, log: seq<Call>, items: seq<Call>, i: nat)
    requires i < |items|
    ensures Collect(oracle, log, items[..i + 1], None) ==
              Absorb(Collect(oracle, log, items[..i], None), oracle(log + items[..i], items[i]))
    ensures log + items[..i + 1] == log + items[..i] + [items[i]]
  {
    var pre, c := items[..i], items[i];
    assert items[..i + 1] == pre + [c];
    CollectSnoc(oracle, log, pre, c, None);
    assert log + (pre + [c]) == log + pre + [c];
  }

  /** A map or sequence validation: `open` hands out the inner validator
      (`validate_map`, `validate_seq`) and its failure is returned at once
      (`?`); otherwise every one of `items` is made, then `close` (`end`),
      and their errors are collected in that order. */
  function Compound(oracle: Oracle, log0: seq<Call>, open: Call, items: seq<Call>, close: Call): Outcome
  {
    match oracle(log0, open)
    case Some(e) => Outcome(Err(e), log0 + [open])
    case None =>
      var inner := log0 + [open];
      Outcome(ToResult(Absorb(Collect(oracle, inner, items, None), oracle(inner + items, close))),
              inner + items + [close])
  }

  /** A failing `open` ends the validation with its error. Otherwise every
      item and then `close` is made, the result is `Ok` exactly when each of
      them passes, and an error holds the messages of every failing call in
      call order. */
  lemma CompoundCorrect(oracle: Oracle, log0: seq<Call>, open: Call, items: seq<Call>, close: Call)
    ensures var out := Compound(oracle, log0, open, items, close);
            && (oracle(log0, open).Some? ==> out == Outcome(Err(oracle(log0, open).value), log0 + [open]))
            && (oracle(log0, open).None? ==> out.log == log0 + [open] + items + [close])
            && (oracle(log0, open).None? ==>
                  (out.res.Ok? <==> AllPass(oracle, log0 + [open], items + [close])))
            && (oracle(log0, open).None? && out.res.Err? ==>
                  Leaves(out.res.error) == Failures(oracle, log0 + [open], items + [close]))
  {
    if oracle(log0, open).None? {
      var inner := log0 + [open];
      CollectSnoc(oracle, inner, items, close, None);
      CollectCorrect(oracle, inner, items + [close], None);
    }
  }

  /** The loop the source writes out three times (root, table, array). */
  method ValidateCompound(oracle: Oracle, log0: seq<Call>, open: Call, items: seq<Call>, close: Call)
    returns (res: Result<(), VError>, log: seq<Call>)
    ensures Outcome(res, log) == Compound(oracle, log0, open, items, close)
  {
    var first := oracle(log0, open);
    log := log0 + [open];
    if first.Some? {
      return Err(first.value), log;
    }
    var errs;
    errs, log := CollectItems(oracle, log, items);
    errs := Absorb(errs, oracle(log, close));
    log := log + [close];
    res := ToResult(errs);
  }

  /** The loop over the items: makes each call in order and folds its
      failure into the held error. */
  method CollectItems(oracle: Oracle, inner: seq<Call>, items: seq<Call>)
    returns (errs: Option<VError>, log: seq<Call>)
    ensures errs == Collect(oracle, inner, items, None)
    ensures log == inner + items
  {
    errs := None;
    log := inner;
    var i := 0;
    while i < |items|
      invariant 0 <= i <= |items|
      invariant log == inner + items[..i]
      invariant errs == Collect(oracle, inner, items[..i], None)
    {
      CollectStep(oracle, inner, items, i);
      errs := Absorb(errs, oracle(log, items[i]));
      log := log + [items[i]];
      i := i + 1;
    }
    assert items[..i] == items;
  }

  // ------------------------------------------------------------------ leaves

  function Rank(w: Width): nat
  {
    match w
    case W8 => 0
    case W16 => 1
    case W32 => 2
    case W64 => 3
  }

  function UnsignedMax(w: Width): int
  {
    match w
    case W8 => 0xFF
    case W16 => 0xFFFF
    case W32 => 0xFFFF_FFFF
    case W64 => U64_MAX
  }

  function SignedMin(w: Width): int
  {
    match w
    case W8 => -0x80
    case W16 => -0x8000
    case W32 => -0x8000_0000
    case W64 => I64_MIN
  }

  function SignedMax(w: Width): int
  {
    match w
    case W8 => 0x7F
    case W16 => 0x7FFF
    case W32 => 0x7FFF_FFFF
    case W64 => I64_MAX
  }

  /** The `u8`, `u16`, `u32`, `u64` cascade: the narrowest width that holds `u`. */
  function NarrowUnsigned(u: int): (w: Width)
    requires 0 <= u <= U64_MAX
    ensures u <= UnsignedMax(w)
    ensures forall w' | Rank(w') < Rank(w) :: u > UnsignedMax(w')
  {
    if u <= 0xFF then W8
    else if u <= 0xFFFF then W16
    else if u <= 0xFFFF_FFFF then W32
    else W64
  }

  /** The `i8`, `i16`, `i32`, `i64` cascade: the narrowest width that holds `i`. */
  function NarrowSigned(i: int): (w: Width)
    requires I64_MIN <= i <= I64_MAX
    ensures SignedMin(w) <= i <= SignedMax(w)
    ensures forall w' | Rank(w') < Rank(w) :: !(SignedMin(w') <= i <= SignedMax(w'))
  {
    if -0x80 <= i <= 0x7F then W8
    else if -0x8000 <= i <= 0x7FFF then W16
    else if -0x8000_0000 <= i <= 0x7FFF_FFFF then W32
    else W64
  }

  /** `.map_err(|err| V::Error::custom(err.to_string()))?` */
  function Reported<T>(r: Result<T, Values.Error>): (out: Result<T, VError>)
    ensures out.Ok? <==> r.Ok?
    ensures out.Ok? ==> out.value == r.value
    ensures out.Err? ==> out.error == Custom(Describe(r.error))
  {
    match r
    case Ok(x) => Ok(x)
    case Err(e) => Err(Custom(Describe(e)))
  }

  /** `.ok_or_else(|| V::Error::custom("invalid value"))?` */
  function Required<T>(o: Option<T>): (out: Result<T, VError>)
    ensures out.Ok? <==> o.Some?
    ensures out.Ok? ==> out.value == o.value
    ensures out.Err? ==> out.error == Custom(Text("invalid value"))
  {
    match o
    case Some(x) => Ok(x)
    case None => Err(Custom(Text("invalid value")))
  }

  /** The call to validate an integer: the literal's value, unsigned or
      signed as the conversion produced it, in the narrowest width. */
  function IntegerCall(x: Values.Value): (c: Call)
    requires x.Integer? || x.UnsizedInteger?
  {
    if x.UnsizedInteger? then ValidateUnsigned(NarrowUnsigned(x.u), x.u)
    else ValidateSigned(NarrowSigned(x.i), x.i)
  }

  /** The one validator call a scalar value makes, or the error raised
      before any call: the value is converted first, and a conversion error
      becomes a custom error carrying its text. A date is handed over as
      text: `render` is the date library's formatting (RFC 3339 for an
      offset date-time), and without a date library the date is its own
      normalised text. */
  function LeafCall(env: Values.Env, render: Values.Date -> string, v: ValueNode): (r: Result<Call, VError>)
    requires !v.ArrayValue? && !v.TableValue?
    ensures v.InvalidNode? ==> r == Err(Custom(Text("invalid node")))
    ensures v.EmptyNode? ==> r == Err(Custom(Text("empty value")))
    ensures v.StringNode? ==> r == Ok(ValidateStr(v.content))
    ensures v.BoolNode? ==>
              (r.Ok? <==> v.text == "true" || v.text == "false")
              && (r.Ok? ==> r.value == ValidateBool(v.text == "true"))
              && (r.Err? ==> r.error == Custom(Describe(Values.Other(Values.ParseBool))))
    ensures v.IntegerNode? ==>
              (r.Ok? <==> Values.ConvertInteger(v.repr, v.text).Ok?)
              && (r.Err? ==> r.error == Custom(Describe(Values.ConvertInteger(v.repr, v.text).error)))
    ensures v.FloatNode? ==>
              (r.Ok? <==> Values.ConvertFloat(env, v.text).Ok?)
              && (r.Ok? ==> r.value == ValidateF64(Values.ConvertFloat(env, v.text).value.f))
    ensures v.DateNode? ==>
              (r.Ok? <==> Values.ConvertDate(env, v.text).Ok?)
              && (r.Err? ==> r.error == Custom(Describe(Values.ConvertDate(env, v.text).error)))
  {
    match v
    case BoolNode(text, _) =>
      (match Reported(Values.ConvertBool(text))
       case Err(e) => Err(e)
       case Ok(x) =>
         match Required(Values.AsBool(x))
         case Err(e) => Err(e)
         case Ok(b) => Ok(ValidateBool(b)))
    case StringNode(kind, content, _) =>
      (match Reported(Values.ConvertString(kind, content))
       case Err(e) => Err(e)
       case Ok(x) =>
         match Required(Values.AsStr(x))
         case Err(e) => Err(e)
         case Ok(s) => Ok(ValidateStr(s)))
    case IntegerNode(repr, text, _) =>
      (match Reported(Values.ConvertInteger(repr, text))
       case Err(e) => Err(e)
       case Ok(x) => Ok(IntegerCall(x)))
    case FloatNode(text, _) =>
      (match Reported(Values.ConvertFloat(env, text))
       case Err(e) => Err(e)
       case Ok(x) =>
         match Required(Values.AsF64(x))
         case Err(e) => Err(e)
         case Ok(f) => Ok(ValidateF64(f)))
    case DateNode(text, _) =>
      (match Reported(Values.ConvertDate(env, text))
       case Err(e) => Err(e)
       case Ok(x) =>
         if env.dates.NoDates? then
           match Required(Values.AsStr(x))
           case Err(e) => Err(e)
           case Ok(s) => Ok(ValidateStr(s))
         else
           match Required(Values.AsDate(x))
           case Err(e) => Err(e)
           case Ok(d) => Ok(ValidateStr(render(d))))
    case InvalidNode(_) => Err(Custom(Text("invalid node")))
    case EmptyNode => Err(Custom(Text("empty value")))
  }

  /** An integer literal is validated with exactly the number it denotes:
      as a signed value of the narrowest signed width when it fits in i64,
      and otherwise as a `u64`. The `u8`, `u16` and `u32` branches are
      never taken, since the conversion only yields an unsigned value above
      i64::MAX. */
  lemma IntegerCallCorrect(env: Values.Env, render: Values.Date -> string, repr: IntegerRepr, text: string, syntax: TextRange)
    ensures var r := LeafCall(env, render, IntegerNode(repr, text, syntax));
            var ds, radix := Values.IntegerDigits(repr, text), Values.RadixOf(repr);
            && (r.Ok? <==> Values.WellFormedNumber(ds, radix) && I64_MIN <= Denotes(ds, radix) <= U64_MAX)
            && (r.Ok? ==>
                  var n := Denotes(ds, radix);
                  && (n <= I64_MAX ==> r.value == ValidateSigned(NarrowSigned(n), n))
                  && (n > I64_MAX ==> r.value == ValidateUnsigned(W64, n)))
  {
    Values.ConvertIntegerCorrect(repr, text);
  }

  /** A date is validated as text: with a date library, the rendering of
      the date it parses to; without one, the normalised text itself. */
  lemma DateCallCorrect(env: Values.Env, render: Values.Date -> string, text: string, syntax: TextRange)
    ensures var r := LeafCall(env, render, DateNode(text, syntax));
            && (env.dates.NoDates? ==> r == Ok(ValidateStr(Values.NormaliseDate(text))))
            && (!env.dates.NoDates? && r.Ok? ==>
                  Values.ConvertDate(env, text).value.Date?
                  && r.value == ValidateStr(render(Values.ConvertDate(env, text).value.date)))
  {
  }

  /** A value that makes at most one call: the error raised before it, or
      the call and the validator's answer. */
  function Single(oracle: Oracle, log0: seq<Call>, r: Result<Call, VError>): (out: Outcome)
    ensures r.Err? ==> out == Outcome(Err(r.error), log0)
    ensures r.Ok? ==> out.log == log0 + [r.value]
    ensures r.Ok? ==> (out.res.Ok? <==> oracle(log0, r.value).None?)
  {
    match r
    case Err(e) => Outcome(Err(e), log0)
    case Ok(c) => Outcome(ToResult(oracle(log0, c)), log0 + [c])
  }

  // ------------------------------------------------------------------ nodes

  /** `RootNode::validate`: a map over the top-level entries, with no span
      set first. */
  method ValidateRoot(oracle: Oracle, log0: seq<Call>, root: RootNode)
    returns (res: Result<(), VError>, log: seq<Call>)
    ensures Outcome(res, log) ==
              Compound(oracle, log0, ValidateMap(|root.entries|), EntryCalls(root.entries), MapEnd)
  {
    res, log := ValidateCompound(oracle, log0, ValidateMap(|root.entries|), EntryCalls(root.entries), MapEnd);
  }

  /** `TableNode::validate`: the table's span is set, then a map over its entries. */
  method ValidateTable(oracle: Oracle, log0: seq<Call>, t: TableNode)
    returns (res: Result<(), VError>, log: seq<Call>)
    ensures Outcome(res, log) ==
              Compound(oracle, log0 + [WithSpan(t.syntax)], ValidateMap(|t.entries|), EntryCalls(t.entries), MapEnd)
  {
    res, log := ValidateCompound(oracle, log0 + [WithSpan(t.syntax)], ValidateMap(|t.entries|), EntryCalls(t.entries), MapEnd);
  }

  /** `ArrayNode::validate`: the array's span is set, then a sequence over its items. */
  method ValidateArray(oracle: Oracle, log0: seq<Call>, a: ArrayNode)
    returns (res: Result<(), VError>, log: seq<Call>)
    ensures Outcome(res, log) ==
              Compound(oracle, log0 + [WithSpan(a.syntax)], ValidateSeq(|a.items|), ElementCalls(a.items), SeqEnd)
  {
    res, log := ValidateCompound(oracle, log0 + [WithSpan(a.syntax)], ValidateSeq(|a.items|), ElementCalls(a.items), SeqEnd);
  }

  /** `KeyNode::validate`: the key's first segment as a string; a key with
      no segment is an error and makes no call. */
  method ValidateKey(oracle: Oracle, log0: seq<Call>, k: KeyNode)
    returns (res: Result<(), VError>, log: seq<Call>)
    ensures k.segments == [] ==> res == Err(Custom(Text("no keys"))) && log == log0
    ensures k.segments != [] ==>
              log == log0 + [ValidateStr(k.segments[0])]
              && (res.Ok? <==> oracle(log0, ValidateStr(k.segments[0])).None?)
              && (res.Err? ==> Some(res.error) == oracle(log0, ValidateStr(k.segments[0])))
  {
    if k.segments == [] {
      return Err(Custom(Text("no keys"))), log0;
    }
    var c := ValidateStr(k.segments[0]);
    res := ToResult(oracle(log0, c));
    log := log0 + [c];
  }

  /** `ValueNode::validate`: arrays and tables as above, every other value
      through its one call. */
  method ValidateValue(env: Values.Env, render: Values.Date -> string, oracle: Oracle, log0: seq<Call>, v: ValueNode)
    returns (res: Result<(), VError>, log: seq<Call>)
    ensures v.ArrayValue? ==>
              Outcome(res, log) == Compound(oracle, log0 + [WithSpan(v.arr.syntax)], ValidateSeq(|v.arr.items|), ElementCalls(v.arr.items), SeqEnd)
    ensures v.TableValue? ==>
              Outcome(res, log) == Compound(oracle, log0 + [WithSpan(v.table.syntax)], ValidateMap(|v.table.entries|), EntryCalls(v.table.entries), MapEnd)
    ensures !v.ArrayValue? && !v.TableValue? ==>
              Outcome(res, log) == Single(oracle, log0, LeafCall(env, render, v))
  {
    match v
    case ArrayValue(a) =>
      res, log := ValidateArray(oracle, log0, a);
    case TableValue(t) =>
      res, log := ValidateTable(oracle, log0, t);
    case _ =>
      match LeafCall(env, render, v)
      case Err(e) =>
        res, log := Err(e), log0;
      case Ok(c) =>
        res := ToResult(oracle(log0, c));
        log := log0 + [c];
  }

  /** `Node::validate`: dispatch on the node kind. An entry must have its
      key and value validated separately (the source stops there). */
  method ValidateNode(env: Values.Env, render: Values.Date -> string, oracle: Oracle, log0: seq<Call>, n: Node)
    returns (res: Result<(), VError>, log: seq<Call>)
    requires !n.EntryOf?
    ensures n.RootOf? ==>
              Outcome(res, log) == Compound(oracle, log0, ValidateMap(|n.root.entries|), EntryCalls(n.root.entries), MapEnd)
    ensures n.TableOf? ==>
              Outcome(res, log) == Compound(oracle, log0 + [WithSpan(n.table.syntax)], ValidateMap(|n.table.entries|), EntryCalls(n.table.entries), MapEnd)
    ensures n.ArrayOf? ==>
              Outcome(res, log) == Compound(oracle, log0 + [WithSpan(n.arr.syntax)], ValidateSeq(|n.arr.items|), ElementCalls(n.arr.items), SeqEnd)
    ensures n.KeyOf? && n.key.segments == [] ==> res == Err(Custom(Text("no keys"))) && log == log0
    ensures n.KeyOf? && n.key.segments != [] ==>
              log == log0 + [ValidateStr(n.key.segments[0])]
              && (res.Ok? <==> oracle(log0, ValidateStr(n.key.segments[0])).None?)
              && (res.Err? ==> Some(res.error) == oracle(log0, ValidateStr(n.key.segments[0])))
    ensures n.ValueOf? && n.value.ArrayValue? ==>
              Outcome(res, log) == Compound(oracle, log0 + [WithSpan(n.value.arr.syntax)], ValidateSeq(|n.value.arr.items|), ElementCalls(n.value.arr.items), SeqEnd)
    ensures n.ValueOf? && n.value.TableValue? ==>
              Outcome(res, log) == Compound(oracle, log0 + [WithSpan(n.value.table.syntax)], ValidateMap(|n.value.table.entries|), EntryCalls(n.value.table.entries), MapEnd)
    ensures n.ValueOf? && !n.value.ArrayValue? && !n.value.TableValue? ==>
              Outcome(res, log) == Single(oracle, log0, LeafCall(env, render, n.value))
  {
    match n
    case RootOf(root) => res, log := ValidateRoot(oracle, log0, root);
    case TableOf(t) => res, log := ValidateTable(oracle, log0, t);
    case KeyOf(k) => res, log := ValidateKey(oracle, log0, k);
    case ValueOf(v) => res, log := ValidateValue(env, render, oracle, log0, v);
    case ArrayOf(a) => res, log := ValidateArray(oracle, log0, a);
  }

  // ------------------------------------------------------------------ spans

  /** `NodeSpan`: the span the validator currently reports at. */
  class NodeSpan {
    var range: TextRange

    constructor (r: TextRange)
      ensures range == r
    {
      range := r;
    }

    /** `+=` does not build a hierarchy: the new span replaces the old one. */
    method AddAssign(rhs: TextRange)
      modifies this
      ensures range == rhs
    {
      range := rhs;
    }
  }
}
