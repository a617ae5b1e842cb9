# taplo core, modelled in Dafny

This project models the core of taplo, a TOML toolkit, and proves properties of the model:

- **Value conversion** (`taplo/src/value.rs`): a parsed DOM node becomes a plain `Value`:
  - booleans, strings and integers in four radixes, with an unsigned fallback above the `i64` range;
  - floats and dates, whose parsers are parameters;
  - arrays, and tables built through an insertion-ordered map.

  It also covers the typed accessors and their error cases.
- **Validation** (`taplo/src/verify.rs`): a DOM node is walked against a validator.
  - The validator is an oracle: it answers each call given every call made before it.
  - The model logs the calls in order.
  - Compound nodes open a map or a sequence, validate every entry or item, and close it.
  - All errors are merged, and an error on opening stops early.
  - Integers are narrowed to the smallest fitting width.
- **Folding ranges** (`taplo-lsp/src/handlers/folding_ranges.rs`): one scan over the root's children produces foldable regions.
  - Table headers stay open until a header that does not extend their key closes them.
  - Arrays and multi-line strings that span lines fold.
  - Runs of consecutive comment lines fold as comment regions.
- **Document symbols** (`taplo-lsp/src/handlers/document_symbols.rs`): each entry becomes a symbol tree.
  - Array items are named by their index.
  - Table entries are named by their key.
  - Ranges cover the key and the value.
- **Request and notification handlers** (`lsp-async-stub/src/impls/native/handler.rs`):
  - A request handler decodes the parameters. If they do not decode, it answers with "Invalid params" (section 5.1 of JSON-RPC 2.0). Otherwise it calls its function once and sends the one reply.
  - A notification handler only decodes and calls.
- **Character checks** (`taplo/src/util/mod.rs`): the indices of characters that comments and strings may not hold; and `strip_quotes`.

Outside pieces are parameters of the model:

- the unescaper, the float parser and the date parsers (`Values.Env`);
- the date renderer;
- the validator (an `Oracle`);
- the offset-to-position mapper;
- the range joiner;
- the parameter decoders and result encoders.

Where the source updates state step by step, the model is imperative and is proved against a specification function:

- the folding scan (`Folding.CreateFoldingRanges` against `Folding.FoldingRanges`);
- the symbol builder (`Symbols.CreateSymbols` against `Symbols.RootSymbols`);
- the validation loops (`Verify.ValidateCompound` against `Verify.Compound`);
- the handlers writing to a `Handler.Writer`;
- the character-check loop.

## Model

| member | source | states |
|---|---|---|
| Values.AsBool | taplo/src/value.rs:62-74 | a value is returned exactly for a `Bool`, and it is that bool |
| Values.AsU64 | taplo/src/value.rs:76-88 | a value is returned exactly for an `UnsizedInteger`, and it is its payload |
| Values.AsI64 | taplo/src/value.rs:90-102 | a value is returned exactly for an `Integer`, and it is its payload |
| Values.AsF64 | taplo/src/value.rs:104-116 | a value is returned exactly for a `Float`, and it is its payload |
| Values.AsDate | taplo/src/value.rs:119-132 | a value is returned exactly for a `Date`, and it is its payload |
| Values.AsStr | taplo/src/value.rs:134-146 | a value is returned exactly for a `String`, and it is its payload |
| Values.AsArray | taplo/src/value.rs:148-160 | a value is returned exactly for an `Array`, and it is its items |
| Values.AsMap | taplo/src/value.rs:162-174 | a value is returned exactly for a `Map`, and it is its entries |
| Values.ConvertBool | taplo/src/value.rs:260-265 | succeeds exactly on `true`/`false`, giving the matching bool; otherwise a bool parse error |
| Values.ConvertString | taplo/src/value.rs:267-277 | every string kind converts to its content, never failing |
| Values.ReplaceCharPointwise | taplo/src/value.rs:282 | replacing one character by another keeps the length and maps each position independently |
| Values.ReplaceCharDeletes | taplo/src/value.rs:282 | replacing `_` by nothing removes exactly the underscores and keeps every other character's count |
| Values.Replace | taplo/src/value.rs:282 | `str::replace`: every non-overlapping occurrence, left to right, replaced (properties in Values.ReplaceCharPointwise and Values.ReplaceCharDeletes) |
| Values.Without | taplo/src/value.rs:282 | the result holds no `_` and the same number of every other character |
| Values.TrimStartMatches | taplo/src/value.rs:291 | the result is a suffix of the input that does not start with the prefix; with Values.TrimStartMatchesCopies this determines it |
| Values.Rep | taplo/src/value.rs:291 | n copies of a text, one after the other (defined by recursion) |
| Values.Trimmed | taplo/src/value.rs:291 | how many leading copies of the prefix are removed (defined by recursion) |
| Values.TrimStartMatchesCopies | taplo/src/value.rs:291 | the input is exactly that many copies of the prefix followed by the result, so only whole leading copies are removed |
| Values.IntegerDigits | taplo/src/value.rs:282-316 | the text without underscores, and without the radix prefix for binary, octal and hex (properties in Values.IntegerDigitsNoUnderscore and Values.ConvertIntegerCorrect) |
| Values.ParseInteger | taplo/src/value.rs:285-316 | try `i64` first, then `u64`, and report the `u64` error (properties in Values.ConvertIntegerCorrect) |
| Values.IntegerDigitsNoUnderscore | taplo/src/value.rs:282-316 | the digits handed to the radix parser hold no underscore |
| Values.ConvertInteger | taplo/src/value.rs:279-319 | a successful conversion is a signed or unsigned integer |
| Values.ConvertIntegerCorrect | taplo/src/value.rs:279-319 | succeeds exactly when the digits are well formed in the radix and denote a number in [i64::MIN, u64::MAX]; the result is that number, unsigned only above i64::MAX |
| Values.ConvertHexExample | taplo/src/value.rs:308-316 | `0x1A` converts to the integer 26 |
| Values.HexDigitsExample | taplo/src/value.rs:308-316 | the hex prefix is stripped before parsing |
| Values.HexValueExample | taplo/src/value.rs:308-316 | `1A` in radix 16 is 26 |
| Values.ConvertFloat | taplo/src/value.rs:321-332 | a successful conversion is a float |
| Values.NormaliseDate | taplo/src/value.rs:338-342 | every space or `t` becomes `T` and every other character stays, length kept |
| Values.ConvertDateCorrect | taplo/src/value.rs:334-406 | without a date library the normalised text becomes a string; with one, the parsers are tried in order, the first that accepts gives the date, and if all reject the error names the text |
| Values.DateWithoutLibrary | taplo/src/value.rs:394-406 | without a date library a date is a string of the same length with no space or `t` |
| Values.ConvertDate | taplo/src/value.rs:334-406 | the three date features' conversions (properties in Values.ConvertDateCorrect and Values.DateWithoutLibrary) |
| Values.InsertKeys | taplo/src/value.rs:200-203 | map insertion adds a key only when it is new, at the end |
| Values.Insert | taplo/src/value.rs:200-203 | `IndexMap::insert`: replace the value of a present key in place, or append (properties in the Values.Insert* lemmas) |
| Values.InsertAppends | taplo/src/value.rs:200-203 | inserting a new key appends the entry |
| Values.InsertContains | taplo/src/value.rs:200-203 | after insertion the map holds the inserted key with the inserted value |
| Values.InsertDistinct | taplo/src/value.rs:200-203 | insertion keeps keys distinct |
| Values.InsertAllDistinct | taplo/src/value.rs:193-208 | folding insertions keeps keys distinct |
| Values.InsertAllFresh | taplo/src/value.rs:193-208 | with pairwise distinct keys, folding insertions keeps every entry in order |
| Values.Panics | taplo/src/value.rs:243-258 | converting a value reaches an empty node, following the order the source converts in; an empty node after a failure is not reached |
| Values.ItemsPanic | taplo/src/value.rs:235-238 | an item reaches an empty node after all the items before it converted |
| Values.ItemPanics | taplo/src/value.rs:237 | converting one item reaches an empty node |
| Values.EntryPanics | taplo/src/value.rs:219-222 | an entry's key unescapes and its value reaches an empty node |
| Values.EntriesPanic | taplo/src/value.rs:215-225 | an entry reaches an empty node after all the entries before it converted |
| Values.ConvertValue | taplo/src/value.rs:243-258 | an invalid node converts to `InvalidValue`; the requires is exactly that no empty node is reached |
| Values.NoEmptyNeverPanics | taplo/src/value.rs:255 | only an empty node makes the conversion panic: a value without one never does |
| Values.NoEmptyItemsNeverPanic | taplo/src/value.rs:235-238 | items without an empty node never panic |
| Values.NoEmptyEntriesNeverPanic | taplo/src/value.rs:215-225 | entries without an empty node never panic |
| Values.EmptyAfterInvalidItem | taplo/src/value.rs:235-238 | `[Invalid, Empty]` does not panic and is an `InvalidValue` error |
| Values.EmptyAfterUnescapeFailure | taplo/src/value.rs:219-222 | an empty value after an entry whose key does not unescape is not reached, and the table is an `UnescapeError` |
| Values.ConvertArray | taplo/src/value.rs:231-241 | a successful conversion is an array |
| Values.ConvertItems | taplo/src/value.rs:235-238 | a successful conversion has one value per remaining item |
| Values.ConvertItem | taplo/src/value.rs:237 | one step of the `map`: one item converted (properties in Values.ConvertItemsOutcome and Values.ConvertItemsValues) |
| Values.ConvertItemsOutcome | taplo/src/value.rs:235-238 | the items convert exactly when each does; on failure the error is that of the first failing item |
| Values.ConvertItemsValues | taplo/src/value.rs:235-238 | when the items convert, every item converts and position j holds item j's value |
| Values.ConvertArrayCorrect | taplo/src/value.rs:231-241 | an array converts exactly when every item does, to the items' values in order; otherwise it fails with the first item's error |
| Values.ConvertTable | taplo/src/value.rs:211-229 | a successful conversion is a map |
| Values.ConvertRoot | taplo/src/value.rs:191-209 | a successful conversion is a map; it is the table conversion of the top-level entries (Values.RootTable) |
| Values.EntryPairs | taplo/src/value.rs:219-222 | one pair per entry, in order, each the entry's converted pair |
| Values.ConvertEntry | taplo/src/value.rs:219-222 | one entry's unescaped key and converted value (properties in Values.ConvertEntryCorrect) |
| Values.ConvertEntries | taplo/src/value.rs:215-225 | the `try_fold` over the entries (properties in Values.ConvertEntriesOutcome and Values.ConvertEntriesFold) |
| Values.ConvertEntryCorrect | taplo/src/value.rs:219-222 | an entry converts exactly when its stripped key unescapes and its value converts; an unescape failure is `UnescapeError`, and a value failure is the value's error |
| Values.ConvertEntriesOutcome | taplo/src/value.rs:215-225 | the fold succeeds exactly when every entry converts; on failure the error is that of the first failing entry |
| Values.ConvertEntriesFold | taplo/src/value.rs:215-225 | when every entry converts, the fold is the insertion of all pairs in order |
| Values.ConvertTableCorrect | taplo/src/value.rs:211-229 | a table converts exactly when every entry does; the map is the insertion of all pairs, has distinct keys, and equals the pairs when their keys are distinct; otherwise the first failing entry's error |
| Values.ConvertNode | taplo/src/value.rs:177-188 | root, table, value and array nodes dispatch to their own conversion |
| Radix.DigitOf | taplo/src/value.rs:285-316 | a digit's value is below the radix; decimal digits have their usual value |
| Radix.FromStrRadix | taplo/src/value.rs:285-316 | a parsed integer lies within the type's bounds; empty text is an error |
| Radix.ParseI64 | taplo/src/value.rs:285-316 | a parsed `i64` lies within i64 bounds |
| Radix.ParseU64 | taplo/src/value.rs:285-316 | a parsed `u64` lies within u64 bounds |
| Radix.AccumulatePos | taplo/src/value.rs:285-316 | the checked digit-by-digit accumulation of a non-negative number (properties in Radix.AccumulatePosCorrect) |
| Radix.AccumulateNeg | taplo/src/value.rs:285-316 | the checked digit-by-digit accumulation of a negative number (properties in Radix.AccumulateNegCorrect) |
| Radix.AccumulatePosCorrect | taplo/src/value.rs:285-316 | the checked accumulation of a positive number succeeds exactly when all characters are digits and the positional value fits; the result is that value |
| Radix.AccumulateNegCorrect | taplo/src/value.rs:285-316 | likewise for a negative number against the lower bound |
| Radix.NegPositionalMirrors | taplo/src/value.rs:285-316 | negative accumulation is the negation of positive accumulation |
| Radix.FromStrRadixCorrect | taplo/src/value.rs:285-316 | parsing succeeds exactly when there are digits after the optional sign, all of them valid in the radix, and a minus sign only for signed types, with the value in bounds; the result is the denoted number |
| Verify.Absorb | taplo/src/verify.rs:94-112 | merging an error keeps every failure message in order; there is no error only when neither side had one |
| Verify.ToResult | taplo/src/verify.rs:114-117 | `Ok` exactly when no error was collected, otherwise the collected error |
| Verify.EntryCalls | taplo/src/verify.rs:94-104 | one string-entry call per entry, in order |
| Verify.ElementCalls | taplo/src/verify.rs:268-278 | one element call per item, in order |
| Verify.AllPassCons | taplo/src/verify.rs:94-104 | every call passing splits into the first call and the rest |
| Verify.CollectCorrect | taplo/src/verify.rs:94-104 | collecting yields exactly the failures, in order, and no error exactly when all calls pass |
| Verify.CollectSnoc | taplo/src/verify.rs:94-104 | collecting one more call absorbs its answer |
| Verify.CollectStep | taplo/src/verify.rs:94-104 | one loop step extends the collected prefix by the next item's answer |
| Verify.Compound | taplo/src/verify.rs:86-119 | the compound validation as a function of the calls (properties in Verify.CompoundCorrect) |
| Verify.CompoundCorrect | taplo/src/verify.rs:86-119 | a failing open is returned at once; otherwise every item and the close are called in order, the result is `Ok` exactly when all pass, and the error lists every failure |
| Verify.ValidateCompound | taplo/src/verify.rs:86-119 | the loop makes exactly the calls and returns exactly the result of the compound specification |
| Verify.CollectItems | taplo/src/verify.rs:94-104 | the loop calls every item in order and merges their errors as the specification says |
| Verify.NarrowUnsigned | taplo/src/verify.rs:188-198 | an unsigned value goes to the smallest unsigned width that holds it |
| Verify.NarrowSigned | taplo/src/verify.rs:199-209 | a signed value goes to the smallest signed width that holds it |
| Verify.Reported | taplo/src/verify.rs:172-173 | a conversion error becomes a custom validation error with its message, and a value passes through |
| Verify.Required | taplo/src/verify.rs:174-175 | a missing value becomes the "invalid value" error, and a present one passes through |
| Verify.LeafCall | taplo/src/verify.rs:168-257 | per leaf kind, the validator call made or the error returned: invalid and empty nodes fail, strings validate their content, bools need `true`/`false`, and integers, floats and dates fail exactly when their conversion does |
| Verify.IntegerCallCorrect | taplo/src/verify.rs:183-212 | an integer is validated exactly when it parses; in the signed range at the narrowest signed width, above it as a 64-bit unsigned |
| Verify.DateCallCorrect | taplo/src/verify.rs:220-251 | without a date library the normalised text is validated as a string; with one, the rendered date is |
| Verify.Single | taplo/src/verify.rs:168-257 | a leaf either fails before calling, or makes one call and passes exactly when the validator accepts it |
| Verify.ValidateRoot | taplo/src/verify.rs:86-119 | the root is a map of its entries, closed by the map end, with no span |
| Verify.ValidateTable | taplo/src/verify.rs:121-155 | the table sets its span, then validates as a map of its entries |
| Verify.ValidateArray | taplo/src/verify.rs:259-294 | the array sets its span, then validates as a sequence of its items |
| Verify.ValidateKey | taplo/src/verify.rs:157-166 | a key with no segments fails with "no keys" without calling; otherwise its first segment is validated as a string |
| Verify.ValidateValue | taplo/src/verify.rs:168-257 | arrays and inline tables validate as compounds, and other values as leaves |
| Verify.ValidateNode | taplo/src/verify.rs:73-84 | each node kind dispatches to its own validation: root, table and array as compounds, a key as its first segment (or "no keys"), and a value as Verify.ValidateValue says |
| Verify.NodeSpan.constructor | taplo/src/verify.rs:17-21 | a span holds the given range |
| Verify.NodeSpan.AddAssign | taplo/src/verify.rs:23-28 | adding a span replaces the current one |
| Folding.HeaderFolds | taplo-lsp/src/handlers/folding_ranges.rs:158-171 | one region per still-open header, in order, each from the header's line to the line of the last non-header element's last character |
| Folding.Flush | taplo-lsp/src/handlers/folding_ranges.rs:140-155 | the comment-run state stays coherent: a last comment implies a first comment |
| Folding.Step | taplo-lsp/src/handlers/folding_ranges.rs:20-155 | one element's step keeps the comment-run state coherent |
| Folding.ScanAll | taplo-lsp/src/handlers/folding_ranges.rs:19-156 | the whole scan keeps the comment-run state coherent |
| Folding.Kept | taplo-lsp/src/handlers/folding_ranges.rs:33-50 | the headers `retain` keeps (properties in Folding.RetainSelects and Folding.RetainCorrect) |
| Folding.ClosedFolds | taplo-lsp/src/handlers/folding_ranges.rs:33-50 | the folds `retain` pushes (properties in Folding.RetainSelects and Folding.RetainCorrect) |
| Folding.Finish | taplo-lsp/src/handlers/folding_ranges.rs:158-183 | the folds after the loop (properties in Folding.OpenHeadersAtEnd) |
| Folding.FoldingRanges | taplo-lsp/src/handlers/folding_ranges.rs:8-186 | the specification of the handler's result (properties in Folding.FoldingRangesOrdered, Folding.FoldsNeverRetracted, Folding.CommentRunFolds and Folding.OpenHeadersAtEnd) |
| Folding.RetainHeaders | taplo-lsp/src/handlers/folding_ranges.rs:33-50 | the retain loop keeps exactly the headers of the specification and emits their closing folds in order |
| Folding.DescendantFoldsStep | taplo-lsp/src/handlers/folding_ranges.rs:66-118 | the folds of a prefix of descendants grow by the next descendant's fold |
| Folding.PushDescendantFolds | taplo-lsp/src/handlers/folding_ranges.rs:66-118 | the descendant loop appends exactly one span fold per array holding a newline and per multi-line string holding a line feed |
| Folding.ScanElement | taplo-lsp/src/handlers/folding_ranges.rs:20-155 | the loop body updates the six scan variables exactly as one specification step |
| Folding.PushOpenHeaders | taplo-lsp/src/handlers/folding_ranges.rs:158-171 | the closing loop appends one fold per still-open header |
| Folding.CreateFoldingRanges | taplo-lsp/src/handlers/folding_ranges.rs:8-186 | the handler returns exactly the folds of the specification scan, then the open headers, then a pending comment run |
| Folding.RetainCorrect | taplo-lsp/src/handlers/folding_ranges.rs:33-50 | a header survives exactly when its key is a proper textual prefix of the new key; none is lost; every fold belongs to a closing header |
| Folding.Select | taplo-lsp/src/handlers/folding_ranges.rs:33-50 | an order-keeping filter of the open headers by whether the new key closes them (an independent definition, by front recursion) |
| Folding.SelectSnoc | taplo-lsp/src/handlers/folding_ranges.rs:33-50 | filtering a sequence with one more header at the end adds at most that header at the end |
| Folding.RetainSelects | taplo-lsp/src/handlers/folding_ranges.rs:33-50 | the kept headers are exactly the non-closing ones in stack order, and the folds are exactly one per closing header, in stack order |
| Folding.ClosedFoldsRegions | taplo-lsp/src/handlers/folding_ranges.rs:35-44 | the folds of closed sections are regions |
| Folding.DescendantFoldsOrdered | taplo-lsp/src/handlers/folding_ranges.rs:66-118 | under a monotone mapper, descendant folds never end before they start |
| Folding.ClosedFoldsOrdered | taplo-lsp/src/handlers/folding_ranges.rs:33-50 | closing folds never end before they start |
| Folding.FlushInv | taplo-lsp/src/handlers/folding_ranges.rs:142-155 | flushing a comment run keeps every fold ordered and the scan state consistent |
| Folding.StepInv | taplo-lsp/src/handlers/folding_ranges.rs:20-155 | one step keeps every fold ordered and the scan state consistent, up to the element's end |
| Folding.ScanAllInv | taplo-lsp/src/handlers/folding_ranges.rs:19-156 | the scan over elements in document order keeps the invariant |
| Folding.FoldingRangesOrdered | taplo-lsp/src/handlers/folding_ranges.rs:8-186 | for non-empty elements in document order and a monotone mapper, every fold's end is at or after its start |
| Folding.HeaderStepNesting | taplo-lsp/src/handlers/folding_ranges.rs:23-55 | after a header that follows content, it is the last open header, and every earlier open header's key is a proper prefix of its key |
| Folding.HeaderAfterHeader | taplo-lsp/src/handlers/folding_ranges.rs:23-55 | a header right after another header closes no section: it is pushed onto the open headers, and the only fold added is a pending comment run's |
| Folding.TextualPrefix | taplo-lsp/src/handlers/folding_ranges.rs:34 | the prefix test is textual: `[ab]` does not close `[a]` |
| Folding.StepExtends | taplo-lsp/src/handlers/folding_ranges.rs:19-156 | an iteration only appends folds |
| Folding.ScanAllSplit | taplo-lsp/src/handlers/folding_ranges.rs:19-156 | scanning a document in two parts is scanning the second from where the first left off |
| Folding.ScanAllExtends | taplo-lsp/src/handlers/folding_ranges.rs:19-156 | the loop only appends folds |
| Folding.FoldsNeverRetracted | taplo-lsp/src/handlers/folding_ranges.rs:8-186 | the folds made while scanning any prefix of the document are a prefix of the handler's result |
| Folding.RunScan | taplo-lsp/src/handlers/folding_ranges.rs:56-60 | inside a comment run (comments, whitespace, single line breaks) nothing is folded, the run's start stays, and its end moves to the latest comment |
| Folding.DescendantFoldsRegions | taplo-lsp/src/handlers/folding_ranges.rs:66-118 | the folds of arrays and strings are regions |
| Folding.RunOpens | taplo-lsp/src/handlers/folding_ranges.rs:121-127 | a comment with no run open starts one at itself, without folding |
| Folding.RunCloses | taplo-lsp/src/handlers/folding_ranges.rs:142-155 | an element that does not continue the open run adds its own region folds, then exactly one comment fold from the run's first comment to its last, and closes the run |
| Folding.ElementFolds | taplo-lsp/src/handlers/folding_ranges.rs:23-118 | the folds an element adds before the comment state is flushed: closed sections for a header after content, array and string folds for a node |
| Folding.ElementFoldsRegions | taplo-lsp/src/handlers/folding_ranges.rs:23-118 | those folds are all regions |
| Folding.StepClosesRun | taplo-lsp/src/handlers/folding_ranges.rs:140-155 | an element that does not continue the open run adds its own folds, then the run's comment fold, and clears the run |
| Folding.CommentRunFolds | taplo-lsp/src/handlers/folding_ranges.rs:121-155 | a run of comments followed by an element that does not continue it yields exactly one comment fold, last, from the first comment's line to the last comment's line |
| Folding.Trailing | taplo-lsp/src/handlers/folding_ranges.rs:53-62 | the last non-header element's range, read off the element sequence: whitespace is skipped and a header clears it |
| Folding.StepTrailing | taplo-lsp/src/handlers/folding_ranges.rs:53-62 | one iteration moves the last non-header element as Folding.Trailing says |
| Folding.ScanTrailing | taplo-lsp/src/handlers/folding_ranges.rs:19-156 | after the loop, the last non-header element is the one Folding.Trailing reads off the elements |
| Folding.OpenHeadersAtEnd | taplo-lsp/src/handlers/folding_ranges.rs:158-183 | open headers are folded at the end exactly when a non-header, non-whitespace element follows the last header, each up to that element; a pending comment run is folded last |
| Symbols.EnsureNonEmptyKey | taplo-lsp/src/handlers/document_symbols.rs:147-153 | the name is never empty: an empty key becomes `''`, any other stays |
| Symbols.DigitChar | taplo-lsp/src/handlers/document_symbols.rs:111 | a decimal digit's character denotes that digit |
| Symbols.NatToString | taplo-lsp/src/handlers/document_symbols.rs:111 | an index is named by decimal digits, with no leading zero |
| Symbols.NatToStringRoundTrip | taplo-lsp/src/handlers/document_symbols.rs:111 | the decimal name of an index reads back as the index |
| Symbols.NatToStringInjective | taplo-lsp/src/handlers/document_symbols.rs:111 | distinct indices get distinct names |
| Symbols.SymbolsForValue | taplo-lsp/src/handlers/document_symbols.rs:27-145 | the recursive builder appends exactly the specification's symbols for the value |
| Symbols.SymbolsFor | taplo-lsp/src/handlers/document_symbols.rs:27-145 | the symbols one value contributes (properties in Symbols.SymbolShape, Symbols.SymbolRanges and Symbols.SelectionWithinRange) |
| Symbols.ArrayChildSymbols | taplo-lsp/src/handlers/document_symbols.rs:107-115 | the child loop builds the symbols of every item, named by its index |
| Symbols.TableChildSymbols | taplo-lsp/src/handlers/document_symbols.rs:126-140 | the child loop builds the symbols of every entry, named by its key, selecting the key |
| Symbols.CreateSymbols | taplo-lsp/src/handlers/document_symbols.rs:9-24 | the handler returns exactly the specification's symbols of the root entries in order |
| Symbols.SymbolShape | taplo-lsp/src/handlers/document_symbols.rs:48-144 | at most one symbol, none exactly for invalid and empty values; the given name; children exactly for arrays and tables; the kind per value kind |
| Symbols.SymbolRanges | taplo-lsp/src/handlers/document_symbols.rs:34-46 | without a key, range and selection are the value's own range; with a key, selection is the key and range covers key and value |
| Symbols.SelectionWithinRange | taplo-lsp/src/handlers/document_symbols.rs:34-46 | under a monotone mapper, the range contains both the selection and the value's own range |
| Dom.Cover | taplo-lsp/src/handlers/document_symbols.rs:38 | rowan's `TextRange::cover`: the range starts at the earlier start and ends at the later end of the two |
| Symbols.ProducingIndices | taplo-lsp/src/handlers/document_symbols.rs:110-112 | exactly the indices of items that produce a symbol, increasing |
| Symbols.ItemSymbolsIndexed | taplo-lsp/src/handlers/document_symbols.rs:107-115 | child k is the symbol of the k-th producing item, named by that item's index |
| Symbols.ArrayChildNames | taplo-lsp/src/handlers/document_symbols.rs:107-115 | every array child's name is the decimal index of a producing item, and no two children share a name |
| Symbols.IndicesComplete | taplo-lsp/src/handlers/document_symbols.rs:110-112 | when every item produces, the producing indices are 0 to n-1 |
| Symbols.ArrayChildrenComplete | taplo-lsp/src/handlers/document_symbols.rs:107-115 | when every item produces, child k is named `k` and spans item k |
| Symbols.TableChildren | taplo-lsp/src/handlers/document_symbols.rs:126-140 | when every entry produces, child k is named by entry k's full key and selects its key |
| Symbols.RootSymbolsShape | taplo-lsp/src/handlers/document_symbols.rs:9-24 | at most one top-level symbol per entry, each with a non-empty name and range equal to selection |
| Symbols.RootSymbolsComplete | taplo-lsp/src/handlers/document_symbols.rs:9-24 | when every entry produces, top-level symbol k is named by entry k's non-empty key |
| Handler.InvalidParams | lsp-async-stub/src/impls/native/handler.rs:92 | the error carries code -32602 and the decoder's message as data |
| Handler.Method | lsp-async-stub/src/impls/native/handler.rs:76-78 | the method name is the one the handler was made for, for either variant |
| Handler.BoxClone | lsp-async-stub/src/impls/native/handler.rs:112-114 | a clone serves the same method with the same function and decoder |
| Handler.NewRequestHandler | lsp-async-stub/src/impls/native/handler.rs:59-64 | a new request handler serves its request's method with the given function |
| Handler.NewNotificationHandler | lsp-async-stub/src/impls/native/handler.rs:134-139 | a new notification handler serves its notification's method with the given function |
| Handler.Writer.constructor | lsp-async-stub/src/impls/native/handler.rs:84 | a new writer has sent nothing |
| Handler.Writer.Send | lsp-async-stub/src/impls/native/handler.rs:91-97 | sending appends exactly one message |
| Handler.Calls | lsp-async-stub/src/impls/native/handler.rs:87-104 | the function is called at most once: never when decoding fails, otherwise with the decoded parameters |
| Handler.FromResult | lsp-async-stub/src/impls/native/handler.rs:107 | a value becomes the response's result and an error its error |
| Handler.Reply | lsp-async-stub/src/impls/native/handler.rs:86-109 | the one response a request handler sends (properties in Handler.ReplyCorrect and Handler.ReplyIsError) |
| Handler.ReplyCorrect | lsp-async-stub/src/impls/native/handler.rs:86-109 | the reply answers the request's id; a decode failure gives "Invalid params" with the decoder's message; otherwise the function's value or error |
| Handler.ReplyIsError | lsp-async-stub/src/impls/native/handler.rs:86-109 | the reply is an error exactly when decoding or the function fails, and the function runs exactly when decoding succeeds |
| Handler.HandleRequest | lsp-async-stub/src/impls/native/handler.rs:80-110 | calls the function as `Calls` says and, given a writer, sends exactly the one reply |
| Handler.HandleNotification | lsp-async-stub/src/impls/native/handler.rs:168-180 | calls the function as `Calls` says and sends nothing |
| Handler.Handle | lsp-async-stub/src/impls/native/handler.rs:9-21 | either variant: the calls made, one reply for a request, and no message for a notification |
| AllowedChars.CheckChars | taplo/src/util/mod.rs:12-26 | `Ok` exactly when no character is forbidden; otherwise the non-empty, increasing list of exactly the forbidden indices |
| AllowedChars.Comment | taplo/src/util/mod.rs:12-26 | the same, for controls other than tab |
| AllowedChars.String | taplo/src/util/mod.rs:28-46 | the same, for U+0000-U+0008, U+000A-U+001F and U+007F |
| AllowedChars.MultiLineString | taplo/src/util/mod.rs:48-68 | the same, with line feed and carriage return also allowed |
| AllowedChars.StringLiteral | taplo/src/util/mod.rs:70-84 | the same as for a comment |
| AllowedChars.MultiLineStringLiteral | taplo/src/util/mod.rs:86-100 | the same, for controls other than tab, line feed and carriage return |
| AllowedChars.ForbiddenSets | taplo/src/util/mod.rs:12-100 | tab is allowed everywhere; basic strings forbid a subset of what comments forbid, differing exactly by U+0080-U+009F; each multi-line variant allows exactly line feed and carriage return more |
| AllowedChars.StripQuotes | taplo/src/util/mod.rs:107-115 | a quoted text loses its first and last characters, and any other text is unchanged |
| AllowedChars.StripQuotesQuoted | taplo/src/util/mod.rs:107-115 | stripping a quoted text gives back the text inside the quotes |

## Left out

- Floating point: a float is its bit pattern, and parsing it is the parameter `parseF64`; no float arithmetic is modelled.
- The `chrono` and `time` date parsers and the date renderers are parameters; the four parsers are tried in the source's order.
- Key unescaping (`unescape`) is a parameter.
- Rust's `from_str_radix` is part of the standard library, not of this repository; the model states its documented behaviour: an optional sign, digits, and overflow checked against the type's bounds.
- `into_bool`, `into_u64` and the other `into_*` accessors are the `As*` accessors, since values are immutable here.
- Values.ConvertValue, Values.ConvertArray, Values.ConvertItems, Values.ConvertTable, Values.ConvertEntry, Values.ConvertEntries, Values.ConvertRoot and Values.ConvertNode require that the conversion never reaches an empty node (Values.Panics and its companions). The source panics there (taplo/src/value.rs:255). An empty node after the first failing item or entry is never reached, so it is allowed and the error is returned.
- Values.ConvertNode also excludes `Node::Key` and `Node::Entry`: both fall in the source's `_ => unreachable!()` arm (taplo/src/value.rs:186).
- The `Display` and `Error` implementations: the model keeps error causes, not their text.
- Verify: the validator is an oracle over the calls made so far. Its merging of errors (`+=`) is a free constructor.
- Verify: `Node::Entry` validation is `unimplemented!` in the source, so Verify.ValidateNode excludes it.
- Verify: the entries' keys and values are handed to the validator's `validate_string_entry` and `validate_element`, which are not part of this model; the calls are recorded instead.
- Verify: the `Spanned` implementation of the root (taplo/src/verify.rs:45-51) is not modelled. The validation never asks for the root's span; only tables and arrays set one (verify.rs:123, 261).
- Verify: the integer branch's `panic!` is unreachable, since a converted integer is signed or unsigned.
- The DOM builder (`into_dom`), the rowan syntax tree and the mapper are not part of this model. Syntax trees are datatypes, and the mapper and `join_ranges` are total functions.
- The `unwrap`s on mapper lookups are not modelled, and nor are the `u32` casts of line and character numbers; positions are unbounded.
- Folding.CreateFoldingRanges and Folding.FoldingRanges require every element to satisfy Folding.Acceptable. That excludes the inputs on which the source's `unwrap`s panic: a header that is not a node or has no child node (folding_ranges.rs:24-28), an `ARRAY` that is not a node (:69-70), and a multi-line string that is not a token (:95).
- Folding.CreateFoldingRanges: the source's single loop is split into the helper methods ScanElement, RetainHeaders, PushDescendantFolds and PushOpenHeaders; the order of updates is the same.
- Handlers: the async runtime, futures, concurrency, and a failing `send().unwrap()` are left out; a writer is an object collecting the messages.
- Handler.Reply always requires the request to carry an id, since a reply is built only to be sent. Handler.HandleRequest and Handler.Handle require an id only when there is a writer: the source's `req_id.unwrap()` panics in that case alone.
- Handler.HandleNotification: the function's output is discarded, as in the source.
- Handler registration, method dispatch and the "method not found" reply live outside these files and are not part of this model.
- AllowedChars.StripQuotes: indices are characters, not bytes; the source's byte slice needs at least two bytes and a one-byte last character, which the model requires.
- AllowedChars.StringLiteral calls the comment check, which has the same loop as the source's copy.
- Other syntax utilities in `taplo/src/util/mod.rs` (`find_node` and similar) are not part of this model.
- The JavaScript bindings and `msg_ext.rs` are not part of this model.
