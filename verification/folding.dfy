/** The folding range handler (taplo-lsp/src/handlers/folding_ranges.rs):
    one pass over the top-level elements of a document that folds table
    sections, multi-line arrays and strings, and runs of comments. */
module Folding {
  import opened Wrappers
  import opened Dom
  import opened Syntax
  import opened Lsp

  /** An open table header: its key text and the range of the header. */
  datatype Header = Header(key: string, range: TextRange)

  /** The loop's variables: the folds so far, the open comment run, whether
      the previous element continued a comment run, the open headers and the
      last element that was not a header. */
  datatype Scan = Scan(folds: seq<FoldingRange>,
                       commentsStart: Option<TextRange>,
                       lastComment: Option<TextRange>,
                       wasComment: bool,
                       headers: seq<Header>,
                       lastNonHeader: Option<TextRange>)

  const Initial := Scan([], None, None, false, [], None)

  /** An open comment run always has a start. */
  predicate Coherent(s: Scan)
  {
    s.lastComment.Some? ==> s.commentsStart.Some?
  }

  predicate IsHeader(k: Kind)
  {
    k == TableHeader || k == TableArrayHeader
  }

  /** What the handler demands of a top-level element: a header is a node
      whose first child node is its key, arrays are nodes and multi-line
      strings are tokens. */
  predicate Acceptable(e: Element)
  {
    WellKinded(e) && (IsHeader(e.kind) ==> e.Node? && FirstChildNode(e.children).Some?)
  }

  /** The key text of a header. */
  function HeaderKey(e: Element): string
    requires Acceptable(e) && IsHeader(e.kind)
  {
    Text(FirstChildNode(e.children).value)
  }

  // ------------------------------------------------------------------ folds

  /** The offset of the last character of a range (`end - 1`, or 0 for an
      empty range at the start). */
  function LastOffset(r: TextRange): nat
  {
    if r.end == 0 then 0 else r.end - 1
  }

  /** A table section: from the header's line to the line of the last
      character of the last element that was not a header. */
  function HeaderFold(pos: Mapper, h: Header, e: TextRange): FoldingRange
  {
    FoldingRange(pos(h.range.start).line, None, pos(LastOffset(e)).line, None, Region)
  }

  /** A multi-line array or string, with exact characters. */
  function SpanFold(pos: Mapper, r: TextRange): FoldingRange
  {
    var start, end := pos(r.start), pos(LastOffset(r));
    FoldingRange(start.line, Some(start.character), end.line, Some(end.character), Region)
  }

  /** A comment run: from the line of its first comment to the line of its last. */
  function CommentFold(pos: Mapper, first: TextRange, last: TextRange): FoldingRange
  {
    FoldingRange(pos(first.start).line, None, pos(last.start).line, None, CommentRegion)
  }

  /** A header `k` is closed when header `key` begins, unless `k` is a
      proper prefix of `key` (the text's `starts_with`, not a key-segment
      comparison). */
  predicate Closes(k: string, key: string)
  {
    k == key || !(k <= key)
  }

  /** The headers `retain` keeps. */
  function Kept(hs: seq<Header>, key: string): seq<Header>
    decreases |hs|
  {
    if hs == [] then []
    else
      var last := hs[|hs| - 1];
      Kept(hs[..|hs| - 1], key) + (if Closes(last.key, key) then [] else [last])
  }

  /** The folds `retain` pushes for the headers it drops, in header order. */
  function ClosedFolds(pos: Mapper, hs: seq<Header>, key: string, e: TextRange): seq<FoldingRange>
    decreases |hs|
  {
    if hs == [] then []
    else
      var last := hs[|hs| - 1];
      ClosedFolds(pos, hs[..|hs| - 1], key, e) + (if Closes(last.key, key) then [HeaderFold(pos, last, e)] else [])
  }

  /** The folds for every header still open, in order. */
  function HeaderFolds(pos: Mapper, hs: seq<Header>, e: TextRange): (fs: seq<FoldingRange>)
    ensures |fs| == |hs|
    ensures forall i | 0 <= i < |hs| :: fs[i] == HeaderFold(pos, hs[i], e)
  {
    seq(|hs|, i requires 0 <= i < |hs| => HeaderFold(pos, hs[i], e))
  }

  /** The fold one descendant contributes: a multi-line array (one with a
      newline token anywhere below it) or a multi-line string whose text
      holds a line break. */
  function DescendantFold(pos: Mapper, d: Element): seq<FoldingRange>
  {
    if d.Node? && d.kind == Array && exists t | t in Descendants(d) :: t.kind == Newline then [SpanFold(pos, d.range)]
    else if d.Token? && (d.kind == MultiLineString || d.kind == MultiLineStringLiteral) && '\n' in d.text then [SpanFold(pos, d.range)]
    else []
  }

  function DescendantFolds(pos: Mapper, ds: seq<Element>): seq<FoldingRange>
    decreases |ds|
  {
    if ds == [] then []
    else DescendantFolds(pos, ds[..|ds| - 1]) + DescendantFold(pos, ds[|ds| - 1])
  }

  // ------------------------------------------------------------------- scan

  /** The end of each iteration: remember whether this element continued a
      comment run, and when it did not, close the open run. */
  function Flush(pos: Mapper, s: Scan, isComment: bool): (r: Scan)
    requires Coherent(s)
    ensures Coherent(r)
  {
    var s1 := s.(wasComment := isComment);
    if !isComment && s1.lastComment.Some? then
      s1.(folds := s1.folds + [CommentFold(pos, s1.commentsStart.value, s1.lastComment.value)],
          commentsStart := None, lastComment := None)
    else s1
  }

  /** One iteration of the loop over the document's top-level elements. */
  function Step(pos: Mapper, s: Scan, e: Element): (r: Scan)
    requires Coherent(s) && Acceptable(e)
    ensures Coherent(r)
  {
    if IsHeader(e.kind) then
      var key := HeaderKey(e);
      var s1 :=
        if s.lastNonHeader.Some? then
          s.(folds := s.folds + ClosedFolds(pos, s.headers, key, s.lastNonHeader.value),
             headers := Kept(s.headers, key))
        else s;
      Flush(pos, s1.(headers := s1.headers + [Header(key, e.range)], lastNonHeader := None), false)
    else if e.kind == Whitespace then
      Flush(pos, s, s.wasComment)
    else
      var s1 := s.(lastNonHeader := Some(e.range));
      if e.Node? then
        Flush(pos, s1.(folds := s1.folds + DescendantFolds(pos, Descendants(e))), false)
      else if e.kind == Comment then
        Flush(pos, s1.(commentsStart := if s1.commentsStart.None? then Some(e.range) else s1.commentsStart,
                       lastComment := Some(e.range)), true)
      else if e.kind == Newline then
        Flush(pos, s1, s.wasComment && multiset(e.text)['\n'] == 1)
      else
        Flush(pos, s1, false)
  }

  function ScanAll(pos: Mapper, s: Scan, es: seq<Element>): (r: Scan)
    requires Coherent(s) && forall i | 0 <= i < |es| :: Acceptable(es[i])
    ensures Coherent(r)
    decreases |es|
  {
    if es == [] then s else ScanAll(pos, Step(pos, s, es[0]), es[1..])
  }

  /** After the loop: the open headers are folded up to the last non-header
      element, when there is one, and an open comment run is folded. */
  function Finish(pos: Mapper, s: Scan): seq<FoldingRange>
  {
    s.folds
    + (if s.lastNonHeader.Some? then HeaderFolds(pos, s.headers, s.lastNonHeader.value) else [])
    + (if s.commentsStart.Some? && s.lastComment.Some? then [CommentFold(pos, s.commentsStart.value, s.lastComment.value)] else [])
  }

  /** The folding ranges of a document whose top-level elements are `es`. */
  function FoldingRanges(pos: Mapper, es: seq<Element>): seq<FoldingRange>
    requires forall i | 0 <= i < |es| :: Acceptable(es[i])
  {
    Finish(pos, ScanAll(pos, Initial, es))
  }

  // ----------------------------------------------------------------- methods

  /** `header_starts.retain(..)`: drops every header the new key closes,
      pushing its fold, and keeps the rest in order. */
  method RetainHeaders(pos: Mapper, headers: seq<Header>, key: string, e: TextRange)
    returns (kept: seq<Header>, closed: seq<FoldingRange>)
    ensures kept == Kept(headers, key)
    ensures closed == ClosedFolds(pos, headers, key, e)
  {
    kept, closed := [], [];
    var j := 0;
    while j < |headers|
      invariant 0 <= j <= |headers|
      invariant kept == Kept(headers[..j], key)
      invariant closed == ClosedFolds(pos, headers[..j], key, e)
    {
      var h := headers[j];
      assert headers[..j + 1][..j] == headers[..j];
      if Closes(h.key, key) {
        closed := closed + [HeaderFold(pos, h, e)];
      } else {
        kept := kept + [h];
      }
      j := j + 1;
    }
    assert headers[..j] == headers;
  }

  lemma DescendantFoldsStep(pos: Mapper, ds: seq<Element>, j: nat)
    requires j < |ds|
    ensures DescendantFolds(pos, ds[..j + 1]) == DescendantFolds(pos, ds[..j]) + DescendantFold(pos, ds[j])
  {
    assert ds[..j + 1][..j] == ds[..j];
  }

  /** The loop over `n.descendants_with_tokens()`. */
  method PushDescendantFolds(pos: Mapper, folds: seq<FoldingRange>, n: Element)
    returns (folds': seq<FoldingRange>)
    ensures folds' == folds + DescendantFolds(pos, Descendants(n))
  {
    var ds := Descendants(n);
    folds' := folds;
    var j := 0;
    while j < |ds|
      invariant 0 <= j <= |ds|
      invariant folds' == folds + DescendantFolds(pos, ds[..j])
    {
      DescendantFoldsStep(pos, ds, j);
      folds' := folds' + DescendantFold(pos, ds[j]);
      j := j + 1;
    }
    assert ds[..j] == ds;
  }

  /** One iteration of the loop in `create_folding_ranges`: the element's
      effect on the loop's variables. */
  method ScanElement(pos: Mapper, folds: seq<FoldingRange>, commentsStart: Option<TextRange>,
                     lastComment: Option<TextRange>, wasComment: bool, headerStarts: seq<Header>,
                     lastNonHeader: Option<TextRange>, element: Element)
    returns (folds': seq<FoldingRange>, commentsStart': Option<TextRange>,
             lastComment': Option<TextRange>, wasComment': bool, headerStarts': seq<Header>,
             lastNonHeader': Option<TextRange>)
    requires Coherent(Scan(folds, commentsStart, lastComment, wasComment, headerStarts, lastNonHeader))
    requires Acceptable(element)
    ensures Scan(folds', commentsStart', lastComment', wasComment', headerStarts', lastNonHeader')
            == Step(pos, Scan(folds, commentsStart, lastComment, wasComment, headerStarts, lastNonHeader), element)
  {
    folds', commentsStart', lastComment', headerStarts', lastNonHeader' :=
      folds, commentsStart, lastComment, headerStarts, lastNonHeader;
    var isComment := false;

    if IsHeader(element.kind) {
      var key := HeaderKey(element);
      if lastNonHeader'.Some? {
        var closed;
        headerStarts', closed := RetainHeaders(pos, headerStarts', key, lastNonHeader'.value);
        folds' := folds' + closed;
      }
      headerStarts' := headerStarts' + [Header(key, element.range)];
      lastNonHeader' := None;
    } else if element.kind == Whitespace {
      if wasComment {
        isComment := true;
      }
    } else {
      lastNonHeader' := Some(element.range);
      if element.Node? {
        folds' := PushDescendantFolds(pos, folds', element);
      } else if element.kind == Comment {
        if commentsStart'.None? {
          commentsStart' := Some(element.range);
        }
        lastComment' := Some(element.range);
        isComment := true;
      } else if element.kind == Newline {
        if wasComment && multiset(element.text)['\n'] == 1 {
          isComment := true;
        }
      }
    }

    wasComment' := isComment;

    if !isComment && lastComment'.Some? {
      folds' := folds' + [CommentFold(pos, commentsStart'.value, lastComment'.value)];
      commentsStart' := None;
      lastComment' := None;
    }
  }

  /** The loop over the headers still open at the end. */
  method PushOpenHeaders(pos: Mapper, folds: seq<FoldingRange>, headerStarts: seq<Header>, e: TextRange)
    returns (folds': seq<FoldingRange>)
    ensures folds' == folds + HeaderFolds(pos, headerStarts, e)
  {
    folds' := folds;
    var j := 0;
    while j < |headerStarts|
      invariant 0 <= j <= |headerStarts|
      invariant folds' == folds + HeaderFolds(pos, headerStarts[..j], e)
    {
      assert HeaderFolds(pos, headerStarts[..j + 1], e) == HeaderFolds(pos, headerStarts[..j], e) + [HeaderFold(pos, headerStarts[j], e)];
      folds' := folds' + [HeaderFold(pos, headerStarts[j], e)];
      j := j + 1;
    }
    assert headerStarts[..j] == headerStarts;
  }

  /** `create_folding_ranges`: the single pass over the top-level elements,
      then the headers and the comment run left open at the end. */
  method CreateFoldingRanges(pos: Mapper, elements: seq<Element>) returns (foldingRanges: seq<FoldingRange>)
    requires forall i | 0 <= i < |elements| :: Acceptable(elements[i])
    ensures foldingRanges == FoldingRanges(pos, elements)
  {
    foldingRanges := [];
    var commentsStart: Option<TextRange> := None;
    var lastComment: Option<TextRange> := None;
    var wasComment := false;
    var headerStarts: seq<Header> := [];
    var lastNonHeader: Option<TextRange> := None;

    var i := 0;
    while i < |elements|
      invariant 0 <= i <= |elements|
      invariant Coherent(Scan(foldingRanges, commentsStart, lastComment, wasComment, headerStarts, lastNonHeader))
      invariant ScanAll(pos, Initial, elements) ==
                ScanAll(pos, Scan(foldingRanges, commentsStart, lastComment, wasComment, headerStarts, lastNonHeader), elements[i..])
    {
      assert elements[i..][0] == elements[i] && elements[i..][1..] == elements[i + 1..];
      foldingRanges, commentsStart, lastComment, wasComment, headerStarts, lastNonHeader :=
        ScanElement(pos, foldingRanges, commentsStart, lastComment, wasComment, headerStarts, lastNonHeader, elements[i]);
      i := i + 1;
    }
    assert elements[i..] == [];

    if lastNonHeader.Some? {
      foldingRanges := PushOpenHeaders(pos, foldingRanges, headerStarts, lastNonHeader.value);
    }

    if commentsStart.Some? {
      if lastComment.Some? {
        foldingRanges := foldingRanges + [CommentFold(pos, commentsStart.value, lastComment.value)];
      }
    }
  }

  // ------------------------------------------------------------------ lemmas

  /** The headers of `hs` that key `key` closes (`closing`) or keeps open
      (`!closing`), in their order in `hs`. */
  function Select(hs: seq<Header>, key: string, closing: bool): seq<Header>
    decreases |hs|
  {
    if hs == [] then []
    else (if Closes(hs[0].key, key) == closing then [hs[0]] else []) + Select(hs[1..], key, closing)
  }

  lemma {:induction false} SelectSnoc(hs: seq<Header>, h: Header, key: string, closing: bool)
    ensures Select(hs + [h], key, closing) ==
            Select(hs, key, closing) + (if Closes(h.key, key) == closing then [h] else [])
    decreases |hs|
  {
    if hs == [] {
      assert ([] + [h])[1..] == [];
    } else {
      assert (hs + [h])[1..] == hs[1..] + [h];
      SelectSnoc(hs[1..], h, key, closing);
    }
  }

  /** `retain` splits the open headers exactly: the kept ones are those
      whose key is a proper prefix of the new key, in their stack order, and
      the folds are one per other header, in stack order. */
  lemma {:induction false} RetainSelects(pos: Mapper, hs: seq<Header>, key: string, e: TextRange)
    ensures Kept(hs, key) == Select(hs, key, false)
    ensures ClosedFolds(pos, hs, key, e) == HeaderFolds(pos, Select(hs, key, true), e)
    decreases |hs|
  {
    if hs != [] {
      var init, last := hs[..|hs| - 1], hs[|hs| - 1];
      RetainSelects(pos, init, key, e);
      assert hs == init + [last];
      SelectSnoc(init, last, key, false);
      SelectSnoc(init, last, key, true);
      var closed := Select(init, key, true);
      if Closes(last.key, key) {
        assert HeaderFolds(pos, closed + [last], e) == HeaderFolds(pos, closed, e) + [HeaderFold(pos, last, e)];
      }
    }
  }

  /** What the split means for single headers: a header is kept exactly
      when its key is a proper prefix of the new key, no header is lost,
      and every fold belongs to a closing header. */
  lemma {:induction false} RetainCorrect(pos: Mapper, hs: seq<Header>, key: string, e: TextRange)
    ensures forall h | h in Kept(hs, key) :: h in hs && h.key != key && h.key <= key
    ensures forall h | h in hs && h.key != key && h.key <= key :: h in Kept(hs, key)
    ensures |Kept(hs, key)| + |ClosedFolds(pos, hs, key, e)| == |hs|
    ensures forall f | f in ClosedFolds(pos, hs, key, e) ::
              exists h | h in hs :: Closes(h.key, key) && f == HeaderFold(pos, h, e)
    decreases |hs|
  {
    if hs != [] {
      var init := hs[..|hs| - 1];
      RetainCorrect(pos, init, key, e);
      assert hs == init + [hs[|hs| - 1]];
    }
  }

  /** The line of an offset never decreases as the offset grows. */
  ghost predicate Monotone(pos: Mapper)
  {
    forall a: nat, b: nat | a <= b :: pos(a).line <= pos(b).line
  }

  predicate Ordered(f: FoldingRange)
  {
    f.startLine <= f.endLine
  }

  /** The top-level elements follow one another in the text. */
  predicate InOrder(es: seq<Element>)
  {
    forall i | 0 <= i < |es| - 1 :: es[i].range.end <= es[i + 1].range.start
  }

  /** What the scan keeps true when every element seen so far ends at or
      before `limit`: its folds are ordered, a comment run is open with both
      ends or not at all and starts no later than its last comment, and every open header starts before
      `limit` and before the end of the last non-header element. */
  predicate Inv(s: Scan, limit: nat)
  {
    && (forall f | f in s.folds :: Ordered(f))
    && Coherent(s)
    && (s.commentsStart.Some? ==> s.lastComment.Some?)
    && (s.lastComment.Some? ==>
          s.commentsStart.value.start <= s.lastComment.value.start < limit)
    && (forall h | h in s.headers :: h.range.start < limit)
    && (s.lastNonHeader.Some? ==>
          forall h | h in s.headers :: h.range.start < s.lastNonHeader.value.end)
  }

  lemma DescendantFoldsOrdered(pos: Mapper, ds: seq<Element>)
    requires Monotone(pos)
    requires forall d | d in ds :: d.range.start < d.range.end
    ensures forall f | f in DescendantFolds(pos, ds) :: Ordered(f)
    decreases |ds|
  {
    if ds != [] {
      DescendantFoldsOrdered(pos, ds[..|ds| - 1]);
      var d := ds[|ds| - 1];
      assert d in ds;
      assert pos(d.range.start).line <= pos(LastOffset(d.range)).line;
    }
  }

  lemma ClosedFoldsOrdered(pos: Mapper, hs: seq<Header>, key: string, e: TextRange)
    requires Monotone(pos)
    requires forall h | h in hs :: h.range.start < e.end
    ensures forall f | f in ClosedFolds(pos, hs, key, e) :: Ordered(f)
  {
    RetainCorrect(pos, hs, key, e);
    forall f | f in ClosedFolds(pos, hs, key, e) ensures Ordered(f) {
      var h :| h in hs && Closes(h.key, key) && f == HeaderFold(pos, h, e);
      assert pos(h.range.start).line <= pos(LastOffset(e)).line;
    }
  }

  lemma FlushInv(pos: Mapper, s: Scan, isComment: bool, limit: nat)
    requires Monotone(pos) && Inv(s, limit)
    ensures Inv(Flush(pos, s, isComment), limit)
  {
    if !isComment && s.lastComment.Some? {
      assert pos(s.commentsStart.value.start).line <= pos(s.lastComment.value.start).line;
    }
  }

  /** One iteration keeps the invariant, moving `limit` to the element's end. */
  lemma StepInv(pos: Mapper, s: Scan, e: Element, limit: nat)
    requires Monotone(pos) && Inv(s, limit) && Acceptable(e) && AllNonEmpty(e)
    requires limit <= e.range.start
    ensures Inv(Step(pos, s, e), e.range.end)
  {
    assert e in Descendants(e);
    if IsHeader(e.kind) {
      var key := HeaderKey(e);
      var s1 :=
        if s.lastNonHeader.Some? then
          s.(folds := s.folds + ClosedFolds(pos, s.headers, key, s.lastNonHeader.value),
             headers := Kept(s.headers, key))
        else s;
      if s.lastNonHeader.Some? {
        ClosedFoldsOrdered(pos, s.headers, key, s.lastNonHeader.value);
        RetainCorrect(pos, s.headers, key, s.lastNonHeader.value);
      }
      FlushInv(pos, s1.(headers := s1.headers + [Header(key, e.range)], lastNonHeader := None), false, e.range.end);
    } else if e.kind == Whitespace {
      FlushInv(pos, s, s.wasComment, e.range.end);
    } else {
      var s1 := s.(lastNonHeader := Some(e.range));
      if e.Node? {
        DescendantFoldsOrdered(pos, Descendants(e));
        FlushInv(pos, s1.(folds := s1.folds + DescendantFolds(pos, Descendants(e))), false, e.range.end);
      } else if e.kind == Comment {
        FlushInv(pos, s1.(commentsStart := if s1.commentsStart.None? then Some(e.range) else s1.commentsStart,
                          lastComment := Some(e.range)), true, e.range.end);
      } else if e.kind == Newline {
        FlushInv(pos, s1, s.wasComment && multiset(e.text)['\n'] == 1, e.range.end);
      } else {
        FlushInv(pos, s1, false, e.range.end);
      }
    }
  }

  lemma {:induction false} ScanAllInv(pos: Mapper, s: Scan, es: seq<Element>, limit: nat)
    requires Monotone(pos) && Inv(s, limit)
    requires forall i | 0 <= i < |es| :: Acceptable(es[i]) && AllNonEmpty(es[i])
    requires InOrder(es) && (es != [] ==> limit <= es[0].range.start)
    ensures exists limit' :: Inv(ScanAll(pos, s, es), limit')
    decreases |es|
  {
    if es == [] {
      assert Inv(ScanAll(pos, s, es), limit);
    } else {
      StepInv(pos, s, es[0], limit);
      assert forall i | 0 <= i < |es[1..]| :: es[1..][i] == es[i + 1];
      assert es[1..] != [] ==> es[0].range.end <= es[1..][0].range.start;
      ScanAllInv(pos, Step(pos, s, es[0]), es[1..], es[0].range.end);
      assert ScanAll(pos, s, es) == ScanAll(pos, Step(pos, s, es[0]), es[1..]);
    }
  }

  /** With a mapper whose lines grow with the offset and elements that are
      non-empty and in document order, every folding range starts on or
      before the line it ends on. */
  lemma FoldingRangesOrdered(pos: Mapper, es: seq<Element>)
    requires Monotone(pos)
    requires forall i | 0 <= i < |es| :: Acceptable(es[i]) && AllNonEmpty(es[i])
    requires InOrder(es)
    ensures forall f | f in FoldingRanges(pos, es) :: Ordered(f)
  {
    ScanAllInv(pos, Initial, es, 0);
    var s := ScanAll(pos, Initial, es);
    var limit :| Inv(s, limit);
    if s.lastNonHeader.Some? {
      forall h | h in s.headers ensures Ordered(HeaderFold(pos, h, s.lastNonHeader.value)) {
        assert pos(h.range.start).line <= pos(LastOffset(s.lastNonHeader.value)).line;
      }
    }
    if s.commentsStart.Some? && s.lastComment.Some? {
      assert pos(s.commentsStart.value.start).line <= pos(s.lastComment.value.start).line;
    }
  }

  /** A header step that closes sections leaves open only the headers whose
      keys are proper prefixes of the new key, followed by the new header. */
  lemma HeaderStepNesting(pos: Mapper, s: Scan, e: Element)
    requires Coherent(s) && Acceptable(e) && IsHeader(e.kind) && s.lastNonHeader.Some?
    ensures var r := Step(pos, s, e);
            && |r.headers| >= 1
            && r.headers[|r.headers| - 1] == Header(HeaderKey(e), e.range)
            && r.lastNonHeader.None?
            && (forall i | 0 <= i < |r.headers| - 1 ::
                  r.headers[i].key != HeaderKey(e) && r.headers[i].key <= HeaderKey(e))
  {
    var key := HeaderKey(e);
    RetainCorrect(pos, s.headers, key, s.lastNonHeader.value);
    var kept := Kept(s.headers, key);
    var r := Step(pos, s, e);
    assert r.headers == kept + [Header(key, e.range)];
    forall i | 0 <= i < |r.headers| - 1 ensures r.headers[i].key != key && r.headers[i].key <= key {
      assert r.headers[i] == kept[i] && kept[i] in kept;
    }
  }

  /** A header that follows another header with no non-header element in
      between closes nothing: it is pushed onto the open headers, and the
      only fold it can add is that of a pending comment run. */
  lemma HeaderAfterHeader(pos: Mapper, s: Scan, e: Element)
    requires Coherent(s) && Acceptable(e) && IsHeader(e.kind) && s.lastNonHeader.None?
    ensures var r := Step(pos, s, e);
            && r.headers == s.headers + [Header(HeaderKey(e), e.range)]
            && r.lastNonHeader.None?
            && r.folds == s.folds + (if s.lastComment.Some?
                                     then [CommentFold(pos, s.commentsStart.value, s.lastComment.value)]
                                     else [])
            && r.lastComment.None? && !r.wasComment
  {
  }

  /** The section check compares text, not key segments: a header `[ab]`
      does not close the section of `[a]`, because "a" is a prefix of "ab". */
  lemma TextualPrefix(pos: Mapper, e: TextRange, ra: TextRange)
    ensures Kept([Header("a", ra)], "ab") == [Header("a", ra)]
    ensures ClosedFolds(pos, [Header("a", ra)], "ab", e) == []
  {
    assert "a" <= "ab";
    assert [Header("a", ra)][..0] == [];
  }

  // ------------------------------------------------ folds over the document

  /** A step only appends folds: none is changed or removed. */
  lemma StepExtends(pos: Mapper, s: Scan, e: Element)
    requires Coherent(s) && Acceptable(e)
    ensures s.folds <= Step(pos, s, e).folds
  {
  }

  /** Scanning a document in two parts is scanning the first part, then the
      second from where the first left off. */
  lemma {:induction false} ScanAllSplit(pos: Mapper, s: Scan, a: seq<Element>, b: seq<Element>)
    requires Coherent(s)
    requires forall i | 0 <= i < |a| :: Acceptable(a[i])
    requires forall i | 0 <= i < |b| :: Acceptable(b[i])
    ensures forall i | 0 <= i < |a + b| :: Acceptable((a + b)[i])
    ensures ScanAll(pos, s, a + b) == ScanAll(pos, ScanAll(pos, s, a), b)
    decreases |a|
  {
    assert forall i | 0 <= i < |a + b| :: (a + b)[i] == if i < |a| then a[i] else b[i - |a|];
    if a == [] {
      assert a + b == b;
    } else {
      assert (a + b)[0] == a[0] && (a + b)[1..] == a[1..] + b;
      ScanAllSplit(pos, Step(pos, s, a[0]), a[1..], b);
    }
  }

  /** The scan only appends folds. */
  lemma {:induction false} ScanAllExtends(pos: Mapper, s: Scan, es: seq<Element>)
    requires Coherent(s) && forall i | 0 <= i < |es| :: Acceptable(es[i])
    ensures s.folds <= ScanAll(pos, s, es).folds
    decreases |es|
  {
    if es != [] {
      StepExtends(pos, s, es[0]);
      ScanAllExtends(pos, Step(pos, s, es[0]), es[1..]);
    }
  }

  /** A fold produced while scanning a prefix of the document is never
      retracted: it is among the document's folding ranges, in place. */
  lemma FoldsNeverRetracted(pos: Mapper, es: seq<Element>, i: nat)
    requires i <= |es| && forall j | 0 <= j < |es| :: Acceptable(es[j])
    ensures forall j | 0 <= j < i :: Acceptable(es[j])
    ensures ScanAll(pos, Initial, es[..i]).folds <= FoldingRanges(pos, es)
  {
    assert es == es[..i] + es[i..];
    ScanAllSplit(pos, Initial, es[..i], es[i..]);
    ScanAllExtends(pos, ScanAll(pos, Initial, es[..i]), es[i..]);
  }

  /** An element that continues a comment run: whitespace, another comment,
      or a line break of a single newline. */
  predicate ContinuesRun(e: Element)
  {
    e.kind == Whitespace || (e.Token? && (e.kind == Comment || (e.kind == Newline && multiset(e.text)['\n'] == 1)))
  }

  /** The range of the last comment token in `es`, if any. */
  function LastComment(es: seq<Element>): Option<TextRange>
    decreases |es|
  {
    if es == [] then None
    else if LastComment(es[1..]).Some? then LastComment(es[1..])
    else if es[0].Token? && es[0].kind == Comment then Some(es[0].range)
    else None
  }

  /** Inside a comment run nothing is folded and the run's start is kept,
      while its end moves to the latest comment. */
  lemma {:induction false} RunScan(pos: Mapper, s: Scan, es: seq<Element>)
    requires Coherent(s) && s.wasComment && s.lastComment.Some?
    requires forall i | 0 <= i < |es| :: Acceptable(es[i]) && ContinuesRun(es[i])
    ensures var r := ScanAll(pos, s, es);
            && r.folds == s.folds && r.headers == s.headers
            && r.wasComment && r.commentsStart == s.commentsStart
            && r.lastComment == (if LastComment(es).Some? then LastComment(es) else s.lastComment)
    decreases |es|
  {
    if es != [] {
      RunScan(pos, Step(pos, s, es[0]), es[1..]);
    }
  }

  predicate IsRegion(f: FoldingRange)
  {
    f.kind == Region
  }

  lemma DescendantFoldsRegions(pos: Mapper, ds: seq<Element>)
    ensures forall f | f in DescendantFolds(pos, ds) :: IsRegion(f)
    decreases |ds|
  {
    if ds != [] {
      DescendantFoldsRegions(pos, ds[..|ds| - 1]);
    }
  }

  lemma ClosedFoldsRegions(pos: Mapper, hs: seq<Header>, key: string, e: TextRange)
    ensures forall f | f in ClosedFolds(pos, hs, key, e) :: IsRegion(f)
  {
    RetainSelects(pos, hs, key, e);
  }

  /** A comment that starts a run opens it. */
  lemma RunOpens(pos: Mapper, s: Scan, c: Element)
    requires Coherent(s) && s.lastComment.None? && s.commentsStart.None?
    requires Acceptable(c) && c.Token? && c.kind == Comment
    ensures var r := Step(pos, s, c);
            && r.folds == s.folds && r.wasComment
            && r.commentsStart == Some(c.range) && r.lastComment == Some(c.range)
  {
  }

  /** The region folds an element adds before the comment state is
      flushed: closed sections for a header that follows content, array
      and string folds for a node, nothing otherwise. */
  function ElementFolds(pos: Mapper, s: Scan, e: Element): seq<FoldingRange>
    requires Acceptable(e)
  {
    if IsHeader(e.kind) then
      if s.lastNonHeader.Some? then ClosedFolds(pos, s.headers, HeaderKey(e), s.lastNonHeader.value) else []
    else if e.kind != Whitespace && e.Node? then DescendantFolds(pos, Descendants(e))
    else []
  }

  lemma ElementFoldsRegions(pos: Mapper, s: Scan, e: Element)
    requires Acceptable(e)
    ensures forall f | f in ElementFolds(pos, s, e) :: IsRegion(f)
  {
    if IsHeader(e.kind) {
      if s.lastNonHeader.Some? {
        ClosedFoldsRegions(pos, s.headers, HeaderKey(e), s.lastNonHeader.value);
      }
    } else if e.kind != Whitespace && e.Node? {
      DescendantFoldsRegions(pos, Descendants(e));
    }
  }

  /** A step on an element that does not continue the open run: the
      element's own folds, then the run's comment fold. */
  lemma StepClosesRun(pos: Mapper, s: Scan, e: Element)
    requires Coherent(s) && s.lastComment.Some?
    requires Acceptable(e) && !ContinuesRun(e)
    ensures var r := Step(pos, s, e);
            && r.folds == s.folds + ElementFolds(pos, s, e)
                          + [CommentFold(pos, s.commentsStart.value, s.lastComment.value)]
            && r.commentsStart.None? && r.lastComment.None?
  {
  }

  lemma AppendShape(a: seq<FoldingRange>, mid: seq<FoldingRange>, x: FoldingRange, r: seq<FoldingRange>)
    requires r == a + mid + [x]
    ensures a <= r && |r| > |a| && r[|r| - 1] == x
    ensures forall k | |a| <= k < |r| - 1 :: r[k] in mid
  {
    forall k | |a| <= k < |r| - 1 ensures r[k] in mid {
      assert r[k] == mid[k - |a|];
    }
  }

  /** An element that does not continue an open run closes it with one
      comment fold, after the region folds the element itself adds. */
  lemma RunCloses(pos: Mapper, s: Scan, e: Element)
    requires Coherent(s) && s.lastComment.Some?
    requires Acceptable(e) && !ContinuesRun(e)
    ensures var r := Step(pos, s, e);
            && s.folds <= r.folds && |r.folds| > |s.folds|
            && r.folds[|r.folds| - 1] == CommentFold(pos, s.commentsStart.value, s.lastComment.value)
            && (forall k | |s.folds| <= k < |r.folds| - 1 :: IsRegion(r.folds[k]))
            && r.commentsStart.None? && r.lastComment.None?
  {
    var r := Step(pos, s, e);
    var mid := ElementFolds(pos, s, e);
    StepClosesRun(pos, s, e);
    ElementFoldsRegions(pos, s, e);
    AppendShape(s.folds, mid, CommentFold(pos, s.commentsStart.value, s.lastComment.value), r.folds);
  }

  /** The element after a run of comments (each separated by no more than
      one line break) closes the run when it does not continue it: exactly
      one comment fold is added, last, from the line of the run's first
      comment to the line of its last, and any other fold the element adds
      is a region. */
  lemma CommentRunFolds(pos: Mapper, s: Scan, run: seq<Element>, e: Element)
    requires Coherent(s) && s.lastComment.None? && s.commentsStart.None?
    requires run != [] && run[0].Token? && run[0].kind == Comment
    requires forall i | 0 <= i < |run| :: Acceptable(run[i]) && ContinuesRun(run[i])
    requires Acceptable(e) && !ContinuesRun(e)
    ensures forall i | 0 <= i < |run + [e]| :: Acceptable((run + [e])[i])
    ensures LastComment(run).Some?
    ensures var r := ScanAll(pos, s, run + [e]);
            && s.folds <= r.folds && |r.folds| > |s.folds|
            && r.folds[|r.folds| - 1] == CommentFold(pos, run[0].range, LastComment(run).value)
            && (forall k | |s.folds| <= k < |r.folds| - 1 :: IsRegion(r.folds[k]))
            && r.commentsStart.None? && r.lastComment.None?
  {
    ScanAllSplit(pos, s, run, [e]);
    var s0 := Step(pos, s, run[0]);
    RunOpens(pos, s, run[0]);
    assert ScanAll(pos, s, run) == ScanAll(pos, s0, run[1..]);
    RunScan(pos, s0, run[1..]);
    var m := ScanAll(pos, s, run);
    assert ScanAll(pos, m, [e]) == Step(pos, m, e);
    RunCloses(pos, m, e);
  }

  /** The last non-header element's range after scanning `es` from a state
      whose last non-header element was `init`: whitespace is skipped, a
      header clears it, anything else sets it. */
  function Trailing(init: Option<TextRange>, es: seq<Element>): Option<TextRange>
    decreases |es|
  {
    if es == [] then init
    else
      var e := es[|es| - 1];
      if IsHeader(e.kind) then None
      else if e.kind == Whitespace then Trailing(init, es[..|es| - 1])
      else Some(e.range)
  }

  /** A step's effect on the last non-header element. */
  lemma StepTrailing(pos: Mapper, s: Scan, e: Element)
    requires Coherent(s) && Acceptable(e)
    ensures Step(pos, s, e).lastNonHeader == Trailing(s.lastNonHeader, [e])
  {
    assert [e][..0] == [];
  }

  lemma {:induction false} ScanTrailing(pos: Mapper, s: Scan, es: seq<Element>)
    requires Coherent(s) && forall i | 0 <= i < |es| :: Acceptable(es[i])
    ensures ScanAll(pos, s, es).lastNonHeader == Trailing(s.lastNonHeader, es)
    decreases |es|
  {
    if es != [] {
      var init, e := es[..|es| - 1], es[|es| - 1];
      assert es == init + [e];
      ScanAllSplit(pos, s, init, [e]);
      ScanTrailing(pos, s, init);
      var m := ScanAll(pos, s, init);
      assert ScanAll(pos, m, [e]) == Step(pos, m, e);
      StepTrailing(pos, m, e);
    }
  }

  /** At the end, the headers still open are folded only when some
      non-header element follows the last header; then each folds up to
      the last such element. A pending comment run is folded last. */
  lemma OpenHeadersAtEnd(pos: Mapper, es: seq<Element>)
    requires forall i | 0 <= i < |es| :: Acceptable(es[i])
    ensures var s, t := ScanAll(pos, Initial, es), Trailing(None, es);
            var pending := if s.lastComment.Some? then [CommentFold(pos, s.commentsStart.value, s.lastComment.value)] else [];
            && (t.None? ==> FoldingRanges(pos, es) == s.folds + pending)
            && (t.Some? ==> FoldingRanges(pos, es) == s.folds + HeaderFolds(pos, s.headers, t.value) + pending)
  {
    ScanTrailing(pos, Initial, es);
  }
}
