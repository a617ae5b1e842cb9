/** The Language Server Protocol types the handlers produce (the
    `lsp_types` crate), with line and character numbers unbounded. */
module Lsp {
  import opened Wrappers

  /** A zero-based line and character offset. */
  datatype Position = Position(line: nat, character: nat)

  datatype LspRange = LspRange(start: Position, end: Position)

  /** Document order on positions: by line, then by character. */
  predicate PosLe(a: Position, b: Position)
  {
    a.line < b.line || (a.line == b.line && a.character <= b.character)
  }

  /** `inner` lies within `outer`. */
  predicate Contains(outer: LspRange, inner: LspRange)
  {
    PosLe(outer.start, inner.start) && PosLe(inner.end, outer.end)
  }

  datatype FoldingKind = Region | CommentRegion

  /** A foldable region; the characters are given only where the fold
      starts and ends mid-line. */
  datatype FoldingRange = FoldingRange(startLine: nat, startCharacter: Option<nat>,
                                       endLine: nat, endCharacter: Option<nat>,
                                       kind: FoldingKind)

  /** The symbol kinds the document symbol handler uses. */
  datatype SymbolKind = SymBoolean | SymString | SymNumber | SymField | SymArray | SymObject

  /** A document symbol: its name, kind, the range it covers, the range to
      select when it is picked, and its children. */
  datatype DocumentSymbol = DocumentSymbol(name: string, kind: SymbolKind,
                                           range: LspRange, selectionRange: LspRange,
                                           children: Option<seq<DocumentSymbol>>)

  /** The text-offset to position mapper, as a total map. */
  type Mapper = nat -> Position
}
