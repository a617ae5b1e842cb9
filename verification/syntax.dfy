/** The concrete syntax tree the language server walks (rowan's
    `SyntaxNode` and `SyntaxToken`), reduced to what the handlers look at:
    kinds, text ranges, token text and the tree shape. */
module Syntax {
  import opened Wrappers
  import opened Dom

  /** The syntax kinds the handlers tell apart; every other kind is `Other`. */
  datatype Kind =
    | TableHeader
    | TableArrayHeader
    | Whitespace
    | Newline
    | Comment
    | Array
    | MultiLineString
    | MultiLineStringLiteral
    | Key
    | Other

  /** A node with its children in order, or a token with its text. */
  datatype Element =
    | Node(kind: Kind, range: TextRange, children: seq<Element>)
    | Token(kind: Kind, range: TextRange, text: string)

  /** `descendants_with_tokens`: the element itself, then the descendants
      of each child in order (preorder). */
  function Descendants(e: Element): (ds: seq<Element>)
    ensures |ds| >= 1 && ds[0] == e
    decreases e, 1
  {
    match e
    case Token(_, _, _) => [e]
    case Node(_, _, _) => [e] + ChildDescendants(e, 0)
  }

  /** The descendants of the children of `n` from index `i` on. */
  function ChildDescendants(n: Element, i: nat): seq<Element>
    requires n.Node? && i <= |n.children|
    decreases n, 0, |n.children| - i
  {
    if i == |n.children| then []
    else Descendants(n.children[i]) + ChildDescendants(n, i + 1)
  }

  /** `text()`: the text of every token below the element, in order. */
  function Text(e: Element): string
    decreases e, 1
  {
    match e
    case Token(_, _, t) => t
    case Node(_, _, _) => ChildText(e, 0)
  }

  function ChildText(n: Element, i: nat): string
    requires n.Node? && i <= |n.children|
    decreases n, 0, |n.children| - i
  {
    if i == |n.children| then ""
    else Text(n.children[i]) + ChildText(n, i + 1)
  }

  /** `first_child()`: the first child that is a node (tokens are skipped). */
  function FirstChildNode(cs: seq<Element>): (r: Option<Element>)
    ensures r.Some? ==> r.value.Node? && r.value in cs
    ensures r.None? <==> forall i | 0 <= i < |cs| :: cs[i].Token?
  {
    if cs == [] then None
    else if cs[0].Node? then Some(cs[0])
    else FirstChildNode(cs[1..])
  }

  /** Every element below `e` (itself included) covers some text. */
  predicate AllNonEmpty(e: Element)
  {
    forall d | d in Descendants(e) :: d.range.start < d.range.end
  }

  /** The kinds the folding handler expects of nodes and tokens: an array is
      a node, a multi-line string a token. */
  predicate WellKinded(e: Element)
  {
    forall d | d in Descendants(e) ::
      (d.kind == Array ==> d.Node?)
      && (d.kind == MultiLineString || d.kind == MultiLineStringLiteral ==> d.Token?)
  }
}
