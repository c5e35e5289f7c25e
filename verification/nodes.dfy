/**
 * The editor's own document nodes, as values. Element nodes (root, paragraph,
 * heading, quote, list, list item, link) hold ordered children, an indent and
 * an element format; text nodes hold their text, format flags and a raw style
 * string; a line break holds nothing.
 */
module Nodes {
  import opened Wrappers

  /** `TextFormatType`: the inline format flags of a text node. */
  datatype FormatFlag = Bold | Italic | Strikethrough | Underline | Code | SubScript | SuperScript

  /** `TextFormat`: one boolean per flag. */
  datatype TextFormat = TextFormat(
    bold: bool, italic: bool, strikethrough: bool, underline: bool,
    code: bool, subScript: bool, superScript: bool)
  {
    predicate Has(flag: FormatFlag) {
      match flag
      case Bold => bold
      case Italic => italic
      case Strikethrough => strikethrough
      case Underline => underline
      case Code => code
      case SubScript => subScript
      case SuperScript => superScript
    }

    /** `updateFormat(type: flag, value: true)`: sets one flag, keeps the others. */
    function With(flag: FormatFlag): (r: TextFormat)
      ensures r.Has(flag)
      ensures forall g :: g != flag ==> r.Has(g) == Has(g)
    {
      match flag
      case Bold => this.(bold := true)
      case Italic => this.(italic := true)
      case Strikethrough => this.(strikethrough := true)
      case Underline => this.(underline := true)
      case Code => this.(code := true)
      case SubScript => this.(subScript := true)
      case SuperScript => this.(superScript := true)
    }
  }

  const NoFormat := TextFormat(false, false, false, false, false, false, false)

  /**
   * `ElementFormatType`, the alignment of an element node. Its declaration is
   * not part of this model; it is taken to have the raw values `left`,
   * `center`, `right` and `justify`.
   */
  datatype ElementFormat = Left | Center | Right | Justify

  function ElementFormatRaw(f: ElementFormat): string {
    match f
    case Left => "left"
    case Center => "center"
    case Right => "right"
    case Justify => "justify"
  }

  /** `ElementFormatType(rawValue:)`. */
  function ElementFormatFromRaw(s: string): (r: Option<ElementFormat>)
    ensures r.Some? ==> ElementFormatRaw(r.value) == s
    ensures forall f :: ElementFormatRaw(f) == s ==> r == Some(f)
  {
    if s == "left" then Some(Left)
    else if s == "center" then Some(Center)
    else if s == "right" then Some(Right)
    else if s == "justify" then Some(Justify)
    else None
  }

  /** `HeadingTagType`, taken to have the raw values `h1` to `h6`. */
  datatype HeadingTag = H1 | H2 | H3 | H4 | H5 | H6

  function HeadingTagRaw(t: HeadingTag): string {
    match t
    case H1 => "h1"
    case H2 => "h2"
    case H3 => "h3"
    case H4 => "h4"
    case H5 => "h5"
    case H6 => "h6"
  }

  /** `HeadingTagType(rawValue:)`. */
  function HeadingTagFromRaw(s: string): (r: Option<HeadingTag>)
    ensures r.Some? ==> HeadingTagRaw(r.value) == s
    ensures forall t :: HeadingTagRaw(t) == s ==> r == Some(t)
  {
    if s == "h1" then Some(H1)
    else if s == "h2" then Some(H2)
    else if s == "h3" then Some(H3)
    else if s == "h4" then Some(H4)
    else if s == "h5" then Some(H5)
    else if s == "h6" then Some(H6)
    else None
  }

  /** `ListType`. */
  datatype ListType = Bullet | Number | Check

  datatype ElementKind =
    | Root
    | Paragraph
    | Heading(tag: HeadingTag)
    | Quote
    | List(listType: ListType, start: int)
    | ListItem(value: int)
    | Link(url: string)

  datatype LNode =
    | Element(kind: ElementKind, children: seq<LNode>, indent: int, format: ElementFormat, shadowRoot: bool)
    | Text(text: string, textFormat: TextFormat, style: string)
    | LineBreak

  /** A new element node of the given kind: no children, no indent, left aligned. */
  function NewElement(kind: ElementKind): (n: LNode)
    ensures n.Element? && n.kind == kind && n.children == [] && n.indent == 0 && n.format == Left
  {
    Element(kind, [], 0, Left, false)
  }

  function CreateParagraphNode(): LNode { NewElement(Paragraph) }

  function CreateHeadingNode(tag: HeadingTag): LNode { NewElement(Heading(tag)) }

  function CreateQuoteNode(): LNode { NewElement(Quote) }

  /** `createListNode(listType:start:)`; the start defaults to 1. */
  function CreateListNode(listType: ListType, start: int): LNode { NewElement(List(listType, start)) }

  /** The value a new list item carries before any list renumbers it. */
  const DefaultListItemValue: int := 0

  function CreateListItemNode(): LNode { NewElement(ListItem(DefaultListItemValue)) }

  function CreateLinkNode(url: string): LNode { NewElement(Link(url)) }

  /** `createTextNode(text:)`: no format, empty style. */
  function CreateTextNode(text: string): LNode { Text(text, NoFormat, "") }

  function CreateLineBreakNode(): LNode { LineBreak }

  /** `ElementNode.append(_:)`: the nodes are added after the existing children, in order. */
  function Append(node: LNode, nodes: seq<LNode>): (r: LNode)
    requires node.Element?
    ensures r.Element? && r.kind == node.kind && r.indent == node.indent && r.format == node.format
    ensures r.shadowRoot == node.shadowRoot
    ensures |r.children| == |node.children| + |nodes|
    ensures r.children[..|node.children|] == node.children && r.children[|node.children|..] == nodes
  {
    node.(children := node.children + nodes)
  }
}
