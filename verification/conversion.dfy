/**
 * The shapes through which node kinds plug into the import engine: what a
 * converter returns, the post-processing it may ask for on descendants, and the
 * names of the converters the node kinds register.
 */
module Conversion {
  import opened Wrappers
  import opened Nodes

  /**
   * A child transform (`DOMChildConversion`). The only ones the node kinds
   * build replace a text node's style and may set one format flag; they are
   * kept here as data.
   */
  datatype ChildTransform = TextFormatTransform(style: string, flag: Option<FormatFlag>)

  /**
   * `DOMConversionOutput` without its `after` hook, which no converter sets:
   * the transform offered to descendants and the produced nodes.
   */
  datatype ConversionOutput = ConversionOutput(forChild: Option<ChildTransform>, nodes: seq<LNode>)

  const NoOutput := ConversionOutput(None, [])

  /** The converter functions the node kinds register in their import tables. */
  datatype ConverterId =
    | ConvertTextDomNode
    | ConvertBringAttentionToElement
    | ConvertTextFormatElement
    | ConvertSpanElement
    | ConvertParagraphElement
    | ConvertHeadingElement
    | ConvertBlockquoteElement
    | ConvertLineBreakElement
    | ConvertListNode
    | ConvertListItemElement
    | ConvertAnchorElement

  /** `DOMConversionMap`: tag name (or `#text`) to converter. */
  type ConversionMap = map<string, ConverterId>
}
