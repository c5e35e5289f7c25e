/** Markup support for quote nodes: `blockquote` in both directions. */
module QuoteHtml {
  import opened Wrappers
  import opened Dom
  import opened Nodes
  import opened Conversion

  /** The quote node's import table. */
  function ImportDom(): (r: ConversionMap)
    ensures r.Keys == {"blockquote"} && r["blockquote"] == ConvertBlockquoteElement
  {
    map["blockquote" := ConvertBlockquoteElement]
  }

  /** `convertBlockquoteElement`: one new quote whatever the element carries, and no transform. */
  function ConvertBlockquote(dom: DomNode): (r: ConversionOutput)
    ensures r.forChild.None? && r.nodes == [NewElement(Quote)]
  {
    ConversionOutput(None, [CreateQuoteNode()])
  }

  /** `exportDOM`: a bare `blockquote` element. */
  function ExportDom(node: LNode): (r: DomNode)
    ensures r.Element? && r.tag == "blockquote" && r.attrs == [] && r.children == []
  {
    NewDomElement("blockquote")
  }
}
