/** Markup support for line break nodes: `br` in both directions. */
module LineBreakHtml {
  import opened Wrappers
  import opened Dom
  import opened Nodes
  import opened Conversion

  /** The line break node's import table. */
  function ImportDom(): (r: ConversionMap)
    ensures r.Keys == {"br"} && r["br"] == ConvertLineBreakElement
  {
    map["br" := ConvertLineBreakElement]
  }

  /** `convertLineBreakElement`: one line break whatever the input, and no transform. */
  function ConvertLineBreak(dom: DomNode): (r: ConversionOutput)
    ensures r.forChild.None? && r.nodes == [LNode.LineBreak]
  {
    ConversionOutput(None, [CreateLineBreakNode()])
  }

  /** `exportDOM`: a bare `br` element. */
  function ExportDom(node: LNode): (r: DomNode)
    ensures r.Element? && r.tag == "br" && r.attrs == [] && r.children == []
  {
    NewDomElement("br")
  }
}
