/** Markup support for link nodes: `a` on import; a link exports as a `br`. */
module LinkHtml {
  import opened Wrappers
  import opened Dom
  import opened Nodes
  import opened Conversion

  /** The link node's import table. */
  function ImportDom(): (r: ConversionMap)
    ensures r.Keys == {"a"} && r["a"] == ConvertAnchorElement
  {
    map["a" := ConvertAnchorElement]
  }

  /**
   * `convertAnchorElement`: for a node named `a`, one link whose url is the
   * `href` attribute (`""` when absent); nothing for any other node.
   */
  function ConvertAnchor(dom: DomNode): (r: ConversionOutput)
    ensures r.forChild.None?
    ensures NodeName(dom) != "a" ==> r.nodes == []
    ensures NodeName(dom) == "a" ==> r.nodes == [NewElement(Link(AttributeOrEmpty(dom, "href")))]
  {
    if NodeName(dom) != "a" then NoOutput
    else ConversionOutput(None, [CreateLinkNode(AttributeOrEmpty(dom, "href"))])
  }

  /** `exportDOM`: a bare `br` element, so the url is not exported. */
  function ExportDom(node: LNode): (r: DomNode)
    ensures r.Element? && r.tag == "br" && r.attrs == [] && r.children == []
  {
    NewDomElement("br")
  }

  /** The export does not depend on the link: two links with different urls export alike. */
  lemma LinkUrlNotExported(a: LNode, b: LNode)
    requires a.Element? && a.kind.Link? && b.Element? && b.kind.Link?
    ensures ExportDom(a) == ExportDom(b)
  {
  }
}
