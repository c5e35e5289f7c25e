/** Markup support for heading nodes: `h1` to `h6` in both directions. */
module HeadingHtml {
  import opened Wrappers
  import opened Dom
  import opened Nodes
  import opened Conversion

  /** The heading node's import table. */
  function ImportDom(): (r: ConversionMap)
    ensures r.Keys == {"h1", "h2", "h3", "h4", "h5", "h6"}
    ensures forall k :: k in r ==> r[k] == ConvertHeadingElement
  {
    map[
      "h1" := ConvertHeadingElement,
      "h2" := ConvertHeadingElement,
      "h3" := ConvertHeadingElement,
      "h4" := ConvertHeadingElement,
      "h5" := ConvertHeadingElement,
      "h6" := ConvertHeadingElement
    ]
  }

  /**
   * `convertHeadingElement`: one heading whose tag is the element's tag name
   * when that names a heading level; nothing for a non-element or another tag.
   */
  function ConvertHeading(dom: DomNode): (r: ConversionOutput)
    ensures r.forChild.None?
    ensures |r.nodes| <= 1
    ensures r.nodes != [] <==> dom.Element? && dom.tag in {"h1", "h2", "h3", "h4", "h5", "h6"}
    ensures r.nodes != [] ==>
      r.nodes[0].Element? && r.nodes[0].kind.Heading? && HeadingTagRaw(r.nodes[0].kind.tag) == dom.tag &&
      r.nodes[0] == NewElement(r.nodes[0].kind)
  {
    match TagName(dom)
    case Some(tagName) =>
      (match HeadingTagFromRaw(tagName)
       case Some(headingTag) => ConversionOutput(None, [CreateHeadingNode(headingTag)])
       case None => NoOutput)
    case None => NoOutput
  }

  /** `exportDOM`: an element named by the heading's tag, with no attributes. */
  function ExportDom(node: LNode): (r: DomNode)
    requires node.Element? && node.kind.Heading?
    ensures r.Element? && r.tag == HeadingTagRaw(node.kind.tag) && r.attrs == [] && r.children == []
  {
    NewDomElement(HeadingTagRaw(node.kind.tag))
  }

  /** Exporting a heading and converting the markup back gives a heading of the same level. */
  lemma HeadingRoundTrip(node: LNode)
    requires node.Element? && node.kind.Heading?
    ensures ConvertHeading(ExportDom(node)).nodes == [CreateHeadingNode(node.kind.tag)]
  {
    match node.kind.tag
    case H1 => case H2 => case H3 => case H4 => case H5 => case H6 =>
  }
}
