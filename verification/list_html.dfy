/** Markup support for list nodes: `ol` and `ul` in both directions. */
module ListHtml {
  import opened Wrappers
  import opened Strings
  import opened Dom
  import opened Nodes
  import opened Conversion

  /** The list node's import table. */
  function ImportDom(): (r: ConversionMap)
    ensures r.Keys == {"ol", "ul"} && r["ol"] == ConvertListNode && r["ul"] == ConvertListNode
  {
    map["ol" := ConvertListNode, "ul" := ConvertListNode]
  }

  /**
   * `convertListNode`: `ol` gives a numbered list and `ul` a bullet list, both
   * starting at 1 (the `start` attribute is not read); anything else, and any
   * node that is not an element, gives nothing.
   */
  function ConvertList(dom: DomNode): (r: ConversionOutput)
    ensures r.forChild.None?
    ensures !dom.Element? || dom.tag !in {"ol", "ul"} ==> r.nodes == []
    ensures dom.Element? && dom.tag == "ol" ==> r.nodes == [NewElement(List(Number, 1))]
    ensures dom.Element? && dom.tag == "ul" ==> r.nodes == [NewElement(List(Bullet, 1))]
  {
    if !dom.Element? then NoOutput
    else if dom.tag == "ol" then ConversionOutput(None, [CreateListNode(Number, 1)])
    else if dom.tag == "ul" then ConversionOutput(None, [CreateListNode(Bullet, 1)])
    else NoOutput
  }

  /** `importDOM(domNode:)`: always an empty output. */
  function ImportDomNode(dom: DomNode): (r: ConversionOutput)
    ensures r.forChild.None? && r.nodes == []
  {
    NoOutput
  }

  /** The markup a list exports to. */
  function ExportedList(node: LNode): (r: DomNode)
    requires node.Element? && node.kind.List?
  {
    Dom.Element(
      if node.kind.listType == Number then "ol" else "ul",
      if node.kind.start != 1 then [Attr("start", IntToString(node.kind.start))] else [],
      [])
  }

  /** `exportDOM`: `ol` for a numbered list, `ul` otherwise; a `start` attribute when the start is not 1. */
  method ExportDom(node: LNode) returns (dom: DomNode)
    requires node.Element? && node.kind.List?
    ensures dom == ExportedList(node)
  {
    var tag := if node.kind.listType == Number then "ol" else "ul";
    dom := NewDomElement(tag);
    if node.kind.start != 1 {
      dom := dom.(attrs := SetAttr(dom.attrs, "start", IntToString(node.kind.start)));
    }
  }

  /** The exported list carries `start` exactly when the start is not 1, and then in decimal. */
  lemma ExportedListAttributes(node: LNode)
    requires node.Element? && node.kind.List?
    requires MinInt64 <= node.kind.start <= MaxInt64
    ensures ExportedList(node).tag == "ol" <==> node.kind.listType == Number
    ensures ExportedList(node).tag == "ul" <==> node.kind.listType != Number
    ensures HasKey(ExportedList(node).attrs, "start") <==> node.kind.start != 1
    ensures node.kind.start != 1 ==> ParseInt(Get(ExportedList(node).attrs, "start")) == Some(node.kind.start as Int64)
  {
    var attrs := ExportedList(node).attrs;
    if node.kind.start != 1 {
      assert attrs[0].key == "start";
      ParseIntToString(node.kind.start);
    }
  }

  /**
   * Exporting a list and converting the markup back keeps a numbered list
   * numbered and makes every other list a bullet list, and the start is
   * reset to 1.
   */
  lemma ListRoundTrip(node: LNode)
    requires node.Element? && node.kind.List?
    ensures ConvertList(ExportedList(node)).nodes
         == [NewElement(List(if node.kind.listType == Number then Number else Bullet, 1))]
  {
  }
}
