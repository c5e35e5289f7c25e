/** Markup support for paragraph nodes: `p` in both directions. */
module ParagraphHtml {
  import opened Wrappers
  import opened Strings
  import opened Dom
  import opened Nodes
  import opened Conversion
  import NodeStyles

  /** The paragraph node's import table. */
  function ImportDom(): (r: ConversionMap)
    ensures r.Keys == {"p"} && r["p"] == ConvertParagraphElement
  {
    map["p" := ConvertParagraphElement]
  }

  /**
   * `convertParagraphElement`: one new paragraph and no transform. The style
   * attribute is read (so it must be readable), but the indent computed from
   * it is never applied: the paragraph keeps its default indent and alignment.
   */
  function ConvertParagraph(dom: DomNode): (r: ConversionOutput)
    requires NodeStyles.StyleReadable(dom)
    ensures r.forChild.None? && r.nodes == [NewElement(Paragraph)]
  {
    var _ := NodeStyles.StylesOf(dom);
    ConversionOutput(None, [CreateParagraphNode()])
  }

  /** The markup a paragraph exports to. */
  function ExportedParagraph(node: LNode): (r: DomNode)
    requires node.Element?
    requires node.indent > 0 ==> node.indent * 40 <= MaxInt64
  {
    Dom.Element("p", if node.indent > 0 then [Attr("style", NodeStyles.IndentEntry(node.indent))] else [], [])
  }

  /**
   * `exportDOM`: a `p` element that gets a `style` attribute holding the
   * indent in pixels exactly when the indent is positive; the alignment is not
   * exported.
   */
  method ExportDom(node: LNode) returns (dom: DomNode)
    requires node.Element?
    requires node.indent > 0 ==> node.indent * 40 <= MaxInt64
    ensures dom == ExportedParagraph(node)
  {
    dom := Dom.NewDomElement("p");
    if node.indent > 0 {
      dom := dom.(attrs := SetAttr(dom.attrs, "style", NodeStyles.IndentEntry(node.indent)));
    }
  }

  /** The exported `p` has a `style` attribute exactly for a positive indent, and no other attribute. */
  lemma ExportedParagraphAttributes(node: LNode)
    requires node.Element?
    requires node.indent > 0 ==> node.indent * 40 <= MaxInt64
    ensures ExportedParagraph(node).tag == "p" && ExportedParagraph(node).children == []
    ensures HasKey(ExportedParagraph(node).attrs, "style") <==> node.indent > 0
    ensures forall k :: k != "style" ==> !HasKey(ExportedParagraph(node).attrs, k)
    ensures node.indent > 0 ==> Get(ExportedParagraph(node).attrs, "style") == NodeStyles.IndentEntry(node.indent)
    ensures ExportedParagraph(node) == ExportedParagraph(node.(format := Left))
  {
    var attrs := ExportedParagraph(node).attrs;
    if node.indent > 0 {
      assert attrs[0].key == "style";
    }
  }

  /**
   * Re-importing an exported paragraph gives a fresh paragraph: the indent
   * does not survive, since the `px` padding reads as nil and is not applied.
   */
  lemma ParagraphRoundTrip(node: LNode)
    requires node.Element? && node.kind == Paragraph
    requires node.indent > 0 ==> node.indent * 40 <= MaxInt64
    ensures NodeStyles.StyleReadable(ExportedParagraph(node))
    ensures ConvertParagraph(ExportedParagraph(node)).nodes == [NewElement(Paragraph)]
  {
    var dom := ExportedParagraph(node);
    if node.indent > 0 {
      NodeStyles.PaddingWithUnitIsNil(node.indent * 40);
      assert Get(dom.attrs, "style") == NodeStyles.IndentEntry(node.indent);
    } else {
      NodeStyles.DecodeEmpty();
    }
  }
}
