/**
 * Markup support for list item nodes: `li` in both directions, with the
 * indent and the alignment carried in the `style` attribute.
 */
module ListItemHtml {
  import opened Wrappers
  import opened Strings
  import opened Dom
  import opened Nodes
  import opened Conversion
  import NodeStyles

  /** The list item node's import table. */
  function ImportDom(): (r: ConversionMap)
    ensures r.Keys == {"li"} && r["li"] == ConvertListItemElement
  {
    map["li" := ConvertListItemElement]
  }

  /** The indent read from a style: the padding divided by 40 (truncating), 0 when the padding is nil. */
  function IndentOfStyle(style: NodeStyles.NodeStyle): (r: int)
    ensures style.paddingInlineState.None? ==> r == 0
    ensures var p := style.paddingInlineState.GetOr(0);
            (p >= 0 ==> 0 <= r && r * 40 <= p < r * 40 + 40) && (p < 0 ==> r <= 0 && r * 40 - 40 < p <= r * 40)
  {
    TruncDiv(style.paddingInlineState.GetOr(0), 40)
  }

  /** The alignment read from a style: the format of the same name, `.left` when there is none. */
  function FormatOfAlign(align: NodeStyles.TextAlign): (f: ElementFormat)
    ensures ElementFormatFromRaw(NodeStyles.TextAlignRaw(align)).Some? ==> ElementFormatRaw(f) == NodeStyles.TextAlignRaw(align)
    ensures ElementFormatFromRaw(NodeStyles.TextAlignRaw(align)).None? ==> f == Left
  {
    ElementFormatFromRaw(NodeStyles.TextAlignRaw(align)).GetOr(Left)
  }

  /**
   * `convertListItemElement`: one new list item and no transform. For an
   * element, the indent is the padding over 40 and, when the style names an
   * alignment, the format is the matching one (or `.left`); the `value`
   * attribute is not read.
   */
  function ConvertListItem(dom: DomNode): (r: ConversionOutput)
    requires NodeStyles.StyleReadable(dom)
    ensures r.forChild.None? && |r.nodes| == 1
    ensures r.nodes[0].Element? && r.nodes[0].kind == ListItem(DefaultListItemValue) && r.nodes[0].children == []
    ensures !dom.Element? ==> r.nodes[0] == NewElement(ListItem(DefaultListItemValue))
    ensures dom.Element? ==>
      var style := NodeStyles.Decode(Get(dom.attrs, "style"));
      r.nodes[0].indent == IndentOfStyle(style) &&
      r.nodes[0].format == (if style.textAlign.Some? then FormatOfAlign(style.textAlign.value) else Left)
  {
    var node := CreateListItemNode();
    match NodeStyles.StylesOf(dom)
    case Some(style) =>
      var indented := node.(indent := IndentOfStyle(style));
      var aligned := if style.textAlign.Some? then indented.(format := FormatOfAlign(style.textAlign.value)) else indented;
      ConversionOutput(None, [aligned])
    case None => ConversionOutput(None, [node])
  }

  /** The `style` parts a list item exports, in this order: the padding, then the alignment. */
  function StyleParts(node: LNode): (r: seq<string>)
    requires node.Element?
    requires node.indent > 0 ==> node.indent * 40 <= MaxInt64
    ensures r == [] <==> node.indent <= 0 && node.format == Left
  {
    (if node.indent > 0 then [NodeStyles.IndentEntry(node.indent)] else [])
    + (if node.format != Left then [NodeStyles.TextAlignKey + ":" + ElementFormatRaw(node.format)] else [])
  }

  /** The markup a list item exports to. */
  function ExportedListItem(node: LNode): (r: DomNode)
    requires node.Element? && node.kind.ListItem?
    requires node.indent > 0 ==> node.indent * 40 <= MaxInt64
  {
    Dom.Element(
      "li",
      (if node.kind.value > 0 then [Attr("value", IntToString(node.kind.value))] else [])
      + (if StyleParts(node) != [] then [Attr("style", Join(StyleParts(node), ';'))] else []),
      [])
  }

  /**
   * `exportDOM`: an `li` element with a `value` attribute for a positive
   * value, and a `style` attribute joining the padding and alignment parts
   * when there are any.
   */
  method ExportDom(node: LNode) returns (dom: DomNode)
    requires node.Element? && node.kind.ListItem?
    requires node.indent > 0 ==> node.indent * 40 <= MaxInt64
    ensures dom == ExportedListItem(node)
  {
    dom := NewDomElement("li");
    if node.kind.value > 0 {
      dom := dom.(attrs := SetAttr(dom.attrs, "value", IntToString(node.kind.value)));
      assert dom.attrs == [Attr("value", IntToString(node.kind.value))];
    }
    var style: seq<string> := [];
    if node.indent > 0 {
      style := style + [NodeStyles.IndentEntry(node.indent)];
    }
    var format := node.format;
    if format != Left {
      style := style + [NodeStyles.TextAlignKey + ":" + ElementFormatRaw(format)];
    }
    assert style == StyleParts(node);
    if style != [] {
      var before := dom.attrs;
      dom := dom.(attrs := SetAttr(dom.attrs, "style", Join(style, ';')));
      if before != [] {
        assert SetAttr(before, "style", Join(style, ';')) == [before[0]] + SetAttr(before[1..], "style", Join(style, ';'));
      }
      assert dom.attrs == before + [Attr("style", Join(style, ';'))];
    }
  }

  /** The alignment whose name is the format's name. */
  function AlignOfFormat(f: ElementFormat): (a: NodeStyles.TextAlign)
    ensures NodeStyles.TextAlignRaw(a) == ElementFormatRaw(f)
  {
    match f
    case Left => NodeStyles.TextAlign.Left
    case Center => NodeStyles.TextAlign.Center
    case Right => NodeStyles.TextAlign.Right
    case Justify => NodeStyles.TextAlign.Justify
  }

  /** The exported `style` reads back as no padding (the `px` unit) and the node's alignment. */
  lemma ExportedStyleReads(node: LNode)
    requires node.Element?
    requires node.indent > 0 ==> node.indent * 40 <= MaxInt64
    ensures NodeStyles.Decodable(Join(StyleParts(node), ';'))
    ensures NodeStyles.Decode(Join(StyleParts(node), ';')).paddingInlineState.None?
    ensures node.format == Left ==> NodeStyles.Decode(Join(StyleParts(node), ';')).textAlign.None?
    ensures node.format != Left ==> NodeStyles.Decode(Join(StyleParts(node), ';')).textAlign == Some(AlignOfFormat(node.format))
  {
    var parts := StyleParts(node);
    var a := AlignOfFormat(node.format);
    var alignPart := NodeStyles.TextAlignKey + ":" + ElementFormatRaw(node.format);
    assert alignPart == NodeStyles.AlignEntry(a);
    if node.indent > 0 {
      NodeStyles.PaddingWithUnitIsNil(node.indent * 40);
      if node.format != Left {
        assert parts == [NodeStyles.IndentEntry(node.indent), alignPart];
        assert Join(parts, ';') == NodeStyles.IndentEntry(node.indent) + ";" + NodeStyles.AlignEntry(a);
        NodeStyles.LastTextAlignWins(NodeStyles.IndentEntry(node.indent), a);
      }
    } else if node.format != Left {
      NodeStyles.AlignReadsName(a);
    } else {
      NodeStyles.DecodeEmpty();
    }
  }

  /**
   * Exporting a list item and converting the markup back keeps the
   * alignment, but the indent comes back as 0 (the `px` padding reads as nil)
   * and the value as the default (the `value` attribute is not read).
   */
  lemma ListItemRoundTrip(node: LNode)
    requires node.Element? && node.kind.ListItem?
    requires node.indent > 0 ==> node.indent * 40 <= MaxInt64
    ensures NodeStyles.StyleReadable(ExportedListItem(node))
    ensures ConvertListItem(ExportedListItem(node)).nodes
         == [NewElement(ListItem(DefaultListItemValue)).(format := node.format)]
  {
    ExportedStyleReads(node);
    ExportedStyleAttribute(node);
    if StyleParts(node) == [] {
      NodeStyles.DecodeEmpty();
    }
  }

  /** The exported `style` attribute holds the joined parts, and is absent when there are none. */
  lemma ExportedStyleAttribute(node: LNode)
    requires node.Element? && node.kind.ListItem?
    requires node.indent > 0 ==> node.indent * 40 <= MaxInt64
    ensures Get(ExportedListItem(node).attrs, "style") == (if StyleParts(node) != [] then Join(StyleParts(node), ';') else "")
  {
    var dom := ExportedListItem(node);
    var parts := StyleParts(node);
    if parts != [] {
      var i := |dom.attrs| - 1;
      assert dom.attrs[i] == Attr("style", Join(parts, ';'));
      assert forall j :: 0 <= j < i ==> dom.attrs[j].key == "value";
    } else {
      assert !HasKey(dom.attrs, "style");
    }
  }
}
