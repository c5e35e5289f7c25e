/**
 * Markup support for text nodes: the inline tags that become child
 * transforms, the `#text` leaf that becomes a text node, and the export of a
 * text node as a `span` (or `code`) nested in its format wrappers.
 */
module TextHtml {
  import opened Wrappers
  import opened Dom
  import opened Nodes
  import opened Conversion

  /** The text node's import table. */
  function ImportDom(): (r: ConversionMap)
    ensures r.Keys == {"#text", "b", "code", "em", "i", "mark", "s", "span", "strong", "sup", "sub", "u"}
    ensures r["#text"] == ConvertTextDomNode && r["b"] == ConvertBringAttentionToElement
    ensures r["span"] == ConvertSpanElement
    ensures forall k :: k in r && k !in {"#text", "b", "span"} ==> r[k] == ConvertTextFormatElement
  {
    map[
      "#text" := ConvertTextDomNode,
      "b" := ConvertBringAttentionToElement,
      "code" := ConvertTextFormatElement,
      "em" := ConvertTextFormatElement,
      "i" := ConvertTextFormatElement,
      "mark" := ConvertTextFormatElement,
      "s" := ConvertTextFormatElement,
      "span" := ConvertSpanElement,
      "strong" := ConvertTextFormatElement,
      "sup" := ConvertTextFormatElement,
      "sub" := ConvertTextFormatElement,
      "u" := ConvertTextFormatElement
    ]
  }

  /** The format flag each format tag sets; `mark` (and any other name) sets none. */
  function FormatOfTag(name: string): (r: Option<FormatFlag>)
    ensures r == Some(Code) <==> name == "code"
    ensures r == Some(Italic) <==> name == "em" || name == "i"
    ensures r == Some(Strikethrough) <==> name == "s"
    ensures r == Some(Bold) <==> name == "strong"
    ensures r == Some(SubScript) <==> name == "sub"
    ensures r == Some(SuperScript) <==> name == "sup"
    ensures r == Some(Underline) <==> name == "u"
  {
    if name == "code" then Some(Code)
    else if name == "em" || name == "i" then Some(Italic)
    else if name == "s" then Some(Strikethrough)
    else if name == "strong" then Some(Bold)
    else if name == "sub" then Some(SubScript)
    else if name == "sup" then Some(SuperScript)
    else if name == "u" then Some(Underline)
    else None
  }

  /** `convertBringAttentionToElement`: no nodes, a transform that copies the style and sets no flag. */
  function ConvertBringAttention(dom: DomNode): (r: ConversionOutput)
    ensures r.nodes == [] && r.forChild == Some(TextFormatTransform(AttributeOrEmpty(dom, "style"), None))
  {
    ConversionOutput(Some(TextFormatTransform(AttributeOrEmpty(dom, "style"), None)), [])
  }

  /** `convertTextFormatElement`: no nodes, a transform that copies the style and sets the tag's flag. */
  function ConvertTextFormat(dom: DomNode): (r: ConversionOutput)
    ensures r.nodes == []
    ensures r.forChild == Some(TextFormatTransform(AttributeOrEmpty(dom, "style"), FormatOfTag(NodeName(dom))))
  {
    ConversionOutput(Some(TextFormatTransform(AttributeOrEmpty(dom, "style"), FormatOfTag(NodeName(dom)))), [])
  }

  /** `convertSpanElement`: no nodes, a transform that copies the style and sets no flag. */
  function ConvertSpan(dom: DomNode): (r: ConversionOutput)
    ensures r.nodes == [] && r.forChild == Some(TextFormatTransform(AttributeOrEmpty(dom, "style"), None))
  {
    ConversionOutput(Some(TextFormatTransform(AttributeOrEmpty(dom, "style"), None)), [])
  }

  /** `convertTextDOMNode`: one unformatted text node with the leaf's text; nothing for any other node. */
  function ConvertTextDom(dom: DomNode): (r: ConversionOutput)
    ensures r.forChild.None?
    ensures dom.Text? ==> r.nodes == [Nodes.Text(dom.text, NoFormat, "")]
    ensures !dom.Text? ==> r.nodes == []
  {
    if dom.Text? then ConversionOutput(None, [CreateTextNode(dom.text)]) else NoOutput
  }

  /**
   * The closure built by `applyTextFormatFromStyle`: a text node gets the
   * recorded style and, when there is one, the recorded flag; any other node
   * is returned as it is. It never returns nil.
   */
  function ApplyChildTransform(t: ChildTransform, node: LNode): (r: Option<LNode>)
    ensures r.Some?
    ensures !node.Text? ==> r.value == node
    ensures node.Text? ==> r.value.Text? && r.value.text == node.text && r.value.style == t.style
    ensures node.Text? ==> forall g :: r.value.textFormat.Has(g) <==> node.textFormat.Has(g) || t.flag == Some(g)
  {
    if !node.Text? then Some(node)
    else
      var format := if t.flag.Some? then node.textFormat.With(t.flag.value) else node.textFormat;
      Some(node.(style := t.style, textFormat := format))
  }

  // ---------------------------------------------------------------------------
  // Export

  /** The wrapper tags, innermost first, for the flags that have one. */
  function WrapperTags(format: TextFormat): (r: seq<string>)
    ensures |r| <= 4
  {
    (if format.bold then ["b"] else [])
    + (if format.italic then ["i"] else [])
    + (if format.strikethrough then ["s"] else [])
    + (if format.underline then ["u"] else [])
  }

  /** `wrapDomElement`: a new element of the given tag whose only child is `element`. */
  function WrapDomElement(element: DomNode, tag: string): (r: DomNode)
    ensures r.Element? && r.tag == tag && r.attrs == [] && r.children == [element]
  {
    Dom.Element(tag, [], [element])
  }

  /** `element` wrapped in each tag in turn, the first tag innermost. */
  function WrapAll(element: DomNode, tags: seq<string>): DomNode
    decreases |tags|
  {
    if tags == [] then element else WrapAll(WrapDomElement(element, tags[0]), tags[1..])
  }

  /** The innermost exported element: `code` or `span`, the style if any, the text as only child. */
  function InnerElement(node: LNode): (r: DomNode)
    requires node.Text?
    ensures r.Element? && r.children == [Dom.Text(node.text)]
    ensures r.tag == (if node.textFormat.code then "code" else "span")
    ensures node.style == "" ==> r.attrs == []
    ensures node.style != "" ==> r.attrs == [Attr("style", node.style)]
  {
    var outer := if node.textFormat.code then "code" else "span";
    var attrs := if node.style != "" then SetAttr([], "style", node.style) else [];
    Dom.Element(outer, attrs, [Dom.Text(node.text)])
  }

  /** `exportDOM`: builds the inner element, then wraps it in `b`, `i`, `s` and `u` as the flags say. */
  method ExportDom(node: LNode) returns (element: DomNode)
    requires node.Text?
    ensures element == WrapAll(InnerElement(node), WrapperTags(node.textFormat))
  {
    var outerTag := if node.textFormat.code then "code" else "span";
    element := Dom.NewDomElement(outerTag);
    var style := node.style;
    if style != [] {
      element := element.(attrs := SetAttr(element.attrs, "style", style));
    }
    element := element.(children := element.children + [Dom.Text(node.text)]);
    ghost var inner := element;
    assert inner == InnerElement(node);
    ghost var tags: seq<string> := [];
    ghost var before := element;
    if node.textFormat.bold {
      element := WrapDomElement(element, "b");
    }
    WrapStep(inner, tags, node.textFormat.bold, "b", before, element);
    tags := tags + (if node.textFormat.bold then ["b"] else []);
    before := element;
    if node.textFormat.italic {
      element := WrapDomElement(element, "i");
    }
    WrapStep(inner, tags, node.textFormat.italic, "i", before, element);
    tags := tags + (if node.textFormat.italic then ["i"] else []);
    before := element;
    if node.textFormat.strikethrough {
      element := WrapDomElement(element, "s");
    }
    WrapStep(inner, tags, node.textFormat.strikethrough, "s", before, element);
    tags := tags + (if node.textFormat.strikethrough then ["s"] else []);
    before := element;
    if node.textFormat.underline {
      element := WrapDomElement(element, "u");
    }
    WrapStep(inner, tags, node.textFormat.underline, "u", before, element);
    tags := tags + (if node.textFormat.underline then ["u"] else []);
    WrapperTagsParts(node.textFormat);
  }

  /** The wrapper tags are the four optional tags collected one after the other. */
  lemma WrapperTagsParts(format: TextFormat)
    ensures WrapperTags(format)
         == [] + (if format.bold then ["b"] else []) + (if format.italic then ["i"] else [])
            + (if format.strikethrough then ["s"] else []) + (if format.underline then ["u"] else [])
  {
    assert [] + (if format.bold then ["b"] else []) == (if format.bold then ["b"] else []);
  }

  /** Wrapping or not, as a flag says, keeps the element equal to the inner one wrapped in the tags so far. */
  lemma WrapStep(inner: DomNode, tags: seq<string>, flag: bool, tag: string, before: DomNode, after: DomNode)
    requires before == WrapAll(inner, tags)
    requires after == if flag then WrapDomElement(before, tag) else before
    ensures after == WrapAll(inner, tags + (if flag then [tag] else []))
  {
    if flag {
      WrapOneMore(inner, tags, tag);
    } else {
      assert tags + [] == tags;
    }
  }

  /** One more wrapper goes around everything wrapped so far. */
  lemma WrapOneMore(element: DomNode, tags: seq<string>, tag: string)
    ensures WrapAll(element, tags + [tag]) == WrapDomElement(WrapAll(element, tags), tag)
  {
    WrapAllConcat(element, tags, [tag]);
  }

  /** Wrapping in `p` and then in `q` is wrapping in `p + q`. */
  lemma {:induction false} WrapAllConcat(element: DomNode, p: seq<string>, q: seq<string>)
    ensures WrapAll(element, p + q) == WrapAll(WrapAll(element, p), q)
    decreases |p|
  {
    if p != [] {
      assert (p + q)[1..] == p[1..] + q;
      WrapAllConcat(WrapDomElement(element, p[0]), p[1..], q);
    } else {
      assert p + q == q;
    }
  }

  /**
   * Nesting of the export: the last wrapper tag is outermost, has no
   * attributes, and holds the rest of the nesting as its only child.
   */
  lemma WrapAllOutermost(element: DomNode, tags: seq<string>)
    requires tags != []
    ensures WrapAll(element, tags).Element? && WrapAll(element, tags).tag == tags[|tags| - 1]
    ensures WrapAll(element, tags).attrs == []
    ensures WrapAll(element, tags).children == [WrapAll(element, tags[..|tags| - 1])]
  {
    var n := |tags|;
    assert tags == tags[..n - 1] + [tags[n - 1]];
    WrapOneMore(element, tags[..n - 1], tags[n - 1]);
  }

  /** A wrapper tag is used exactly for its flag; subscript, superscript and code add none. */
  lemma WrapperTagsFlags(format: TextFormat)
    ensures "b" in WrapperTags(format) <==> format.bold
    ensures "i" in WrapperTags(format) <==> format.italic
    ensures "s" in WrapperTags(format) <==> format.strikethrough
    ensures "u" in WrapperTags(format) <==> format.underline
    ensures forall t :: t in WrapperTags(format) ==> t in {"b", "i", "s", "u"}
    ensures WrapperTags(format) == WrapperTags(format.(subScript := false, superScript := false, code := false))
  {
  }

  /** Where a wrapper tag stands in the fixed order `b`, `i`, `s`, `u` of the export. */
  function WrapperRank(tag: string): nat
  {
    if tag == "b" then 0 else if tag == "i" then 1 else if tag == "s" then 2 else 3
  }

  /**
   * The wrapper tags come in the fixed order `b`, `i`, `s`, `u`, innermost
   * first, each at most once: together with the flags above, the tags are
   * exactly the set flags' tags in that order.
   */
  lemma WrapperTagsOrdered(format: TextFormat)
    ensures forall i, j :: 0 <= i < j < |WrapperTags(format)| ==>
              WrapperRank(WrapperTags(format)[i]) < WrapperRank(WrapperTags(format)[j])
  {
    var tags := WrapperTags(format);
    var b := if format.bold then ["b"] else [];
    var it := if format.italic then ["i"] else [];
    var st := if format.strikethrough then ["s"] else [];
    var u := if format.underline then ["u"] else [];
    assert tags == b + it + st + u;
    assert WrapperRank("b") == 0 && WrapperRank("i") == 1 && WrapperRank("s") == 2 && WrapperRank("u") == 3;
    forall i, j | 0 <= i < j < |tags|
      ensures WrapperRank(tags[i]) < WrapperRank(tags[j])
    {
      assert WrapperRank(tags[i]) < WrapperRank(tags[j]);
    }
  }

  /** Bold and italic export as `i` around `b` around the inner element. */
  lemma BoldItalicNesting(node: LNode)
    requires node.Text? && node.textFormat.bold && node.textFormat.italic
    requires !node.textFormat.strikethrough && !node.textFormat.underline
    ensures WrapAll(InnerElement(node), WrapperTags(node.textFormat))
         == Dom.Element("i", [], [Dom.Element("b", [], [InnerElement(node)])])
  {
    var inner := InnerElement(node);
    assert WrapperTags(node.textFormat) == ["b", "i"];
    assert WrapAll(inner, ["b", "i"]) == WrapAll(WrapDomElement(inner, "b"), ["i"]);
    assert ["b", "i"][1..] == ["i"];
    assert WrapAll(WrapDomElement(inner, "b"), ["i"])
        == WrapAll(WrapDomElement(WrapDomElement(inner, "b"), "i"), []);
  }
}
