/** The classification helpers the import engine uses. */
module HtmlUtils {
  import opened Wrappers
  import opened Dom
  import opened Nodes

  /** The tag names that count as block-level markup. */
  const BlockTags: set<string> := {
    "address", "article", "aside", "blockquote", "canvas", "dd", "div", "dl",
    "dt", "fieldset", "figcaption", "figure", "footer", "form", "h1", "h2",
    "h3", "h4", "h5", "h6", "header", "hr", "li", "main", "nav", "noscript",
    "ol", "p", "pre", "section", "table", "td", "tfoot", "ul", "video"
  }

  /**
   * `isBlockDomNode`: the node's tag name, or `""` for a node that is not an
   * element, looked up in the block tag list.
   */
  predicate IsBlockDomNode(node: DomNode)
    ensures IsBlockDomNode(node) ==> node.Element?
  {
    TagName(node).GetOr("") in BlockTags
  }

  /** Block-level exactly for an element whose tag is listed. */
  lemma BlockIffListedElement(node: DomNode)
    ensures IsBlockDomNode(node) <==> node.Element? && node.tag in BlockTags
  {
    assert "" !in BlockTags;
  }

  /** Text leaves and other leaves are never block-level. */
  lemma LeavesAreInline(node: DomNode)
    requires !node.Element?
    ensures !IsBlockDomNode(node)
  {
    assert "" !in BlockTags;
  }

  /** The inline tags `span`, `b`, `a` and `br` are not block-level. */
  lemma InlineTagsAreInline(attrs: seq<Attr>, children: seq<DomNode>)
    ensures !IsBlockDomNode(DomNode.Element("span", attrs, children))
    ensures !IsBlockDomNode(DomNode.Element("b", attrs, children))
    ensures !IsBlockDomNode(DomNode.Element("a", attrs, children))
    ensures !IsBlockDomNode(DomNode.Element("br", attrs, children))
  {
  }

  /** `isRoot`: the node itself when it is the root node, otherwise nil. */
  function IsRoot(node: LNode): (r: Option<LNode>)
    ensures r.Some? <==> node.Element? && node.kind.Root?
    ensures r.Some? ==> r.value == node
  {
    if node.Element? && node.kind.Root? then Some(node) else None
  }

  /** `isRootOrShadowRoot`: the root node, or an element node that reports being a shadow root. */
  predicate IsRootOrShadowRoot(node: LNode)
    ensures IsRootOrShadowRoot(node) ==> node.Element?
  {
    IsRoot(node).Some? || (node.Element? && node.shadowRoot)
  }

  /** Only element nodes can be a root or a shadow root; text and line breaks never are. */
  lemma RootOrShadowRootIsElement(node: LNode)
    ensures IsRootOrShadowRoot(node) <==> node.Element? && (node.kind.Root? || node.shadowRoot)
  {
  }
}
