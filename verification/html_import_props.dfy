/**
 * Properties of the import engine: with the node kinds of this package
 * registered, converter lookup does not depend on the order of
 * registration; ignored subtrees vanish; siblings do not see each other's
 * transforms; a tag converter's transform reaches its descendants only;
 * an empty block with no converter becomes a line break; a produced element
 * holds its imported children and a produced leaf drops them; `strong` text
 * is bold and `b` text is not; and exported paragraphs and links import back
 * as stated.
 */
module HtmlImportProps {
  import opened Wrappers
  import opened Dom
  import opened Nodes
  import opened Conversion
  import opened HtmlUtils
  import opened HtmlImport
  import Strings
  import NodeStyles
  import TextHtml
  import ParagraphHtml
  import HeadingHtml
  import QuoteHtml
  import LineBreakHtml
  import ListHtml
  import ListItemHtml
  import LinkHtml

  // ---------------------------------------------------------------------------
  // The registered node kinds

  /** The import tables of the node kinds that support markup. */
  function Registry(): seq<ConversionMap> {
    [TextHtml.ImportDom(), ParagraphHtml.ImportDom(), HeadingHtml.ImportDom(), QuoteHtml.ImportDom(),
     LineBreakHtml.ImportDom(), ListHtml.ImportDom(), ListItemHtml.ImportDom(), LinkHtml.ImportDom()]
  }

  predicate PairwiseDisjoint(tables: seq<ConversionMap>) {
    forall i, j :: 0 <= i < j < |tables| ==> tables[i].Keys !! tables[j].Keys
  }

  const TextKeys: set<string> := {"#text", "b", "code", "em", "i", "mark", "s", "span", "strong", "sup", "sub", "u"}
  const HeadingKeys: set<string> := {"h1", "h2", "h3", "h4", "h5", "h6"}

  /** The tags each table registers, in registry order. */
  predicate ShapedKeys(tables: seq<ConversionMap>) {
    && |tables| == 8
    && tables[0].Keys == TextKeys && tables[1].Keys == {"p"}
    && tables[2].Keys == HeadingKeys && tables[3].Keys == {"blockquote"}
    && tables[4].Keys == {"br"} && tables[5].Keys == {"ol", "ul"}
    && tables[6].Keys == {"li"} && tables[7].Keys == {"a"}
  }

  /** The converter each table registers for each of its tags. */
  predicate ShapedValues(tables: seq<ConversionMap>)
    requires ShapedKeys(tables)
  {
    && tables[0]["#text"] == ConvertTextDomNode && tables[0]["b"] == ConvertBringAttentionToElement
    && tables[0]["span"] == ConvertSpanElement
    && (forall k :: k in tables[0] && k !in {"#text", "b", "span"} ==> tables[0][k] == ConvertTextFormatElement)
    && tables[1]["p"] == ConvertParagraphElement
    && (forall k :: k in tables[2] ==> tables[2][k] == ConvertHeadingElement)
    && tables[3]["blockquote"] == ConvertBlockquoteElement && tables[4]["br"] == ConvertLineBreakElement
    && tables[5]["ol"] == ConvertListNode && tables[5]["ul"] == ConvertListNode
    && tables[6]["li"] == ConvertListItemElement && tables[7]["a"] == ConvertAnchorElement
  }

  /** Tables laid out as the registry of this package's node kinds. */
  predicate Shaped(tables: seq<ConversionMap>) {
    ShapedKeys(tables) && ShapedValues(tables)
  }

  /** The registry holds the tags and converters of the node kinds, in registry order. */
  lemma RegistryShaped()
    ensures Shaped(Registry())
  {
  }

  /** No two node kinds claim the same tag. */
  lemma RegistryDisjoint()
    ensures PairwiseDisjoint(Registry())
  {
    RegistryShaped();
    ShapedDisjoint(Registry());
  }

  /** Tables laid out as the registry have pairwise disjoint tags. */
  lemma ShapedDisjoint(tables: seq<ConversionMap>)
    requires ShapedKeys(tables)
    ensures PairwiseDisjoint(tables)
  {
    forall i, j | 0 <= i < j < |tables| ensures tables[i].Keys !! tables[j].Keys {
      ShapedKeySet(tables, i);
      ShapedKeySet(tables, j);
      KeySetsDisjoint(i, j);
    }
  }

  lemma ShapedKeySet(tables: seq<ConversionMap>, i: int)
    requires ShapedKeys(tables) && 0 <= i < 8
    ensures tables[i].Keys == KeySet(i)
  {
  }

  /** The key set of table `i` in registry order. */
  function KeySet(i: int): set<string> {
    if i == 0 then TextKeys else if i == 1 then {"p"} else if i == 2 then HeadingKeys
    else if i == 3 then {"blockquote"} else if i == 4 then {"br"} else if i == 5 then {"ol", "ul"}
    else if i == 6 then {"li"} else {"a"}
  }

  lemma KeySetsDisjoint(i: int, j: int)
    requires 0 <= i < j < 8
    ensures KeySet(i) !! KeySet(j)
  {
    if i == 0 {
      TextKeysApart(j);
    } else if i == 2 {
      assert forall k :: k in HeadingKeys ==> |k| == 2 && k[0] == 'h';
    }
  }

  lemma TextKeysApart(j: int)
    requires 0 < j < 8
    ensures TextKeys !! KeySet(j)
  {
    assert forall k :: k in TextKeys ==> |k| == 1 || k[0] in {'#', 'c', 'e', 'm', 's'};
  }

  /** Lookup finds the first table that has the key. */
  lemma FirstMatchAt(tables: seq<ConversionMap>, i: int, key: string)
    requires 0 <= i < |tables| && key in tables[i] && forall j :: 0 <= j < i ==> key !in tables[j]
    ensures FirstMatch(tables, key) == Some(tables[i][key])
  {
    var r := FirstMatch(tables, key);
    var j :| 0 <= j < |tables| && key in tables[j] && tables[j][key] == r.value
             && forall k :: 0 <= k < j ==> key !in tables[k];
    assert j == i;
  }

  /** With disjoint tables, lookup finds the one table that has the key, wherever it sits. */
  lemma FirstMatchDisjoint(tables: seq<ConversionMap>, i: int, key: string)
    requires PairwiseDisjoint(tables) && 0 <= i < |tables| && key in tables[i]
    ensures FirstMatch(tables, key) == Some(tables[i][key])
  {
    var r := FirstMatch(tables, key);
    var j :| 0 <= j < |tables| && key in tables[j] && tables[j][key] == r.value
             && forall k :: 0 <= k < j ==> key !in tables[k];
    assert j == i;
  }

  /**
   * The registration order of the node kinds does not matter: registering
   * any of them, in any order, finds the same converter for every key it
   * finds one for, and registering all of them finds one exactly for the
   * keys the full registry has.
   */
  lemma LookupIndependentOfOrder(tables: seq<ConversionMap>, key: string)
    requires forall i :: 0 <= i < |tables| ==> tables[i] in Registry()
    ensures FirstMatch(tables, key).Some? ==> FirstMatch(tables, key) == FirstMatch(Registry(), key)
    ensures (forall t :: t in Registry() ==> t in tables) ==> FirstMatch(tables, key) == FirstMatch(Registry(), key)
  {
    RegistryDisjoint();
    var r := FirstMatch(tables, key);
    if r.Some? {
      var i :| 0 <= i < |tables| && key in tables[i] && tables[i][key] == r.value
               && forall k :: 0 <= k < i ==> key !in tables[k];
      var j :| 0 <= j < |Registry()| && Registry()[j] == tables[i];
      FirstMatchDisjoint(Registry(), j, key);
    } else if forall t :: t in Registry() ==> t in tables {
      forall j | 0 <= j < |Registry()| ensures key !in Registry()[j] {
        var t := Registry()[j];
        assert t in tables;
      }
    }
  }

  const AllKeys: set<string> := TextKeys + {"p"} + HeadingKeys + {"blockquote", "br", "ol", "ul", "li", "a"}

  /** The converter the registered node kinds provide for each key, or none. */
  function RegisteredConverter(key: string): (r: Option<ConverterId>)
    ensures r.None? <==> key !in AllKeys
    ensures key == "p" ==> r == Some(ConvertParagraphElement)
    ensures key in HeadingKeys ==> r == Some(ConvertHeadingElement)
    ensures key == "blockquote" ==> r == Some(ConvertBlockquoteElement)
    ensures key == "br" ==> r == Some(ConvertLineBreakElement)
    ensures key in {"ol", "ul"} ==> r == Some(ConvertListNode)
    ensures key == "li" ==> r == Some(ConvertListItemElement)
    ensures key == "a" ==> r == Some(ConvertAnchorElement)
  {
    if key == "#text" then Some(ConvertTextDomNode)
    else if key == "b" then Some(ConvertBringAttentionToElement)
    else if key == "span" then Some(ConvertSpanElement)
    else if key in TextKeys then Some(ConvertTextFormatElement)
    else if key == "p" then Some(ConvertParagraphElement)
    else if key in HeadingKeys then Some(ConvertHeadingElement)
    else if key == "blockquote" then Some(ConvertBlockquoteElement)
    else if key == "br" then Some(ConvertLineBreakElement)
    else if key in {"ol", "ul"} then Some(ConvertListNode)
    else if key == "li" then Some(ConvertListItemElement)
    else if key == "a" then Some(ConvertAnchorElement)
    else None
  }

  /** Tables that find, for every key, the converter the registered node kinds provide. */
  ghost predicate Registers(tables: seq<ConversionMap>) {
    forall key :: FirstMatch(tables, key) == RegisteredConverter(key)
  }

  /** The text node's keys find its table's converters. */
  lemma TextKeysLookup(tables: seq<ConversionMap>, key: string)
    requires Shaped(tables) && key in TextKeys
    ensures FirstMatch(tables, key) == RegisteredConverter(key)
  {
    FirstMatchAt(tables, 0, key);
  }

  /** The paragraph's key. */
  lemma ParagraphKeyLookup(tables: seq<ConversionMap>, key: string)
    requires Shaped(tables) && key == "p"
    ensures FirstMatch(tables, key) == Some(ConvertParagraphElement)
  {
    FirstMatchAt(tables, 1, key);
  }

  /** The heading's keys. */
  lemma HeadingKeysLookup(tables: seq<ConversionMap>, key: string)
    requires Shaped(tables) && key in HeadingKeys
    ensures FirstMatch(tables, key) == Some(ConvertHeadingElement)
  {
    NotTextKey(key);
    FirstMatchAt(tables, 2, key);
  }

  /** No text key is two letters starting with `h`. */
  lemma NotTextKey(key: string)
    requires key in HeadingKeys
    ensures key !in TextKeys && |key| == 2
  {
    assert |key| == 2 && key[0] == 'h';
    assert forall k :: k in TextKeys ==> |k| != 2 || k[0] != 'h';
  }

  /** The quote's key. */
  lemma QuoteKeyLookup(tables: seq<ConversionMap>, key: string)
    requires Shaped(tables) && key == "blockquote"
    ensures FirstMatch(tables, key) == Some(ConvertBlockquoteElement)
  {
    FirstMatchAt(tables, 3, key);
  }

  /** The line break's key. */
  lemma LineBreakKeyLookup(tables: seq<ConversionMap>, key: string)
    requires Shaped(tables) && key == "br"
    ensures FirstMatch(tables, key) == Some(ConvertLineBreakElement)
  {
    FirstMatchAt(tables, 4, key);
  }

  /** The list's keys. */
  lemma ListKeysLookup(tables: seq<ConversionMap>, key: string)
    requires Shaped(tables) && key in {"ol", "ul"}
    ensures FirstMatch(tables, key) == Some(ConvertListNode)
  {
    FirstMatchAt(tables, 5, key);
  }

  /** The list item's key. */
  lemma ListItemKeyLookup(tables: seq<ConversionMap>, key: string)
    requires Shaped(tables) && key == "li"
    ensures FirstMatch(tables, key) == Some(ConvertListItemElement)
  {
    FirstMatchAt(tables, 6, key);
  }

  /** The link's key. */
  lemma LinkKeyLookup(tables: seq<ConversionMap>, key: string)
    requires Shaped(tables) && key == "a"
    ensures FirstMatch(tables, key) == Some(ConvertAnchorElement)
  {
    FirstMatchAt(tables, 7, key);
  }

  /** A key no node kind registers, such as `div`, finds no converter. */
  lemma UnregisteredKey(tables: seq<ConversionMap>, key: string)
    requires ShapedKeys(tables) && key !in AllKeys
    ensures FirstMatch(tables, key).None?
  {
    forall i | 0 <= i < |tables| ensures key !in tables[i] {
      ShapedKeySet(tables, i);
      KeySetRegistered(i);
    }
  }

  lemma KeySetRegistered(i: int)
    requires 0 <= i < 8
    ensures KeySet(i) <= AllKeys
  {
  }

  /** Tables laid out as the registry find the registered converter for every key. */
  lemma ShapedRegisters(tables: seq<ConversionMap>)
    requires Shaped(tables)
    ensures Registers(tables)
  {
    forall key ensures FirstMatch(tables, key) == RegisteredConverter(key) {
      if key in TextKeys {
        TextKeysLookup(tables, key);
      } else if key == "p" || key in HeadingKeys || key == "blockquote" {
        BlockKeyRegisters(tables, key);
      } else {
        OtherKeyRegisters(tables, key);
      }
    }
  }

  lemma BlockKeyRegisters(tables: seq<ConversionMap>, key: string)
    requires Shaped(tables) && (key == "p" || key in HeadingKeys || key == "blockquote")
    ensures FirstMatch(tables, key) == RegisteredConverter(key)
  {
    if key == "p" {
      ParagraphKeyLookup(tables, key);
    } else if key in HeadingKeys {
      HeadingKeysLookup(tables, key);
    } else {
      QuoteKeyLookup(tables, key);
    }
  }

  lemma OtherKeyRegisters(tables: seq<ConversionMap>, key: string)
    requires Shaped(tables) && key !in TextKeys && key != "p" && key !in HeadingKeys && key != "blockquote"
    ensures FirstMatch(tables, key) == RegisteredConverter(key)
  {
    if key == "br" {
      LineBreakKeyLookup(tables, key);
    } else if key in {"ol", "ul"} {
      ListKeysLookup(tables, key);
    } else {
      InlineKeyRegisters(tables, key);
    }
  }

  lemma InlineKeyRegisters(tables: seq<ConversionMap>, key: string)
    requires Shaped(tables) && key !in TextKeys && key != "p" && key !in HeadingKeys && key != "blockquote"
    requires key != "br" && key !in {"ol", "ul"}
    ensures FirstMatch(tables, key) == RegisteredConverter(key)
  {
    if key == "li" {
      ListItemKeyLookup(tables, key);
    } else if key == "a" {
      LinkKeyLookup(tables, key);
    } else {
      UnregisteredKey(tables, key);
    }
  }

  /** The registry finds the registered converter for every key. */
  lemma RegistryRegisters()
    ensures Registers(Registry())
  {
    RegistryShaped();
    ShapedRegisters(Registry());
  }

  /** With such tables, a node's converter is the one registered for its key. */
  lemma RegisteredConversion(tables: seq<ConversionMap>, dom: DomNode)
    requires Registers(tables)
    ensures dom.Element? ==> ConversionFunction(tables, dom) == RegisteredConverter(dom.tag)
    ensures dom.Text? ==> ConversionFunction(tables, dom) == Some(ConvertTextDomNode)
  {
    if dom.Element? || dom.Text? {
      assert FirstMatch(tables, LookupKey(dom).value) == RegisteredConverter(LookupKey(dom).value);
    }
  }

  // ---------------------------------------------------------------------------
  // The engine, for any registered tables

  /** `style` and `script` subtrees produce nothing and register nothing. */
  lemma IgnoredProducesNothing(tables: seq<ConversionMap>, dom: DomNode, hasBlockAncestor: bool, m: TransformMap)
    requires NodeName(dom) == "style" || NodeName(dom) == "script"
    ensures Importable(tables, dom)
    ensures ImportNode(tables, dom, hasBlockAncestor, m) == []
    ensures MapAfter(tables, dom, m) == m
  {
  }

  /**
   * Siblings are imported independently: the children's result is the
   * concatenation of each part's, so nothing one sibling registers reaches
   * the next.
   */
  lemma {:induction false} ImportChildrenConcat(tables: seq<ConversionMap>, a: seq<DomNode>, b: seq<DomNode>,
                                                hasBlockAncestor: bool, m: TransformMap)
    requires AllImportable(tables, a) && AllImportable(tables, b)
    ensures AllImportable(tables, a + b)
    ensures ImportChildren(tables, a + b, hasBlockAncestor, m)
         == ImportChildren(tables, a, hasBlockAncestor, m) + ImportChildren(tables, b, hasBlockAncestor, m)
    decreases |b|
  {
    AllImportableConcat(tables, a, b);
    if b == [] {
      assert a + b == a;
    } else {
      AllImportableConcat(tables, a, b[..|b| - 1]);
      ImportChildrenConcat(tables, a, b[..|b| - 1], hasBlockAncestor, m);
      ConcatStep(tables, a, b, hasBlockAncestor, m);
    }
  }

  /** The inductive step of `ImportChildrenConcat`: from all but the last child of `b` to all of `b`. */
  lemma ConcatStep(tables: seq<ConversionMap>, a: seq<DomNode>, b: seq<DomNode>, hasBlockAncestor: bool, m: TransformMap)
    requires b != [] && AllImportable(tables, a + b) && AllImportable(tables, b)
    requires AllImportable(tables, a) && AllImportable(tables, a + b[..|b| - 1]) && AllImportable(tables, b[..|b| - 1])
    requires ImportChildren(tables, a + b[..|b| - 1], hasBlockAncestor, m)
          == ImportChildren(tables, a, hasBlockAncestor, m) + ImportChildren(tables, b[..|b| - 1], hasBlockAncestor, m)
    ensures ImportChildren(tables, a + b, hasBlockAncestor, m)
         == ImportChildren(tables, a, hasBlockAncestor, m) + ImportChildren(tables, b, hasBlockAncestor, m)
  {
    var init, last := b[..|b| - 1], b[|b| - 1];
    SnocOfConcat(a, b);
    var x, y, z := ImportChildren(tables, a, hasBlockAncestor, m), ImportChildren(tables, init, hasBlockAncestor, m),
                   ImportNode(tables, last, hasBlockAncestor, m);
    ImportChildrenLast(tables, a + b, hasBlockAncestor, m);
    ImportChildrenLast(tables, b, hasBlockAncestor, m);
    ConcatAssoc(x, y, z);
  }

  lemma SnocOfConcat<T>(a: seq<T>, b: seq<T>)
    requires b != []
    ensures (a + b)[..|a + b| - 1] == a + b[..|b| - 1]
    ensures (a + b)[|a + b| - 1] == b[|b| - 1]
  {
  }

  /** The children's result is the result for all but the last child, then the last child's. */
  lemma ImportChildrenLast(tables: seq<ConversionMap>, cs: seq<DomNode>, hasBlockAncestor: bool, m: TransformMap)
    requires AllImportable(tables, cs) && cs != []
    ensures AllImportable(tables, cs[..|cs| - 1]) && Importable(tables, cs[|cs| - 1])
    ensures ImportChildren(tables, cs, hasBlockAncestor, m)
         == ImportChildren(tables, cs[..|cs| - 1], hasBlockAncestor, m) + ImportNode(tables, cs[|cs| - 1], hasBlockAncestor, m)
  {
  }

  lemma AllImportableConcat(tables: seq<ConversionMap>, a: seq<DomNode>, b: seq<DomNode>)
    requires AllImportable(tables, a) && AllImportable(tables, b)
    ensures AllImportable(tables, a + b)
    ensures b != [] ==> AllImportable(tables, b[..|b| - 1])
  {
    forall i | 0 <= i < |a + b| ensures Importable(tables, (a + b)[i]) {
      if i >= |a| {
        assert (a + b)[i] == b[i - |a|];
      }
    }
  }

  /** One child is imported as itself. */
  lemma ImportOneChild(tables: seq<ConversionMap>, c: DomNode, hasBlockAncestor: bool, m: TransformMap)
    requires Importable(tables, c)
    ensures AllImportable(tables, [c])
    ensures ImportChildren(tables, [c], hasBlockAncestor, m) == ImportNode(tables, c, hasBlockAncestor, m)
  {
    assert [c][..0] == [];
  }

  /** A block element with no converter and no children becomes one line break. */
  lemma EmptyBlockIsLineBreak(tables: seq<ConversionMap>, dom: DomNode, hasBlockAncestor: bool, m: TransformMap)
    requires dom.Element? && dom.tag in BlockTags && dom.children == []
    requires ConversionFunction(tables, dom).None? && !IsIgnored(dom)
    ensures Importable(tables, dom)
    ensures ImportNode(tables, dom, hasBlockAncestor, m) == [LNode.LineBreak]
  {
    assert IsBlockDomNode(dom);
  }

  /**
   * A block element with no converter gives its imported children, wrapped
   * when no block node encloses it, or a line break when there are none.
   */
  lemma UnknownBlock(tables: seq<ConversionMap>, dom: DomNode, hasBlockAncestor: bool, m: TransformMap)
    requires dom.Element? && dom.tag in BlockTags && !IsIgnored(dom)
    requires ConversionFunction(tables, dom).None? && AllImportable(tables, dom.children)
    ensures Importable(tables, dom)
    ensures var kids := ImportChildren(tables, dom.children, hasBlockAncestor, m);
      var wrapped := if hasBlockAncestor then kids else WrapInlines(kids);
      ImportNode(tables, dom, hasBlockAncestor, m) == if wrapped == [] then [LNode.LineBreak] else wrapped
  {
    assert IsBlockDomNode(dom);
  }

  /** An inline element with no converter disappears into its children: `<font>x</font>` is `x`. */
  lemma UnknownInlineIsTransparent(tables: seq<ConversionMap>, dom: DomNode, hasBlockAncestor: bool, m: TransformMap)
    requires dom.Element? && dom.tag !in BlockTags && !IsIgnored(dom)
    requires ConversionFunction(tables, dom).None? && AllImportable(tables, dom.children)
    ensures Importable(tables, dom)
    ensures ImportNode(tables, dom, hasBlockAncestor, m) == ImportChildren(tables, dom.children, hasBlockAncestor, m)
  {
    assert !IsBlockDomNode(dom);
  }

  /**
   * A node whose converter produces one element (not a root) holds its
   * imported children, which see an enclosing block node and so are not
   * wrapped again; the inherited transforms leave the element as it is.
   */
  lemma ProducedElementHoldsChildren(tables: seq<ConversionMap>, dom: DomNode, hasBlockAncestor: bool, m: TransformMap)
    requires dom.Element? && Importable(tables, dom) && !IsIgnored(dom)
    requires |Output(tables, dom).nodes| == 1
    requires Output(tables, dom).nodes[0].Element?
    requires !Output(tables, dom).nodes[0].kind.Root? && !Output(tables, dom).nodes[0].shadowRoot
    ensures AllImportable(tables, dom.children)
    ensures ImportNode(tables, dom, hasBlockAncestor, m)
         == [Append(Output(tables, dom).nodes[0], ImportChildren(tables, dom.children, true, m))]
  {
    var out := Output(tables, dom);
    TransformsResult(out.nodes[0], m);
    assert CurrentNode(out, m) == Some(out.nodes[0]);
    assert ChildMap(dom, out, m) == m;
    AssembleOne(dom, out.nodes, CurrentNode(out, m));
  }

  /** A node whose converter produces a text node or line break returns it alone; its children are dropped. */
  lemma ProducedLeafDropsChildren(tables: seq<ConversionMap>, dom: DomNode, hasBlockAncestor: bool, m: TransformMap)
    requires Importable(tables, dom) && !IsIgnored(dom)
    requires |Output(tables, dom).nodes| == 1 && !Output(tables, dom).nodes[0].Element?
    ensures RunTransforms(Output(tables, dom).nodes[0], m).Some?
    ensures ImportNode(tables, dom, hasBlockAncestor, m) == [RunTransforms(Output(tables, dom).nodes[0], m).value]
  {
    var out := Output(tables, dom);
    TransformsResult(out.nodes[0], m);
    assert CurrentNode(out, m) == RunTransforms(out.nodes[0], m);
    AssembleOne(dom, out.nodes, CurrentNode(out, m));
  }

  /** With one produced node, the result is that node, holding the children when it is an element. */
  lemma AssembleOne(dom: DomNode, nodes: seq<LNode>, current: Option<LNode>)
    requires |nodes| == 1 && current.Some?
    ensures forall kids :: Assemble(dom, nodes, current, kids)
                           == [if current.value.Element? then Append(current.value, kids) else current.value]
  {
    forall kids ensures Assemble(dom, nodes, current, kids)
                        == [if current.value.Element? then Append(current.value, kids) else current.value] {
      assert nodes[..0] == [];
    }
  }

  /** Text at the top of the body never reaches the document. */
  lemma TopLevelHasNoText(tables: seq<ConversionMap>, body: Option<DomNode>)
    requires AllImportable(tables, BodyChildren(body))
    ensures forall i :: 0 <= i < |TopLevel(tables, BodyChildren(body))| ==> !TopLevel(tables, BodyChildren(body))[i].Text?
  {
  }

  // ---------------------------------------------------------------------------
  // The engine with the registered node kinds: any tables that register them,
  // in particular `Registry()` in any order

  /** `div` is a block tag no node kind registers. */
  lemma DivHasNoConverter(tables: seq<ConversionMap>, attrs: seq<Attr>, children: seq<DomNode>)
    requires Registers(tables)
    ensures ConversionFunction(tables, Dom.Element("div", attrs, children)).None?
    ensures "div" in BlockTags && !IsIgnored(Dom.Element("div", attrs, children))
  {
    RegisteredConversion(tables, Dom.Element("div", attrs, children));
    DivUnregistered();
  }

  /** No node kind registers `div`: the only three-letter keys are `sub` and `sup`. */
  lemma DivUnregistered()
    ensures RegisteredConverter("div").None?
  {
    assert forall k :: k in AllKeys ==> |k| != 3 || k[0] == 's';
  }

  /** `p` runs the paragraph converter: one empty paragraph and no transform. */
  lemma ParagraphOutput(tables: seq<ConversionMap>, dom: DomNode)
    requires Registers(tables) && dom.Element? && dom.tag == "p" && NodeStyles.StyleReadable(dom)
    ensures ConvertibleNode(tables, dom) && !IsIgnored(dom)
    ensures Output(tables, dom) == ConversionOutput(None, [NewElement(Paragraph)])
  {
    RegisteredConversion(tables, dom);
  }

  /** `<div></div>`: a block with no converter and no children becomes a line break. */
  lemma EmptyDivIsLineBreak(tables: seq<ConversionMap>, attrs: seq<Attr>, hasBlockAncestor: bool, m: TransformMap)
    requires Registers(tables)
    ensures Importable(tables, Dom.Element("div", attrs, []))
    ensures ImportNode(tables, Dom.Element("div", attrs, []), hasBlockAncestor, m) == [LNode.LineBreak]
  {
    DivHasNoConverter(tables, attrs, []);
    EmptyBlockIsLineBreak(tables, Dom.Element("div", attrs, []), hasBlockAncestor, m);
  }

  /** `<p></p>`: the paragraph converter's node, empty, and no line break. */
  lemma EmptyParagraph(tables: seq<ConversionMap>, attrs: seq<Attr>, hasBlockAncestor: bool, m: TransformMap)
    requires Registers(tables)
    requires NodeStyles.StyleReadable(Dom.Element("p", attrs, []))
    ensures Importable(tables, Dom.Element("p", attrs, []))
    ensures ImportNode(tables, Dom.Element("p", attrs, []), hasBlockAncestor, m) == [NewElement(Paragraph)]
  {
    var dom := Dom.Element("p", attrs, []);
    ParagraphOutput(tables, dom);
    ProducedElementHoldsChildren(tables, dom, hasBlockAncestor, m);
    assert Append(NewElement(Paragraph), []) == NewElement(Paragraph);
  }

  /** `<br>`: one line break, whatever its attributes, and no transform reaches it. */
  lemma LineBreakElement(tables: seq<ConversionMap>, attrs: seq<Attr>, hasBlockAncestor: bool, m: TransformMap)
    requires Registers(tables)
    ensures Importable(tables, Dom.Element("br", attrs, []))
    ensures ImportNode(tables, Dom.Element("br", attrs, []), hasBlockAncestor, m) == [LNode.LineBreak]
  {
    var dom := Dom.Element("br", attrs, []);
    LineBreakOutput(tables, dom);
    ProducedLeafDropsChildren(tables, dom, hasBlockAncestor, m);
    TransformsResult(LNode.LineBreak, m);
  }

  /** `br` runs the line-break converter: one line break and no transform. */
  lemma LineBreakOutput(tables: seq<ConversionMap>, dom: DomNode)
    requires Registers(tables) && dom.Element? && dom.tag == "br"
    ensures ConvertibleNode(tables, dom) && !IsIgnored(dom)
    ensures Output(tables, dom) == ConversionOutput(None, [LNode.LineBreak])
  {
    RegisteredConversion(tables, dom);
  }

  /** A text leaf becomes one text node with the inherited transforms applied. */
  lemma TextLeaf(tables: seq<ConversionMap>, t: string, hasBlockAncestor: bool, m: TransformMap)
    requires Registers(tables)
    ensures Importable(tables, Dom.Text(t))
    ensures RunTransforms(CreateTextNode(t), m).Some?
    ensures ImportNode(tables, Dom.Text(t), hasBlockAncestor, m) == [RunTransforms(CreateTextNode(t), m).value]
  {
    RegisteredConversion(tables, Dom.Text(t));
    ProducedLeafDropsChildren(tables, Dom.Text(t), hasBlockAncestor, m);
  }

  /** A lone text child is imported as that one text node. */
  lemma LoneTextChild(tables: seq<ConversionMap>, t: string, hasBlockAncestor: bool, m: TransformMap)
    requires Registers(tables)
    ensures AllImportable(tables, [Dom.Text(t)])
    ensures RunTransforms(CreateTextNode(t), m).Some?
    ensures ImportChildren(tables, [Dom.Text(t)], hasBlockAncestor, m) == [RunTransforms(CreateTextNode(t), m).value]
  {
    TextLeaf(tables, t, hasBlockAncestor, m);
    ImportOneChild(tables, Dom.Text(t), hasBlockAncestor, m);
  }

  /** `<p>t</p>`: a paragraph holding the text node. */
  lemma ParagraphOfText(tables: seq<ConversionMap>, attrs: seq<Attr>, t: string, hasBlockAncestor: bool, m: TransformMap)
    requires Registers(tables)
    requires NodeStyles.StyleReadable(Dom.Element("p", attrs, [Dom.Text(t)]))
    ensures Importable(tables, Dom.Element("p", attrs, [Dom.Text(t)]))
    ensures RunTransforms(CreateTextNode(t), m).Some?
    ensures ImportNode(tables, Dom.Element("p", attrs, [Dom.Text(t)]), hasBlockAncestor, m)
         == [Append(NewElement(Paragraph), [RunTransforms(CreateTextNode(t), m).value])]
  {
    var dom := Dom.Element("p", attrs, [Dom.Text(t)]);
    LoneTextChild(tables, t, true, m);
    ParagraphOutput(tables, dom);
    ProducedElementHoldsChildren(tables, dom, hasBlockAncestor, m);
  }

  /**
   * `<div>t</div>`: with no enclosing block node the text is wrapped in a new
   * paragraph; inside one it is left as it is.
   */
  lemma DivWrapsText(tables: seq<ConversionMap>, attrs: seq<Attr>, t: string, hasBlockAncestor: bool, m: TransformMap)
    requires Registers(tables)
    ensures Importable(tables, Dom.Element("div", attrs, [Dom.Text(t)]))
    ensures RunTransforms(CreateTextNode(t), m).Some?
    ensures !hasBlockAncestor ==>
      ImportNode(tables, Dom.Element("div", attrs, [Dom.Text(t)]), hasBlockAncestor, m)
      == [Wrapper([RunTransforms(CreateTextNode(t), m).value])]
    ensures hasBlockAncestor ==>
      ImportNode(tables, Dom.Element("div", attrs, [Dom.Text(t)]), hasBlockAncestor, m)
      == [RunTransforms(CreateTextNode(t), m).value]
  {
    var dom := Dom.Element("div", attrs, [Dom.Text(t)]);
    LoneTextChild(tables, t, hasBlockAncestor, m);
    TransformsResult(CreateTextNode(t), m);
    AllInlineWrapped([RunTransforms(CreateTextNode(t), m).value]);
    DivHasNoConverter(tables, attrs, [Dom.Text(t)]);
    UnknownBlock(tables, dom, hasBlockAncestor, m);
  }

  /** A link exports as `br`, so it comes back as a line break: the link and its text are lost. */
  lemma LinkReimportsAsLineBreak(tables: seq<ConversionMap>, node: LNode, hasBlockAncestor: bool, m: TransformMap)
    requires Registers(tables)
    requires node.Element? && node.kind.Link?
    ensures Importable(tables, LinkHtml.ExportDom(node))
    ensures ImportNode(tables, LinkHtml.ExportDom(node), hasBlockAncestor, m) == [LNode.LineBreak]
  {
    assert LinkHtml.ExportDom(node) == Dom.Element("br", [], []);
    LineBreakElement(tables, [], hasBlockAncestor, m);
  }

  /** An exported paragraph comes back as an empty, unindented, left-aligned paragraph. */
  lemma ParagraphExportReimport(tables: seq<ConversionMap>, node: LNode, hasBlockAncestor: bool, m: TransformMap)
    requires Registers(tables)
    requires node.Element? && node.kind == Paragraph
    requires node.indent > 0 ==> node.indent * 40 <= Strings.MaxInt64
    ensures Importable(tables, ParagraphHtml.ExportedParagraph(node))
    ensures ImportNode(tables, ParagraphHtml.ExportedParagraph(node), hasBlockAncestor, m) == [NewElement(Paragraph)]
  {
    var dom := ParagraphHtml.ExportedParagraph(node);
    ParagraphHtml.ParagraphRoundTrip(node);
    assert dom == Dom.Element("p", dom.attrs, []);
    EmptyParagraph(tables, dom.attrs, hasBlockAncestor, m);
  }

  /**
   * A tag converter's transform reaches the descendants and never the node
   * itself: an inline element whose converter offers a transform produces no
   * node of its own, and its children are imported with the transform
   * registered under its node name.
   */
  lemma ForChildReachesChildren(tables: seq<ConversionMap>, dom: DomNode, hasBlockAncestor: bool, m: TransformMap)
    requires dom.Element? && Importable(tables, dom) && !IsIgnored(dom) && !IsBlockDomNode(dom)
    requires Output(tables, dom).forChild.Some?
    ensures Output(tables, dom).nodes == []
    ensures AllImportable(tables, dom.children)
    ensures MapAfter(tables, dom, m) == Register(m, NodeName(dom), Output(tables, dom).forChild.value)
    ensures ImportNode(tables, dom, hasBlockAncestor, m)
         == ImportChildren(tables, dom.children, hasBlockAncestor, MapAfter(tables, dom, m))
  {
  }

  // ---------------------------------------------------------------------------
  // Formatting tags, end to end

  /** `strong` is an inline tag and is not ignored. */
  lemma StrongIsInline(children: seq<DomNode>)
    ensures !IsBlockDomNode(Dom.Element("strong", [], children))
    ensures !IsIgnored(Dom.Element("strong", [], children))
  {
    assert "strong" !in BlockTags;
  }

  /** The converter for `strong` offers the bold transform with no style. */
  lemma StrongConversion(tables: seq<ConversionMap>, children: seq<DomNode>)
    requires Registers(tables)
    ensures ConvertibleNode(tables, Dom.Element("strong", [], children))
    ensures Output(tables, Dom.Element("strong", [], children))
         == ConversionOutput(Some(TextFormatTransform("", Some(Bold))), [])
  {
    RegisteredConversion(tables, Dom.Element("strong", [], children));
    assert RegisteredConverter("strong") == Some(ConvertTextFormatElement);
  }

  /** `<strong>t</strong>`: one bold text node. */
  lemma StrongTextIsBold(tables: seq<ConversionMap>, t: string, hasBlockAncestor: bool)
    requires Registers(tables)
    ensures Importable(tables, Dom.Element("strong", [], [Dom.Text(t)]))
    ensures ImportNode(tables, Dom.Element("strong", [], [Dom.Text(t)]), hasBlockAncestor, [])
         == [Nodes.Text(t, NoFormat.With(Bold), "")]
  {
    var dom := Dom.Element("strong", [], [Dom.Text(t)]);
    StrongIsInline([Dom.Text(t)]);
    StrongConversion(tables, [Dom.Text(t)]);
    TextLeaf(tables, t, hasBlockAncestor, []);
    ForChildReachesChildren(tables, dom, hasBlockAncestor, []);
    var m := [Registration("strong", TextFormatTransform("", Some(Bold)))];
    LoneTextChild(tables, t, hasBlockAncestor, m);
    assert RunTransforms(CreateTextNode(t), m) == RunTransforms(Nodes.Text(t, NoFormat.With(Bold), ""), []);
  }

  /** `<b>t</b>`: one text node with no flag set, so not bold. */
  lemma BringAttentionIsNotBold(tables: seq<ConversionMap>, t: string, hasBlockAncestor: bool)
    requires Registers(tables)
    ensures Importable(tables, Dom.Element("b", [], [Dom.Text(t)]))
    ensures ImportNode(tables, Dom.Element("b", [], [Dom.Text(t)]), hasBlockAncestor, [])
         == [Nodes.Text(t, NoFormat, "")]
  {
    var dom := Dom.Element("b", [], [Dom.Text(t)]);
    RegisteredConversion(tables, dom);
    TextLeaf(tables, t, hasBlockAncestor, []);
    InlineTagsAreInline([], [Dom.Text(t)]);
    assert Output(tables, dom) == TextHtml.ConvertBringAttention(dom);
    ForChildReachesChildren(tables, dom, hasBlockAncestor, []);
    var m := [Registration("b", TextFormatTransform("", None))];
    LoneTextChild(tables, t, hasBlockAncestor, m);
    assert RunTransforms(CreateTextNode(t), m) == RunTransforms(Nodes.Text(t, NoFormat, ""), []);
  }
}
