/**
 * The import engine: markup tree in, document nodes out. Each markup node is
 * looked up in the registered import tables, its converter runs, the child
 * transforms registered by its ancestors are applied to the node it produced,
 * its children are imported with the transform it registers, runs of inline
 * children of a block are wrapped in paragraphs, and the children end up
 * inside the produced element (or in its place when it produced none).
 */
module HtmlImport {
  import opened Wrappers
  import opened Dom
  import opened Nodes
  import opened Conversion
  import opened HtmlUtils
  import NodeStyles
  import TextHtml
  import ParagraphHtml
  import HeadingHtml
  import QuoteHtml
  import LineBreakHtml
  import ListHtml
  import ListItemHtml
  import LinkHtml

  /** `IGNORE_TAGS`: node names whose subtree is skipped. */
  const IgnoreTags: seq<string> := ["style", "script"]

  predicate IsIgnored(dom: DomNode)
    ensures IsIgnored(dom) <==> NodeName(dom) == "style" || NodeName(dom) == "script"
  {
    NodeName(dom) in IgnoreTags
  }

  // ---------------------------------------------------------------------------
  // Converter lookup

  /** The key a node's converter is looked up under: an element's tag, `#text` for a text leaf. */
  function LookupKey(dom: DomNode): (r: Option<string>)
    ensures r.Some? <==> dom.Element? || dom.Text?
    ensures dom.Element? ==> r == Some(dom.tag)
    ensures dom.Text? ==> r == Some("#text")
  {
    match TagName(dom)
    case Some(tag) => Some(tag)
    case None => if dom.Text? then Some("#text") else None
  }

  /** The converter of the first table, in registration order, that has the key. */
  function FirstMatch(tables: seq<ConversionMap>, key: string): (r: Option<ConverterId>)
    ensures r.None? <==> forall i :: 0 <= i < |tables| ==> key !in tables[i]
    ensures r.Some? ==> exists i :: 0 <= i < |tables| && key in tables[i] && tables[i][key] == r.value
                                   && forall j :: 0 <= j < i ==> key !in tables[j]
  {
    if tables == [] then None
    else if key in tables[0] then Some(tables[0][key])
    else
      var r := FirstMatch(tables[1..], key);
      assert r.Some? ==> exists i :: 0 <= i < |tables| && key in tables[i] && tables[i][key] == r.value
                                     && forall j :: 0 <= j < i ==> key !in tables[j] by {
        if r.Some? {
          var i :| 0 <= i < |tables[1..]| && key in tables[1..][i] && tables[1..][i][key] == r.value
                   && forall j :: 0 <= j < i ==> key !in tables[1..][j];
          assert forall j :: 0 <= j < i + 1 ==> key !in tables[j] by {
            forall j | 0 <= j < i + 1 ensures key !in tables[j] {
              if j > 0 {
                assert tables[j] == tables[1..][j - 1];
              }
            }
          }
        }
      }
      r
  }

  /**
   * `getConversionFunction`: the converter registered for the node's key by
   * the first registered node kind whose import table has it; none for a leaf
   * that is neither an element nor text.
   */
  function ConversionFunction(tables: seq<ConversionMap>, dom: DomNode): (r: Option<ConverterId>)
    ensures !(dom.Element? || dom.Text?) ==> r.None?
    ensures (dom.Element? || dom.Text?) ==> r == FirstMatch(tables, LookupKey(dom).value)
  {
    match LookupKey(dom)
    case Some(key) => FirstMatch(tables, key)
    case None => None
  }

  /** What a converter needs of its node to run without trapping: a readable style attribute. */
  predicate ConverterRequires(c: ConverterId, dom: DomNode) {
    match c
    case ConvertParagraphElement => NodeStyles.StyleReadable(dom)
    case ConvertListItemElement => NodeStyles.StyleReadable(dom)
    case _ => true
  }

  /**
   * Runs a converter. No converter produces more than one node, and none
   * both produces a node and offers a child transform.
   */
  function RunConverter(c: ConverterId, dom: DomNode): (r: ConversionOutput)
    requires ConverterRequires(c, dom)
    ensures |r.nodes| <= 1
    ensures r.forChild.Some? ==> r.nodes == []
  {
    match c
    case ConvertTextDomNode => TextHtml.ConvertTextDom(dom)
    case ConvertBringAttentionToElement => TextHtml.ConvertBringAttention(dom)
    case ConvertTextFormatElement => TextHtml.ConvertTextFormat(dom)
    case ConvertSpanElement => TextHtml.ConvertSpan(dom)
    case ConvertParagraphElement => ParagraphHtml.ConvertParagraph(dom)
    case ConvertHeadingElement => HeadingHtml.ConvertHeading(dom)
    case ConvertBlockquoteElement => QuoteHtml.ConvertBlockquote(dom)
    case ConvertLineBreakElement => LineBreakHtml.ConvertLineBreak(dom)
    case ConvertListNode => ListHtml.ConvertList(dom)
    case ConvertListItemElement => ListItemHtml.ConvertListItem(dom)
    case ConvertAnchorElement => LinkHtml.ConvertAnchor(dom)
  }

  /** The node's own converter can run: true when it has none. */
  predicate ConvertibleNode(tables: seq<ConversionMap>, dom: DomNode) {
    match ConversionFunction(tables, dom)
    case Some(c) => ConverterRequires(c, dom)
    case None => true
  }

  /** Importing the subtree reaches no converter that traps: ignored subtrees are never visited. */
  predicate Importable(tables: seq<ConversionMap>, dom: DomNode)
    decreases dom
  {
    IsIgnored(dom) ||
    (ConvertibleNode(tables, dom) &&
     match dom
     case Element(_, _, children) => forall i | 0 <= i < |children| :: Importable(tables, children[i])
     case _ => true)
  }

  predicate AllImportable(tables: seq<ConversionMap>, nodes: seq<DomNode>) {
    forall i | 0 <= i < |nodes| :: Importable(tables, nodes[i])
  }

  /** The output of the node's converter; no nodes and no transform when it has none. */
  function Output(tables: seq<ConversionMap>, dom: DomNode): (r: ConversionOutput)
    requires ConvertibleNode(tables, dom)
    ensures |r.nodes| <= 1
    ensures r.forChild.Some? ==> r.nodes == []
    ensures ConversionFunction(tables, dom).None? ==> r == NoOutput
  {
    match ConversionFunction(tables, dom)
    case Some(c) => RunConverter(c, dom)
    case None => NoOutput
  }

  // ---------------------------------------------------------------------------
  // Child transforms

  /** One entry of the `forChildMap` dictionary. */
  datatype Registration = Registration(name: string, transform: ChildTransform)

  /**
   * `forChildMap`, kept as a list in insertion order. The dictionary's
   * iteration order is unspecified; the properties proved about the
   * transforms do not depend on it, except where said.
   */
  type TransformMap = seq<Registration>

  predicate UniqueNames(m: TransformMap) {
    forall i, j :: 0 <= i < j < |m| ==> m[i].name != m[j].name
  }

  /** The transform stored under `name`. */
  function Lookup(m: TransformMap, name: string): (r: Option<ChildTransform>)
    ensures r.None? <==> forall i :: 0 <= i < |m| ==> m[i].name != name
    ensures r.Some? ==> exists i :: 0 <= i < |m| && m[i] == Registration(name, r.value)
  {
    if m == [] then None
    else if m[0].name == name then Some(m[0].transform)
    else
      var r := Lookup(m[1..], name);
      assert r.Some? ==> exists i :: 0 <= i < |m| && m[i] == Registration(name, r.value) by {
        if r.Some? {
          var i :| 0 <= i < |m[1..]| && m[1..][i] == Registration(name, r.value);
          assert m[i + 1] == Registration(name, r.value);
        }
      }
      r
  }

  /**
   * `forChildMap[name] = transform`: the entry for `name` is replaced where it
   * is, or added at the end; every other entry stays.
   */
  function Register(m: TransformMap, name: string, t: ChildTransform): (r: TransformMap)
    ensures Lookup(r, name) == Some(t)
    ensures forall k :: k != name ==> Lookup(r, k) == Lookup(m, k)
    ensures UniqueNames(m) ==> UniqueNames(r)
    ensures |r| == |m| + (if Lookup(m, name).None? then 1 else 0)
    decreases |m|
  {
    if m == [] then [Registration(name, t)]
    else if m[0].name == name then [Registration(name, t)] + m[1..]
    else
      var rest := Register(m[1..], name, t);
      assert forall k :: Lookup([m[0]] + rest, k) == if m[0].name == k then Some(m[0].transform) else Lookup(rest, k) by {
        forall k ensures Lookup([m[0]] + rest, k) == if m[0].name == k then Some(m[0].transform) else Lookup(rest, k) {
          assert ([m[0]] + rest)[1..] == rest;
        }
      }
      UniqueAfterRegister(m, rest, name, t);
      [m[0]] + rest
  }

  lemma UniqueAfterRegister(m: TransformMap, rest: TransformMap, name: string, t: ChildTransform)
    requires m != [] && m[0].name != name
    requires forall k :: k != name ==> Lookup(rest, k) == Lookup(m[1..], k)
    requires Lookup(rest, name) == Some(t)
    requires UniqueNames(m[1..]) ==> UniqueNames(rest)
    ensures UniqueNames(m) ==> UniqueNames([m[0]] + rest)
  {
    if UniqueNames(m) {
      var r := [m[0]] + rest;
      assert UniqueNames(m[1..]);
      assert Lookup(m[1..], m[0].name).None? by {
        forall i | 0 <= i < |m[1..]| ensures m[1..][i].name != m[0].name {
          assert m[1..][i] == m[i + 1];
        }
      }
      assert Lookup(rest, m[0].name).None?;
      forall i, j | 0 <= i < j < |r| ensures r[i].name != r[j].name {
        if i == 0 {
          assert r[j] == rest[j - 1];
        } else {
          assert r[i] == rest[i - 1] && r[j] == rest[j - 1];
        }
      }
    }
  }

  /**
   * The `for (_, forChildFunction) in forChildMap` loop: every transform in
   * turn, stopping at the first that returns nil.
   */
  function RunTransforms(node: LNode, m: TransformMap): (r: Option<LNode>)
    ensures r.Some?
    ensures !node.Text? ==> r == Some(node)
    decreases |m|
  {
    if m == [] then Some(node)
    else
      match TextHtml.ApplyChildTransform(m[0].transform, node)
      case Some(next) => RunTransforms(next, m[1..])
      case None => None
  }

  /** Whether some registered transform sets the flag. */
  predicate SetsFlag(m: TransformMap, g: FormatFlag) {
    exists i :: 0 <= i < |m| && m[i].transform.flag == Some(g)
  }

  /**
   * The transforms never drop a node and leave anything but text as it is;
   * a text node keeps its text, gains exactly the registered flags, and takes
   * the style of one of the registered transforms (the last one in iteration
   * order), or keeps its own when none is registered.
   */
  lemma {:induction false} TransformsResult(node: LNode, m: TransformMap)
    ensures RunTransforms(node, m).Some?
    ensures !node.Text? ==> RunTransforms(node, m).value == node
    ensures node.Text? ==> RunTransforms(node, m).value.Text? && RunTransforms(node, m).value.text == node.text
    ensures node.Text? ==> forall g :: RunTransforms(node, m).value.textFormat.Has(g) <==> node.textFormat.Has(g) || SetsFlag(m, g)
    ensures node.Text? && m == [] ==> RunTransforms(node, m).value.style == node.style
    ensures node.Text? && m != [] ==> RunTransforms(node, m).value.style == m[|m| - 1].transform.style
    decreases |m|
  {
    if m != [] {
      var next := TextHtml.ApplyChildTransform(m[0].transform, node).value;
      TransformsResult(next, m[1..]);
      if node.Text? {
        forall g ensures SetsFlag(m, g) <==> m[0].transform.flag == Some(g) || SetsFlag(m[1..], g) {
          if SetsFlag(m[1..], g) {
            var i :| 0 <= i < |m[1..]| && m[1..][i].transform.flag == Some(g);
            assert m[i + 1] == m[1..][i];
          }
          if SetsFlag(m, g) && m[0].transform.flag != Some(g) {
            var i :| 0 <= i < |m| && m[i].transform.flag == Some(g);
            assert m[1..][i - 1] == m[i];
          }
        }
        if m[1..] != [] {
          assert m[1..][|m[1..]| - 1] == m[|m| - 1];
        }
      }
    }
  }

  /**
   * The iteration order of the dictionary decides only the style: two maps
   * holding the same registrations give the same node up to its style, and
   * the same node outright when all their styles agree.
   */
  lemma TransformOrderOnlyAffectsStyle(node: LNode, m1: TransformMap, m2: TransformMap)
    requires multiset(m1) == multiset(m2)
    ensures node.Text? ==> SameUpToStyle(RunTransforms(node, m1), RunTransforms(node, m2))
    ensures !node.Text? ==> RunTransforms(node, m1) == RunTransforms(node, m2)
    ensures (forall i, j :: 0 <= i < |m1| && 0 <= j < |m2| ==> m1[i].transform.style == m2[j].transform.style)
         ==> RunTransforms(node, m1) == RunTransforms(node, m2)
  {
    TransformsResult(node, m1);
    TransformsResult(node, m2);
    forall g ensures SetsFlag(m1, g) <==> SetsFlag(m2, g) {
      if SetsFlag(m1, g) {
        var i :| 0 <= i < |m1| && m1[i].transform.flag == Some(g);
        assert m1[i] in multiset(m2);
      }
      if SetsFlag(m2, g) {
        var i :| 0 <= i < |m2| && m2[i].transform.flag == Some(g);
        assert m2[i] in multiset(m1);
      }
    }
    if node.Text? {
      var r1 := RunTransforms(node, m1).value;
      var r2 := RunTransforms(node, m2).value;
      FormatExtensional(r1.textFormat, r2.textFormat);
      assert |m1| == |m2| by {
        assert |multiset(m1)| == |multiset(m2)|;
      }
    }
  }

  /** Two transform results that are text nodes differing at most in their style. */
  predicate SameUpToStyle(a: Option<LNode>, b: Option<LNode>) {
    a.Some? && b.Some? && a.value.Text? && b.value.Text?
    && a.value.text == b.value.text && a.value.textFormat == b.value.textFormat
  }

  /** Two formats with the same flags are the same format. */
  lemma FormatExtensional(f1: TextFormat, f2: TextFormat)
    requires forall g :: f1.Has(g) <==> f2.Has(g)
    ensures f1 == f2
  {
    assert f1.Has(Bold) == f2.Has(Bold) && f1.Has(Italic) == f2.Has(Italic);
    assert f1.Has(Strikethrough) == f2.Has(Strikethrough) && f1.Has(Underline) == f2.Has(Underline);
    assert f1.Has(Code) == f2.Has(Code) && f1.Has(SubScript) == f2.Has(SubScript);
    assert f1.Has(SuperScript) == f2.Has(SuperScript);
  }

  // ---------------------------------------------------------------------------
  // Wrapping runs of inline nodes

  /** A stretch of a block's children: an element kept as it is, or a maximal run of inline nodes. */
  datatype Segment = Kept(node: LNode) | Run(nodes: seq<LNode>)

  /** One step of the scan: an element is kept; an inline node extends the open run or opens one. */
  function Step(p: seq<Segment>, x: LNode): (q: seq<Segment>)
  {
    if x.Element? then p + [Kept(x)]
    else if p != [] && p[|p| - 1].Run? then p[..|p| - 1] + [Run(p[|p| - 1].nodes + [x])]
    else p + [Run([x])]
  }

  /** The children cut into segments, scanning from the left. */
  function Segments(nodes: seq<LNode>): seq<Segment>
    decreases |nodes|
  {
    if nodes == [] then [] else Step(Segments(nodes[..|nodes| - 1]), nodes[|nodes| - 1])
  }

  lemma SegmentsSnoc(init: seq<LNode>, x: LNode)
    ensures Segments(init + [x]) == Step(Segments(init), x)
  {
    assert (init + [x])[..|init + [x]| - 1] == init;
  }

  /** The new paragraph a run of inline nodes is moved into. */
  function Wrapper(run: seq<LNode>): (r: LNode)
    ensures r.Element? && r.kind == Paragraph && r.children == run
  {
    Append(CreateParagraphNode(), run)
  }

  /** The node each segment becomes. */
  function Outputs(segs: seq<Segment>): (r: seq<LNode>)
    ensures |r| == |segs|
    decreases |segs|
  {
    if segs == [] then []
    else
      var x := segs[|segs| - 1];
      Outputs(segs[..|segs| - 1]) + [if x.Kept? then x.node else Wrapper(x.nodes)]
  }

  /** The nodes a list of segments holds, in order. */
  function Joined(segs: seq<Segment>): seq<LNode>
    decreases |segs|
  {
    if segs == [] then []
    else
      var x := segs[|segs| - 1];
      Joined(segs[..|segs| - 1]) + (if x.Kept? then [x.node] else x.nodes)
  }

  /**
   * Segments are well formed: kept nodes are elements, runs are non-empty,
   * hold no element, and no two runs are adjacent (each run is maximal).
   */
  predicate WellSegmented(segs: seq<Segment>) {
    (forall i :: 0 <= i < |segs| && segs[i].Kept? ==> segs[i].node.Element?)
    && (forall i :: 0 <= i < |segs| && segs[i].Run? ==>
          segs[i].nodes != [] && forall k :: 0 <= k < |segs[i].nodes| ==> !segs[i].nodes[k].Element?)
    && (forall i :: 0 <= i < |segs| - 1 ==> !(segs[i].Run? && segs[i + 1].Run?))
  }

  /** The segmentation loses nothing and reorders nothing, and its runs are maximal. */
  lemma {:induction false} SegmentsPartition(nodes: seq<LNode>)
    ensures Joined(Segments(nodes)) == nodes
    ensures WellSegmented(Segments(nodes))
    decreases |nodes|
  {
    if nodes != [] {
      var n := |nodes|;
      var init := nodes[..n - 1];
      SegmentsPartition(init);
      assert nodes == init + [nodes[n - 1]];
      SegmentsSnoc(init, nodes[n - 1]);
      StepPartition(Segments(init), nodes[n - 1]);
    }
  }

  /** One step keeps the segmentation well formed and adds exactly the new node at the end. */
  lemma StepPartition(p: seq<Segment>, x: LNode)
    requires WellSegmented(p)
    ensures Joined(Step(p, x)) == Joined(p) + [x]
    ensures WellSegmented(Step(p, x))
  {
    var q := Step(p, x);
    if x.Element? {
      JoinedSnoc(p, Kept(x));
      WellSegmentedSnoc(p, Kept(x));
    } else if p != [] && p[|p| - 1].Run? {
      StepExtendsRun(p, x);
    } else {
      JoinedSnoc(p, Run([x]));
      WellSegmentedSnoc(p, Run([x]));
    }
  }

  /** An inline node after an open run joins that run. */
  lemma StepExtendsRun(p: seq<Segment>, x: LNode)
    requires WellSegmented(p) && !x.Element? && p != [] && p[|p| - 1].Run?
    ensures Joined(Step(p, x)) == Joined(p) + [x]
    ensures WellSegmented(Step(p, x))
  {
    ExtendedRunJoined(p, x);
    ExtendedRunWellSegmented(p, x);
  }

  lemma ExtendedRunJoined(p: seq<Segment>, x: LNode)
    requires !x.Element? && p != [] && p[|p| - 1].Run?
    ensures Joined(Step(p, x)) == Joined(p) + [x]
  {
    var init, last := p[..|p| - 1], p[|p| - 1];
    LastSplit(p);
    JoinedSnoc(init, last);
    JoinedSnoc(init, Run(last.nodes + [x]));
    ConcatAssoc(Joined(init), last.nodes, [x]);
  }

  lemma ExtendedRunWellSegmented(p: seq<Segment>, x: LNode)
    requires WellSegmented(p) && !x.Element? && p != [] && p[|p| - 1].Run?
    ensures WellSegmented(Step(p, x))
  {
    var init, last := p[..|p| - 1], p[|p| - 1];
    var run := last.nodes + [x];
    WellSegmentedInit(p);
    assert forall k :: 0 <= k < |run| ==> !run[k].Element? by {
      assert forall k :: 0 <= k < |last.nodes| ==> !last.nodes[k].Element?;
      assert forall k :: 0 <= k < |last.nodes| ==> run[k] == last.nodes[k];
    }
    WellSegmentedSnoc(init, Run(run));
  }

  lemma ConcatAssoc<T>(a: seq<T>, b: seq<T>, c: seq<T>)
    ensures a + (b + c) == (a + b) + c
  {
  }

  /** A non-empty sequence is its prefix followed by its last element. */
  lemma LastSplit<T>(s: seq<T>)
    requires s != []
    ensures s == s[..|s| - 1] + [s[|s| - 1]]
  {
  }

  /** Dropping the last segment keeps the segmentation well formed, and the new last segment is no run. */
  lemma WellSegmentedInit(p: seq<Segment>)
    requires WellSegmented(p) && p != [] && p[|p| - 1].Run?
    ensures WellSegmented(p[..|p| - 1])
    ensures |p| > 1 ==> !p[|p| - 2].Run?
  {
    var init := p[..|p| - 1];
    assert forall i :: 0 <= i < |init| ==> init[i] == p[i];
  }

  lemma JoinedSnoc(segs: seq<Segment>, x: Segment)
    ensures Joined(segs + [x]) == Joined(segs) + (if x.Kept? then [x.node] else x.nodes)
  {
    assert (segs + [x])[..|segs + [x]| - 1] == segs;
  }

  lemma WellSegmentedSnoc(segs: seq<Segment>, x: Segment)
    requires WellSegmented(segs)
    requires x.Kept? ==> x.node.Element?
    requires x.Run? ==> x.nodes != [] && forall k :: 0 <= k < |x.nodes| ==> !x.nodes[k].Element?
    requires x.Run? && segs != [] ==> !segs[|segs| - 1].Run?
    ensures WellSegmented(segs + [x])
  {
    var q := segs + [x];
    forall i | 0 <= i < |q| - 1 ensures !(q[i].Run? && q[i + 1].Run?) {
      assert q[i] == segs[i];
    }
  }

  /** `wrapContinuousInlines`: every segment's node, so every result is an element. */
  function WrapInlines(nodes: seq<LNode>): (r: seq<LNode>)
  {
    Outputs(Segments(nodes))
  }

  /**
   * Wrapping leaves only elements: the elements among the children, in their
   * order, and one new paragraph per maximal run of inline children holding
   * that run; no more nodes than there were.
   */
  lemma WrapInlinesResult(nodes: seq<LNode>)
    ensures forall i :: 0 <= i < |WrapInlines(nodes)| ==> WrapInlines(nodes)[i].Element?
    ensures |WrapInlines(nodes)| <= |nodes|
    ensures (forall i :: 0 <= i < |nodes| ==> nodes[i].Element?) ==> WrapInlines(nodes) == nodes
  {
    SegmentsPartition(nodes);
    OutputsAreElements(Segments(nodes));
    JoinedLength(Segments(nodes));
    if forall i :: 0 <= i < |nodes| ==> nodes[i].Element? {
      AllElementsKept(nodes);
    }
  }

  lemma {:induction false} OutputsAreElements(segs: seq<Segment>)
    requires forall i :: 0 <= i < |segs| && segs[i].Kept? ==> segs[i].node.Element?
    ensures forall i :: 0 <= i < |Outputs(segs)| ==> Outputs(segs)[i].Element?
    decreases |segs|
  {
    if segs != [] {
      OutputsAreElements(segs[..|segs| - 1]);
    }
  }

  lemma {:induction false} JoinedLength(segs: seq<Segment>)
    requires forall i :: 0 <= i < |segs| && segs[i].Run? ==> segs[i].nodes != []
    ensures |segs| <= |Joined(segs)|
    decreases |segs|
  {
    if segs != [] {
      JoinedLength(segs[..|segs| - 1]);
    }
  }

  lemma {:induction false} AllElementsKept(nodes: seq<LNode>)
    requires forall i :: 0 <= i < |nodes| ==> nodes[i].Element?
    ensures WrapInlines(nodes) == nodes
    ensures Segments(nodes) == seq(|nodes|, i requires 0 <= i < |nodes| => Kept(nodes[i]))
    decreases |nodes|
  {
    if nodes != [] {
      var n := |nodes|;
      AllElementsKept(nodes[..n - 1]);
      var segs := Segments(nodes);
      assert segs[..|segs| - 1] == Segments(nodes[..n - 1]);
      assert nodes == nodes[..n - 1] + [nodes[n - 1]];
    }
  }

  /** Inline nodes alone become exactly one paragraph holding all of them. */
  lemma {:induction false} AllInlineWrapped(nodes: seq<LNode>)
    requires nodes != [] && forall i :: 0 <= i < |nodes| ==> !nodes[i].Element?
    ensures Segments(nodes) == [Run(nodes)]
    ensures WrapInlines(nodes) == [Wrapper(nodes)]
    decreases |nodes|
  {
    var n := |nodes|;
    var init := nodes[..n - 1];
    var x := nodes[n - 1];
    assert nodes == init + [x];
    SegmentsSnoc(init, x);
    if n > 1 {
      AllInlineWrapped(init);
      assert Step([Run(init)], x) == [Run(init + [x])];
    } else {
      assert init == [];
      assert Step([], x) == [Run([x])];
    }
    OutputsSnoc([], Run(nodes));
    assert [] + [Run(nodes)] == [Run(nodes)];
  }

  /**
   * The loop of `wrapContinuousInlines`: elements are copied out; inline
   * nodes gather into a run that is moved into a new paragraph when the next
   * node is an element or there is no next node.
   */
  method WrapContinuousInlines(nodes: seq<LNode>) returns (out: seq<LNode>)
    ensures out == WrapInlines(nodes)
  {
    out := [];
    var continuousInlines: seq<LNode> := [];
    for i := 0 to |nodes|
      invariant WrapInvariant(nodes, i, out, continuousInlines)
    {
      var node := nodes[i];
      if node.Element? {
        ElementStep(nodes, i, out, continuousInlines);
        out := out + [node];
      } else {
        InlineStep(nodes, i, out, continuousInlines);
        continuousInlines := continuousInlines + [node];
        if i == |nodes| - 1 || (i < |nodes| - 1 && nodes[i + 1].Element?) {
          var wrapper := Append(CreateParagraphNode(), continuousInlines);
          out := out + [wrapper];
          continuousInlines := [];
        }
      }
    }
    assert nodes[..|nodes|] == nodes;
  }

  /**
   * The loop's invariant after `i` nodes: the output so far, with the open run
   * wrapped, is the wrapping of the prefix; an open run is the prefix's last
   * segment and the next node continues it; a closed run was followed by an element.
   */
  ghost predicate WrapInvariant(nodes: seq<LNode>, i: int, out: seq<LNode>, run: seq<LNode>) {
    0 <= i <= |nodes|
    && out + (if run == [] then [] else [Wrapper(run)]) == Outputs(Segments(nodes[..i]))
    && (run != [] ==> Segments(nodes[..i]) != [] && Segments(nodes[..i])[|Segments(nodes[..i])| - 1] == Run(run))
    && (run != [] ==> i < |nodes| && !nodes[i].Element?)
    && (run == [] && 0 < i < |nodes| && !nodes[i - 1].Element? ==> nodes[i].Element?)
  }

  lemma ElementStep(nodes: seq<LNode>, i: int, out: seq<LNode>, run: seq<LNode>)
    requires WrapInvariant(nodes, i, out, run) && i < |nodes| && nodes[i].Element?
    ensures run == [] && WrapInvariant(nodes, i + 1, out + [nodes[i]], [])
  {
    assert nodes[..i + 1] == nodes[..i] + [nodes[i]];
    SegmentsSnoc(nodes[..i], nodes[i]);
    OutputsSnoc(Segments(nodes[..i]), Kept(nodes[i]));
  }

  lemma InlineStep(nodes: seq<LNode>, i: int, out: seq<LNode>, run: seq<LNode>)
    requires WrapInvariant(nodes, i, out, run) && i < |nodes| && !nodes[i].Element?
    ensures i == |nodes| - 1 || nodes[i + 1].Element? ==>
      WrapInvariant(nodes, i + 1, out + [Wrapper(run + [nodes[i]])], [])
    ensures !(i == |nodes| - 1 || nodes[i + 1].Element?) ==>
      WrapInvariant(nodes, i + 1, out, run + [nodes[i]])
  {
    InlineExtend(nodes, i, out, run);
  }

  lemma InlineExtend(nodes: seq<LNode>, i: int, out: seq<LNode>, run: seq<LNode>)
    requires WrapInvariant(nodes, i, out, run) && i < |nodes| && !nodes[i].Element?
    ensures out + [Wrapper(run + [nodes[i]])] == Outputs(Segments(nodes[..i + 1]))
    ensures Segments(nodes[..i + 1]) != []
    ensures Segments(nodes[..i + 1])[|Segments(nodes[..i + 1])| - 1] == Run(run + [nodes[i]])
  {
    var node := nodes[i];
    assert nodes[..i + 1] == nodes[..i] + [node];
    SegmentsSnoc(nodes[..i], node);
    if run == [] {
      InlineOpens(nodes, i, out);
    } else {
      InlineContinues(nodes, i, out, run);
    }
  }

  /** A non-element after an element (or at the start) opens a new run. */
  lemma InlineOpens(nodes: seq<LNode>, i: int, out: seq<LNode>)
    requires WrapInvariant(nodes, i, out, []) && i < |nodes| && !nodes[i].Element?
    requires Segments(nodes[..i + 1]) == Step(Segments(nodes[..i]), nodes[i])
    ensures out + [Wrapper([nodes[i]])] == Outputs(Segments(nodes[..i + 1]))
    ensures Segments(nodes[..i + 1]) != []
    ensures Segments(nodes[..i + 1])[|Segments(nodes[..i + 1])| - 1] == Run([nodes[i]])
  {
    var node := nodes[i];
    var p := Segments(nodes[..i]);
    if i > 0 {
      assert nodes[..i] == nodes[..i - 1] + [nodes[i - 1]];
      SegmentsSnoc(nodes[..i - 1], nodes[i - 1]);
    } else {
      assert nodes[..i] == [];
    }
    assert [] + [node] == [node];
    OutputsSnoc(p, Run([node]));
  }

  /** A non-element after a non-element extends the open run. */
  lemma InlineContinues(nodes: seq<LNode>, i: int, out: seq<LNode>, run: seq<LNode>)
    requires WrapInvariant(nodes, i, out, run) && run != [] && i < |nodes| && !nodes[i].Element?
    requires Segments(nodes[..i + 1]) == Step(Segments(nodes[..i]), nodes[i])
    ensures out + [Wrapper(run + [nodes[i]])] == Outputs(Segments(nodes[..i + 1]))
    ensures Segments(nodes[..i + 1]) != []
    ensures Segments(nodes[..i + 1])[|Segments(nodes[..i + 1])| - 1] == Run(run + [nodes[i]])
  {
    var node := nodes[i];
    var p := Segments(nodes[..i]);
    var init := p[..|p| - 1];
    LastSplit(p);
    OutputsSnoc(init, Run(run));
    OutputsSnoc(init, Run(run + [node]));
    assert |out| == |Outputs(init)|;
    assert out == (out + [Wrapper(run)])[..|out|] == Outputs(init);
    assert Step(p, node) == init + [Run(run + [node])];
  }

  lemma OutputsSnoc(segs: seq<Segment>, x: Segment)
    ensures Outputs(segs + [x]) == Outputs(segs) + [if x.Kept? then x.node else Wrapper(x.nodes)]
  {
    assert (segs + [x])[..|segs + [x]| - 1] == segs;
  }

  // ---------------------------------------------------------------------------
  // Import of one node and of its children

  /**
   * `hasBlockAncestorLexicalNodeForChildren`: false below a root or shadow
   * root; otherwise true below a produced element or when it already held.
   */
  function ChildrenHaveBlockAncestor(current: Option<LNode>, hasBlockAncestor: bool): (r: bool)
    ensures current.None? ==> r == hasBlockAncestor
    ensures current.Some? && !current.value.Element? ==> r == hasBlockAncestor
    ensures current.Some? && current.value.Element? ==> r == !(current.value.kind.Root? || current.value.shadowRoot)
  {
    if current.Some? && IsRootOrShadowRoot(current.value) then false
    else (current.Some? && current.value.Element?) || hasBlockAncestor
  }

  /** The converter's last node after the inherited transforms, or nil when it produced none. */
  function CurrentNode(out: ConversionOutput, m: TransformMap): (r: Option<LNode>)
    ensures r.Some? <==> out.nodes != []
  {
    if out.nodes == [] then None
    else
      TransformsResult(out.nodes[|out.nodes| - 1], m);
      RunTransforms(out.nodes[|out.nodes| - 1], m)
  }

  /** The map the node's children inherit: its own transform registered under its node name. */
  function ChildMap(dom: DomNode, out: ConversionOutput, m: TransformMap): (r: TransformMap)
    ensures out.forChild.None? ==> r == m
    ensures out.forChild.Some? ==> Lookup(r, NodeName(dom)) == out.forChild
  {
    if out.forChild.Some? then Register(m, NodeName(dom), out.forChild.value) else m
  }

  /**
   * What is returned for a node once its children are imported: with no
   * produced node, the children, or a line break for a childless block, or
   * nothing; with a produced element, the converter's nodes with the children
   * appended to the last; with another produced node, the converter's nodes
   * alone (the children are dropped).
   */
  function Assemble(dom: DomNode, nodes: seq<LNode>, current: Option<LNode>, kids: seq<LNode>): (r: seq<LNode>)
    requires current.Some? ==> nodes != []
    ensures current.None? && kids != [] ==> r == kids
    ensures current.None? && kids == [] ==> r == (if IsBlockDomNode(dom) then [LNode.LineBreak] else [])
    ensures current.Some? ==> |r| == |nodes| && r[..|nodes| - 1] == nodes[..|nodes| - 1]
    ensures current.Some? && current.value.Element? ==> r[|r| - 1] == Append(current.value, kids)
    ensures current.Some? && !current.value.Element? ==> r[|r| - 1] == current.value
  {
    if current.None? then
      if |kids| > 0 then kids else if IsBlockDomNode(dom) then [CreateLineBreakNode()] else []
    else
      nodes[..|nodes| - 1] + [if current.value.Element? then Append(current.value, kids) else current.value]
  }

  /**
   * `createNodeFromDOM` as a function: the nodes returned for `dom`, given
   * whether a block-level document node encloses it and the transforms its
   * ancestors registered.
   */
  function ImportNode(tables: seq<ConversionMap>, dom: DomNode, hasBlockAncestor: bool, m: TransformMap): seq<LNode>
    requires Importable(tables, dom)
    decreases dom
  {
    if IsIgnored(dom) then []
    else
      var out := Output(tables, dom);
      var current := CurrentNode(out, m);
      var forChildren := ChildrenHaveBlockAncestor(current, hasBlockAncestor);
      var imported := if dom.Element? then ImportChildren(tables, dom.children, forChildren, ChildMap(dom, out, m)) else [];
      var kids := if IsBlockDomNode(dom) && !forChildren then WrapInlines(imported) else imported;
      Assemble(dom, out.nodes, current, kids)
  }

  /** The children imported one after the other, each with its own copy of the same map. */
  function ImportChildren(tables: seq<ConversionMap>, children: seq<DomNode>, hasBlockAncestor: bool, m: TransformMap): seq<LNode>
    requires AllImportable(tables, children)
    decreases children
  {
    if children == [] then []
    else
      var n := |children|;
      ImportChildren(tables, children[..n - 1], hasBlockAncestor, m)
      + ImportNode(tables, children[n - 1], hasBlockAncestor, m)
  }

  /** The value `forChildMap` holds when `createNodeFromDOM` returns. */
  function MapAfter(tables: seq<ConversionMap>, dom: DomNode, m: TransformMap): (r: TransformMap)
    requires Importable(tables, dom)
    ensures IsIgnored(dom) ==> r == m
  {
    if IsIgnored(dom) then m else ChildMap(dom, Output(tables, dom), m)
  }

  /**
   * `createNodeFromDOM`: converts the node, runs the inherited transforms on
   * what it produced (stopping at a nil), records its own transform, imports
   * the children each with a copy of the map, wraps inline runs under a block
   * that has no enclosing block node, and puts the children in place.
   */
  method CreateNodeFromDom(tables: seq<ConversionMap>, element: DomNode, hasBlockAncestor: bool, forChildMap: TransformMap)
    returns (nodes: seq<LNode>, forChildMapOut: TransformMap)
    requires Importable(tables, element)
    ensures nodes == ImportNode(tables, element, hasBlockAncestor, forChildMap)
    ensures forChildMapOut == MapAfter(tables, element, forChildMap)
    decreases element
  {
    forChildMapOut := forChildMap;
    if IsIgnored(element) {
      return [], forChildMapOut;
    }
    var transformNodes, currentLexicalNode, lexicalNodes;
    transformNodes, currentLexicalNode, lexicalNodes, forChildMapOut := RunConversion(tables, element, forChildMap);
    var hasBlockAncestorForChildren := ChildrenHaveBlockAncestor(currentLexicalNode, hasBlockAncestor);
    var childLexicalNodes: seq<LNode> := [];
    if element.Element? {
      childLexicalNodes := CreateChildNodes(tables, element.children, hasBlockAncestorForChildren, forChildMapOut);
    }
    if IsBlockDomNode(element) && !hasBlockAncestorForChildren {
      childLexicalNodes := WrapContinuousInlines(childLexicalNodes);
    }
    nodes := AssembleNodes(element, transformNodes, currentLexicalNode, lexicalNodes, childLexicalNodes);
  }

  /**
   * The end of `createNodeFromDOM`: with no produced node, the children (or a
   * line break for a childless block); with a produced element, the children
   * appended to it.
   */
  method AssembleNodes(element: DomNode, transformNodes: seq<LNode>, currentLexicalNode: Option<LNode>,
                       lexicalNodes: seq<LNode>, childLexicalNodes: seq<LNode>) returns (nodes: seq<LNode>)
    requires currentLexicalNode.Some? ==>
      transformNodes != [] && lexicalNodes == transformNodes[..|transformNodes| - 1] + [currentLexicalNode.value]
    requires currentLexicalNode.None? ==> lexicalNodes == []
    ensures nodes == Assemble(element, transformNodes, currentLexicalNode, childLexicalNodes)
  {
    nodes := lexicalNodes;
    if currentLexicalNode.None? {
      if |childLexicalNodes| > 0 {
        nodes := nodes + childLexicalNodes;
      } else if IsBlockDomNode(element) {
        nodes := nodes + [CreateLineBreakNode()];
      }
    } else if currentLexicalNode.value.Element? {
      // The produced element is the last node returned; the children go into it.
      nodes := nodes[..|nodes| - 1] + [Append(currentLexicalNode.value, childLexicalNodes)];
    }
  }

  /**
   * The first half of `createNodeFromDOM`: runs the node's converter, runs the
   * inherited transforms on the last node it produced, keeps the produced
   * nodes with the transformed one last, and registers the node's own child
   * transform under its node name.
   */
  method RunConversion(tables: seq<ConversionMap>, element: DomNode, forChildMap: TransformMap)
    returns (transformNodes: seq<LNode>, currentLexicalNode: Option<LNode>, lexicalNodes: seq<LNode>, forChildMapOut: TransformMap)
    requires ConvertibleNode(tables, element)
    ensures transformNodes == Output(tables, element).nodes
    ensures currentLexicalNode == CurrentNode(Output(tables, element), forChildMap)
    ensures forChildMapOut == ChildMap(element, Output(tables, element), forChildMap)
    ensures currentLexicalNode.Some? ==>
      transformNodes != [] && lexicalNodes == transformNodes[..|transformNodes| - 1] + [currentLexicalNode.value]
    ensures currentLexicalNode.None? ==> lexicalNodes == []
  {
    forChildMapOut := forChildMap;
    lexicalNodes := [];
    currentLexicalNode := None;
    transformNodes := [];
    var transformFunction := ConversionFunction(tables, element);
    if transformFunction.Some? {
      var transformOutput := RunConverter(transformFunction.value, element);
      transformNodes := transformOutput.nodes;
      if transformNodes != [] {
        currentLexicalNode := ApplyTransforms(transformNodes[|transformNodes| - 1], forChildMap);
        if currentLexicalNode.Some? {
          lexicalNodes := lexicalNodes + if |transformNodes| > 1 then transformNodes else [currentLexicalNode.value];
        }
      }
      if transformOutput.forChild.Some? {
        forChildMapOut := Register(forChildMapOut, NodeName(element), transformOutput.forChild.value);
      }
    }
  }

  /**
   * The loop over `forChildMap` in `createNodeFromDOM`: each inherited
   * transform in turn, stopping at the first that returns nil.
   */
  method ApplyTransforms(node: LNode, forChildMap: TransformMap) returns (current: Option<LNode>)
    ensures current == RunTransforms(node, forChildMap)
  {
    current := Some(node);
    var i := 0;
    while i < |forChildMap|
      invariant 0 <= i <= |forChildMap|
      invariant current.Some?
      invariant RunTransforms(node, forChildMap) == RunTransforms(current.value, forChildMap[i..])
    {
      assert forChildMap[i..][1..] == forChildMap[i + 1..];
      current := TextHtml.ApplyChildTransform(forChildMap[i].transform, current.value);
      if current.None? {
        break;
      }
      i := i + 1;
    }
  }

  /**
   * The loop over the children in `createNodeFromDOM`: each child imported
   * with its own copy of the map, the results concatenated in order.
   */
  method CreateChildNodes(tables: seq<ConversionMap>, children: seq<DomNode>, hasBlockAncestor: bool, forChildMap: TransformMap)
    returns (childLexicalNodes: seq<LNode>)
    requires AllImportable(tables, children)
    ensures childLexicalNodes == ImportChildren(tables, children, hasBlockAncestor, forChildMap)
    decreases children
  {
    childLexicalNodes := [];
    for j := 0 to |children|
      invariant childLexicalNodes == ImportChildren(tables, children[..j], hasBlockAncestor, forChildMap)
    {
      assert children[..j + 1][..j] == children[..j];
      var childMap := forChildMap;
      var childNodes, _ := CreateNodeFromDom(tables, children[j], hasBlockAncestor, childMap);
      childLexicalNodes := childLexicalNodes + childNodes;
    }
    assert children[..|children|] == children;
  }

  // ---------------------------------------------------------------------------
  // The document body

  /** `filter { $0 is TextNode == false }`: the nodes that are not text, in order. */
  function WithoutText(nodes: seq<LNode>): (r: seq<LNode>)
    ensures forall i :: 0 <= i < |r| ==> !r[i].Text? && r[i] in nodes
    ensures forall x :: x in nodes && !x.Text? ==> x in r
    ensures |r| <= |nodes|
    decreases |nodes|
  {
    if nodes == [] then []
    else
      var n := |nodes|;
      var init := nodes[..n - 1];
      assert nodes == init + [nodes[n - 1]];
      WithoutText(init) + if nodes[n - 1].Text? then [] else [nodes[n - 1]]
  }

  /** Dropping text is a filter: it works on each part of a sequence separately, keeping order. */
  lemma {:induction false} WithoutTextConcat(a: seq<LNode>, b: seq<LNode>)
    ensures WithoutText(a + b) == WithoutText(a) + WithoutText(b)
    decreases |b|
  {
    if b == [] {
      assert a + b == a;
    } else {
      var n := |b|;
      var c := a + b;
      var last := if b[n - 1].Text? then [] else [b[n - 1]];
      assert c[..|c| - 1] == a + b[..n - 1];
      WithoutTextLast(c);
      WithoutTextLast(b);
      WithoutTextConcat(a, b[..n - 1]);
      AppendAssoc(WithoutText(a), WithoutText(b[..n - 1]), last);
    }
  }

  /** Concatenation regroups freely. */
  lemma AppendAssoc(x: seq<LNode>, y: seq<LNode>, z: seq<LNode>)
    ensures (x + y) + z == x + (y + z)
  {
  }

  /** Unfolding the filter at the last node. */
  lemma WithoutTextLast(nodes: seq<LNode>)
    requires nodes != []
    ensures WithoutText(nodes)
         == WithoutText(nodes[..|nodes| - 1]) + if nodes[|nodes| - 1].Text? then [] else [nodes[|nodes| - 1]]
  {
  }

  /** A single node is dropped when it is text and kept otherwise. */
  lemma WithoutTextSingle(x: LNode)
    ensures WithoutText([x]) == if x.Text? then [] else [x]
  {
    assert [x][..0] == [];
  }

  /** The nodes for the body's children: each child not ignored imported on its own, text dropped. */
  function TopLevel(tables: seq<ConversionMap>, elements: seq<DomNode>): (r: seq<LNode>)
    requires AllImportable(tables, elements)
    ensures forall i :: 0 <= i < |r| ==> !r[i].Text?
    decreases |elements|
  {
    if elements == [] then []
    else
      var n := |elements|;
      var e := elements[n - 1];
      TopLevel(tables, elements[..n - 1]) + if IsIgnored(e) then [] else WithoutText(ImportNode(tables, e, false, []))
  }

  /** One more top-level child adds its own nodes, text dropped, after those of the children before it. */
  lemma TopLevelStep(tables: seq<ConversionMap>, elements: seq<DomNode>, i: nat)
    requires AllImportable(tables, elements) && i < |elements|
    ensures AllImportable(tables, elements[..i]) && AllImportable(tables, elements[..i + 1])
    ensures Importable(tables, elements[i])
    ensures TopLevel(tables, elements[..i + 1])
         == TopLevel(tables, elements[..i]) + if IsIgnored(elements[i]) then [] else WithoutText(ImportNode(tables, elements[i], false, []))
  {
    var prefix := elements[..i + 1];
    assert prefix[..i] == elements[..i] && prefix[i] == elements[i];
    assert forall j | 0 <= j < i + 1 :: prefix[j] == elements[j];
  }

  /** The children of the document's body, or none when it has no body. */
  function BodyChildren(body: Option<DomNode>): (r: seq<DomNode>)
    ensures body.None? ==> r == []
    ensures body.Some? && body.value.Element? ==> r == body.value.children
  {
    match body
    case Some(b) => ChildNodes(b)
    case None => []
  }

  /**
   * `generateNodesFromDOM`: the top-level children of the body, each not
   * ignored converted with no enclosing block node and an empty transform
   * map, with the text nodes among their results dropped.
   */
  method GenerateNodesFromDom(tables: seq<ConversionMap>, body: Option<DomNode>) returns (lexicalNodes: seq<LNode>)
    requires AllImportable(tables, BodyChildren(body))
    ensures lexicalNodes == TopLevel(tables, BodyChildren(body))
  {
    var elements := BodyChildren(body);
    lexicalNodes := [];
    for i := 0 to |elements|
      invariant lexicalNodes == TopLevel(tables, elements[..i])
    {
      TopLevelStep(tables, elements, i);
      var element := elements[i];
      if !IsIgnored(element) {
        var forChildMap: TransformMap := [];
        var lexicalNode, _ := CreateNodeFromDom(tables, element, false, forChildMap);
        lexicalNodes := lexicalNodes + WithoutText(lexicalNode);
      }
    }
    assert elements[..|elements|] == elements;
  }
}
