# LexicalHTML markup import, modelled in Dafny

This project models the part of the LexicalHTML plugin that turns parsed HTML
into Lexical document nodes, and the pieces that part relies on:

- the import engine (`generateNodesFromDOM`, `getConversionFunction`,
  `createNodeFromDOM`, `wrapContinuousInlines`, `IGNORE_TAGS`);
- the block-tag classifier and the root tests of `HTMLUtils.swift`;
- the `NodeStyle` style-string codec and `Attributes.styles()`;
- the import tables, converters and exporters of the eight node kinds with
  markup support: text, paragraph, heading, quote, line break, list, list item
  and link;
- the two colour-string parsers of `UIColor+Extensions.swift`.

The markup tree is a datatype (`Dom.DomNode`: element, text leaf, or any
other leaf such as a comment). Document nodes are values (`Nodes.LNode`: an
element of some kind with its children, indent, alignment and shadow-root
flag; a text node with its text, format flags and style; a line break). A
converter returns a `Conversion.ConversionOutput`: the produced nodes and an
optional child transform. The only child transforms the node kinds build
replace a text node's style and may set one format flag, so they are kept as
data (`Conversion.ChildTransform`) rather than closures.

The import engine keeps the source's shape. `CreateNodeFromDom`,
`ApplyTransforms`, `CreateChildNodes`, `WrapContinuousInlines` and
`GenerateNodesFromDom` are methods with the loops of the source, each proved
equal to a function (`ImportNode`, `RunTransforms`, `ImportChildren`,
`WrapInlines`, `TopLevel`). The properties the import code promises, in its
comments and in the package's tests, are proved as lemmas about those
functions. The exporters that build an element step by
step (text, paragraph, list, list item) are methods proved equal to a
function describing the exported element.

The engine takes the registered import tables as a parameter, in
registration order (`tables`). `HtmlImportProps.Registers(tables)` says that
the tables find, for every key, the converter the eight node kinds register.
`HtmlImportProps.RegistryRegisters` proves it of the tables of those node
kinds in the package's order, and `HtmlImportProps.LookupIndependentOfOrder`
shows that any order gives the same lookups.

Where the code's behaviour differs from what its own comments and names
suggest, the model follows the code:

- `<p></p>` imports as an empty paragraph (the paragraph converter always
  produces a node), not as a line break.
- A `b` element sets no format flag (only `strong` sets bold), so bold text
  exported as `<b>` is not bold when imported back (`StrongTextIsBold`,
  `BringAttentionIsNotBold`).
- The paragraph and list-item exporters write the indent as `<n>px`, which the
  style parser reads as no padding, so the indent does not survive a round
  trip.
- The list converter does not read `start`, and the list-item converter does
  not read `value`.
- The heading exporter sets no attributes (a test expects a `style`
  attribute; the code does not write one).

## Model

| member | source | states |
|---|---|---|
| Strings.Split | Plugins/LexicalHTML/LexicalHTML/Extensions/SwiftSoup+Styles.swift:29 | `split(separator:)`: the pieces are non-empty and free of the separator; `SplitConcat`, `SplitSingle` and `SplitEmpty` give its value on joined, single and empty strings |
| Strings.SplitConcat | Plugins/LexicalHTML/LexicalHTML/Extensions/SwiftSoup+Styles.swift:29 | splitting `a + sep + b` is splitting `a`, then splitting `b` |
| Strings.SplitSingle | Plugins/LexicalHTML/LexicalHTML/Extensions/SwiftSoup+Styles.swift:32 | a non-empty string without the separator is the only piece |
| Strings.SplitEmpty | Plugins/LexicalHTML/LexicalHTML/Extensions/SwiftSoup+Styles.swift:29 | the empty string splits into no pieces |
| Strings.Trim | Plugins/LexicalHTML/LexicalHTML/Extensions/SwiftSoup+Styles.swift:33-34 | `trimmingCharacters(in: .whitespaces)`: the result starts and ends with no space |
| Strings.TrimWithNewlines | Lexical/Helper/UIColor+Extensions.swift:32 | `trimmingCharacters(in: .whitespacesAndNewlines)`: the result starts and ends with no space or newline |
| Strings.TrimPadded | Plugins/LexicalHTML/LexicalHTML/Extensions/SwiftSoup+Styles.swift:33-34 | trimming removes exactly the spaces around a trimmed non-empty string |
| Strings.TrimIdentity | Plugins/LexicalHTML/LexicalHTML/Extensions/SwiftSoup+Styles.swift:33-34 | an already trimmed string is left unchanged |
| Strings.ToLower | Lexical/Helper/UIColor+Extensions.swift:32 | `lowercased()`: same length, each character lowered |
| Strings.IntToString | Plugins/LexicalHTML/LexicalHTML/LexicalNodes/ParagraphNode+HTML.swift:60 | `"\(n)"`: non-empty, and starts with a digit exactly when `n` is not negative |
| Strings.ParseInt | Plugins/LexicalHTML/LexicalHTML/Extensions/SwiftSoup+Styles.swift:38 | `Int(value)`: a result only for an optional sign followed by digits |
| Strings.ParseIntToString | Plugins/LexicalHTML/LexicalHTML/Extensions/SwiftSoup+Styles.swift:38 | reading back a printed 64-bit integer gives the same integer |
| Strings.NatToDigitsValue | Plugins/LexicalHTML/LexicalHTML/LexicalNodes/ParagraphNode+HTML.swift:60 | the printed digits of a natural number have that value |
| Strings.IntToStringPlain | Plugins/LexicalHTML/LexicalHTML/LexicalNodes/ParagraphNode+HTML.swift:60 | a printed integer has no surrounding space, no `:` and no `;` |
| Strings.CharacterCount | Lexical/Helper/UIColor+Extensions.swift:11 | `String.count` of ASCII text: never more than the characters; `CharacterCountWithoutCr` and `CharacterCountCrLf` give its value |
| Strings.CharacterCountWithoutCr | Lexical/Helper/UIColor+Extensions.swift:11 | text without a carriage return has one Character per character |
| Strings.CharacterCountCrLf | Lexical/Helper/UIColor+Extensions.swift:11 | a leading CR LF pair is one Character |
| Strings.TruncDiv | Plugins/LexicalListPlugin/LexicalListHTMLSupport/LexicalListItemNode+HTML.swift:25 | Swift's `/` truncates toward zero: for a non-negative dividend the largest `r >= 0` with `r * b <= a`, for a negative one the smallest `r <= 0` with `a <= r * b` |
| Strings.Join | Plugins/LexicalListPlugin/LexicalListHTMLSupport/LexicalListItemNode+HTML.swift:56 | `joined(separator:)`: empty for no parts, the part itself for one, and for more the first part, the separator and the rest joined |
| Strings.SplitJoin | Plugins/LexicalListPlugin/LexicalListHTMLSupport/LexicalListItemNode+HTML.swift:56 | for any list of non-empty parts free of the separator, splitting their join at the separator gives the parts back |
| Strings.JoinLength | Plugins/LexicalListPlugin/LexicalListHTMLSupport/LexicalListItemNode+HTML.swift:56 | a join of one or more parts is as long as all the parts together plus one separator between each two |
| Dom.TagName | Plugins/LexicalHTML/LexicalHTML/HTMLConversion/HTMLImport.swift:34 | `(node as? Element)?.tagName()`: present exactly for elements, and then the node name |
| Dom.NodeName | Plugins/LexicalHTML/LexicalHTML/HTMLConversion/HTMLImport.swift:63 | `nodeName()`: the tag of an element, `#text` for a text leaf |
| Dom.ChildNodes | Plugins/LexicalHTML/LexicalHTML/HTMLConversion/HTMLImport.swift:108 | `getChildNodes()`: a leaf has no children |
| Dom.Attributes | Plugins/LexicalHTML/LexicalHTML/LexicalNodes/TextNode+HTML.swift:34 | `getAttributes()`: present exactly for elements |
| Dom.Get | Plugins/LexicalHTML/LexicalHTML/Extensions/SwiftSoup+Styles.swift:61 | `get(key:)`: `""` for a missing key, otherwise the value of an attribute with that key |
| Dom.AttributeOrEmpty | Plugins/LexicalHTML/LexicalHTML/LexicalNodes/TextNode+HTML.swift:34 | `getAttributes()?.get(key:) ?? ""`, as used for `style` and for a link's `href`: `""` for a leaf or a missing attribute, otherwise the attribute's value |
| Dom.SetAttr | Plugins/LexicalHTML/LexicalHTML/LexicalNodes/ParagraphNode+HTML.swift:60 | `attr(_:_:)`: the key reads back the new value and every other key is unchanged |
| Dom.NewDomElement | Plugins/LexicalHTML/LexicalHTML/LexicalNodes/ParagraphNode+HTML.swift:57 | `Element(Tag(t), "")`: an element named `t` with no attributes and no children |
| Nodes.TextFormat.With | Plugins/LexicalHTML/LexicalHTML/LexicalNodes/TextNode+HTML.swift:101-103 | `updateFormat(type:value: true)`: sets the one flag and leaves the others |
| Nodes.ElementFormatFromRaw | Plugins/LexicalListPlugin/LexicalListHTMLSupport/LexicalListItemNode+HTML.swift:30 | `ElementFormatType(rawValue:)`: inverse of the raw value, and nil for any other string |
| Nodes.HeadingTagFromRaw | Plugins/LexicalHTML/LexicalHTML/LexicalNodes/HeadingNode+HTML.swift:28 | `HeadingTagType(rawValue:)`: inverse of the raw value, and nil for any other string |
| Nodes.NewElement | Plugins/LexicalHTML/LexicalHTML/LexicalNodes/ParagraphNode+HTML.swift:20 | a new element node: the kind, no children, indent 0, left-aligned |
| Nodes.Append | Plugins/LexicalHTML/LexicalHTML/HTMLConversion/HTMLImport.swift:137-138 | `append(_:)`: the old children, then the new ones, in order; nothing else changes |
| HtmlUtils.IsBlockDomNode | Plugins/LexicalHTML/LexicalHTML/HTMLUtils.swift:11-52 | `isBlockDomNode`: only elements are block-level; `BlockIffListedElement` gives exactly which |
| HtmlUtils.BlockIffListedElement | Plugins/LexicalHTML/LexicalHTML/HTMLUtils.swift:11-52 | a node is block-level exactly when it is an element whose tag is one of the 35 listed names |
| HtmlUtils.LeavesAreInline | Plugins/LexicalHTML/LexicalHTML/HTMLUtils.swift:49-51 | text and other leaves are never block-level |
| HtmlUtils.InlineTagsAreInline | Plugins/LexicalHTML/LexicalHTML/HTMLUtils.swift:12-48 | `span`, `b`, `a` and `br` are not block-level |
| HtmlUtils.IsRoot | Plugins/LexicalHTML/LexicalHTML/HTMLUtils.swift:54-56 | the node itself exactly when it is a root node, otherwise nil |
| HtmlUtils.IsRootOrShadowRoot | Plugins/LexicalHTML/LexicalHTML/HTMLUtils.swift:58-60 | `isRootOrShadowRoot`: only elements qualify; `RootOrShadowRootIsElement` gives exactly which |
| HtmlUtils.RootOrShadowRootIsElement | Plugins/LexicalHTML/LexicalHTML/HTMLUtils.swift:58-60 | true exactly for a root node or an element that is a shadow root |
| NodeStyles.TextAlignFromRaw | Plugins/LexicalHTML/LexicalHTML/Extensions/SwiftSoup+Styles.swift:11-18 | `TextAlign(rawValue:)`: a value exactly for the six lower-case names, the inverse of the raw value |
| NodeStyles.TextAlignRaw | Plugins/LexicalHTML/LexicalHTML/Extensions/SwiftSoup+Styles.swift:11-18 | every raw name is non-empty, trimmed, and has no `:` or `;` |
| NodeStyles.ApplyProperty | Plugins/LexicalHTML/LexicalHTML/Extensions/SwiftSoup+Styles.swift:36-43 | `padding-inline-start` sets the padding to `Int(value)`, `text-align` sets the alignment to `TextAlign(rawValue:)`, any other key changes nothing |
| NodeStyles.NodeStyleFromString | Plugins/LexicalHTML/LexicalHTML/Extensions/SwiftSoup+Styles.swift:28-45 | `init(from:)`: the loop over the segments ends in the style `Decode` describes; a segment without two pieces is excluded by `Decodable` |
| NodeStyles.Styles | Plugins/LexicalHTML/LexicalHTML/Extensions/SwiftSoup+Styles.swift:59-63 | `styles()` never returns nil, and gives the empty style when there is no `style` attribute |
| NodeStyles.StylesOf | Plugins/LexicalHTML/LexicalHTML/LexicalNodes/ParagraphNode+HTML.swift:22 | `getAttributes()?.styles()`: a style exactly for elements |
| NodeStyles.Entries | Plugins/LexicalHTML/LexicalHTML/Extensions/SwiftSoup+Styles.swift:48-53 | at most two `key:value` entries, none exactly when both fields are nil |
| NodeStyles.ToString | Plugins/LexicalHTML/LexicalHTML/Extensions/SwiftSoup+Styles.swift:47-56 | `toString` in either entry order: `""` exactly for the empty style |
| NodeStyles.Decode | Plugins/LexicalHTML/LexicalHTML/Extensions/SwiftSoup+Styles.swift:28-56 | what `NodeStyle(from:)` builds: the segments applied left to right to the empty style; `DecodeEmpty`, `DecodeSegmentsConcat`, `DecodeToString` and the `Last…Wins` lemmas state its behaviour |
| NodeStyles.DecodeToString | Plugins/LexicalHTML/LexicalHTML/Extensions/SwiftSoup+Styles.swift:28-56 | in either entry order, `toString` parses back to the same style |
| NodeStyles.DecodeEmpty | Plugins/LexicalHTML/LexicalHTML/Extensions/SwiftSoup+Styles.swift:28-31 | the empty string has no segments and leaves both fields nil |
| NodeStyles.DecodeSegmentsStep | Plugins/LexicalHTML/LexicalHTML/Extensions/SwiftSoup+Styles.swift:31-44 | one more segment applies its trimmed key and value to the style so far |
| NodeStyles.DecodeSegmentsConcat | Plugins/LexicalHTML/LexicalHTML/Extensions/SwiftSoup+Styles.swift:31-44 | the segments are applied left to right |
| NodeStyles.SegmentPieces | Plugins/LexicalHTML/LexicalHTML/Extensions/SwiftSoup+Styles.swift:32-34 | `key:value` splits into the trimmed key and the trimmed value |
| NodeStyles.DecodeSingleSegment | Plugins/LexicalHTML/LexicalHTML/Extensions/SwiftSoup+Styles.swift:28-44 | a string of one segment applies that segment to the empty style |
| NodeStyles.DecodeOneProperty | Plugins/LexicalHTML/LexicalHTML/Extensions/SwiftSoup+Styles.swift:32-43 | `key:value` sets the field named by the trimmed key from the trimmed value |
| NodeStyles.TextAlignIgnoresSpaces | Plugins/LexicalHTML/LexicalHTML/Extensions/SwiftSoup+Styles.swift:32-40 | spaces around `text-align` and around the name do not matter: `" text-align : right "` gives right |
| NodeStyles.PaddingReadsInteger | Plugins/LexicalHTML/LexicalHTML/Extensions/SwiftSoup+Styles.swift:37-38 | `padding-inline-start:<n>` sets the padding to `n` |
| NodeStyles.PaddingWithUnitIsNil | Plugins/LexicalHTML/LexicalHTML/Extensions/SwiftSoup+Styles.swift:37-38 | `padding-inline-start:<n>px` leaves the padding nil |
| NodeStyles.WithUnitIsNotInteger | Plugins/LexicalHTML/LexicalHTML/Extensions/SwiftSoup+Styles.swift:38 | `Int("<n>px")` is nil |
| NodeStyles.DecodeAppendSegment | Plugins/LexicalHTML/LexicalHTML/Extensions/SwiftSoup+Styles.swift:31-44 | a segment appended after `;` is applied after everything before it |
| NodeStyles.LastTextAlignWins | Plugins/LexicalHTML/LexicalHTML/Extensions/SwiftSoup+Styles.swift:39-40 | a repeated `text-align` takes the last value |
| NodeStyles.LastPaddingWins | Plugins/LexicalHTML/LexicalHTML/Extensions/SwiftSoup+Styles.swift:37-38 | a repeated `padding-inline-start` takes the last value |
| NodeStyles.UnknownKeyIgnored | Plugins/LexicalHTML/LexicalHTML/Extensions/SwiftSoup+Styles.swift:41-42 | a segment with any other key leaves both fields unchanged |
| NodeStyles.SegmentWithoutColonTraps | Plugins/LexicalHTML/LexicalHTML/Extensions/SwiftSoup+Styles.swift:32-34 | a segment without a `:` is outside what the parser accepts (`splitted[1]` traps) |
| NodeStyles.EntryPieces | Plugins/LexicalHTML/LexicalHTML/Extensions/SwiftSoup+Styles.swift:53 | a printed `key:value` entry splits back into its key and value |
| NodeStyles.PaddingEntryPieces | Plugins/LexicalHTML/LexicalHTML/Extensions/SwiftSoup+Styles.swift:49-53 | the printed padding entry reads back the same integer |
| NodeStyles.AlignEntryPieces | Plugins/LexicalHTML/LexicalHTML/Extensions/SwiftSoup+Styles.swift:50-53 | the printed alignment entry reads back the same alignment |
| NodeStyles.AlignReadsName | Plugins/LexicalHTML/LexicalHTML/Extensions/SwiftSoup+Styles.swift:39-40 | `text-align:<name>` sets that alignment |
| NodeStyles.BothEntriesRead | Plugins/LexicalHTML/LexicalHTML/Extensions/SwiftSoup+Styles.swift:47-56 | both printed entries, in either order, read back both fields |
| TextHtml.ImportDom | Plugins/LexicalHTML/LexicalHTML/LexicalNodes/TextNode+HTML.swift:11-27 | exactly the keys `#text, b, code, em, i, mark, s, span, strong, sup, sub, u`, with `#text`, `b` and `span` on their own converters and the rest on the format converter |
| TextHtml.FormatOfTag | Plugins/LexicalHTML/LexicalHTML/LexicalNodes/TextNode+HTML.swift:41-52 | `code`→code, `em`/`i`→italic, `s`→strikethrough, `strong`→bold, `sub`→subscript, `sup`→superscript, `u`→underline, each in both directions; any other name (`mark`) sets none |
| TextHtml.ConvertBringAttention | Plugins/LexicalHTML/LexicalHTML/LexicalNodes/TextNode+HTML.swift:30-39 | `b`: no nodes and one transform that copies the style and sets no flag |
| TextHtml.ConvertTextFormat | Plugins/LexicalHTML/LexicalHTML/LexicalNodes/TextNode+HTML.swift:41-62 | no nodes and one transform that copies the style and sets the tag's flag |
| TextHtml.ConvertSpan | Plugins/LexicalHTML/LexicalHTML/LexicalNodes/TextNode+HTML.swift:64-72 | `span`: no nodes and one transform that copies the style and sets no flag |
| TextHtml.ConvertTextDom | Plugins/LexicalHTML/LexicalHTML/LexicalNodes/TextNode+HTML.swift:74-88 | a text leaf gives one unformatted text node with its text; anything else gives nothing; never a transform |
| TextHtml.ApplyChildTransform | Plugins/LexicalHTML/LexicalHTML/LexicalNodes/TextNode+HTML.swift:90-108 | never nil; a non-text node is returned unchanged; a text node keeps its text, takes the style, and gains exactly the one flag |
| TextHtml.WrapperTags | Plugins/LexicalHTML/LexicalHTML/LexicalNodes/TextNode+HTML.swift:123-134 | at most four wrappers; `WrapperTagsFlags` gives which and `WrapperTagsOrdered` their order |
| TextHtml.WrapDomElement | Plugins/LexicalHTML/LexicalHTML/LexicalNodes/TextNode+HTML.swift:139-143 | a new element of the tag, no attributes, whose only child is the element |
| TextHtml.InnerElement | Plugins/LexicalHTML/LexicalHTML/LexicalNodes/TextNode+HTML.swift:111-120 | `code` exactly when the code flag is set, otherwise `span`; a `style` attribute exactly when the style is non-empty; the text as only child |
| TextHtml.ExportDom | Plugins/LexicalHTML/LexicalHTML/LexicalNodes/TextNode+HTML.swift:110-137 | `exportDOM`: the inner element wrapped in `b`, `i`, `s`, `u` for the flags that are set, each around the previous |
| TextHtml.WrapOneMore | Plugins/LexicalHTML/LexicalHTML/LexicalNodes/TextNode+HTML.swift:123-134 | each further wrapper goes around everything wrapped before |
| TextHtml.WrapStep | Plugins/LexicalHTML/LexicalHTML/LexicalNodes/TextNode+HTML.swift:123-134 | each optional wrapper keeps the element equal to the inner one wrapped in the tags collected so far |
| TextHtml.WrapAllConcat | Plugins/LexicalHTML/LexicalHTML/LexicalNodes/TextNode+HTML.swift:123-134 | wrapping in one list of tags and then another is wrapping in both, in order |
| TextHtml.WrapAllOutermost | Plugins/LexicalHTML/LexicalHTML/LexicalNodes/TextNode+HTML.swift:123-134 | the last tag is outermost, has no attributes, and holds the rest as its only child |
| TextHtml.WrapperTagsFlags | Plugins/LexicalHTML/LexicalHTML/LexicalNodes/TextNode+HTML.swift:123-134 | `b`, `i`, `s`, `u` are used exactly for bold, italic, strikethrough, underline; subscript, superscript and code add no wrapper |
| TextHtml.WrapperTagsOrdered | Plugins/LexicalHTML/LexicalHTML/LexicalNodes/TextNode+HTML.swift:123-134 | the wrappers come in the order `b`, `i`, `s`, `u`, innermost first, each at most once |
| TextHtml.BoldItalicNesting | Plugins/LexicalHTML/LexicalHTML/LexicalNodes/TextNode+HTML.swift:123-128 | bold and italic export as `i` around `b` around the inner element |
| ParagraphHtml.ImportDom | Plugins/LexicalHTML/LexicalHTML/LexicalNodes/ParagraphNode+HTML.swift:12-17 | the single key `p` |
| ParagraphHtml.ConvertParagraph | Plugins/LexicalHTML/LexicalHTML/LexicalNodes/ParagraphNode+HTML.swift:19-54 | one fresh paragraph (default indent and alignment, the parsed indent unused) and no transform |
| ParagraphHtml.ExportDom | Plugins/LexicalHTML/LexicalHTML/LexicalNodes/ParagraphNode+HTML.swift:56-63 | `exportDOM`: the element `ExportedParagraph` describes |
| ParagraphHtml.ExportedParagraphAttributes | Plugins/LexicalHTML/LexicalHTML/LexicalNodes/ParagraphNode+HTML.swift:56-63 | tag `p`, no children; a `style` attribute exactly when indent > 0, holding `padding-inline-start:<indent*40>px`; no other attribute; alignment not exported |
| ParagraphHtml.ParagraphRoundTrip | Plugins/LexicalHTML/LexicalHTML/LexicalNodes/ParagraphNode+HTML.swift:19-63 | an exported paragraph has a readable style and converts back to a fresh paragraph |
| HeadingHtml.ImportDom | Plugins/LexicalHTML/LexicalHTML/LexicalNodes/HeadingNode+HTML.swift:14-23 | exactly the keys `h1`–`h6`, all on the heading converter |
| HeadingHtml.ConvertHeading | Plugins/LexicalHTML/LexicalHTML/LexicalNodes/HeadingNode+HTML.swift:25-35 | one heading whose tag is the element's tag exactly for `h1`–`h6` elements, otherwise nothing; never a transform |
| HeadingHtml.ExportDom | Plugins/LexicalHTML/LexicalHTML/LexicalNodes/HeadingNode+HTML.swift:39-43 | an element named by the heading's tag, with no attributes |
| HeadingHtml.HeadingRoundTrip | Plugins/LexicalHTML/LexicalHTML/LexicalNodes/HeadingNode+HTML.swift:25-43 | an exported heading converts back to a heading with the same tag |
| QuoteHtml.ImportDom | Plugins/LexicalHTML/LexicalHTML/LexicalNodes/QuoteNode+HTML.swift:13-17 | the single key `blockquote` |
| QuoteHtml.ConvertBlockquote | Plugins/LexicalHTML/LexicalHTML/LexicalNodes/QuoteNode+HTML.swift:19-23 | one quote whatever the element, and no transform |
| QuoteHtml.ExportDom | Plugins/LexicalHTML/LexicalHTML/LexicalNodes/QuoteNode+HTML.swift:25-28 | a bare `blockquote` element |
| LineBreakHtml.ImportDom | Plugins/LexicalHTML/LexicalHTML/LexicalNodes/LineBreakNode+HTML.swift:13-17 | the single key `br` |
| LineBreakHtml.ConvertLineBreak | Plugins/LexicalHTML/LexicalHTML/LexicalNodes/LineBreakNode+HTML.swift:19-22 | one line break whatever the input, and no transform |
| LineBreakHtml.ExportDom | Plugins/LexicalHTML/LexicalHTML/LexicalNodes/LineBreakNode+HTML.swift:24-27 | a bare `br` element |
| LinkHtml.ImportDom | Plugins/LexicalLinkPlugin/LexicalLinkPlugin/Nodes/LinkNode+HTML.swift:13-17 | the single key `a` |
| LinkHtml.ConvertAnchor | Plugins/LexicalLinkPlugin/LexicalLinkPlugin/Nodes/LinkNode+HTML.swift:19-30 | nothing unless the node name is `a`; then one link whose url is `href` or `""`; never a transform |
| LinkHtml.ExportDom | Plugins/LexicalLinkPlugin/LexicalLinkPlugin/Nodes/LinkNode+HTML.swift:32-35 | a bare `br` element |
| LinkHtml.LinkUrlNotExported | Plugins/LexicalLinkPlugin/LexicalLinkPlugin/Nodes/LinkNode+HTML.swift:32-35 | any two links export alike, so the url is lost |
| ListHtml.ImportDom | Plugins/LexicalListPlugin/LexicalListHTMLSupport/LexicalListNode+HTML.swift:15-20 | exactly the keys `ol` and `ul` |
| ListHtml.ConvertList | Plugins/LexicalListPlugin/LexicalListHTMLSupport/LexicalListNode+HTML.swift:22-44 | `ol` gives a numbered list starting at 1, `ul` a bullet list, anything else nothing; `start` is not read; never a transform |
| ListHtml.ImportDomNode | Plugins/LexicalListPlugin/LexicalListHTMLSupport/LexicalListNode+HTML.swift:46-48 | always the empty output |
| ListHtml.ExportDom | Plugins/LexicalListPlugin/LexicalListHTMLSupport/LexicalListNode+HTML.swift:50-59 | `exportDOM`: the element `ExportedList` describes |
| ListHtml.ExportedListAttributes | Plugins/LexicalListPlugin/LexicalListHTMLSupport/LexicalListNode+HTML.swift:50-59 | `ol` exactly for numbered lists, otherwise `ul`; a `start` attribute exactly when start ≠ 1, reading back as start |
| ListHtml.ListRoundTrip | Plugins/LexicalListPlugin/LexicalListHTMLSupport/LexicalListNode+HTML.swift:22-59 | an exported list converts back to a list of the same type starting at 1 |
| ListItemHtml.ImportDom | Plugins/LexicalListPlugin/LexicalListHTMLSupport/LexicalListItemNode+HTML.swift:15-19 | the single key `li` |
| ListItemHtml.IndentOfStyle | Plugins/LexicalListPlugin/LexicalListHTMLSupport/LexicalListItemNode+HTML.swift:24-26 | the padding divided by 40 truncating toward zero, 0 when the padding is nil |
| ListItemHtml.FormatOfAlign | Plugins/LexicalListPlugin/LexicalListHTMLSupport/LexicalListItemNode+HTML.swift:29-31 | the element format with the alignment's raw name, or left when there is none |
| ListItemHtml.ConvertListItem | Plugins/LexicalListPlugin/LexicalListHTMLSupport/LexicalListItemNode+HTML.swift:21-35 | one list item and no transform; indent = padding / 40 truncated, 0 when absent or unreadable; format from `text-align` (left when unknown), untouched without one; `value` not read |
| ListItemHtml.StyleParts | Plugins/LexicalListPlugin/LexicalListHTMLSupport/LexicalListItemNode+HTML.swift:43-53 | no parts exactly when indent ≤ 0 and the format is left |
| ListItemHtml.ExportDom | Plugins/LexicalListPlugin/LexicalListHTMLSupport/LexicalListItemNode+HTML.swift:37-60 | `exportDOM`: the element `ExportedListItem` describes (tag `li`, `value` when > 0, padding then `text-align` joined by `;`, no `style` when there are no parts) |
| ListItemHtml.AlignOfFormat | Plugins/LexicalListPlugin/LexicalListHTMLSupport/LexicalListItemNode+HTML.swift:52 | the alignment whose raw name is the format's raw name |
| ListItemHtml.ExportedStyleReads | Plugins/LexicalListPlugin/LexicalListHTMLSupport/LexicalListItemNode+HTML.swift:43-56 | the exported style parses; its `px` padding reads as nil; its alignment reads back for a non-left format and is absent for left |
| ListItemHtml.ExportedStyleAttribute | Plugins/LexicalListPlugin/LexicalListHTMLSupport/LexicalListItemNode+HTML.swift:37-57 | the exported `style` attribute reads as the joined parts, and as `""` when there are none |
| ListItemHtml.ListItemRoundTrip | Plugins/LexicalListPlugin/LexicalListHTMLSupport/LexicalListItemNode+HTML.swift:21-60 | an exported list item converts back to a list item with indent 0 and the same format |
| Colors.ColorFromHex | Lexical/Helper/UIColor+Extensions.swift:4-28 | `init?(hex:)`: a colour only for `#` followed by exactly eight Swift Characters (a CR LF pair counts once), each channel in [0, 1] |
| Colors.HexScanned | Lexical/Helper/UIColor+Extensions.swift:15-19 | after a successful scan, red, green, blue and alpha are bits 24–31, 16–23, 8–15 and 0–7, each over 255 |
| Colors.HexRoundTrip | Lexical/Helper/UIColor+Extensions.swift:4-28 | `#rrggbbaa` printed from four bytes parses back to those bytes over 255 |
| Colors.ScannedBytes | Lexical/Helper/UIColor+Extensions.swift:4-28 | text whose eight digits scan as four bytes parses as those bytes over 255 |
| Colors.HexNeedsHash | Lexical/Helper/UIColor+Extensions.swift:7-27 | nil unless the string starts with `#` |
| Colors.HexNeedsEightDigits | Lexical/Helper/UIColor+Extensions.swift:11-27 | nil unless exactly eight Characters follow `#` (so `#rrggbb` is nil) |
| Colors.CrLfCountsOnce | Lexical/Helper/UIColor+Extensions.swift:11-19 | `#`, a CR LF pair and seven digits pass the length test, and the scanner skips the line break and reads the seven digits |
| Colors.CrLfExample | Lexical/Helper/UIColor+Extensions.swift:4-28 | `#\r\n1234567` is the colour of 0x01234567 |
| Colors.CrLfLength | Lexical/Helper/UIColor+Extensions.swift:11 | a CR LF pair and seven digits are eight Characters |
| Colors.CrLfScan | Lexical/Helper/UIColor+Extensions.swift:12-15 | the scanner skips a leading CR LF and reads the digits after it |
| Colors.CrLfTrimmed | Lexical/Helper/UIColor+Extensions.swift:12-15 | skipping leading whitespace removes a leading CR LF |
| Colors.ScanOfSameTrim | Lexical/Helper/UIColor+Extensions.swift:12-15 | the scan depends only on the text after the leading whitespace |
| Colors.ScanHexInt64 | Lexical/Helper/UIColor+Extensions.swift:12-15 | `scanHexInt64` fails exactly when no hexadecimal digit follows the leading whitespace |
| Colors.HexColor | Lexical/Helper/UIColor+Extensions.swift:16-21 | the colour of a scanned number has each channel in [0, 1] |
| Colors.HexColorOfBytes | Lexical/Helper/UIColor+Extensions.swift:16-21 | the colour of the number four bytes spell has those bytes over 255 as channels |
| Colors.ScanAllHexDigits | Lexical/Helper/UIColor+Extensions.swift:15 | `scanHexInt64` on hexadecimal digits reads their value |
| Colors.HexRunLength | Lexical/Helper/UIColor+Extensions.swift:15 | `scanHexInt64` reads the longest run of hexadecimal digits: every character in it is one, and the next is not |
| Colors.Byte | Lexical/Helper/UIColor+Extensions.swift:16-19 | the mask-and-shift of byte `k` is below 256 |
| Colors.HexValueConcat | Lexical/Helper/UIColor+Extensions.swift:15 | the value of concatenated hexadecimal digits |
| Colors.BytesOf | Lexical/Helper/UIColor+Extensions.swift:16-19 | the four masks and shifts recover the four bytes |
| Colors.CleanString | Lexical/Helper/UIColor+Extensions.swift:32 | trimming and lower-casing never lengthen the input; `RgbIgnoresPadding` and `CleanOfClean` give its effect |
| Colors.ParseComponents | Lexical/Helper/UIColor+Extensions.swift:48-50 | `compactMap` over the pieces: never more numbers than pieces |
| Colors.ParseComponentsConcat | Lexical/Helper/UIColor+Extensions.swift:48-50 | parsing distributes over concatenated pieces |
| Colors.FromComponents | Lexical/Helper/UIColor+Extensions.swift:53-82 | a colour exactly when there are 4 components (`rgba`) or 3 (`rgb`) with red, green, blue finite in [0, 255] and an `rgba` alpha in [0, 1]; then each channel is its component over 255, the alpha the fourth component or 1 for `rgb` |
| Colors.ColorFromClean | Lexical/Helper/UIColor+Extensions.swift:34-82 | a colour only for text starting with `rgb(` or `rgba(` and ending with `)`, each channel in [0, 1] |
| Colors.ColorFromRgb | Lexical/Helper/UIColor+Extensions.swift:30-83 | `init?(rgb:)`: trims and lowercases first, then as `ColorFromClean` |
| Colors.InnerOfCall | Lexical/Helper/UIColor+Extensions.swift:43-45 | the text between the prefix and the closing parenthesis |
| Colors.CleanCall | Lexical/Helper/UIColor+Extensions.swift:34-50 | a call's colour is built from its comma-separated, trimmed, parsed pieces |
| Colors.RgbCallDecided | Lexical/Helper/UIColor+Extensions.swift:30-82 | a cleaned `rgb(body)`/`rgba(body)` gives a colour exactly when the numbers parsed from `body` pass the count and range checks, and then the channels over 255 and the alpha |
| Colors.OutOfRangeRejected | Lexical/Helper/UIColor+Extensions.swift:53-77 | one parsed component out of range (red, green or blue outside [0, 255] or not finite, the alpha outside [0, 1]) gives no colour |
| Colors.OutOfRangeNotChannels | Lexical/Helper/UIColor+Extensions.swift:62 | a component outside its range fails the range checks |
| Colors.RgbaValue | Lexical/Helper/UIColor+Extensions.swift:53-66 | `rgba(...)` with four in-range numbers is the colour with red, green, blue over 255 and that alpha |
| Colors.FromFour | Lexical/Helper/UIColor+Extensions.swift:53-66 | four in-range components give the colour with those channels over 255 and that alpha |
| Colors.RgbOfThreeNumbers | Lexical/Helper/UIColor+Extensions.swift:30-82 | `rgb(x,y,z)` with three numbers in [0, 255] gives them over 255, alpha 1 |
| Colors.OpaqueFromThree | Lexical/Helper/UIColor+Extensions.swift:68-82 | three in-range components give an opaque colour |
| Colors.UnparseablePieceDropped | Lexical/Helper/UIColor+Extensions.swift:48-50 | an unparseable piece is dropped, not turned into an error |
| Colors.RgbIsOpaque | Lexical/Helper/UIColor+Extensions.swift:81 | an `rgb(...)` colour has alpha 1 |
| Colors.RgbComponentCount | Lexical/Helper/UIColor+Extensions.swift:53-70 | a colour needs exactly 4 parsed components for `rgba` and 3 for `rgb` |
| Colors.RgbIgnoresPadding | Lexical/Helper/UIColor+Extensions.swift:32 | surrounding spaces and newlines do not change the result |
| HtmlImport.LookupKey | Plugins/LexicalHTML/LexicalHTML/HTMLConversion/HTMLImport.swift:34-43 | the tag name for an element, `#text` for a text leaf, none for any other leaf |
| HtmlImport.FirstMatch | Plugins/LexicalHTML/LexicalHTML/HTMLConversion/HTMLImport.swift:45-50 | none exactly when no table has the key; otherwise the value in the first table, in registration order, that has it |
| HtmlImport.ConversionFunction | Plugins/LexicalHTML/LexicalHTML/HTMLConversion/HTMLImport.swift:33-51 | `getConversionFunction`: none for other leaves, otherwise the first match for the key |
| HtmlImport.RunConverter | Plugins/LexicalHTML/LexicalHTML/HTMLConversion/HTMLImport.swift:72 | no converter produces more than one node, and none both produces a node and offers a transform |
| HtmlImport.Output | Plugins/LexicalHTML/LexicalHTML/HTMLConversion/HTMLImport.swift:71-72 | the converter's output, or no nodes and no transform when there is no converter |
| HtmlImport.Lookup | Plugins/LexicalHTML/LexicalHTML/HTMLConversion/HTMLImport.swift:94 | the transform registered under a name, if any |
| HtmlImport.Register | Plugins/LexicalHTML/LexicalHTML/HTMLConversion/HTMLImport.swift:93-95 | `forChildMap[name] = t`: the name now finds `t`, every other name what it found before, names stay unique |
| HtmlImport.RunTransforms | Plugins/LexicalHTML/LexicalHTML/HTMLConversion/HTMLImport.swift:76-86 | the transform loop: never nil, and a node that is not text comes through unchanged; `TransformsResult` gives the text case |
| HtmlImport.TransformsResult | Plugins/LexicalHTML/LexicalHTML/HTMLConversion/HTMLImport.swift:76-86 | the inherited transforms never give nil; a non-text node is unchanged; a text node keeps its text, gains exactly the flags some transform sets, and takes the last transform's style |
| HtmlImport.TransformOrderOnlyAffectsStyle | Plugins/LexicalHTML/LexicalHTML/HTMLConversion/HTMLImport.swift:77 | any iteration order of the same transforms gives the same node up to the style, and the same style when all styles agree |
| HtmlImport.FormatExtensional | Plugins/LexicalHTML/LexicalHTML/HTMLConversion/HTMLImport.swift:77-86 | two formats with the same flags are equal |
| HtmlImport.SegmentsPartition | Plugins/LexicalHTML/LexicalHTML/HTMLConversion/HTMLImport.swift:145-167 | the segments of the children flatten back to the children, each element kept alone and each maximal run of non-elements in one segment |
| HtmlImport.StepPartition | Plugins/LexicalHTML/LexicalHTML/HTMLConversion/HTMLImport.swift:149-164 | one more child keeps the partition well formed and flattening in order |
| HtmlImport.WrapInlines | Plugins/LexicalHTML/LexicalHTML/HTMLConversion/HTMLImport.swift:145-167 | `wrapContinuousInlines` as a function; `WrapInlinesResult`, `SegmentsPartition` and `AllInlineWrapped` state its result |
| HtmlImport.WrapInlinesResult | Plugins/LexicalHTML/LexicalHTML/HTMLConversion/HTMLImport.swift:145-167 | only element nodes come out, never more than went in, and all-element input is returned as it is |
| HtmlImport.OutputsAreElements | Plugins/LexicalHTML/LexicalHTML/HTMLConversion/HTMLImport.swift:152-160 | wrapped runs and kept elements are all elements |
| HtmlImport.AllElementsKept | Plugins/LexicalHTML/LexicalHTML/HTMLConversion/HTMLImport.swift:152-153 | with only elements, nothing is wrapped |
| HtmlImport.AllInlineWrapped | Plugins/LexicalHTML/LexicalHTML/HTMLConversion/HTMLImport.swift:154-162 | a non-empty run of non-elements becomes exactly one paragraph holding it |
| HtmlImport.Wrapper | Plugins/LexicalHTML/LexicalHTML/HTMLConversion/HTMLImport.swift:158-159 | the wrapper is a new paragraph holding the run |
| HtmlImport.WrapContinuousInlines | Plugins/LexicalHTML/LexicalHTML/HTMLConversion/HTMLImport.swift:145-167 | `wrapContinuousInlines`: the loop with its `out` and run accumulators returns `WrapInlines` of its input |
| HtmlImport.ChildrenHaveBlockAncestor | Plugins/LexicalHTML/LexicalHTML/HTMLConversion/HTMLImport.swift:100-106 | false below a root or shadow root, true below another produced element, otherwise inherited |
| HtmlImport.CurrentNode | Plugins/LexicalHTML/LexicalHTML/HTMLConversion/HTMLImport.swift:73-86 | a current node exactly when the converter produced one |
| HtmlImport.Assemble | Plugins/LexicalHTML/LexicalHTML/HTMLConversion/HTMLImport.swift:88-141 | with no current node: the children, or one line break for a childless block, or nothing; with one: the produced nodes, the last replaced by the current node, holding the children when it is an element |
| HtmlImport.IsIgnored | Plugins/LexicalHTML/LexicalHTML/HTMLConversion/HTMLImport.swift:63-65 | `IGNORE_TAGS`: a node is skipped exactly when its name is `style` or `script` |
| HtmlImport.ChildMap | Plugins/LexicalHTML/LexicalHTML/HTMLConversion/HTMLImport.swift:93-95 | the map the children inherit: the caller's when the node registers no transform, otherwise one that finds the node's transform under its name |
| HtmlImport.ImportNode | Plugins/LexicalHTML/LexicalHTML/HTMLConversion/HTMLImport.swift:54-143 | `createNodeFromDOM` as a function; `CreateNodeFromDom` is proved equal to it and the `HtmlImportProps` lemmas state its behaviour |
| HtmlImport.ImportChildren | Plugins/LexicalHTML/LexicalHTML/HTMLConversion/HTMLImport.swift:108-117 | the children imported in order with a copy of the same map each; `ImportChildrenConcat` and `ImportOneChild` state it |
| HtmlImport.MapAfter | Plugins/LexicalHTML/LexicalHTML/HTMLConversion/HTMLImport.swift:63-95 | an ignored node leaves the caller's map as it was |
| HtmlImport.CreateNodeFromDom | Plugins/LexicalHTML/LexicalHTML/HTMLConversion/HTMLImport.swift:54-143 | `createNodeFromDOM`: returns `ImportNode` and leaves the caller's map as `MapAfter` says |
| HtmlImport.RunConversion | Plugins/LexicalHTML/LexicalHTML/HTMLConversion/HTMLImport.swift:71-96 | the first half of `createNodeFromDOM`: the produced nodes are the converter's, the current node is what the inherited transforms make of the last one, it is kept last, and the map gains the node's own transform |
| HtmlImport.AssembleNodes | Plugins/LexicalHTML/LexicalHTML/HTMLConversion/HTMLImport.swift:129-141 | the end of `createNodeFromDOM` returns what `Assemble` describes |
| HtmlImport.ApplyTransforms | Plugins/LexicalHTML/LexicalHTML/HTMLConversion/HTMLImport.swift:76-86 | the loop over `forChildMap`, stopping at a nil, returns `RunTransforms` |
| HtmlImport.CreateChildNodes | Plugins/LexicalHTML/LexicalHTML/HTMLConversion/HTMLImport.swift:108-117 | the loop over the children, each with its own copy of the map, returns `ImportChildren` |
| HtmlImport.WithoutText | Plugins/LexicalHTML/LexicalHTML/HTMLConversion/HTMLImport.swift:25 | `filter { !($0 is TextNode) }`: no text node, every non-text node kept, never longer than the input |
| HtmlImport.WithoutTextConcat | Plugins/LexicalHTML/LexicalHTML/HTMLConversion/HTMLImport.swift:25 | the filter works on each part of a concatenation separately, so order and repetitions are kept |
| HtmlImport.WithoutTextSingle | Plugins/LexicalHTML/LexicalHTML/HTMLConversion/HTMLImport.swift:25 | a single node is dropped exactly when it is text |
| HtmlImport.BodyChildren | Plugins/LexicalHTML/LexicalHTML/HTMLConversion/HTMLImport.swift:14 | the body's children, none without a body |
| HtmlImport.TopLevel | Plugins/LexicalHTML/LexicalHTML/HTMLConversion/HTMLImport.swift:13-31 | no text node at the top of the result |
| HtmlImport.TopLevelStep | Plugins/LexicalHTML/LexicalHTML/HTMLConversion/HTMLImport.swift:17-27 | one more body child adds its own nodes, text dropped, after those of the children before it |
| HtmlImport.GenerateNodesFromDom | Plugins/LexicalHTML/LexicalHTML/HTMLConversion/HTMLImport.swift:13-31 | `generateNodesFromDOM`: the loop over the body's children returns `TopLevel` of them |
| HtmlImportProps.RegistryShaped | Plugins/LexicalHTML/LexicalHTML/HTMLConversion/HTMLImport.swift:45-50 | the tables of the eight node kinds hold their tags and converters in registration order |
| HtmlImportProps.RegistryDisjoint | Plugins/LexicalHTML/LexicalHTML/HTMLConversion/HTMLImport.swift:45-50 | no two node kinds register the same tag |
| HtmlImportProps.ShapedDisjoint | Plugins/LexicalHTML/LexicalHTML/HTMLConversion/HTMLImport.swift:45-50 | tables laid out like the registry have pairwise disjoint keys |
| HtmlImportProps.FirstMatchAt | Plugins/LexicalHTML/LexicalHTML/HTMLConversion/HTMLImport.swift:45-50 | the lookup finds the first table that has the key |
| HtmlImportProps.FirstMatchDisjoint | Plugins/LexicalHTML/LexicalHTML/HTMLConversion/HTMLImport.swift:45-50 | with disjoint tables the lookup finds the one table that has the key, wherever it is |
| HtmlImportProps.LookupIndependentOfOrder | Plugins/LexicalHTML/LexicalHTML/HTMLConversion/HTMLImport.swift:45-50 | registering the node kinds in any order (or only some of them) never finds a different converter |
| HtmlImportProps.RegisteredConverter | Plugins/LexicalHTML/LexicalHTML/HTMLConversion/HTMLImport.swift:45-50 | the converter registered for each tag: none exactly for the tags no node kind registers |
| HtmlImportProps.TextKeysLookup | Plugins/LexicalHTML/LexicalHTML/LexicalNodes/TextNode+HTML.swift:11-27 | the text node's tags find its converters |
| HtmlImportProps.ParagraphKeyLookup | Plugins/LexicalHTML/LexicalHTML/LexicalNodes/ParagraphNode+HTML.swift:12-17 | `p` finds the paragraph converter |
| HtmlImportProps.HeadingKeysLookup | Plugins/LexicalHTML/LexicalHTML/LexicalNodes/HeadingNode+HTML.swift:14-23 | `h1`–`h6` find the heading converter |
| HtmlImportProps.QuoteKeyLookup | Plugins/LexicalHTML/LexicalHTML/LexicalNodes/QuoteNode+HTML.swift:13-17 | `blockquote` finds the quote converter |
| HtmlImportProps.LineBreakKeyLookup | Plugins/LexicalHTML/LexicalHTML/LexicalNodes/LineBreakNode+HTML.swift:13-17 | `br` finds the line-break converter |
| HtmlImportProps.ListKeysLookup | Plugins/LexicalListPlugin/LexicalListHTMLSupport/LexicalListNode+HTML.swift:15-20 | `ol` and `ul` find the list converter |
| HtmlImportProps.ListItemKeyLookup | Plugins/LexicalListPlugin/LexicalListHTMLSupport/LexicalListItemNode+HTML.swift:15-19 | `li` finds the list-item converter |
| HtmlImportProps.LinkKeyLookup | Plugins/LexicalLinkPlugin/LexicalLinkPlugin/Nodes/LinkNode+HTML.swift:13-17 | `a` finds the link converter |
| HtmlImportProps.UnregisteredKey | Plugins/LexicalHTML/LexicalHTML/HTMLConversion/HTMLImport.swift:45-50 | a tag no node kind registers finds no converter |
| HtmlImportProps.ShapedRegisters | Plugins/LexicalHTML/LexicalHTML/HTMLConversion/HTMLImport.swift:45-50 | tables laid out like the registry find the registered converter for every key |
| HtmlImportProps.RegistryRegisters | Plugins/LexicalHTML/LexicalHTML/HTMLConversion/HTMLImport.swift:45-50 | the eight node kinds' tables find the registered converter for every key |
| HtmlImportProps.RegisteredConversion | Plugins/LexicalHTML/LexicalHTML/HTMLConversion/HTMLImport.swift:33-51 | with such tables an element runs the converter registered for its tag and a text leaf the `#text` converter |
| HtmlImportProps.IgnoredProducesNothing | Plugins/LexicalHTML/LexicalHTML/HTMLConversion/HTMLImport.swift:11-65 | a `style` or `script` node gives nothing, registers nothing, and its children are never looked at |
| HtmlImportProps.ImportChildrenConcat | Plugins/LexicalHTML/LexicalHTML/HTMLConversion/HTMLImport.swift:108-117 | the children's result is the concatenation of each part's, so nothing one sibling registers reaches the next |
| HtmlImportProps.ImportOneChild | Plugins/LexicalHTML/LexicalHTML/HTMLConversion/HTMLImport.swift:108-117 | one child's result is that child's own |
| HtmlImportProps.EmptyBlockIsLineBreak | Plugins/LexicalHTML/LexicalHTML/HTMLConversion/HTMLImport.swift:129-136 | a childless block with no converter becomes exactly one line break |
| HtmlImportProps.UnknownBlock | Plugins/LexicalHTML/LexicalHTML/HTMLConversion/HTMLImport.swift:119-136 | a block with no converter gives its children, wrapped when no block node encloses it, or a line break when there are none |
| HtmlImportProps.UnknownInlineIsTransparent | Plugins/LexicalHTML/LexicalHTML/HTMLConversion/HTMLImport.swift:119-136 | an inline element with no converter gives exactly its children's result |
| HtmlImportProps.ForChildReachesChildren | Plugins/LexicalHTML/LexicalHTML/HTMLConversion/HTMLImport.swift:74-95 | an inline element whose converter offers a transform produces no node of its own, leaves the transform registered under its node name, and its result is its children imported with that map |
| HtmlImportProps.ProducedElementHoldsChildren | Plugins/LexicalHTML/LexicalHTML/HTMLConversion/HTMLImport.swift:88-141 | a produced element holds its children, imported below a block node with the inherited map |
| HtmlImportProps.ProducedLeafDropsChildren | Plugins/LexicalHTML/LexicalHTML/HTMLConversion/HTMLImport.swift:88-141 | a produced text node or line break comes back alone; the children are dropped |
| HtmlImportProps.TopLevelHasNoText | Plugins/LexicalHTML/LexicalHTML/HTMLConversion/HTMLImport.swift:17-27 | no text node reaches the top of the result |
| HtmlImportProps.DivHasNoConverter | Plugins/LexicalHTML/LexicalHTML/HTMLUtils.swift:11-52 | `div` is a block tag that no node kind registers |
| HtmlImportProps.ParagraphOutput | Plugins/LexicalHTML/LexicalHTML/LexicalNodes/ParagraphNode+HTML.swift:19-54 | `p` runs the paragraph converter: one fresh paragraph and no transform |
| HtmlImportProps.LineBreakOutput | Plugins/LexicalHTML/LexicalHTML/LexicalNodes/LineBreakNode+HTML.swift:19-22 | `br` runs the line-break converter: one line break and no transform |
| HtmlImportProps.EmptyDivIsLineBreak | Plugins/LexicalHTML/LexicalHTML/HTMLConversion/HTMLImport.swift:129-136 | `<div></div>` becomes one line break |
| HtmlImportProps.EmptyParagraph | Plugins/LexicalHTML/LexicalHTML/HTMLConversion/HTMLImport.swift:129-141 | `<p></p>` becomes one empty paragraph, not a line break |
| HtmlImportProps.LineBreakElement | Plugins/LexicalHTML/LexicalHTML/LexicalNodes/LineBreakNode+HTML.swift:19-22 | `<br>` becomes one line break, whatever its attributes and the inherited transforms |
| HtmlImportProps.TextLeaf | Plugins/LexicalHTML/LexicalHTML/HTMLConversion/HTMLImport.swift:71-90 | a text leaf becomes one text node with the inherited transforms applied |
| HtmlImportProps.LoneTextChild | Plugins/LexicalHTML/LexicalHTML/HTMLConversion/HTMLImport.swift:108-117 | a lone text child becomes that one text node |
| HtmlImportProps.ParagraphOfText | Plugins/LexicalHTML/LexicalHTML/HTMLConversion/HTMLImport.swift:54-143 | `<p>t</p>` becomes a paragraph holding the text node |
| HtmlImportProps.DivWrapsText | Plugins/LexicalHTML/LexicalHTML/HTMLConversion/HTMLImport.swift:119-131 | `<div>t</div>` wraps the text in a new paragraph when no block node encloses it, and leaves it alone inside one |
| HtmlImportProps.LinkReimportsAsLineBreak | Plugins/LexicalLinkPlugin/LexicalLinkPlugin/Nodes/LinkNode+HTML.swift:32-35 | an exported link comes back as a line break: the link and its url are lost |
| HtmlImportProps.ParagraphExportReimport | Plugins/LexicalHTML/LexicalHTML/LexicalNodes/ParagraphNode+HTML.swift:19-63 | an exported paragraph comes back as an empty, unindented, left-aligned paragraph |
| HtmlImportProps.StrongTextIsBold | Plugins/LexicalHTML/LexicalHTML/LexicalNodes/TextNode+HTML.swift:42-60 | `<strong>t</strong>` imports as exactly one text node `t` with only the bold flag and no style |
| HtmlImportProps.BringAttentionIsNotBold | Plugins/LexicalHTML/LexicalHTML/LexicalNodes/TextNode+HTML.swift:30-39 | `<b>t</b>` imports as exactly one text node `t` with no flag and no style |

## Left out

- Parsing and serialising HTML (SwiftSoup) is not modelled: the markup tree is an input. Node keys, `editor.update` transactions and the editor's node registration are left out too. The registry is the `tables` parameter, which `Registers` characterises.
- The `after` hook of a conversion output is left out, because no converter sets it and the engine never reads it.
- Document nodes are values, not shared objects. `append` on the produced element builds a new value. Aliasing between a node and the list of produced nodes is not modelled: when a converter produces several nodes, the result is the nodes before the last, then the current node.
- `forChildMap` is a list in insertion order. A Swift dictionary has no specified iteration order, so only facts that hold for every order are claimed (`TransformOrderOnlyAffectsStyle`).
- The `parentLexicalNode` argument of a child transform is not modelled, because the only transforms the node kinds build ignore it.
- The traps are preconditions, not results. A style segment without two `:`-separated pieces traps at `splitted[1]`, so the converters that read styles require `StyleReadable`. The `try!` calls in `createNodeFromDOM` and `wrapContinuousInlines` cannot fail on the modelled nodes.
- ParagraphHtml.ExportDom, ListItemHtml.ExportDom: require `indent * 40` to fit in a 64-bit `Int`. Beyond that Swift traps on overflow.
- The text of a text leaf is taken as given. SwiftSoup's whitespace normalisation is not modelled.
- Colors.ColorFromRgb: takes `Double(_:)` as a parameter (`parseDouble`), not a model of it. Channels are exact reals, and `CGFloat` rounding is not modelled.
- Colors.ColorFromHex: `Scanner` is modelled for ASCII input only. It skips leading whitespace and an optional `0x`, then reads hexadecimal digits. The `UIColor` itself is a record of four reals.
- Colors.ColorFromHex, Colors.HexNeedsEightDigits, Strings.CharacterCount: text is a sequence of Unicode scalars. Swift Characters (extended grapheme clusters) are modelled for ASCII only. There a CR LF pair is one Character, and `CharacterCount` counts it once in the `hexColor.count == 8` test. Clusters built from non-ASCII characters, such as a base character followed by a combining mark, are not modelled.
- Strings.Split, Colors.ColorFromClean: Swift's `split`, `hasPrefix`, `hasSuffix` and `index(_:offsetBy:)` work on Characters (SwiftSoup+Styles.swift:29 and 32; UIColor+Extensions.swift:34-49). The model works on characters. On ASCII text the two agree, because no separator, prefix or suffix used here can be part of a CR LF pair. On other text they can differ, for example a separator followed by a combining mark is not a separator in Swift, and that is not modelled.
- Strings.Trim, Strings.TrimWithNewlines: only ASCII space, tab and newline characters count as whitespace. Strings.ToLower folds ASCII letters only.
- The element formats and heading tags are taken as the raw names used by the converters: `left`, `center`, `right`, `justify`, and `h1` to `h6`. Their declarations are not part of this model.
- The auto-link plugin, the playground app, the style events and the tests are not part of this model.
