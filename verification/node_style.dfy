/**
 * `NodeStyle`: the two style properties the converters read from an
 * element's `style` attribute, `padding-inline-start` and `text-align`, with
 * the parser (`init(from:)`) and the printer (`toString`).
 */
module NodeStyles {
  import opened Wrappers
  import opened Strings
  import opened Dom

  /** `NodeStyle.TextAlign`. */
  datatype TextAlign = Left | Right | Center | Justify | End | Start

  function TextAlignRaw(a: TextAlign): (s: string)
    ensures s != [] && Trimmed(s, false) && ':' !in s && ';' !in s
  {
    match a
    case Left => "left"
    case Right => "right"
    case Center => "center"
    case Justify => "justify"
    case End => "end"
    case Start => "start"
  }

  /** `TextAlign(rawValue:)`: exactly the six lower-case names. */
  function TextAlignFromRaw(s: string): (r: Option<TextAlign>)
    ensures r.Some? <==> s in {"left", "right", "center", "justify", "end", "start"}
    ensures r.Some? ==> TextAlignRaw(r.value) == s
    ensures forall a :: TextAlignRaw(a) == s ==> r == Some(a)
  {
    if s == "left" then Some(Left)
    else if s == "right" then Some(Right)
    else if s == "center" then Some(Center)
    else if s == "justify" then Some(Justify)
    else if s == "end" then Some(End)
    else if s == "start" then Some(Start)
    else None
  }

  datatype NodeStyle = NodeStyle(paddingInlineState: Option<Int64>, textAlign: Option<TextAlign>)

  const EmptyStyle := NodeStyle(None, None)

  const PaddingKey := "padding-inline-start"
  const TextAlignKey := "text-align"

  // ---------------------------------------------------------------------------
  // Parsing

  /**
   * A `;`-segment the parser can read: splitting it on `:` gives at least two
   * non-empty pieces. Any other segment makes `splitted[1]` trap.
   */
  predicate SegmentDecodable(segment: string) {
    |Split(segment, ':')| >= 2
  }

  /** Segments that all split into a key and a value. */
  predicate AllSegmentsDecodable(segments: seq<string>) {
    forall i :: 0 <= i < |segments| ==> SegmentDecodable(segments[i])
  }

  /** A style string that `init(from:)` reads without trapping. */
  predicate Decodable(s: string) {
    AllSegmentsDecodable(Split(s, ';'))
  }

  /** The trimmed first `:`-piece of a segment. */
  function SegmentKey(segment: string): string
    requires SegmentDecodable(segment)
  {
    Trim(Split(segment, ':')[0])
  }

  /** The trimmed second `:`-piece of a segment (any further pieces are ignored). */
  function SegmentValue(segment: string): string
    requires SegmentDecodable(segment)
  {
    Trim(Split(segment, ':')[1])
  }

  /** The effect of one trimmed key/value pair on the style being built. */
  function ApplyProperty(st: NodeStyle, key: string, value: string): (r: NodeStyle)
    ensures key == PaddingKey ==> r == st.(paddingInlineState := ParseInt(value))
    ensures key == TextAlignKey ==> r == st.(textAlign := TextAlignFromRaw(value))
    ensures key != PaddingKey && key != TextAlignKey ==> r == st
  {
    if key == PaddingKey then st.(paddingInlineState := ParseInt(value))
    else if key == TextAlignKey then st.(textAlign := TextAlignFromRaw(value))
    else st
  }

  /** The style after reading the given segments in order. */
  function DecodeSegments(st: NodeStyle, segments: seq<string>): NodeStyle
    requires AllSegmentsDecodable(segments)
  {
    if segments == [] then st
    else
      var last := segments[|segments| - 1];
      ApplyProperty(DecodeSegments(st, segments[..|segments| - 1]), SegmentKey(last), SegmentValue(last))
  }

  /** What `NodeStyle(from: s)` builds. */
  function Decode(s: string): NodeStyle
    requires Decodable(s)
  {
    DecodeSegments(EmptyStyle, Split(s, ';'))
  }

  /**
   * `init(from:)`: starts with both fields nil and, for each `;`-segment in
   * turn, sets the field its key names.
   */
  method NodeStyleFromString(s: string) returns (style: NodeStyle)
    requires Decodable(s)
    ensures style == Decode(s)
  {
    var components := Split(s, ';');
    var paddingInlineState: Option<Int64> := None;
    var textAlign: Option<TextAlign> := None;
    var i := 0;
    while i < |components|
      invariant 0 <= i <= |components|
      invariant NodeStyle(paddingInlineState, textAlign) == DecodeSegments(EmptyStyle, components[..i])
    {
      var splitted := Split(components[i], ':');
      var key := Trim(splitted[0]);
      var value := Trim(splitted[1]);
      if key == PaddingKey {
        paddingInlineState := ParseInt(value);
      } else if key == TextAlignKey {
        textAlign := TextAlignFromRaw(value);
      }
      DecodeSegmentsStep(EmptyStyle, components, i);
      i := i + 1;
    }
    assert components[..i] == components;
    style := NodeStyle(paddingInlineState, textAlign);
  }

  /** `Attributes.styles()`: the style read from the `style` attribute, never nil. */
  function Styles(attrs: seq<Attr>): (r: Option<NodeStyle>)
    requires Decodable(Get(attrs, "style"))
    ensures r.Some?
    ensures !HasKey(attrs, "style") ==> r == Some(EmptyStyle)
  {
    DecodeEmpty();
    Some(Decode(Get(attrs, "style")))
  }

  /** `getAttributes()?.styles()` does not trap: a node without attributes, or a readable `style`. */
  predicate StyleReadable(dom: DomNode) {
    match Attributes(dom)
    case Some(attrs) => Decodable(Get(attrs, "style"))
    case None => true
  }

  /** `getAttributes()?.styles()`: nil only for a node that has no attributes. */
  function StylesOf(dom: DomNode): (r: Option<NodeStyle>)
    requires StyleReadable(dom)
    ensures r.Some? <==> dom.Element?
  {
    match Attributes(dom)
    case Some(attrs) => Styles(attrs)
    case None => None
  }

  /**
   * The `padding-inline-start` entry the paragraph and list item exporters
   * write: the indent times 40, with a `px` unit.
   */
  function IndentEntry(indent: int): string
    requires MinInt64 <= indent * 40 <= MaxInt64
  {
    PaddingKey + ":" + (IntToString(indent * 40) + "px")
  }

  // ---------------------------------------------------------------------------
  // Printing

  /** The entry `toString` prints for a padding: the key, a `:` and the bare integer. */
  function PaddingEntry(n: Int64): string {
    PaddingKey + ":" + IntToString(n)
  }

  /** The entry `toString` prints for an alignment: the key, a `:` and the case name. */
  function AlignEntry(a: TextAlign): string {
    TextAlignKey + ":" + TextAlignRaw(a)
  }

  /** The entries `toString` prints: nil fields are left out. */
  function Entries(st: NodeStyle): (r: seq<string>)
    ensures |r| <= 2
    ensures r == [] <==> st.paddingInlineState.None? && st.textAlign.None?
  {
    (if st.paddingInlineState.Some? then [PaddingEntry(st.paddingInlineState.value)] else [])
    + (if st.textAlign.Some? then [AlignEntry(st.textAlign.value)] else [])
  }

  /**
   * `toString`: the entries joined by `;`. The source builds them from a
   * dictionary, whose order is unspecified, so the order is a parameter here:
   * `paddingFirst` says whether the padding entry comes first.
   */
  function ToString(st: NodeStyle, paddingFirst: bool): (r: string)
    ensures r == [] <==> st == EmptyStyle
  {
    var entries := Entries(st);
    if |entries| == 2 then
      (if paddingFirst then entries[0] + ";" + entries[1] else entries[1] + ";" + entries[0])
    else if |entries| == 1 then entries[0]
    else []
  }

  // ---------------------------------------------------------------------------
  // Properties

  /** Reading one more segment applies its key and value to the style read so far. */
  lemma DecodeSegmentsStep(st: NodeStyle, segments: seq<string>, i: nat)
    requires i < |segments|
    requires AllSegmentsDecodable(segments)
    ensures DecodeSegments(st, segments[..i + 1])
         == ApplyProperty(DecodeSegments(st, segments[..i]), SegmentKey(segments[i]), SegmentValue(segments[i]))
  {
    assert segments[..i + 1][..i] == segments[..i];
  }

  /** An empty style string has no segments and sets neither field. */
  lemma DecodeEmpty()
    ensures Decodable("") && Decode("") == EmptyStyle
  {
    SplitEmpty(';');
  }

  /** Reading `a;b` is reading `a`, then the segments of `b` on top of it. */
  lemma {:induction false} DecodeSegmentsConcat(st: NodeStyle, p: seq<string>, q: seq<string>)
    requires AllSegmentsDecodable(p) && AllSegmentsDecodable(q)
    ensures AllSegmentsDecodable(p + q)
    ensures DecodeSegments(st, p + q) == DecodeSegments(DecodeSegments(st, p), q)
  {
    DecodableConcat(p, q);
    if q != [] {
      var n := |q|;
      var init := q[..n - 1];
      DecodableConcat(p, init);
      assert (p + q)[..|p + q| - 1] == p + init;
      assert (p + q)[|p + q| - 1] == q[n - 1];
      DecodeSegmentsConcat(st, p, init);
    } else {
      assert p + q == p;
    }
  }

  lemma DecodableConcat(p: seq<string>, q: seq<string>)
    requires AllSegmentsDecodable(p) && AllSegmentsDecodable(q)
    ensures AllSegmentsDecodable(p + q)
  {
    forall i | 0 <= i < |p + q| ensures SegmentDecodable((p + q)[i]) {
      if i < |p| { assert (p + q)[i] == p[i]; } else { assert (p + q)[i] == q[i - |p|]; }
    }
  }

  /** A segment `key:value` whose pieces hold no `:` reads as that trimmed pair. */
  lemma SegmentPieces(key: string, value: string)
    requires key != [] && value != [] && ':' !in key && ':' !in value
    ensures SegmentDecodable(key + ":" + value)
    ensures SegmentKey(key + ":" + value) == Trim(key) && SegmentValue(key + ":" + value) == Trim(value)
  {
    SplitConcat(key, value, ':');
    SplitSingle(key, ':');
    SplitSingle(value, ':');
  }

  /** A style string with no `;` is one segment, read on its own. */
  lemma DecodeSingleSegment(segment: string)
    requires segment != [] && ';' !in segment && SegmentDecodable(segment)
    ensures Decodable(segment)
    ensures Decode(segment) == ApplyProperty(EmptyStyle, SegmentKey(segment), SegmentValue(segment))
  {
    SplitSingle(segment, ';');
    var segments := [segment];
    assert segments[..0] == [] && segments[0] == segment;
    assert DecodeSegments(EmptyStyle, segments)
        == ApplyProperty(DecodeSegments(EmptyStyle, []), SegmentKey(segment), SegmentValue(segment));
  }

  /**
   * Keys and values are trimmed before they are matched: one segment with
   * spaces around its key and value sets the field its key names.
   */
  lemma DecodeOneProperty(key: string, value: string)
    requires key != [] && value != [] && ':' !in key && ':' !in value && ';' !in key && ';' !in value
    ensures Decodable(key + ":" + value)
    ensures Decode(key + ":" + value) == ApplyProperty(EmptyStyle, Trim(key), Trim(value))
  {
    var segment := key + ":" + value;
    SegmentPieces(key, value);
    assert ';' !in segment;
    DecodeSingleSegment(segment);
  }

  /**
   * Spaces and tabs around the key and around the value do not matter: an
   * alignment segment padded with them sets that alignment.
   */
  lemma TextAlignIgnoresSpaces(a: TextAlign, pre1: string, post1: string, pre2: string, post2: string)
    requires AllSpaces(pre1, false) && AllSpaces(post1, false) && AllSpaces(pre2, false) && AllSpaces(post2, false)
    ensures Decodable((pre1 + TextAlignKey + post1) + ":" + (pre2 + TextAlignRaw(a) + post2))
    ensures Decode((pre1 + TextAlignKey + post1) + ":" + (pre2 + TextAlignRaw(a) + post2))
         == EmptyStyle.(textAlign := Some(a))
  {
    var key := pre1 + TextAlignKey + post1;
    var value := pre2 + TextAlignRaw(a) + post2;
    NoSeparatorInSpaces(pre1, post1, TextAlignKey);
    NoSeparatorInSpaces(pre2, post2, TextAlignRaw(a));
    TrimPadded(pre1, TextAlignKey, post1, false);
    TrimPadded(pre2, TextAlignRaw(a), post2, false);
    assert Trim(key) == TextAlignKey && Trim(value) == TextAlignRaw(a);
    DecodeOneProperty(key, value);
  }

  /** Padding a piece with spaces adds no `:` or `;`. */
  lemma NoSeparatorInSpaces(pre: string, post: string, s: string)
    requires AllSpaces(pre, false) && AllSpaces(post, false)
    requires s != [] && ':' !in s && ';' !in s
    ensures pre + s + post != [] && ':' !in pre + s + post && ';' !in pre + s + post
  {
  }

  /** The padding a plain integer sets is that integer. */
  lemma PaddingReadsInteger(n: Int64)
    ensures Decodable(PaddingEntry(n))
    ensures Decode(PaddingEntry(n)) == EmptyStyle.(paddingInlineState := Some(n))
  {
    PaddingEntryPieces(n);
    DecodeSingleSegment(PaddingEntry(n));
  }

  /**
   * `padding-inline-start` must be a plain integer: with a `px` suffix, as the
   * exporters write it, the padding reads as nil.
   */
  lemma PaddingWithUnitIsNil(n: Int64)
    ensures Decodable(PaddingKey + ":" + (IntToString(n) + "px"))
    ensures Decode(PaddingKey + ":" + (IntToString(n) + "px")) == EmptyStyle
  {
    var v := IntToString(n) + "px";
    WithUnitIsNotInteger(n);
    EntryPieces(PaddingKey, v);
    DecodeSingleSegment(PaddingKey + ":" + v);
  }

  /** A number followed by `px` is not an `Int`. */
  lemma WithUnitIsNotInteger(n: Int64)
    ensures Trimmed(IntToString(n) + "px", false)
    ensures ':' !in IntToString(n) + "px" && ';' !in IntToString(n) + "px"
    ensures ParseInt(IntToString(n) + "px") == None
  {
    var v := IntToString(n) + "px";
    IntToStringPlain(n);
    assert v[|v| - 1] == 'x' && v[0] == IntToString(n)[0];
  }

  /** A segment appended after a `;` is read last, on top of the style read before it. */
  lemma DecodeAppendSegment(s: string, segment: string)
    requires Decodable(s)
    requires segment != [] && ';' !in segment && SegmentDecodable(segment)
    ensures Decodable(s + ";" + segment)
    ensures Decode(s + ";" + segment) == ApplyProperty(Decode(s), SegmentKey(segment), SegmentValue(segment))
  {
    var p := Split(s, ';');
    SplitSingle(segment, ';');
    assert s + ";" + segment == s + [';'] + segment;
    SplitConcat(s, segment, ';');
    var all := p + [segment];
    assert Split(s + ";" + segment, ';') == all;
    assert all[..|all| - 1] == p && all[|all| - 1] == segment;
    assert AllSegmentsDecodable(all) by {
      forall i | 0 <= i < |all| ensures SegmentDecodable(all[i]) {
        if i < |p| { assert all[i] == p[i]; }
      }
    }
  }

  /**
   * Appending a `text-align` segment to any readable style string sets the
   * alignment to that value (the last occurrence wins) and keeps the padding.
   */
  lemma LastTextAlignWins(s: string, a: TextAlign)
    requires Decodable(s)
    ensures Decodable(s + ";" + AlignEntry(a))
    ensures Decode(s + ";" + AlignEntry(a)) == Decode(s).(textAlign := Some(a))
  {
    AlignEntryPieces(a);
    DecodeAppendSegment(s, AlignEntry(a));
  }

  /** Likewise a padding segment appended last sets the padding and keeps the alignment. */
  lemma LastPaddingWins(s: string, n: Int64)
    requires Decodable(s)
    ensures Decodable(s + ";" + PaddingEntry(n))
    ensures Decode(s + ";" + PaddingEntry(n)) == Decode(s).(paddingInlineState := Some(n))
  {
    PaddingEntryPieces(n);
    DecodeAppendSegment(s, PaddingEntry(n));
  }

  /** A segment whose trimmed key is neither known name changes nothing. */
  lemma UnknownKeyIgnored(s: string, segment: string)
    requires Decodable(s)
    requires segment != [] && ';' !in segment && SegmentDecodable(segment)
    requires SegmentKey(segment) != PaddingKey && SegmentKey(segment) != TextAlignKey
    ensures Decodable(s + ";" + segment)
    ensures Decode(s + ";" + segment) == Decode(s)
  {
    DecodeAppendSegment(s, segment);
  }

  /** A segment without a `:` makes the parser trap. */
  lemma SegmentWithoutColonTraps(s: string)
    requires s != [] && ';' !in s && ':' !in s
    ensures !Decodable(s)
  {
    SplitSingle(s, ';');
    SplitSingle(s, ':');
    assert !SegmentDecodable(Split(s, ';')[0]);
  }

  /** An entry printed by `toString` reads back as its own key and value. */
  lemma EntryPieces(key: string, value: string)
    requires key != [] && value != [] && Trimmed(key, false) && Trimmed(value, false)
    requires ':' !in key && ':' !in value && ';' !in key && ';' !in value
    ensures ';' !in key + ":" + value
    ensures SegmentDecodable(key + ":" + value)
    ensures SegmentKey(key + ":" + value) == key && SegmentValue(key + ":" + value) == value
  {
    var entry := key + ":" + value;
    assert entry == key + [':'] + value;
    assert forall c :: c in entry ==> c in key || c == ':' || c in value;
    SegmentPieces(key, value);
    TrimIdentity(key, false);
    TrimIdentity(value, false);
  }

  lemma PaddingEntryPieces(n: Int64)
    ensures PaddingEntry(n) != [] && ';' !in PaddingEntry(n) && SegmentDecodable(PaddingEntry(n))
    ensures SegmentKey(PaddingEntry(n)) == PaddingKey && ParseInt(SegmentValue(PaddingEntry(n))) == Some(n)
  {
    IntToStringPlain(n);
    EntryPieces(PaddingKey, IntToString(n));
    ParseIntToString(n);
  }

  lemma AlignEntryPieces(a: TextAlign)
    ensures AlignEntry(a) != [] && ';' !in AlignEntry(a) && SegmentDecodable(AlignEntry(a))
    ensures SegmentKey(AlignEntry(a)) == TextAlignKey && TextAlignFromRaw(SegmentValue(AlignEntry(a))) == Some(a)
  {
    EntryPieces(TextAlignKey, TextAlignRaw(a));
  }

  lemma AlignReadsName(a: TextAlign)
    ensures Decodable(AlignEntry(a))
    ensures Decode(AlignEntry(a)) == EmptyStyle.(textAlign := Some(a))
  {
    AlignEntryPieces(a);
    DecodeSingleSegment(AlignEntry(a));
  }

  /** Two printed entries read back as both fields, whichever comes first. */
  lemma BothEntriesRead(n: Int64, a: TextAlign)
    ensures Decodable(PaddingEntry(n) + ";" + AlignEntry(a)) && Decodable(AlignEntry(a) + ";" + PaddingEntry(n))
    ensures Decode(PaddingEntry(n) + ";" + AlignEntry(a)) == NodeStyle(Some(n), Some(a))
    ensures Decode(AlignEntry(a) + ";" + PaddingEntry(n)) == NodeStyle(Some(n), Some(a))
  {
    PaddingReadsInteger(n);
    AlignReadsName(a);
    LastTextAlignWins(PaddingEntry(n), a);
    LastPaddingWins(AlignEntry(a), n);
  }

  /**
   * `toString` and `init(from:)` are inverse: whatever order the dictionary
   * gives the two entries, reading the printed string gives back the style.
   */
  lemma DecodeToString(st: NodeStyle, paddingFirst: bool)
    ensures Decodable(ToString(st, paddingFirst))
    ensures Decode(ToString(st, paddingFirst)) == st
  {
    match st {
      case NodeStyle(None, None) =>
        DecodeEmpty();
      case NodeStyle(Some(n), None) =>
        PaddingReadsInteger(n);
      case NodeStyle(None, Some(a)) =>
        AlignReadsName(a);
      case NodeStyle(Some(n), Some(a)) =>
        BothEntriesRead(n, a);
    }
  }
}
