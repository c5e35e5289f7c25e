/**
 * The markup tree as the conversion code sees it through SwiftSoup: elements
 * with a tag name, ordered attributes and ordered children; text leaves; and
 * any other leaf (a comment, a data node) known only by its node name.
 */
module Dom {
  import opened Wrappers

  datatype Attr = Attr(key: string, value: string)

  datatype DomNode =
    | Element(tag: string, attrs: seq<Attr>, children: seq<DomNode>)
    | Text(text: string)
    | Other(name: string)

  /** `nodeName()`: the tag of an element, `#text` for a text leaf. */
  function NodeName(n: DomNode): (r: string)
    ensures n.Element? ==> r == n.tag
    ensures n.Text? ==> r == "#text"
  {
    match n
    case Element(tag, _, _) => tag
    case Text(_) => "#text"
    case Other(name) => name
  }

  /** `(node as? SwiftSoup.Element)?.tagName()`. */
  function TagName(n: DomNode): (r: Option<string>)
    ensures r.Some? <==> n.Element?
    ensures r.Some? ==> r.value == NodeName(n)
  {
    if n.Element? then Some(n.tag) else None
  }

  /** `getChildNodes()`: leaves have none. */
  function ChildNodes(n: DomNode): (r: seq<DomNode>)
    ensures !n.Element? ==> r == []
  {
    if n.Element? then n.children else []
  }

  /** `getAttributes()`: only elements carry attributes. */
  function Attributes(n: DomNode): (r: Option<seq<Attr>>)
    ensures r.Some? <==> n.Element?
  {
    if n.Element? then Some(n.attrs) else None
  }

  predicate HasKey(attrs: seq<Attr>, key: string) {
    exists i :: 0 <= i < |attrs| && attrs[i].key == key
  }

  /** `Attributes.get(key:)`: the value stored under `key`, or `""` when there is none. */
  function Get(attrs: seq<Attr>, key: string): (r: string)
    ensures !HasKey(attrs, key) ==> r == ""
    ensures HasKey(attrs, key) ==> exists i :: 0 <= i < |attrs| && attrs[i] == Attr(key, r)
  {
    if attrs == [] then ""
    else if attrs[0].key == key then attrs[0].value
    else
      assert HasKey(attrs, key) ==> HasKey(attrs[1..], key) by {
        if HasKey(attrs, key) {
          var i :| 0 <= i < |attrs| && attrs[i].key == key;
          assert attrs[1..][i - 1].key == key;
        }
      }
      var r := Get(attrs[1..], key);
      assert HasKey(attrs, key) ==> exists i :: 0 <= i < |attrs| && attrs[i] == Attr(key, r) by {
        if HasKey(attrs, key) {
          var i :| 0 <= i < |attrs[1..]| && attrs[1..][i] == Attr(key, r);
          assert attrs[i + 1] == Attr(key, r);
        }
      }
      r
  }

  /** `getAttributes()?.get(key: key) ?? ""`: an element's attribute, `""` for a leaf or a missing attribute. */
  function AttributeOrEmpty(dom: DomNode, key: string): (r: string)
    ensures !dom.Element? ==> r == ""
    ensures dom.Element? && !HasKey(dom.attrs, key) ==> r == ""
    ensures dom.Element? && HasKey(dom.attrs, key) ==> Attr(key, r) in dom.attrs
  {
    match Attributes(dom)
    case Some(attrs) => Get(attrs, key)
    case None => ""
  }

  /**
   * `element.attr(key, value)`: replaces the value stored under `key`, or adds
   * the pair at the end when the key is new.
   */
  function SetAttr(attrs: seq<Attr>, key: string, value: string): (r: seq<Attr>)
    ensures HasKey(r, key) && Get(r, key) == value
    ensures forall k :: k != key ==> Get(r, k) == Get(attrs, k)
    ensures forall k :: k != key ==> (HasKey(r, k) <==> HasKey(attrs, k))
  {
    if attrs == [] then
      assert [Attr(key, value)][0].key == key;
      [Attr(key, value)]
    else if attrs[0].key == key then
      var r := [Attr(key, value)] + attrs[1..];
      assert r[0].key == key && r[1..] == attrs[1..];
      forall k | k != key ensures HasKey(r, k) <==> HasKey(attrs, k) {
        HasKeyCons(r, k);
        HasKeyCons(attrs, k);
      }
      r
    else
      var rest := SetAttr(attrs[1..], key, value);
      var r := [attrs[0]] + rest;
      assert r[1..] == rest;
      HasKeyCons(r, key);
      forall k | k != key ensures HasKey(r, k) <==> HasKey(attrs, k) {
        HasKeyCons(r, k);
        HasKeyCons(attrs, k);
      }
      r
  }

  /** A key is in a non-empty list exactly when it is the first pair's key or in the rest. */
  lemma HasKeyCons(attrs: seq<Attr>, key: string)
    requires attrs != []
    ensures HasKey(attrs, key) <==> attrs[0].key == key || HasKey(attrs[1..], key)
  {
    if HasKey(attrs, key) && attrs[0].key != key {
      var i :| 0 <= i < |attrs| && attrs[i].key == key;
      assert attrs[1..][i - 1].key == key;
    }
    if HasKey(attrs[1..], key) {
      var i :| 0 <= i < |attrs[1..]| && attrs[1..][i].key == key;
      assert attrs[i + 1].key == key;
    }
  }

  /** `SwiftSoup.Element(Tag(tag), "")`: a new element with no attributes and no children. */
  function NewDomElement(tag: string): (e: DomNode)
    ensures e.Element? && NodeName(e) == tag && e.attrs == [] && e.children == []
  {
    Element(tag, [], [])
  }
}
