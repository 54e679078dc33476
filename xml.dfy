/**
  * The two sides of the XML the document classes read and write, kept
  * abstract. Reading: the walker hands each parser one item at a time,
  * with its tag, its inner text, its attributes and the items below it.
  * Writing: each WriteXmlNodes produces elements with attributes and
  * children; the writer object itself is not modelled.
  */
module Xml {
  import opened Common

  /**
    * One item as a ParseXmlNode sees it: `node.Name`, `node.InnerText`,
    * `node.Attributes` and the items the walker visits below it, in order.
    */
  datatype Node = Node(tag: string, text: string, attrs: seq<(string, string)>, children: seq<Node>)

  /** One written attribute; a null value is kept as `None`. */
  datatype Attr = Attr(key: string, value: Name)

  datatype Element = Element(tag: string, attrs: seq<Attr>, children: seq<Element>)

  /** What a root's WriteXmlNodes writes into the element its caller opened: attributes, then children. */
  datatype Written = Written(attrs: seq<Attr>, children: seq<Element>)

  /**
    * Why a parse stopped: a tag the parser does not handle (NodeError, or
    * the base parser that every default case falls back on), or a missing
    * attribute read through `node.Attributes[key].InnerText`.
    */
  datatype ParseFault = UnknownTag(tag: string) | MissingAttribute(tag: string, key: string)

  /** A parse outcome: what has been read so far, and the fault that stopped it, if any. */
  datatype Parsed<T> = Parsed(value: T, fault: Option<ParseFault>)

  /** `node.Attributes[key]`: the attribute's text, or `None` when it is absent. */
  function Attribute(node: Node, key: string): (r: Option<string>)
    ensures r.None? <==> forall i :: 0 <= i < |node.attrs| ==> node.attrs[i].0 != key
    ensures r.Some? ==> exists i :: 0 <= i < |node.attrs| && node.attrs[i] == (key, r.value)
  {
    AttributeIn(node.attrs, key)
  }

  function AttributeIn(attrs: seq<(string, string)>, key: string): (r: Option<string>)
    ensures r.None? <==> forall i :: 0 <= i < |attrs| ==> attrs[i].0 != key
    ensures r.Some? ==> exists i :: 0 <= i < |attrs| && attrs[i] == (key, r.value)
  {
    if |attrs| == 0 then None
    else if attrs[0].0 == key then Some(attrs[0].1)
    else
      var r := AttributeIn(attrs[1..], key);
      assert r.Some? ==> attrs[1..][0].0 == attrs[1].0;
      r
  }

  /** The text an attribute is written with: XmlWriter writes a null value as empty. */
  function Text(v: Name): string
  {
    if v.Some? then v.value else ""
  }

  /**
    * How the walker meets a written element when the file is read again:
    * each attribute as a leaf item whose tag is the attribute's name and
    * whose text is its value, then each child element. A written element
    * holds no text of its own, so its inner text is empty.
    */
  function Reread(e: Element): (r: Node)
    ensures r.tag == e.tag && r.text == ""
    ensures |r.attrs| == |e.attrs| && |r.children| == |e.attrs| + |e.children|
  {
    Node(e.tag, "",
      seq(|e.attrs|, i requires 0 <= i < |e.attrs| => (e.attrs[i].key, Text(e.attrs[i].value))),
      Leaves(e.attrs) + seq(|e.children|, i requires 0 <= i < |e.children| => Reread(e.children[i])))
  }

  function Leaves(attrs: seq<Attr>): (r: seq<Node>)
    ensures |r| == |attrs|
    ensures forall i :: 0 <= i < |attrs| ==> r[i] == Node(attrs[i].key, Text(attrs[i].value), [], [])
  {
    seq(|attrs|, i requires 0 <= i < |attrs| => Node(attrs[i].key, Text(attrs[i].value), [], []))
  }
}
