/**
  * StateChangeModel of the current revision: one transition of the
  * document, a message and the state it leads to.
  */
module StateChangeModel {
  import opened Common
  import opened Document
  import opened Xml

  /**
    * ParseXmlNode on the transition's value. The tag is compared lower-cased:
    * "message" and "state" take the node's text; any other tag goes to the
    * base parser, which rejects it.
    */
  function ParsedChange(c: Change, node: Node): (r: Parsed<Change>)
  {
    var tag := Lower(node.tag);
    if tag == "message" then Parsed(c.(message := Some(node.text)), None)
    else if tag == "state" then Parsed(c.(target := Some(node.text)), None)
    else Parsed(c, Some(UnknownTag(node.tag)))
  }

  /** The walker handing each item in turn to ParseXmlNode; the first fault ends the walk. */
  function ChangeItems(c: Change, nodes: seq<Node>): (r: Parsed<Change>)
    decreases |nodes|
  {
    if |nodes| == 0 then Parsed(c, None)
    else
      var p := ParsedChange(c, nodes[0]);
      if p.fault.Some? then p else ChangeItems(p.value, nodes[1..])
  }

  /** WriteXmlNodes: one "transition" element carrying the message and the target as attributes. */
  function TransitionElement(c: Change): (e: Element)
  {
    Element("transition", [Attr("message", c.message), Attr("state", c.target)], [])
  }

  /** Lower-casing a lower-cased name changes nothing. */
  lemma LowerIdempotent(s: string)
    ensures Lower(Lower(s)) == Lower(s)
  {
    var l := Lower(s);
    assert forall i :: 0 <= i < |l| ==> Lower(l)[i] == l[i];
  }

  /** The parse does not depend on the case of the tag, only on its lower-cased form. */
  lemma ParsedChangeIgnoresCase(c: Change, node: Node)
    requires Lower(node.tag) == "message" || Lower(node.tag) == "state"
    ensures ParsedChange(c, node) == ParsedChange(c, node.(tag := Lower(node.tag)))
  {
    LowerIdempotent(node.tag);
  }

  /**
    * Reading back a written transition: the walker meets its two
    * attributes as "message" and "state" items, which restore it.
    */
  lemma TransitionRoundTrip(c: Change)
    requires c.message.Some? && c.target.Some?
    ensures ChangeItems(Change(None, None), Reread(TransitionElement(c)).children) == Parsed(c, None)
  {
    var items := Reread(TransitionElement(c)).children;
    assert items == [Node("message", c.message.value, [], []), Node("state", c.target.value, [], [])];
    assert Lower("message") == "message" && Lower("state") == "state";
    var half := Change(c.message, None);
    assert ParsedChange(Change(None, None), items[0]) == Parsed(half, None);
    assert ChangeItems(Change(None, None), items) == ChangeItems(half, items[1..]);
    assert items[1..][0] == items[1] && items[1..][1..] == [];
    assert ParsedChange(half, items[1]) == Parsed(c, None);
  }

  class StateChangeModel {
    var message: Name
    var targetState: Name

    function Value(): Change
      reads this
    {
      Change(message, targetState)
    }

    /** A transition with neither a message nor a target. */
    constructor()
      ensures Value() == Change(None, None)
    {
      message := None;
      targetState := None;
    }

    constructor Of(message: Name, targetState: Name)
      ensures Value() == Change(message, targetState)
    {
      this.message := message;
      this.targetState := targetState;
    }

    method ParseXmlNode(node: Node) returns (fault: Option<ParseFault>)
      modifies this
      ensures Parsed(Value(), fault) == ParsedChange(old(Value()), node)
    {
      var tag := Lower(node.tag);
      if tag == "message" {
        message := Some(node.text);
        fault := None;
      } else if tag == "state" {
        targetState := Some(node.text);
        fault := None;
      } else {
        fault := Some(UnknownTag(node.tag));
      }
    }

    method WriteXmlNodes() returns (e: Element)
      ensures e == TransitionElement(Value())
    {
      e := Element("transition", [Attr("message", message), Attr("state", targetState)], []);
    }
  }
}
