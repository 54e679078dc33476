/**
  * StateChangeModel of the shared project: one transition, a message and
  * the state it leads to, built from the names an index-based
  * StateMachine gives its numbers. Its parser differs from the current
  * revision's only in skipping "type" items.
  */
module SharedStateChangeModel {
  import opened Common
  import opened Document
  import opened Xml
  import Current = StateChangeModel
  import SharedStateMachine

  /**
    * ParseXmlNode on the transition's value, tag lower-cased: "type" is
    * skipped, "message" and "state" take the node's text, and any other
    * tag goes to the base parser, which rejects it.
    */
  function ParsedSharedChange(c: Change, node: Node): (r: Parsed<Change>)
  {
    var tag := Lower(node.tag);
    if tag == "type" then Parsed(c, None)
    else if tag == "message" then Parsed(c.(message := Some(node.text)), None)
    else if tag == "state" then Parsed(c.(target := Some(node.text)), None)
    else Parsed(c, Some(UnknownTag(node.tag)))
  }

  /** The walker handing each item in turn to ParseXmlNode; the first fault ends the walk. */
  function SharedChangeItems(c: Change, nodes: seq<Node>): (r: Parsed<Change>)
    decreases |nodes|
  {
    if |nodes| == 0 then Parsed(c, None)
    else
      var p := ParsedSharedChange(c, nodes[0]);
      if p.fault.Some? then p else SharedChangeItems(p.value, nodes[1..])
  }

  /** The items whose tag, lower-cased, is not "type", in order. */
  function WithoutType(nodes: seq<Node>): (r: seq<Node>)
    ensures |r| <= |nodes|
    ensures forall n :: n in r <==> n in nodes && Lower(n.tag) != "type"
  {
    if |nodes| == 0 then []
    else (if Lower(nodes[0].tag) == "type" then [] else [nodes[0]]) + WithoutType(nodes[1..])
  }

  /**
    * Reading items into a transition is the current revision's reading of
    * the same items with the "type" ones taken out.
    */
  lemma {:induction false} SharedChangeItemsSkipType(c: Change, nodes: seq<Node>)
    ensures SharedChangeItems(c, nodes) == Current.ChangeItems(c, WithoutType(nodes))
    decreases |nodes|
  {
    if |nodes| > 0 {
      var rest := WithoutType(nodes[1..]);
      SharedChangeItemsSkipType(ParsedSharedChange(c, nodes[0]).value, nodes[1..]);
      if Lower(nodes[0].tag) != "type" {
        var w := [nodes[0]] + rest;
        assert WithoutType(nodes) == w;
        assert w[0] == nodes[0] && w[1..] == rest;
        assert ParsedSharedChange(c, nodes[0]) == Current.ParsedChange(c, nodes[0]);
      } else {
        assert WithoutType(nodes) == [] + rest == rest;
      }
    }
  }

  /** Reading back a written transition restores it: its two attributes are met as "message" and "state" items. */
  lemma SharedTransitionRoundTrip(c: Change)
    requires c.message.Some? && c.target.Some?
    ensures SharedChangeItems(Change(None, None), Reread(Current.TransitionElement(c)).children) == Parsed(c, None)
  {
    var items := Reread(Current.TransitionElement(c)).children;
    assert items == [Node("message", c.message.value, [], []), Node("state", c.target.value, [], [])];
    assert Lower("message") == "message" && Lower("state") == "state";
    var half := Change(c.message, None);
    assert ParsedSharedChange(Change(None, None), items[0]) == Parsed(half, None);
    assert SharedChangeItems(Change(None, None), items) == SharedChangeItems(half, items[1..]);
    assert items[1..][0] == items[1] && items[1..][1..] == [];
    assert ParsedSharedChange(half, items[1]) == Parsed(c, None);
  }

  class StateChangeModel {
    var message: Name
    var state: Name

    function Value(): Change
      reads this
    {
      Change(message, state)
    }

    /** A transition with neither a message nor a target. */
    constructor()
      ensures Value() == Change(None, None)
    {
      message := None;
      state := None;
    }

    /**
      * The transition on message number `message` to state number `state`,
      * by their names; the machine's lookups require both numbers in
      * range, the message one through the offset.
      */
    constructor FromIndexed(machine: SharedStateMachine.StateMachine, state: int, message: int)
      requires machine.messageNames != null && 0 <= message - machine.messageOffset < machine.NumMessages()
      requires machine.stateNames != null && 0 <= state < machine.NumStates()
      ensures Value() == Change(machine.Messages()[message - machine.messageOffset], machine.States()[state])
    {
      var m := machine.GetMessageName(message);
      var s := machine.GetStateName(state);
      this.message := m;
      this.state := s;
    }

    method ParseXmlNode(node: Node) returns (fault: Option<ParseFault>)
      modifies this
      ensures Parsed(Value(), fault) == ParsedSharedChange(old(Value()), node)
    {
      var tag := Lower(node.tag);
      fault := None;
      if tag == "type" {
      } else if tag == "message" {
        message := Some(node.text);
      } else if tag == "state" {
        state := Some(node.text);
      } else {
        fault := Some(UnknownTag(node.tag));
      }
    }

    /** WriteXmlNodes: the same "transition" element as the current revision writes. */
    method WriteXmlNodes() returns (e: Element)
      ensures e == Current.TransitionElement(Value())
    {
      e := Element("transition", [Attr("message", message), Attr("state", state)], []);
    }
  }
}
