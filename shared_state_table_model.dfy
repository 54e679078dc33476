/**
  * StateTableModel of the shared project: the name of one state and the
  * transitions leaving it. It reads only the nested form, with tags
  * compared exactly, and it writes every stored transition in the stored
  * order, inside a "transitions" element that carries the name.
  *
  * That written form is not the one the parser reads: the "transition"
  * elements arrive at the table's own parser, which has no case for them.
  * `WrittenTableNotReadBack` states what happens to such a table;
  * `NestedTableElement` is the form the parser does read back.
  */
module SharedStateTableModel {
  import opened Common
  import opened Document
  import opened Xml
  import opened Table
  import Current = StateTableModel
  import CurrentChange = StateChangeModel
  import opened SharedStateChangeModel
  import SharedStateMachine

  /**
    * ParseXmlNode on the table's value, tags compared exactly: "name" takes
    * the text, "transitions" reads each of its items as one transition,
    * and any other tag goes to the base parser, which rejects it.
    */
  function ParsedSharedTable(t: TableDoc, node: Node): (r: Parsed<TableDoc>)
  {
    if node.tag == "name" then Parsed(t.(name := Some(node.text)), None)
    else if node.tag == "transitions" then SharedTransitionItems(t, node.children)
    else Parsed(t, Some(UnknownTag(node.tag)))
  }

  /** ParseStateTransitions: a new transition read from the item's own items, appended unless that read throws. */
  function ParsedSharedTransition(t: TableDoc, node: Node): (r: Parsed<TableDoc>)
  {
    var p := SharedChangeItems(Change(None, None), node.children);
    if p.fault.Some? then Parsed(t, p.fault)
    else Parsed(t.(transitions := t.transitions + [p.value]), None)
  }

  function SharedTransitionItems(t: TableDoc, nodes: seq<Node>): (r: Parsed<TableDoc>)
    decreases |nodes|
  {
    if |nodes| == 0 then Parsed(t, None)
    else
      var p := ParsedSharedTransition(t, nodes[0]);
      if p.fault.Some? then p else SharedTransitionItems(p.value, nodes[1..])
  }

  /** The walker handing each item of a table's element to ParseXmlNode. */
  function SharedTableItems(t: TableDoc, nodes: seq<Node>): (r: Parsed<TableDoc>)
    decreases |nodes|
  {
    if |nodes| == 0 then Parsed(t, None)
    else
      var p := ParsedSharedTable(t, nodes[0]);
      if p.fault.Some? then p else SharedTableItems(p.value, nodes[1..])
  }

  /** What WriteXmlNodes emits: a "transitions" element named by the table, holding one "transition" per stored transition. */
  function SharedTableElement(t: TableDoc): (e: Element)
  {
    Element("transitions", [Attr("name", t.name)], Current.TransitionElements(t.transitions))
  }

  /**
    * A writer whose output this parser reads back: the name, then a
    * "transitions" item holding the transitions, every one of them in
    * the stored order.
    */
  function NestedTableElement(t: TableDoc): (e: Element)
  {
    Element("state", [Attr("name", t.name)], [Element("transitions", [], Current.TransitionElements(t.transitions))])
  }

  /**
    * The shared writer emits the transitions the current writer emits
    * with AddAllMessages set, without ordering them first: all of them.
    */
  lemma SharedWritesAll(t: TableDoc)
    ensures SharedTableElement(t).children == Current.TableElement(t.(addAll := true)).children[0].children
    ensures NestedTableElement(t) == Current.TableElement(t.(addAll := true))
  {
    Current.EmittedKeeps(t.transitions, t.name, true);
  }

  /**
    * A written table holding a transition is not read back: the name is
    * read, and then the first "transition" element stops the read.
    */
  lemma WrittenTableNotReadBack(t: TableDoc)
    requires t.name.Some? && |t.transitions| > 0
    ensures SharedTableItems(TableDoc(None, [], false), Reread(SharedTableElement(t)).children)
         == Parsed(TableDoc(t.name, [], false), Some(UnknownTag("transition")))
  {
    var items := Reread(SharedTableElement(t)).children;
    assert items[0] == Node("name", t.name.value, [], []);
    assert items[1] == Reread(CurrentChange.TransitionElement(t.transitions[0]));
    var named := TableDoc(t.name, [], false);
    assert SharedTableItems(TableDoc(None, [], false), items) == SharedTableItems(named, items[1..]);
    assert items[1..][0] == items[1];
  }

  /** Reading back written transitions, one item each, appends them in order. */
  lemma {:induction false} SharedTransitionsRoundTrip(t: TableDoc, cs: seq<Change>)
    requires forall i :: 0 <= i < |cs| ==> cs[i].message.Some? && cs[i].target.Some?
    ensures SharedTransitionItems(t, seq(|cs|, i requires 0 <= i < |cs| => Reread(CurrentChange.TransitionElement(cs[i]))))
         == Parsed(t.(transitions := t.transitions + cs), None)
    decreases |cs|
  {
    var nodes := seq(|cs|, i requires 0 <= i < |cs| => Reread(CurrentChange.TransitionElement(cs[i])));
    if |cs| == 0 {
      assert t.transitions + cs == t.transitions;
    } else {
      SharedTransitionRoundTrip(cs[0]);
      var t' := t.(transitions := t.transitions + [cs[0]]);
      assert ParsedSharedTransition(t, nodes[0]) == Parsed(t', None);
      var rest := seq(|cs| - 1, i requires 0 <= i < |cs| - 1 => Reread(CurrentChange.TransitionElement(cs[1..][i])));
      assert nodes[1..] == rest;
      SharedTransitionsRoundTrip(t', cs[1..]);
      AppendHead(t.transitions, cs);
    }
  }

  /** The nested form, read back into a new StateTableModel, gives the table itself. */
  lemma NestedTableRoundTrip(t: TableDoc)
    requires t.name.Some? && !t.addAll
    requires forall c :: c in t.transitions ==> c.message.Some? && c.target.Some?
    ensures SharedTableItems(TableDoc(None, [], false), Reread(NestedTableElement(t)).children) == Parsed(t, None)
  {
    var cs := t.transitions;
    var items := Reread(NestedTableElement(t)).children;
    var inner := Element("transitions", [], Current.TransitionElements(cs));
    assert NestedTableElement(t).children == [inner];
    assert items[0] == Node("name", t.name.value, [], []);
    assert items[1] == Reread(inner);
    assert Reread(inner).children == seq(|cs|, i requires 0 <= i < |cs| => Reread(CurrentChange.TransitionElement(cs[i])));
    var named := TableDoc(t.name, [], false);
    assert SharedTableItems(TableDoc(None, [], false), items) == SharedTableItems(named, items[1..]);
    SharedTransitionsRoundTrip(named, cs);
    assert named.transitions + cs == cs;
    assert ParsedSharedTable(named, items[1]) == Parsed(t, None);
    assert items[1..][0] == items[1] && items[1..][1..] == [];
    assert SharedTableItems(named, items[1..]) == SharedTableItems(t, []);
  }

  class StateTableModel {
    var name: Name
    var transitions: seq<Change>

    function Value(): TableDoc
      reads this
    {
      TableDoc(name, transitions, false)
    }

    /** A table with no name and no transitions. */
    constructor()
      ensures Value() == TableDoc(None, [], false)
    {
      name := None;
      transitions := [];
    }

    /**
      * The table of row `stateIndex`: one transition per message, in
      * order, whose target is not the row itself. The machine's lookups
      * require the row and every target to be states and, since the
      * message numbers from 0 go through the offset, an offset of 0 when
      * there are messages.
      */
    constructor FromIndexed(machine: SharedStateMachine.StateMachine, stateIndex: int)
      requires machine.Valid() && machine.data != null && machine.Closed()
      requires 0 <= stateIndex < machine.NumStates()
      requires machine.NumMessages() == 0 || machine.messageOffset == 0
      ensures Value() == TableDoc(machine.States()[stateIndex],
        RowChanges(machine.States(), machine.Messages(), machine.grid[stateIndex], stateIndex), false)
    {
      var stateName := machine.GetStateName(stateIndex);
      name := stateName;
      transitions := [];
      new;
      ghost var sn, mn, row := machine.States(), machine.Messages(), machine.grid[stateIndex];
      for i := 0 to machine.NumMessages()
        invariant transitions == RowChanges(sn, mn, row[..i], stateIndex)
        invariant name == sn[stateIndex]
      {
        var target := machine.GetEntry(stateIndex, i);
        if target != stateIndex {
          var change := new StateChangeModel.FromIndexed(machine, target, i);
          transitions := transitions + [change.Value()];
        }
        assert row[..i + 1][..i] == row[..i];
      }
      assert row[..machine.NumMessages()] == row;
    }

    method ParseXmlNode(node: Node) returns (fault: Option<ParseFault>)
      modifies this
      ensures Parsed(Value(), fault) == ParsedSharedTable(old(Value()), node)
    {
      fault := None;
      if node.tag == "name" {
        name := Some(node.text);
      } else if node.tag == "transitions" {
        var i := 0;
        while i < |node.children|
          invariant 0 <= i <= |node.children| && fault == None
          invariant SharedTransitionItems(old(Value()), node.children) == SharedTransitionItems(Value(), node.children[i..])
        {
          assert node.children[i..][0] == node.children[i] && node.children[i..][1..] == node.children[i + 1..];
          fault := ParseStateTransitions(node.children[i]);
          if fault.Some? {
            return;
          }
          i := i + 1;
        }
      } else {
        fault := Some(UnknownTag(node.tag));
      }
    }

    /** ParseStateTransitions: one item read into a new StateChangeModel, which is then appended. */
    method ParseStateTransitions(node: Node) returns (fault: Option<ParseFault>)
      modifies this
      ensures Parsed(Value(), fault) == ParsedSharedTransition(old(Value()), node)
    {
      var change := new StateChangeModel();
      var i := 0;
      fault := None;
      while i < |node.children|
        invariant 0 <= i <= |node.children| && fault == None
        invariant SharedChangeItems(Change(None, None), node.children) == SharedChangeItems(change.Value(), node.children[i..])
        invariant Value() == old(Value())
      {
        assert node.children[i..][0] == node.children[i] && node.children[i..][1..] == node.children[i + 1..];
        fault := change.ParseXmlNode(node.children[i]);
        if fault.Some? {
          return;
        }
        i := i + 1;
      }
      transitions := transitions + [change.Value()];
    }

    /** WriteXmlNodes: every stored transition, in the stored order. */
    method WriteXmlNodes() returns (e: Element)
      ensures e == SharedTableElement(Value())
    {
      var written: seq<Element> := [];
      for i := 0 to |transitions|
        invariant written == Current.TransitionElements(transitions[..i])
      {
        written := written + [CurrentChange.TransitionElement(transitions[i])];
      }
      assert transitions[..|transitions|] == transitions;
      e := Element("transitions", [Attr("name", name)], written);
    }
  }
}
