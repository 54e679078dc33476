/**
  * StateTableModel of the current revision: the name of one state and the
  * transitions leaving it, as the document stores them. It reads both the
  * attribute form of a transition ("transition" with "message" and "state"
  * attributes) and the nested form ("transitions" holding one item per
  * transition), and its writer orders the transitions by message and,
  * unless AddAllMessages is set, leaves out those back to the state itself.
  *
  * The file builds transitions with a StateChangeModel(machine, target,
  * message) constructor and reads them back through a `State` property;
  * both belong to the shared project's StateChangeModel, whose values here
  * are the same `Change` of a message and a target.
  */
module StateTableModel {
  import opened Common
  import opened Document
  import opened Xml
  import opened Table
  import opened Named
  import opened Sorting
  import opened StateChangeModel
  import LegacyStateMachine
  import HybridState

  /**
    * ParseXmlNode on the table's value, tag lower-cased: "type" is skipped,
    * "name" takes the text, "transition" appends the transition its two
    * attributes name, "transitions" reads each of its items as one
    * transition, and any other tag goes to the base parser, which rejects it.
    */
  function ParsedTable(t: TableDoc, node: Node): (r: Parsed<TableDoc>)
  {
    var tag := Lower(node.tag);
    if tag == "type" then Parsed(t, None)
    else if tag == "name" then Parsed(t.(name := Some(node.text)), None)
    else if tag == "transition" then
      var m := Attribute(node, "message");
      if m.None? then Parsed(t, Some(MissingAttribute(node.tag, "message")))
      else
        var s := Attribute(node, "state");
        if s.None? then Parsed(t, Some(MissingAttribute(node.tag, "state")))
        else Parsed(t.(transitions := t.transitions + [Change(m, s)]), None)
    else if tag == "transitions" then TransitionItems(t, node.children)
    else Parsed(t, Some(UnknownTag(node.tag)))
  }

  /** ParseStateTransitions: a new transition read from the item's own items, appended unless that read throws. */
  function ParsedTransition(t: TableDoc, node: Node): (r: Parsed<TableDoc>)
  {
    var p := ChangeItems(Change(None, None), node.children);
    if p.fault.Some? then Parsed(t, p.fault)
    else Parsed(t.(transitions := t.transitions + [p.value]), None)
  }

  function TransitionItems(t: TableDoc, nodes: seq<Node>): (r: Parsed<TableDoc>)
    decreases |nodes|
  {
    if |nodes| == 0 then Parsed(t, None)
    else
      var p := ParsedTransition(t, nodes[0]);
      if p.fault.Some? then p else TransitionItems(p.value, nodes[1..])
  }

  /** The walker handing each item of a table's element to ParseXmlNode. */
  function TableItems(t: TableDoc, nodes: seq<Node>): (r: Parsed<TableDoc>)
    decreases |nodes|
  {
    if |nodes| == 0 then Parsed(t, None)
    else
      var p := ParsedTable(t, nodes[0]);
      if p.fault.Some? then p else TableItems(p.value, nodes[1..])
  }

  /** The sort key of a transition. */
  function MessageOf(c: Change): Name
  {
    c.message
  }

  /** The transitions the writer emits, in order: every one when `addAll` is set, otherwise those not back to `name`. */
  function Emitted(ts: seq<Change>, name: Name, addAll: bool): (r: seq<Change>)
  {
    if |ts| == 0 then []
    else
      var n := |ts| - 1;
      Emitted(ts[..n], name, addAll) + (if ts[n].target != name || addAll then [ts[n]] else [])
  }

  function TransitionElements(cs: seq<Change>): (r: seq<Element>)
  {
    seq(|cs|, i requires 0 <= i < |cs| => TransitionElement(cs[i]))
  }

  /** What WriteXmlNodes emits once the transitions are in order: a "state" element holding a "transitions" element. */
  function TableElement(t: TableDoc): (e: Element)
  {
    Element("state", [Attr("name", t.name)], [Element("transitions", [], TransitionElements(Emitted(t.transitions, t.name, t.addAll)))])
  }

  /** The emitted transitions are exactly the stored ones that are not self-transitions, or all of them with AddAllMessages. */
  lemma {:induction false} EmittedKeeps(ts: seq<Change>, name: Name, addAll: bool)
    ensures forall c :: c in Emitted(ts, name, addAll) <==> c in ts && (c.target != name || addAll)
    ensures addAll ==> Emitted(ts, name, addAll) == ts
  {
    if |ts| > 0 {
      var n := |ts| - 1;
      EmittedKeeps(ts[..n], name, addAll);
      assert ts == ts[..n] + [ts[n]];
    }
  }

  /**
    * The order written does not depend on the order stored: sorting is a
    * permutation, the result is ordered by message, and when no two
    * different transitions tie, any two arrangements of the same
    * transitions are written alike.
    */
  lemma WriteOrdersTransitions(ts: seq<Change>, us: seq<Change>, le: (Name, Name) -> bool)
    requires TotalPreorder(le)
    ensures multiset(SortBy(ts, MessageOf, le)) == multiset(ts)
    ensures SortedBy(SortBy(ts, MessageOf, le), MessageOf, le)
    ensures Separates(ts, MessageOf, le) && multiset(ts) == multiset(us) ==>
      SortBy(ts, MessageOf, le) == SortBy(us, MessageOf, le)
  {
    SortByPermutes(ts, MessageOf, le);
    SortBySorted(ts, MessageOf, le);
    if Separates(ts, MessageOf, le) && multiset(ts) == multiset(us) {
      SortByIgnoresOrder(ts, us, MessageOf, le);
    }
  }

  /** Reading back written transitions, one item each, appends them in order. */
  lemma {:induction false} TransitionsRoundTrip(t: TableDoc, cs: seq<Change>)
    requires forall i :: 0 <= i < |cs| ==> cs[i].message.Some? && cs[i].target.Some?
    ensures TransitionItems(t, seq(|cs|, i requires 0 <= i < |cs| => Reread(TransitionElement(cs[i]))))
         == Parsed(t.(transitions := t.transitions + cs), None)
    decreases |cs|
  {
    var nodes := seq(|cs|, i requires 0 <= i < |cs| => Reread(TransitionElement(cs[i])));
    if |cs| == 0 {
      assert t.transitions + cs == t.transitions;
    } else {
      TransitionRoundTrip(cs[0]);
      var t' := t.(transitions := t.transitions + [cs[0]]);
      assert ParsedTransition(t, nodes[0]) == Parsed(t', None);
      var rest := seq(|cs| - 1, i requires 0 <= i < |cs| - 1 => Reread(TransitionElement(cs[1..][i])));
      assert nodes[1..] == rest;
      TransitionsRoundTrip(t', cs[1..]);
      AppendHead(t.transitions, cs);
    }
  }

  /**
    * Reading back a written table into a new StateTableModel gives its
    * name and the transitions the writer emitted, in the written order.
    */
  lemma TableRoundTrip(t: TableDoc)
    requires t.name.Some?
    requires forall c :: c in t.transitions ==> c.message.Some? && c.target.Some?
    ensures TableItems(TableDoc(None, [], false), Reread(TableElement(t)).children)
         == Parsed(TableDoc(t.name, Emitted(t.transitions, t.name, t.addAll), false), None)
  {
    var cs := Emitted(t.transitions, t.name, t.addAll);
    EmittedKeeps(t.transitions, t.name, t.addAll);
    var items := Reread(TableElement(t)).children;
    RereadTable(t);
    var named := TableDoc(t.name, [], false);
    assert Lower("name") == "name";
    assert ParsedTable(TableDoc(None, [], false), items[0]) == Parsed(named, None);
    assert TableItems(TableDoc(None, [], false), items) == TableItems(named, items[1..]);
    assert Lower("transitions") == "transitions";
    TransitionsRoundTrip(named, cs);
    assert named.transitions + cs == cs;
    var full := TableDoc(t.name, cs, false);
    assert ParsedTable(named, items[1]) == Parsed(full, None);
    assert items[1..][0] == items[1] && items[1..][1..] == [];
    assert TableItems(named, items[1..]) == TableItems(full, []);
  }

  /** A written table, met again by the walker: its name attribute, then the item holding its transitions. */
  lemma RereadTable(t: TableDoc)
    requires t.name.Some?
    ensures var cs := Emitted(t.transitions, t.name, t.addAll);
      var items := Reread(TableElement(t)).children;
      && |items| == 2
      && items[0] == Node("name", t.name.value, [], [])
      && items[1].tag == "transitions"
      && items[1].children == seq(|cs|, i requires 0 <= i < |cs| => Reread(TransitionElement(cs[i])))
  {
    var cs := Emitted(t.transitions, t.name, t.addAll);
    var inner := Element("transitions", [], TransitionElements(cs));
    assert TableElement(t).children == [inner];
    assert Reread(inner).children == seq(|cs|, i requires 0 <= i < |cs| => Reread(TransitionElement(cs[i])));
  }

  class StateTableModel {
    var name: Name
    var transitions: seq<Change>
    var addAllMessages: bool

    function Value(): TableDoc
      reads this
    {
      TableDoc(name, transitions, addAllMessages)
    }

    /** A table with no name and no transitions. */
    constructor()
      ensures Value() == TableDoc(None, [], false)
    {
      name := None;
      transitions := [];
      addAllMessages := false;
    }

    constructor WithName(name: Name)
      ensures Value() == TableDoc(name, [], false)
    {
      this.name := name;
      transitions := [];
      addAllMessages := false;
    }

    /**
      * The table of row `stateIndex` of an index-based machine: one
      * transition per message, in order, whose target is not the row
      * itself. The machine's `Debug.Assert`s require the row and the
      * targets to exist and, since every message number is read through
      * the offset, an offset of 0 when there are messages.
      */
    constructor FromIndexed(machine: LegacyStateMachine.StateMachine, stateIndex: int)
      requires machine.Valid() && machine.data != null
      requires 0 <= stateIndex < machine.numStates
      requires machine.numMessages == 0 || machine.messageOffset == 0
      requires forall j :: 0 <= j < machine.numMessages ==> 0 <= machine.grid[stateIndex][j] < machine.numStates
      ensures Value() == TableDoc(machine.States()[stateIndex],
        RowChanges(machine.States(), machine.Messages(), machine.grid[stateIndex], stateIndex), false)
    {
      var stateName := machine.GetStateName(stateIndex);
      name := stateName;
      transitions := [];
      addAllMessages := false;
      new;
      ghost var sn, mn, row := machine.States(), machine.Messages(), machine.grid[stateIndex];
      for i := 0 to machine.numMessages
        invariant transitions == RowChanges(sn, mn, row[..i], stateIndex)
        invariant name == sn[stateIndex] && !addAllMessages
      {
        var target := machine.GetEntry(stateIndex, i);
        if target != stateIndex {
          var message := machine.GetMessageName(i);
          var targetName := machine.GetStateName(target);
          transitions := transitions + [Change(message, targetName)];
        }
        assert row[..i + 1][..i] == row[..i];
      }
      assert row[..machine.numMessages] == row;
    }

    /**
      * The table of a State: each entry of its dictionary whose target is
      * not `stateName`, once, in the dictionary's enumeration order, which
      * C# leaves unspecified.
      */
    constructor FromState(state: HybridState.State, stateName: Name, addAllMessages: bool)
      ensures name == stateName && this.addAllMessages == addAllMessages
      ensures Distinct(transitions)
      ensures forall c :: c in transitions <==> c in Kept(state.stateChanges, stateName)
    {
      name := stateName;
      this.addAllMessages := addAllMessages;
      transitions := [];
      new;
      var changes := state.stateChanges;
      var left := changes.Keys;
      while left != {}
        invariant name == stateName && this.addAllMessages == addAllMessages
        invariant left <= changes.Keys
        invariant Distinct(transitions)
        invariant forall c :: c in transitions ==> c.message.Some? && c.message.value in changes && c.message.value !in left
        invariant forall c :: c in transitions <==> c in Kept(changes, stateName) && c.message.value !in left
        decreases left
      {
        var key :| key in left;
        if Some(changes[key]) != stateName {
          transitions := transitions + [Change(Some(key), Some(changes[key]))];
        }
        left := left - {key};
      }
    }

    method ParseXmlNode(node: Node) returns (fault: Option<ParseFault>)
      modifies this
      ensures Parsed(Value(), fault) == ParsedTable(old(Value()), node)
    {
      var tag := Lower(node.tag);
      fault := None;
      if tag == "type" {
      } else if tag == "name" {
        name := Some(node.text);
      } else if tag == "transition" {
        var message := Attribute(node, "message");
        if message.None? {
          return Some(MissingAttribute(node.tag, "message"));
        }
        var target := Attribute(node, "state");
        if target.None? {
          return Some(MissingAttribute(node.tag, "state"));
        }
        transitions := transitions + [Change(message, target)];
      } else if tag == "transitions" {
        var i := 0;
        while i < |node.children|
          invariant 0 <= i <= |node.children| && fault == None
          invariant TransitionItems(old(Value()), node.children) == TransitionItems(Value(), node.children[i..])
        {
          assert node.children[i..][0] == node.children[i] && node.children[i..][1..] == node.children[i + 1..];
          fault := ParseStateTransitions(node.children[i]);
          if fault.Some? {
            return;
          }
          i := i + 1;
        }
      } else {
        fault := Some(UnknownTag(node.tag));
      }
    }

    /** ParseStateTransitions: one item read into a new StateChangeModel, which is then appended. */
    method ParseStateTransitions(node: Node) returns (fault: Option<ParseFault>)
      modifies this
      ensures Parsed(Value(), fault) == ParsedTransition(old(Value()), node)
    {
      var change := new StateChangeModel();
      var i := 0;
      fault := None;
      while i < |node.children|
        invariant 0 <= i <= |node.children| && fault == None
        invariant ChangeItems(Change(None, None), node.children) == ChangeItems(change.Value(), node.children[i..])
        invariant Value() == old(Value())
      {
        assert node.children[i..][0] == node.children[i] && node.children[i..][1..] == node.children[i + 1..];
        fault := change.ParseXmlNode(node.children[i]);
        if fault.Some? {
          return;
        }
        i := i + 1;
      }
      transitions := transitions + [change.Value()];
    }

    /**
      * WriteXmlNodes: the stored transitions are replaced by their
      * ordering by message, then written, leaving out those back to this
      * state unless AddAllMessages is set.
      */
    method WriteXmlNodes(le: (Name, Name) -> bool) returns (e: Element)
      modifies this
      ensures transitions == SortBy(old(transitions), MessageOf, le)
      ensures name == old(name) && addAllMessages == old(addAllMessages)
      ensures e == TableElement(Value())
    {
      transitions := SortBy(transitions, MessageOf, le);
      var written: seq<Element> := [];
      for i := 0 to |transitions|
        invariant written == TransitionElements(Emitted(transitions[..i], name, addAllMessages))
      {
        assert transitions[..i + 1][..i] == transitions[..i];
        if transitions[i].target != name || addAllMessages {
          written := written + [TransitionElement(transitions[i])];
        }
      }
      assert transitions[..|transitions|] == transitions;
      e := Element("state", [Attr("name", name)], [Element("transitions", [], written)]);
    }
  }
}
