/**
  * StateModel: the transitions of one state as the document of a
  * StringStateMachine stores them. It reads a "name" item and a
  * "transitions" item holding one item per transition; unlike
  * StateTableModel it has no "type" item, no attribute form and no
  * AddAllMessages flag, and its writer always leaves out the transitions
  * back to the state itself. Its value is the `TableDoc` whose flag is
  * never set, so the writer's output is that of StateTableModel.
  */
module StateModel {
  import opened Common
  import opened Document
  import opened Xml
  import opened Named
  import opened Sorting
  import opened StateChangeModel
  import opened StateTableModel
  import NamedState

  /**
    * ParseXmlNode on the state's value, tag lower-cased: "name" takes the
    * text, "transitions" reads each of its items as one transition, and
    * any other tag goes to the base parser, which rejects it.
    */
  function ParsedState(t: TableDoc, node: Node): (r: Parsed<TableDoc>)
  {
    var tag := Lower(node.tag);
    if tag == "name" then Parsed(t.(name := Some(node.text)), None)
    else if tag == "transitions" then TransitionItems(t, node.children)
    else Parsed(t, Some(UnknownTag(node.tag)))
  }

  /** The walker handing each item of a state's element to ParseXmlNode. */
  function StateItems(t: TableDoc, nodes: seq<Node>): (r: Parsed<TableDoc>)
    decreases |nodes|
  {
    if |nodes| == 0 then Parsed(t, None)
    else
      var p := ParsedState(t, nodes[0]);
      if p.fault.Some? then p else StateItems(p.value, nodes[1..])
  }

  /**
    * Reading back a written state into a new StateModel gives its name and
    * its transitions that are not back to itself, in the written order.
    */
  lemma StateRoundTrip(t: TableDoc)
    requires t.name.Some? && !t.addAll
    requires forall c :: c in t.transitions ==> c.message.Some? && c.target.Some?
    ensures StateItems(TableDoc(None, [], false), Reread(TableElement(t)).children)
         == Parsed(TableDoc(t.name, Emitted(t.transitions, t.name, false), false), None)
  {
    var cs := Emitted(t.transitions, t.name, false);
    EmittedKeeps(t.transitions, t.name, false);
    var items := Reread(TableElement(t)).children;
    RereadTable(t);
    var named := TableDoc(t.name, [], false);
    assert Lower("name") == "name";
    assert ParsedState(TableDoc(None, [], false), items[0]) == Parsed(named, None);
    assert StateItems(TableDoc(None, [], false), items) == StateItems(named, items[1..]);
    assert Lower("transitions") == "transitions";
    TransitionsRoundTrip(named, cs);
    assert named.transitions + cs == cs;
    var full := TableDoc(t.name, cs, false);
    assert ParsedState(named, items[1]) == Parsed(full, None);
    assert items[1..][0] == items[1] && items[1..][1..] == [];
    assert StateItems(named, items[1..]) == StateItems(full, []);
  }

  /**
    * A state built from a State and written: nothing it holds is back to
    * itself, so the writer leaves none of it out.
    */
  lemma KeptAllEmitted(ts: seq<Change>, changes: Changes, name: Name)
    requires forall c :: c in ts <==> c in Kept(changes, name)
    ensures Emitted(ts, name, false) == ts
  {
    EmittedKeeps(ts, name, false);
    EmittedAll(ts, name);
  }

  lemma {:induction false} EmittedAll(ts: seq<Change>, name: Name)
    requires forall c :: c in ts ==> c.target != name
    ensures Emitted(ts, name, false) == ts
    decreases |ts|
  {
    if |ts| > 0 {
      var n := |ts| - 1;
      assert ts[n] in ts;
      EmittedAll(ts[..n], name);
      assert ts == ts[..n] + [ts[n]];
    }
  }

  class StateModel {
    var name: Name
    var transitions: seq<Change>

    function Value(): TableDoc
      reads this
    {
      TableDoc(name, transitions, false)
    }

    /** A state with no name and no transitions. */
    constructor()
      ensures Value() == TableDoc(None, [], false)
    {
      name := None;
      transitions := [];
    }

    /**
      * The transitions of `state` whose target is not `stateName`, once
      * each, in the dictionary's enumeration order, which C# leaves
      * unspecified.
      */
    constructor FromState(stateName: Name, state: NamedState.State)
      ensures name == stateName
      ensures Distinct(transitions)
      ensures forall c :: c in transitions <==> c in Kept(state.stateChanges, stateName)
    {
      name := stateName;
      transitions := [];
      new;
      var changes := state.stateChanges;
      var left := changes.Keys;
      while left != {}
        invariant name == stateName
        invariant left <= changes.Keys
        invariant Distinct(transitions)
        invariant forall c :: c in transitions ==> c.message.Some? && c.message.value in changes && c.message.value !in left
        invariant forall c :: c in transitions <==> c in Kept(changes, stateName) && c.message.value !in left
        decreases left
      {
        var key :| key in left;
        if Some(changes[key]) != stateName {
          transitions := transitions + [Change(Some(key), Some(changes[key]))];
        }
        left := left - {key};
      }
    }

    method ParseXmlNode(node: Node) returns (fault: Option<ParseFault>)
      modifies this
      ensures Parsed(Value(), fault) == ParsedState(old(Value()), node)
    {
      var tag := Lower(node.tag);
      fault := None;
      if tag == "name" {
        name := Some(node.text);
      } else if tag == "transitions" {
        var i := 0;
        while i < |node.children|
          invariant 0 <= i <= |node.children| && fault == None
          invariant TransitionItems(old(Value()), node.children) == TransitionItems(Value(), node.children[i..])
        {
          assert node.children[i..][0] == node.children[i] && node.children[i..][1..] == node.children[i + 1..];
          fault := ParseStateTransitions(node.children[i]);
          if fault.Some? {
            return;
          }
          i := i + 1;
        }
      } else {
        fault := Some(UnknownTag(node.tag));
      }
    }

    /** ParseStateTransitions: one item read into a new StateChangeModel, which is then appended. */
    method ParseStateTransitions(node: Node) returns (fault: Option<ParseFault>)
      modifies this
      ensures Parsed(Value(), fault) == ParsedTransition(old(Value()), node)
    {
      var change := new StateChangeModel();
      var i := 0;
      fault := None;
      while i < |node.children|
        invariant 0 <= i <= |node.children| && fault == None
        invariant ChangeItems(Change(None, None), node.children) == ChangeItems(change.Value(), node.children[i..])
        invariant Value() == old(Value())
      {
        assert node.children[i..][0] == node.children[i] && node.children[i..][1..] == node.children[i + 1..];
        fault := change.ParseXmlNode(node.children[i]);
        if fault.Some? {
          return;
        }
        i := i + 1;
      }
      transitions := transitions + [change.Value()];
    }

    /**
      * WriteXmlNodes: the stored transitions are replaced by their
      * ordering by message, then written, leaving out those back to this
      * state.
      */
    method WriteXmlNodes(le: (Name, Name) -> bool) returns (e: Element)
      modifies this
      ensures transitions == SortBy(old(transitions), MessageOf, le)
      ensures name == old(name)
      ensures e == TableElement(Value())
    {
      transitions := SortBy(transitions, MessageOf, le);
      var written: seq<Element> := [];
      for i := 0 to |transitions|
        invariant written == TransitionElements(Emitted(transitions[..i], name, false))
      {
        assert transitions[..i + 1][..i] == transitions[..i];
        if transitions[i].target != name {
          written := written + [TransitionElement(transitions[i])];
        }
      }
      assert transitions[..|transitions|] == transitions;
      e := Element("state", [Attr("name", name)], [Element("transitions", [], written)]);
    }
  }
}
