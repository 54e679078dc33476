/**
  * StateMachineModel of the shared project: the document of an
  * index-based StateMachine, with the older tags ("stateNames",
  * "messageNames", "states"), written in the stored order.
  *
  * Its writer and its reader disagree. Names are written as "name"
  * attributes but read from the item's inner text, which a written name
  * element does not have, so every name comes back empty; and the tables
  * are written in a form their parser stops at (see SharedStateTableModel).
  * `DocNotReadBack` states what a read of a written document gives;
  * `CorrectedRoundTrip` is the round trip once names are read from their
  * attribute and tables written in the nested form.
  */
module SharedStateMachineModel {
  import opened Common
  import opened Document
  import opened Xml
  import opened Table
  import Current = StateMachineModel
  import opened SharedStateTableModel
  import SharedStateMachine

  // ------------------------------------------------------------ reading

  /** The parser ReadChildNodes hands each item to. */
  datatype Callback = OnNode | OnStateName | OnMessageName | OnState

  /**
    * How ParseStateNames and ParseMessageNames take a name from an item:
    * `ByText`, the item's inner text, is what the code does; `ByAttribute`,
    * its "name" attribute, is what the writer calls for.
    */
  datatype Reading = ByText | ByAttribute

  /** The name one list item gives, or the attribute it lacks. */
  function NameItem(node: Node, reading: Reading): (r: Parsed<Name>)
    ensures reading == ByText ==> r == Parsed(Some(node.text), None)
    ensures reading == ByAttribute ==> (r.fault.None? <==> Attribute(node, "name").Some?)
    ensures reading == ByAttribute && r.fault.None? ==> r.value == Attribute(node, "name")
  {
    if reading == ByText then Parsed(Some(node.text), None)
    else
      var a := Attribute(node, "name");
      if a.None? then Parsed(None, Some(MissingAttribute(node.tag, "name")))
      else Parsed(Some(a.value), None)
  }

  /**
    * One item handed to `callback`. ParseXmlNode compares tags exactly:
    * "Asset" reads its own items, "Type" is skipped, "initial" takes the
    * text, "stateNames", "messageNames" and "states" hand their items to
    * ParseStateNames, ParseMessageNames and ParseStates, and any other tag
    * is a NodeError. ParseStates appends the table a new StateTableModel
    * reads from the item's own items.
    */
  function Step(d: Doc, node: Node, callback: Callback, reading: Reading): (r: Parsed<Doc>)
    decreases node, 1
  {
    match callback
    case OnNode =>
      if node.tag == "Asset" then Walk(d, node.children, OnNode, reading)
      else if node.tag == "Type" then Parsed(d, None)
      else if node.tag == "initial" then Parsed(d.(initial := Some(node.text)), None)
      else if node.tag == "stateNames" then Walk(d, node.children, OnStateName, reading)
      else if node.tag == "messageNames" then Walk(d, node.children, OnMessageName, reading)
      else if node.tag == "states" then Walk(d, node.children, OnState, reading)
      else Parsed(d, Some(UnknownTag(node.tag)))
    case OnStateName =>
      var n := NameItem(node, reading);
      if n.fault.Some? then Parsed(d, n.fault) else Parsed(d.(stateNames := d.stateNames + [n.value]), None)
    case OnMessageName =>
      var n := NameItem(node, reading);
      if n.fault.Some? then Parsed(d, n.fault) else Parsed(d.(messageNames := d.messageNames + [n.value]), None)
    case OnState =>
      var p := SharedTableItems(TableDoc(None, [], false), node.children);
      if p.fault.Some? then Parsed(d, p.fault)
      else Parsed(d.(tables := d.tables + [p.value]), None)
  }

  /** ReadChildNodes: each item in turn to `callback`; the first fault ends the walk. */
  function Walk(d: Doc, nodes: seq<Node>, callback: Callback, reading: Reading): (r: Parsed<Doc>)
    decreases nodes, 0
  {
    if |nodes| == 0 then Parsed(d, None)
    else
      var p := Step(d, nodes[0], callback, reading);
      if p.fault.Some? then p else Walk(p.value, nodes[1..], callback, reading)
  }

  // ------------------------------------------------------------ writing

  function SharedTableElements(tables: seq<TableDoc>): (r: seq<Element>)
    ensures |r| == |tables|
  {
    seq(|tables|, i requires 0 <= i < |tables| => SharedTableElement(tables[i]))
  }

  function NestedTableElements(tables: seq<TableDoc>): (r: seq<Element>)
    ensures |r| == |tables|
  {
    seq(|tables|, i requires 0 <= i < |tables| => NestedTableElement(tables[i]))
  }

  /** What WriteXmlNodes emits: the initial state, then the three lists in their stored order. */
  function SharedEmit(d: Doc): Written
  {
    Written([Attr("initial", d.initial)],
      [Element("stateNames", [], Current.NameElements("state", d.stateNames)),
       Element("messageNames", [], Current.NameElements("message", d.messageNames)),
       Element("states", [], SharedTableElements(d.tables))])
  }

  /** The same document with each table written in the nested form. */
  function NestedEmit(d: Doc): Written
  {
    Written([Attr("initial", d.initial)],
      [Element("stateNames", [], Current.NameElements("state", d.stateNames)),
       Element("messageNames", [], Current.NameElements("message", d.messageNames)),
       Element("states", [], NestedTableElements(d.tables))])
  }

  /** `n` empty names: what reading `n` written names by their inner text gives. */
  function Blanks(n: nat): (r: seq<Name>)
    ensures |r| == n && forall i :: 0 <= i < n ==> r[i] == Some("")
  {
    seq(n, i => Some(""))
  }

  /** No table has a transition, and none has the AddAllMessages flag. */
  ghost predicate NoTransitions(tables: seq<TableDoc>)
  {
    forall t :: t in tables ==> t.transitions == [] && !t.addAll
  }

  // ------------------------------------------------------------ reading back what was written

  /** The items below a written document: the "initial" attribute, then the three lists. */
  lemma RereadSharedEmit(d: Doc, w: Written, tables: seq<Element>)
    requires d.initial.Some?
    requires w == Written([Attr("initial", d.initial)],
      [Element("stateNames", [], Current.NameElements("state", d.stateNames)),
       Element("messageNames", [], Current.NameElements("message", d.messageNames)),
       Element("states", [], tables)])
    ensures var items := Current.RereadWritten(w);
      && |items| == 4
      && items[0] == Node("initial", d.initial.value, [], [])
      && items[1].tag == "stateNames"
      && items[1].children == Current.RereadAll(Current.NameElements("state", d.stateNames))
      && items[2].tag == "messageNames"
      && items[2].children == Current.RereadAll(Current.NameElements("message", d.messageNames))
      && items[3].tag == "states"
      && items[3].children == Current.RereadAll(tables)
  {
    assert Leaves([]) == [];
    assert Reread(w.children[0]).children == Current.RereadAll(Current.NameElements("state", d.stateNames));
    assert Reread(w.children[1]).children == Current.RereadAll(Current.NameElements("message", d.messageNames));
    assert Reread(w.children[2]).children == Current.RereadAll(tables);
  }

  /** A four-item walk is its four steps, the last of which may stop it. */
  lemma WalkFour(d: Doc, items: seq<Node>, d1: Doc, d2: Doc, d3: Doc, reading: Reading)
    requires |items| == 4
    requires Step(d, items[0], OnNode, reading) == Parsed(d1, None)
    requires Step(d1, items[1], OnNode, reading) == Parsed(d2, None)
    requires Step(d2, items[2], OnNode, reading) == Parsed(d3, None)
    ensures Walk(d, items, OnNode, reading) == Step(d3, items[3], OnNode, reading)
  {
    assert items[1..][0] == items[1] && items[1..][1..] == items[2..];
    assert items[2..][0] == items[2] && items[2..][1..] == items[3..];
    assert items[3..][0] == items[3] && items[3..][1..] == [];
    assert Walk(d, items, OnNode, reading) == Walk(d1, items[1..], OnNode, reading);
    assert Walk(d1, items[1..], OnNode, reading) == Walk(d2, items[2..], OnNode, reading);
    assert Walk(d2, items[2..], OnNode, reading) == Walk(d3, items[3..], OnNode, reading);
  }

  /** Written names read back by their inner text: as many names, every one empty. */
  lemma {:induction false} NamesReadEmpty(d: Doc, tag: string, names: seq<Name>, callback: Callback)
    requires callback == OnStateName || callback == OnMessageName
    ensures Walk(d, Current.RereadAll(Current.NameElements(tag, names)), callback, ByText) == Parsed(
        if callback == OnStateName then d.(stateNames := d.stateNames + Blanks(|names|))
        else d.(messageNames := d.messageNames + Blanks(|names|)), None)
    decreases |names|
  {
    var nodes := Current.RereadAll(Current.NameElements(tag, names));
    if |names| == 0 {
      assert d.stateNames + Blanks(0) == d.stateNames && d.messageNames + Blanks(0) == d.messageNames;
    } else {
      assert nodes[0].text == "";
      var d' := if callback == OnStateName then d.(stateNames := d.stateNames + [Some("")])
                else d.(messageNames := d.messageNames + [Some("")]);
      assert Step(d, nodes[0], callback, ByText) == Parsed(d', None);
      assert nodes[1..] == Current.RereadAll(Current.NameElements(tag, names[1..]));
      NamesReadEmpty(d', tag, names[1..], callback);
      assert Blanks(|names|) == [Some("")] + Blanks(|names| - 1);
      assert d.stateNames + Blanks(|names|) == d'.stateNames + Blanks(|names| - 1) || callback != OnStateName;
      assert d.messageNames + Blanks(|names|) == d'.messageNames + Blanks(|names| - 1) || callback != OnMessageName;
    }
  }

  /**
    * Written tables read back: when none has a transition they all come
    * back; otherwise the read stops at the first "transition" element.
    */
  lemma {:induction false} TablesNotReadBack(d: Doc, tables: seq<TableDoc>)
    requires forall t :: t in tables ==> t.name.Some?
    ensures var r := Walk(d, Current.RereadAll(SharedTableElements(tables)), OnState, ByText);
      && r.value == d.(tables := r.value.tables)
      && (NoTransitions(tables) ==> r == Parsed(d.(tables := d.tables + tables), None))
      && ((exists t :: t in tables && t.transitions != []) ==> r.fault == Some(UnknownTag("transition")))
    decreases |tables|
  {
    var nodes := Current.RereadAll(SharedTableElements(tables));
    if |tables| == 0 {
      assert d.tables + tables == d.tables;
    } else {
      var t := tables[0];
      assert t in tables;
      assert nodes[0] == Reread(SharedTableElement(t));
      assert nodes[1..] == Current.RereadAll(SharedTableElements(tables[1..]));
      if t.transitions != [] {
        WrittenTableNotReadBack(t);
      } else {
        var items := Reread(SharedTableElement(t)).children;
        assert items == [Node("name", t.name.value, [], [])];
        assert SharedTableItems(TableDoc(None, [], false), items) == Parsed(TableDoc(t.name, [], false), None);
        var d' := d.(tables := d.tables + [TableDoc(t.name, [], false)]);
        assert Step(d, nodes[0], OnState, ByText) == Parsed(d', None);
        TablesNotReadBack(d', tables[1..]);
        assert forall u :: u in tables[1..] ==> u in tables;
        if NoTransitions(tables) {
          assert t == TableDoc(t.name, [], false);
          AppendHead(d.tables, tables);
        }
        if exists u :: u in tables && u.transitions != [] {
          var u :| u in tables && u.transitions != [];
          InTail(tables, u);
        }
      }
    }
  }

  /**
    * Reading a written document into a new StateMachineModel gives back
    * its initial state and as many names as it wrote, every one empty;
    * its tables come back only when none has a transition.
    */
  lemma DocNotReadBack(d: Doc)
    requires Current.WellNamed(d)
    ensures var r := Walk(Empty, Current.RereadWritten(SharedEmit(d)), OnNode, ByText);
      && r.value.initial == d.initial
      && r.value.stateNames == Blanks(|d.stateNames|)
      && r.value.messageNames == Blanks(|d.messageNames|)
      && (NoTransitions(d.tables) ==> r == Parsed(r.value.(tables := d.tables), None))
      && ((exists t :: t in d.tables && t.transitions != []) ==> r.fault == Some(UnknownTag("transition")))
  {
    var items := Current.RereadWritten(SharedEmit(d));
    RereadSharedEmit(d, SharedEmit(d), SharedTableElements(d.tables));
    var d1 := Empty.(initial := d.initial);
    var d2 := d1.(stateNames := Blanks(|d.stateNames|));
    var d3 := d2.(messageNames := Blanks(|d.messageNames|));
    assert Step(Empty, items[0], OnNode, ByText) == Parsed(d1, None);
    NamesReadEmpty(d1, "state", d.stateNames, OnStateName);
    assert [] + Blanks(|d.stateNames|) == Blanks(|d.stateNames|);
    NamesReadEmpty(d2, "message", d.messageNames, OnMessageName);
    assert [] + Blanks(|d.messageNames|) == Blanks(|d.messageNames|);
    TablesNotReadBack(d3, d.tables);
    assert [] + d.tables == d.tables;
    WalkFour(Empty, items, d1, d2, d3, ByText);
  }

  /** Written names read back by their "name" attribute: appended, in order. */
  lemma {:induction false} NamesRoundTrip(d: Doc, tag: string, names: seq<Name>, callback: Callback)
    requires callback == OnStateName || callback == OnMessageName
    requires forall i :: 0 <= i < |names| ==> names[i].Some?
    ensures Walk(d, Current.RereadAll(Current.NameElements(tag, names)), callback, ByAttribute) == Parsed(
        if callback == OnStateName then d.(stateNames := d.stateNames + names)
        else d.(messageNames := d.messageNames + names), None)
    decreases |names|
  {
    var nodes := Current.RereadAll(Current.NameElements(tag, names));
    if |names| == 0 {
      assert d.stateNames + names == d.stateNames && d.messageNames + names == d.messageNames;
    } else {
      var e := Current.NameElements(tag, names)[0];
      assert Reread(e).attrs == [("name", names[0].value)];
      assert Attribute(nodes[0], "name") == names[0];
      var d' := if callback == OnStateName then d.(stateNames := d.stateNames + [names[0]])
                else d.(messageNames := d.messageNames + [names[0]]);
      assert Step(d, nodes[0], callback, ByAttribute) == Parsed(d', None);
      assert nodes[1..] == Current.RereadAll(Current.NameElements(tag, names[1..]));
      NamesRoundTrip(d', tag, names[1..], callback);
      AppendHead(d.stateNames, names);
      AppendHead(d.messageNames, names);
    }
  }

  /** Tables written in the nested form read back as themselves, appended in order. */
  lemma {:induction false} NestedTablesRoundTrip(d: Doc, tables: seq<TableDoc>, reading: Reading)
    requires forall t :: t in tables ==>
      t.name.Some? && !t.addAll && forall c :: c in t.transitions ==> c.message.Some? && c.target.Some?
    ensures Walk(d, Current.RereadAll(NestedTableElements(tables)), OnState, reading) == Parsed(d.(tables := d.tables + tables), None)
    decreases |tables|
  {
    var nodes := Current.RereadAll(NestedTableElements(tables));
    if |tables| == 0 {
      assert d.tables + tables == d.tables;
    } else {
      var t := tables[0];
      assert t in tables;
      NestedTableRoundTrip(t);
      assert nodes[0] == Reread(NestedTableElement(t));
      var d' := d.(tables := d.tables + [t]);
      assert Step(d, nodes[0], OnState, reading) == Parsed(d', None);
      assert nodes[1..] == Current.RereadAll(NestedTableElements(tables[1..]));
      assert forall u :: u in tables[1..] ==> u in tables;
      NestedTablesRoundTrip(d', tables[1..], reading);
      AppendHead(d.tables, tables);
    }
  }

  /**
    * With names read from their attribute and tables written in the nested
    * form, reading a written document gives back exactly that document.
    */
  lemma CorrectedRoundTrip(d: Doc)
    requires Current.WellNamed(d)
    requires forall t :: t in d.tables ==> !t.addAll
    ensures Walk(Empty, Current.RereadWritten(NestedEmit(d)), OnNode, ByAttribute) == Parsed(d, None)
  {
    var items := Current.RereadWritten(NestedEmit(d));
    RereadSharedEmit(d, NestedEmit(d), NestedTableElements(d.tables));
    var d1 := Empty.(initial := d.initial);
    var d2 := d1.(stateNames := d.stateNames);
    var d3 := d2.(messageNames := d.messageNames);
    assert Step(Empty, items[0], OnNode, ByAttribute) == Parsed(d1, None);
    assert forall i :: 0 <= i < |d.stateNames| ==> d.stateNames[i] in d.stateNames;
    NamesRoundTrip(d1, "state", d.stateNames, OnStateName);
    assert [] + d.stateNames == d.stateNames;
    assert forall i :: 0 <= i < |d.messageNames| ==> d.messageNames[i] in d.messageNames;
    NamesRoundTrip(d2, "message", d.messageNames, OnMessageName);
    assert [] + d.messageNames == d.messageNames;
    NestedTablesRoundTrip(d3, d.tables, ByAttribute);
    assert [] + d.tables == d.tables;
    WalkFour(Empty, items, d1, d2, d3, ByAttribute);
  }

  /**
    * A document built from an index-based machine meets the corrected
    * round trip's conditions once its names are set: its tables never
    * carry the flag.
    */
  lemma SavedDocRoundTrip(initial: int, sn: seq<Name>, mn: seq<Name>, t: Grid)
    requires 0 <= initial < |sn| && Shaped(t, |sn|, |mn|) && InRange(t, |sn|)
    requires AllSome(sn) && AllSome(mn)
    ensures Walk(Empty, Current.RereadWritten(NestedEmit(SavedDoc(initial, sn, mn, t))), OnNode, ByAttribute)
         == Parsed(SavedDoc(initial, sn, mn, t), None)
  {
    var d := SavedDoc(initial, sn, mn, t);
    forall tb | tb in d.tables
      ensures tb.name.Some? && !tb.addAll && forall c :: c in tb.transitions ==> c.message.Some? && c.target.Some?
    {
      var i :| 0 <= i < |sn| && d.tables[i] == tb;
      RowChangesNamed(sn, mn, t[i], i);
    }
    CorrectedRoundTrip(d);
  }

  /** Every transition of a saved row names a message and a state of the machine. */
  lemma {:induction false} RowChangesNamed(sn: seq<Name>, mn: seq<Name>, row: seq<int>, i: int)
    requires |row| <= |mn| && forall j :: 0 <= j < |row| ==> 0 <= row[j] < |sn|
    requires AllSome(sn) && AllSome(mn)
    ensures forall c :: c in RowChanges(sn, mn, row, i) ==> c.message.Some? && c.target.Some?
    decreases |row|
  {
    if |row| > 0 {
      RowChangesNamed(sn, mn, row[..|row| - 1], i);
    }
  }

  class StateMachineModel {
    var initial: Name
    var stateNames: seq<Name>
    var messageNames: seq<Name>
    var states: seq<TableDoc>

    function Contents(): Doc
      reads this
    {
      Doc(initial, stateNames, messageNames, states)
    }

    /** No names, no tables and no initial state; the file name is not modelled. */
    constructor()
      ensures Contents() == Empty
    {
      initial := None;
      stateNames := [];
      messageNames := [];
      states := [];
    }

    /**
      * The document of an index-based StateMachine: the initial state's
      * name, every state name and message name in index order, and one
      * table per state. The machine's lookups require the initial state,
      * and every target, to be a state, and message numbers from 0 to be
      * valid, which holds when the offset is 0.
      */
    constructor FromIndexed(machine: SharedStateMachine.StateMachine)
      requires machine.Valid() && machine.data != null && machine.Closed()
      requires 0 <= machine.initialState < machine.NumStates()
      requires machine.NumMessages() == 0 || machine.messageOffset == 0
      ensures Contents() == SavedDoc(machine.initialState, machine.States(), machine.Messages(), machine.grid)
    {
      var name := machine.GetStateName(machine.initialState);
      var sn := StateNamesFrom(machine);
      var mn := MessageNamesFrom(machine);
      var tables := TablesFrom(machine);
      initial, stateNames, messageNames, states := name, sn, mn, tables;
    }

    /** The state names, in index order. */
    static method StateNamesFrom(machine: SharedStateMachine.StateMachine) returns (r: seq<Name>)
      requires machine.Valid() && machine.data != null
      ensures r == machine.States()
    {
      r := [];
      for i := 0 to machine.NumStates()
        invariant r == machine.States()[..i]
      {
        var name := machine.GetStateName(i);
        r := r + [name];
      }
    }

    /** The message names, numbered from 0, in index order. */
    static method MessageNamesFrom(machine: SharedStateMachine.StateMachine) returns (r: seq<Name>)
      requires machine.Valid() && machine.data != null
      requires machine.NumMessages() == 0 || machine.messageOffset == 0
      ensures r == machine.Messages()
    {
      r := [];
      for i := 0 to machine.NumMessages()
        invariant r == machine.Messages()[..i]
      {
        var name := machine.GetMessageName(i);
        r := r + [name];
      }
    }

    /** One table per state, in index order. */
    static method TablesFrom(machine: SharedStateMachine.StateMachine) returns (r: seq<TableDoc>)
      requires machine.Valid() && machine.data != null && machine.Closed()
      requires 0 <= machine.initialState < machine.NumStates()
      requires machine.NumMessages() == 0 || machine.messageOffset == 0
      ensures r == SavedDoc(machine.initialState, machine.States(), machine.Messages(), machine.grid).tables
    {
      ghost var sn, mn, grid := machine.States(), machine.Messages(), machine.grid;
      r := [];
      for i := 0 to machine.NumStates()
        invariant r == SavedTables(sn, mn, grid, i)
      {
        var table := new StateTableModel.FromIndexed(machine, i);
        assert machine.States() == sn && machine.Messages() == mn && machine.grid == grid;
        r := r + [table.Value()];
      }
      SavedTablesPrefix(machine.initialState, sn, mn, grid, |sn|);
    }

    /** Hands each item to the parser `callback` names. */
    method ReadChildNodes(nodes: seq<Node>, callback: Callback) returns (fault: Option<ParseFault>)
      modifies this
      ensures Parsed(Contents(), fault) == Walk(old(Contents()), nodes, callback, ByText)
      decreases nodes, 0
    {
      fault := None;
      var i := 0;
      while i < |nodes|
        invariant 0 <= i <= |nodes| && fault == None
        invariant Walk(old(Contents()), nodes, callback, ByText) == Walk(Contents(), nodes[i..], callback, ByText)
        decreases |nodes| - i
      {
        assert nodes[i..][0] == nodes[i] && nodes[i..][1..] == nodes[i + 1..];
        match callback {
          case OnNode => fault := ParseXmlNode(nodes[i]);
          case OnStateName => ParseStateNames(nodes[i]);
          case OnMessageName => ParseMessageNames(nodes[i]);
          case OnState => fault := ParseStates(nodes[i]);
        }
        if fault.Some? {
          return;
        }
        i := i + 1;
      }
    }

    method ParseXmlNode(node: Node) returns (fault: Option<ParseFault>)
      modifies this
      ensures Parsed(Contents(), fault) == Step(old(Contents()), node, OnNode, ByText)
      decreases node, 1
    {
      fault := None;
      if node.tag == "Asset" {
        fault := ReadChildNodes(node.children, OnNode);
      } else if node.tag == "Type" {
      } else if node.tag == "initial" {
        initial := Some(node.text);
      } else if node.tag == "stateNames" {
        fault := ReadChildNodes(node.children, OnStateName);
      } else if node.tag == "messageNames" {
        fault := ReadChildNodes(node.children, OnMessageName);
      } else if node.tag == "states" {
        fault := ReadChildNodes(node.children, OnState);
      } else {
        fault := Some(UnknownTag(node.tag));
      }
    }

    /** ParseStateNames: the item's inner text, appended. */
    method ParseStateNames(node: Node)
      modifies this
      ensures Parsed(Contents(), None) == Step(old(Contents()), node, OnStateName, ByText)
    {
      stateNames := stateNames + [Some(node.text)];
    }

    /** ParseMessageNames: the item's inner text, appended. */
    method ParseMessageNames(node: Node)
      modifies this
      ensures Parsed(Contents(), None) == Step(old(Contents()), node, OnMessageName, ByText)
    {
      messageNames := messageNames + [Some(node.text)];
    }

    /** ParseStates: a new StateTableModel reads the item's own items, and is appended unless that read throws. */
    method ParseStates(node: Node) returns (fault: Option<ParseFault>)
      modifies this
      ensures Parsed(Contents(), fault) == Step(old(Contents()), node, OnState, ByText)
    {
      var table := new StateTableModel();
      var i := 0;
      fault := None;
      while i < |node.children|
        invariant 0 <= i <= |node.children| && fault == None
        invariant SharedTableItems(TableDoc(None, [], false), node.children) == SharedTableItems(table.Value(), node.children[i..])
        invariant Contents() == old(Contents())
      {
        assert node.children[i..][0] == node.children[i] && node.children[i..][1..] == node.children[i + 1..];
        fault := table.ParseXmlNode(node.children[i]);
        if fault.Some? {
          return;
        }
        i := i + 1;
      }
      states := states + [table.Value()];
    }

    /**
      * WriteXmlNodes: the initial state as an attribute, then the state
      * names, the message names and the tables, each in the stored order.
      */
    method WriteXmlNodes() returns (w: Written)
      ensures w == SharedEmit(Contents())
    {
      var stateElements := Current.StateMachineModel.WriteNames("state", stateNames);
      var messageElements := Current.StateMachineModel.WriteNames("message", messageNames);
      var tableElements: seq<Element> := [];
      for i := 0 to |states|
        invariant tableElements == SharedTableElements(states[..i])
      {
        assert states[..i + 1] == states[..i] + [states[i]];
        tableElements := tableElements + [SharedTableElement(states[i])];
      }
      assert states[..|states|] == states;
      w := Written([Attr("initial", initial)],
        [Element("stateNames", [], stateElements), Element("messageNames", [], messageElements),
         Element("states", [], tableElements)]);
    }
  }
}
