/**
  * StateMachineModel of the current revision: the whole document of a
  * state machine. It holds the initial state, the state and message names
  * and one StateTableModel per state; it is built from an index-based
  * StateMachine or from a HybridStateMachine, read item by item from a
  * file (tags compared exactly, "Asset" read through as a wrapper) and
  * written with every list ordered by name. The tables are kept as the
  * values they hold.
  */
module StateMachineModel {
  import opened Common
  import opened Document
  import opened Xml
  import opened Table
  import opened Named
  import opened Sorting
  import opened StateChangeModel
  import opened StateTableModel
  import LegacyStateMachine
  import HybridStateMachine

  // ------------------------------------------------------------ reading

  /** The parser ReadChildNodes hands each item to. */
  datatype Callback = OnNode | OnState | OnMessage | OnStateChange

  /**
    * One item handed to `callback`. ParseXmlNode compares tags exactly:
    * "Asset" reads its own items, "Type" is skipped, "initial" takes the
    * text, "states", "messages" and "stateChanges" hand their items to
    * ParseStates, ParseMessages and ParseStateChanges, and any other tag
    * is a NodeError. ParseStates and ParseMessages append the item's
    * "name" attribute, which must be there; ParseStateChanges appends the
    * table a new StateTableModel reads from the item's own items.
    */
  function Step(d: Doc, node: Node, callback: Callback): (r: Parsed<Doc>)
    decreases node, 1
  {
    match callback
    case OnNode =>
      if node.tag == "Asset" then Walk(d, node.children, OnNode)
      else if node.tag == "Type" then Parsed(d, None)
      else if node.tag == "initial" then Parsed(d.(initial := Some(node.text)), None)
      else if node.tag == "states" then Walk(d, node.children, OnState)
      else if node.tag == "messages" then Walk(d, node.children, OnMessage)
      else if node.tag == "stateChanges" then Walk(d, node.children, OnStateChange)
      else Parsed(d, Some(UnknownTag(node.tag)))
    case OnState =>
      var a := Attribute(node, "name");
      if a.None? then Parsed(d, Some(MissingAttribute(node.tag, "name")))
      else Parsed(d.(stateNames := d.stateNames + [Some(a.value)]), None)
    case OnMessage =>
      var a := Attribute(node, "name");
      if a.None? then Parsed(d, Some(MissingAttribute(node.tag, "name")))
      else Parsed(d.(messageNames := d.messageNames + [Some(a.value)]), None)
    case OnStateChange =>
      var p := TableItems(TableDoc(None, [], false), node.children);
      if p.fault.Some? then Parsed(d, p.fault)
      else Parsed(d.(tables := d.tables + [p.value]), None)
  }

  /** ReadChildNodes: each item in turn to `callback`; the first fault ends the walk. */
  function Walk(d: Doc, nodes: seq<Node>, callback: Callback): (r: Parsed<Doc>)
    decreases nodes, 0
  {
    if |nodes| == 0 then Parsed(d, None)
    else
      var p := Step(d, nodes[0], callback);
      if p.fault.Some? then p else Walk(p.value, nodes[1..], callback)
  }

  /** How the walker meets a list of written elements, one item each. */
  function RereadAll(es: seq<Element>): (r: seq<Node>)
    ensures |r| == |es|
  {
    seq(|es|, i requires 0 <= i < |es| => Reread(es[i]))
  }

  /** The items the walker meets below a written root: its attributes, then its child elements. */
  function RereadWritten(w: Written): (r: seq<Node>)
    ensures |r| == |w.attrs| + |w.children|
  {
    Leaves(w.attrs) + RereadAll(w.children)
  }

  // ------------------------------------------------------------ writing

  function NameKey(n: Name): Name
  {
    n
  }

  function NameOf(t: TableDoc): Name
  {
    t.name
  }

  /** One `tag` element per name, carrying it as its "name" attribute. */
  function NameElements(tag: string, names: seq<Name>): (r: seq<Element>)
    ensures |r| == |names|
  {
    seq(|names|, i requires 0 <= i < |names| => Element(tag, [Attr("name", names[i])], []))
  }

  function TableElements(tables: seq<TableDoc>): (r: seq<Element>)
    ensures |r| == |tables|
  {
    seq(|tables|, i requires 0 <= i < |tables| => TableElement(tables[i]))
  }

  /** What WriteXmlNodes emits for a document whose lists are already in order. */
  function Emit(d: Doc): Written
  {
    Written([Attr("initial", d.initial)],
      [Element("states", [], NameElements("state", d.stateNames)),
       Element("messages", [], NameElements("message", d.messageNames)),
       Element("stateChanges", [], TableElements(d.tables))])
  }

  /** Each table with its transitions ordered by message, as its own WriteXmlNodes leaves it. */
  function TransitionsSorted(tables: seq<TableDoc>, le: (Name, Name) -> bool): (r: seq<TableDoc>)
    ensures |r| == |tables|
  {
    seq(|tables|, i requires 0 <= i < |tables| =>
      tables[i].(transitions := SortBy(tables[i].transitions, MessageOf, le)))
  }

  /** The document as WriteXmlNodes leaves it: names, messages and tables each ordered by name. */
  function Normalized(d: Doc, le: (Name, Name) -> bool): (r: Doc)
  {
    Doc(d.initial, SortBy(d.stateNames, NameKey, le), SortBy(d.messageNames, NameKey, le),
      TransitionsSorted(SortBy(d.tables, NameOf, le), le))
  }

  /** Every name the writer emits is set: a null one would be written as an empty attribute. */
  ghost predicate WellNamed(d: Doc)
  {
    && d.initial.Some?
    && (forall n :: n in d.stateNames ==> n.Some?)
    && (forall n :: n in d.messageNames ==> n.Some?)
    && (forall t :: t in d.tables ==>
          t.name.Some? && forall c :: c in t.transitions ==> c.message.Some? && c.target.Some?)
  }

  /**
    * The tables as a new reader gets them back: the transitions the writer
    * emitted, and AddAllMessages, which the file does not record, unset.
    */
  function StoredTables(tables: seq<TableDoc>): (r: seq<TableDoc>)
    ensures |r| == |tables|
  {
    seq(|tables|, i requires 0 <= i < |tables| =>
      TableDoc(tables[i].name, Emitted(tables[i].transitions, tables[i].name, tables[i].addAll), false))
  }

  function Stored(d: Doc): Doc
  {
    d.(tables := StoredTables(d.tables))
  }

  /** Reading back the written names of one list appends them, in order. */
  lemma {:induction false} NamesRoundTrip(d: Doc, tag: string, names: seq<Name>, callback: Callback)
    requires callback == OnState || callback == OnMessage
    requires forall i :: 0 <= i < |names| ==> names[i].Some?
    ensures Walk(d, RereadAll(NameElements(tag, names)), callback) == Parsed(
        if callback == OnState then d.(stateNames := d.stateNames + names)
        else d.(messageNames := d.messageNames + names), None)
    decreases |names|
  {
    var nodes := RereadAll(NameElements(tag, names));
    if |names| == 0 {
      assert d.stateNames + names == d.stateNames && d.messageNames + names == d.messageNames;
    } else {
      var e := NameElements(tag, names)[0];
      assert Reread(e).attrs == [("name", names[0].value)];
      assert Attribute(nodes[0], "name") == names[0];
      var d' := if callback == OnState then d.(stateNames := d.stateNames + [names[0]])
                else d.(messageNames := d.messageNames + [names[0]]);
      assert Step(d, nodes[0], callback) == Parsed(d', None);
      assert nodes[1..] == RereadAll(NameElements(tag, names[1..]));
      NamesRoundTrip(d', tag, names[1..], callback);
      AppendHead(d.stateNames, names);
      AppendHead(d.messageNames, names);
    }
  }

  /** Reading back the written tables appends each as a new StateTableModel reads it. */
  lemma {:induction false} TablesRoundTrip(d: Doc, tables: seq<TableDoc>)
    requires forall t :: t in tables ==>
      t.name.Some? && forall c :: c in t.transitions ==> c.message.Some? && c.target.Some?
    ensures Walk(d, RereadAll(TableElements(tables)), OnStateChange) == Parsed(d.(tables := d.tables + StoredTables(tables)), None)
    decreases |tables|
  {
    var nodes := RereadAll(TableElements(tables));
    if |tables| == 0 {
      assert d.tables + StoredTables(tables) == d.tables;
    } else {
      var t := tables[0];
      assert t in tables;
      var stored := TableDoc(t.name, Emitted(t.transitions, t.name, t.addAll), false);
      assert StoredTables(tables)[0] == stored;
      TableStep(d, t);
      assert nodes[0] == Reread(TableElement(t));
      var d' := d.(tables := d.tables + [stored]);
      TablesTail(tables);
      TablesRoundTrip(d', tables[1..]);
      AppendHead(d.tables, StoredTables(tables));
    }
  }

  lemma TablesTail(tables: seq<TableDoc>)
    requires |tables| > 0
    ensures RereadAll(TableElements(tables))[1..] == RereadAll(TableElements(tables[1..]))
    ensures StoredTables(tables) == [StoredTables(tables)[0]] + StoredTables(tables[1..])
  {
  }

  /** One written table, read back, is appended as a new StateTableModel reads it. */
  lemma TableStep(d: Doc, t: TableDoc)
    requires t.name.Some? && forall c :: c in t.transitions ==> c.message.Some? && c.target.Some?
    ensures Step(d, Reread(TableElement(t)), OnStateChange)
         == Parsed(d.(tables := d.tables + [TableDoc(t.name, Emitted(t.transitions, t.name, t.addAll), false)]), None)
  {
    TableRoundTrip(t);
  }

  /** The items below a written document: the "initial" attribute, then the three lists. */
  lemma RereadEmit(d: Doc)
    requires d.initial.Some?
    ensures var items := RereadWritten(Emit(d));
      && |items| == 4
      && items[0] == Node("initial", d.initial.value, [], [])
      && items[1].tag == "states"
      && items[1].children == RereadAll(NameElements("state", d.stateNames))
      && items[2].tag == "messages"
      && items[2].children == RereadAll(NameElements("message", d.messageNames))
      && items[3].tag == "stateChanges"
      && items[3].children == RereadAll(TableElements(d.tables))
  {
    var w := Emit(d);
    assert Leaves([]) == [];
    assert Reread(w.children[0]).children == RereadAll(NameElements("state", d.stateNames));
    assert Reread(w.children[1]).children == RereadAll(NameElements("message", d.messageNames));
    assert Reread(w.children[2]).children == RereadAll(TableElements(d.tables));
  }

  /**
    * Reading a written document into a new StateMachineModel gives back
    * its initial state, its names in the written order, and each table as
    * it was written.
    */
  lemma DocRoundTrip(d: Doc)
    requires WellNamed(d)
    ensures Walk(Empty, RereadWritten(Emit(d)), OnNode) == Parsed(Stored(d), None)
  {
    var items := RereadWritten(Emit(d));
    RereadEmit(d);
    var d1 := Empty.(initial := d.initial);
    var d2 := d1.(stateNames := d.stateNames);
    var d3 := d2.(messageNames := d.messageNames);
    assert Step(Empty, items[0], OnNode) == Parsed(d1, None);
    ListItem(d1, items[1], "states", "state", d.stateNames, OnState);
    assert [] + d.stateNames == d.stateNames;
    ListItem(d2, items[2], "messages", "message", d.messageNames, OnMessage);
    assert [] + d.messageNames == d.messageNames;
    TablesItem(d3, items[3], d.tables);
    assert [] + StoredTables(d.tables) == StoredTables(d.tables);
    WalkSteps(Empty, items, [d1, d2, d3, Stored(d)]);
  }

  /** A walk whose every step succeeds, each giving the next value, ends with the last. */
  lemma {:induction false} WalkSteps(d: Doc, nodes: seq<Node>, ds: seq<Doc>)
    requires |ds| == |nodes| > 0
    requires Step(d, nodes[0], OnNode) == Parsed(ds[0], None)
    requires forall i :: 0 < i < |nodes| ==> Step(ds[i - 1], nodes[i], OnNode) == Parsed(ds[i], None)
    ensures Walk(d, nodes, OnNode) == Parsed(ds[|ds| - 1], None)
    decreases |nodes|
  {
    if |nodes| > 1 {
      forall i | 0 < i < |nodes| - 1 ensures Step(ds[1..][i - 1], nodes[1..][i], OnNode) == Parsed(ds[1..][i], None) {
        assert ds[1..][i - 1] == ds[i] && nodes[1..][i] == nodes[i + 1] && ds[1..][i] == ds[i + 1];
      }
      WalkSteps(ds[0], nodes[1..], ds[1..]);
    }
  }

  /** The written "states" or "messages" item, read back, appends the names it lists. */
  lemma ListItem(d: Doc, node: Node, tag: string, itemTag: string, names: seq<Name>, callback: Callback)
    requires (tag == "states" && callback == OnState) || (tag == "messages" && callback == OnMessage)
    requires node.tag == tag && node.children == RereadAll(NameElements(itemTag, names))
    requires forall n :: n in names ==> n.Some?
    ensures Step(d, node, OnNode) == Parsed(
      if callback == OnState then d.(stateNames := d.stateNames + names)
      else d.(messageNames := d.messageNames + names), None)
  {
    assert forall i :: 0 <= i < |names| ==> names[i] in names;
    NamesRoundTrip(d, itemTag, names, callback);
  }

  /** The written "stateChanges" item, read back, appends each table as a new StateTableModel reads it. */
  lemma TablesItem(d: Doc, node: Node, tables: seq<TableDoc>)
    requires node.tag == "stateChanges" && node.children == RereadAll(TableElements(tables))
    requires forall t :: t in tables ==>
      t.name.Some? && forall c :: c in t.transitions ==> c.message.Some? && c.target.Some?
    ensures Step(d, node, OnNode) == Parsed(d.(tables := d.tables + StoredTables(tables)), None)
  {
    TablesRoundTrip(d, tables);
  }

  /** Writing reorders without adding or dropping anything: each list is a sorted permutation of the stored one. */
  lemma NormalizedPermutes(d: Doc, le: (Name, Name) -> bool)
    requires TotalPreorder(le)
    ensures var n := Normalized(d, le);
      && multiset(n.stateNames) == multiset(d.stateNames) && SortedBy(n.stateNames, NameKey, le)
      && multiset(n.messageNames) == multiset(d.messageNames) && SortedBy(n.messageNames, NameKey, le)
      && |n.tables| == |d.tables| && SortedBy(n.tables, NameOf, le)
      && forall i :: 0 <= i < |n.tables| ==> SortedBy(n.tables[i].transitions, MessageOf, le)
  {
    SortByPermutes(d.stateNames, NameKey, le);
    SortBySorted(d.stateNames, NameKey, le);
    SortByPermutes(d.messageNames, NameKey, le);
    SortBySorted(d.messageNames, NameKey, le);
    var ts := SortBy(d.tables, NameOf, le);
    SortBySorted(d.tables, NameOf, le);
    var n := Normalized(d, le);
    forall i, j | 0 <= i < j < |n.tables| ensures le(NameOf(n.tables[i]), NameOf(n.tables[j])) {
      assert n.tables[i].name == ts[i].name && n.tables[j].name == ts[j].name;
    }
    forall i | 0 <= i < |n.tables| ensures SortedBy(n.tables[i].transitions, MessageOf, le) {
      SortBySorted(ts[i].transitions, MessageOf, le);
    }
  }

  /** Writing a second time leaves the document as the first write left it, and so writes the same file. */
  lemma NormalizedIdempotent(d: Doc, le: (Name, Name) -> bool)
    requires TotalPreorder(le)
    ensures Normalized(Normalized(d, le), le) == Normalized(d, le)
  {
    var n := Normalized(d, le);
    NormalizedPermutes(d, le);
    SortByKeepsSorted(n.stateNames, NameKey, le);
    SortByKeepsSorted(n.messageNames, NameKey, le);
    SortByKeepsSorted(n.tables, NameOf, le);
    forall i | 0 <= i < |n.tables| ensures SortBy(n.tables[i].transitions, MessageOf, le) == n.tables[i].transitions {
      SortByKeepsSorted(n.tables[i].transitions, MessageOf, le);
    }
    assert TransitionsSorted(n.tables, le) == n.tables;
  }

  /**
    * The file written does not depend on the order of the lists: two
    * documents with the same initial state whose lists are permutations
    * of each other, with no two different entries tied, are written alike.
    */
  lemma WriteIgnoresOrder(d: Doc, e: Doc, le: (Name, Name) -> bool)
    requires TotalPreorder(le) && d.initial == e.initial
    requires multiset(d.stateNames) == multiset(e.stateNames) && Separates(d.stateNames, NameKey, le)
    requires multiset(d.messageNames) == multiset(e.messageNames) && Separates(d.messageNames, NameKey, le)
    requires multiset(d.tables) == multiset(e.tables) && Separates(d.tables, NameOf, le)
    ensures Normalized(d, le) == Normalized(e, le)
    ensures Emit(Normalized(d, le)) == Emit(Normalized(e, le))
  {
    SortByIgnoresOrder(d.stateNames, e.stateNames, NameKey, le);
    SortByIgnoresOrder(d.messageNames, e.messageNames, NameKey, le);
    SortByIgnoresOrder(d.tables, e.tables, NameOf, le);
  }

  // ------------------------------------------------------------ AddAllMessages

  /** `Transitions.Any(x => x.Message == m)`. */
  function Mentions(ts: seq<Change>, m: Name): bool
  {
    exists c | c in ts :: c.message == m
  }

  /**
    * The AddAllMessages padding of one table: for each message in turn, a
    * transition back to the table's own state when the table, as padded so
    * far, has none for it. The existing transitions stay, in order, in front.
    */
  function Padded(ts: seq<Change>, ms: seq<Name>, name: Name): (r: seq<Change>)
    ensures |ts| <= |r| && r[..|ts|] == ts
    decreases |ms|
  {
    if |ms| == 0 then ts
    else
      var p := Padded(ts, ms[..|ms| - 1], name);
      var m := ms[|ms| - 1];
      if Mentions(p, m) then p else p + [Change(m, name)]
  }

  /**
    * The padded table holds the existing transitions and, for each listed
    * message the existing ones do not mention, one back to `name`.
    */
  lemma {:induction false} PaddedHolds(ts: seq<Change>, ms: seq<Name>, name: Name)
    ensures forall c :: c in Padded(ts, ms, name) <==>
      c in ts || (c.target == name && c.message in ms && !Mentions(ts, c.message))
    decreases |ms|
  {
    if |ms| > 0 {
      var n := |ms| - 1;
      var p, m := Padded(ts, ms[..n], name), ms[n];
      PaddedHolds(ts, ms[..n], name);
      assert ms == ms[..n] + [m];
      if Mentions(p, m) {
        forall c: Change | c.target == name && c.message == m && !Mentions(ts, m)
          ensures c in p
        {
          var x :| x in p && x.message == m;
          assert !(x in ts);
          assert x == c;
        }
      } else {
        forall c | c in ts ensures c.message != m {
          assert c in p;
        }
      }
    }
  }

  /** After padding, every listed message has a transition. */
  lemma PaddedCovers(ts: seq<Change>, ms: seq<Name>, name: Name)
    ensures forall m :: m in ms ==> Mentions(Padded(ts, ms, name), m)
  {
    PaddedHolds(ts, ms, name);
    forall m | m in ms ensures Mentions(Padded(ts, ms, name), m) {
      if !Mentions(ts, m) {
        assert Change(m, name) in Padded(ts, ms, name);
      } else {
        var c :| c in ts && c.message == m;
        assert c in Padded(ts, ms, name);
      }
    }
  }

  /** Padding adds only transitions that are new, so distinct transitions stay distinct. */
  lemma {:induction false} PaddedDistinct(ts: seq<Change>, ms: seq<Name>, name: Name)
    requires Distinct(ts)
    ensures Distinct(Padded(ts, ms, name))
    decreases |ms|
  {
    if |ms| > 0 {
      var n := |ms| - 1;
      var p, m := Padded(ts, ms[..n], name), ms[n];
      PaddedDistinct(ts, ms[..n], name);
      if !Mentions(p, m) {
        var r := p + [Change(m, name)];
        forall a, b | 0 <= a < b < |r| ensures r[a] != r[b] {
          if b == |p| {
            assert r[a] in p;
          }
        }
      }
    }
  }

  /** A table that already mentions every listed message is not padded. */
  lemma {:induction false} PaddedNothingMissing(ts: seq<Change>, ms: seq<Name>, name: Name)
    requires forall m :: m in ms ==> Mentions(ts, m)
    ensures Padded(ts, ms, name) == ts
    decreases |ms|
  {
    if |ms| > 0 {
      var n := |ms| - 1;
      assert forall m :: m in ms[..n] ==> m in ms;
      PaddedNothingMissing(ts, ms[..n], name);
      assert ms[n] in ms;
    }
  }

  /** Padding twice pads once. */
  lemma PaddedIdempotent(ts: seq<Change>, ms: seq<Name>, name: Name)
    ensures Padded(Padded(ts, ms, name), ms, name) == Padded(ts, ms, name)
  {
    PaddedCovers(ts, ms, name);
    PaddedNothingMissing(Padded(ts, ms, name), ms, name);
  }

  /** A listed message has a kept transition: a key of the dictionary whose target is not `name`. */
  predicate Listed(changes: Changes, name: Name, m: Name)
  {
    m.Some? && m.value in changes && Some(changes[m.value]) != name
  }

  /** The self-transitions padding adds: one per listed message the dictionary does not send elsewhere. */
  ghost function Filled(changes: Changes, name: Name, ms: seq<Name>): set<Change>
  {
    set m | m in ms && !Listed(changes, name, m) :: Change(m, name)
  }

  /**
    * A table built from the State under `key`: its transitions, once each,
    * are those of the dictionary that leave the state and, with
    * AddAllMessages, a transition back to it for every other message.
    */
  ghost predicate TableOf(t: TableDoc, changes: Changes, ms: seq<Name>, addAll: bool)
  {
    && Distinct(t.transitions)
    && forall c :: c in t.transitions <==> c in Kept(changes, t.name) || (addAll && c in Filled(changes, t.name, ms))
  }

  /**
    * The tables built from the StateTable `tables` for the keys in `done`:
    * one per key, named after it, flagged `addAll`, holding that State's
    * transitions and, when `padded`, the filled ones.
    */
  ghost predicate TablesOf(ts: seq<TableDoc>, tables: Tables, done: set<string>, ms: seq<Name>, addAll: bool, padded: bool)
  {
    && (forall k :: k in done <==> exists i :: 0 <= i < |ts| && ts[i].name == Some(k))
    && (forall i, j :: 0 <= i < j < |ts| ==> ts[i].name != ts[j].name)
    && (forall i :: 0 <= i < |ts| ==>
          && ts[i].name.Some? && ts[i].name.value in tables && ts[i].addAll == addAll
          && TableOf(ts[i], tables[ts[i].name.value], ms, padded))
  }

  /** Adding the table of one more key. */
  lemma TablesOfStep(ts: seq<TableDoc>, t: TableDoc, tables: Tables, done: set<string>, ms: seq<Name>, addAll: bool, key: string)
    requires TablesOf(ts, tables, done, ms, addAll, false) && key in tables && key !in done
    requires t.name == Some(key) && t.addAll == addAll && TableOf(t, tables[key], ms, false)
    ensures TablesOf(ts + [t], tables, done + {key}, ms, addAll, false)
  {
    var r := ts + [t];
    forall k | k in done + {key} ensures exists i :: 0 <= i < |r| && r[i].name == Some(k) {
      if k == key {
        assert r[|ts|].name == Some(k);
      } else {
        var i :| 0 <= i < |ts| && ts[i].name == Some(k);
        assert r[i] == ts[i];
      }
    }
  }

  /** Padding every table of a StateTable's tables adds the filled transitions to each. */
  lemma PaddedTablesOf(ts: seq<TableDoc>, us: seq<TableDoc>, tables: Tables, ms: seq<Name>, addAll: bool)
    requires TablesOf(ts, tables, tables.Keys, ms, addAll, false) && |us| == |ts|
    requires forall i :: 0 <= i < |us| ==> us[i] == ts[i].(transitions := Padded(ts[i].transitions, ms, ts[i].name))
    ensures TablesOf(us, tables, tables.Keys, ms, addAll, true)
  {
    forall i | 0 <= i < |us| ensures TableOf(us[i], tables[us[i].name.value], ms, true) {
      PaddedKept(ts[i].transitions, tables[ts[i].name.value], ts[i].name, ms);
      PaddedDistinct(ts[i].transitions, ms, ts[i].name);
    }
    forall k | k in tables ensures exists i :: 0 <= i < |us| && us[i].name == Some(k) {
      var i :| 0 <= i < |ts| && ts[i].name == Some(k);
      assert us[i].name == ts[i].name;
    }
  }

  /** Padding a table built from a State gives the kept transitions and the filled ones. */
  lemma PaddedKept(ts: seq<Change>, changes: Changes, name: Name, ms: seq<Name>)
    requires forall c :: c in ts <==> c in Kept(changes, name)
    ensures forall c :: c in Padded(ts, ms, name) <==> c in Kept(changes, name) || c in Filled(changes, name, ms)
  {
    PaddedHolds(ts, ms, name);
    forall m ensures Mentions(ts, m) <==> Listed(changes, name, m) {
      if Listed(changes, name, m) {
        assert Change(m, Some(changes[m.value])) in Kept(changes, name);
      }
    }
  }

  class StateMachineModel {
    var initial: Name
    var stateNames: seq<Name>
    var messageNames: seq<Name>
    var states: seq<TableDoc>

    function Contents(): Doc
      reads this
    {
      Doc(initial, stateNames, messageNames, states)
    }

    /** Setup: no names, no tables and no initial state. */
    constructor()
      ensures Contents() == Empty
    {
      initial := None;
      stateNames := [];
      messageNames := [];
      states := [];
    }

    /**
      * The document of an index-based StateMachine: the initial state's
      * name, every state name and message name in index order, and one
      * table per state. The machine's `Debug.Assert`s require the initial
      * state, and every target, to be a state, and message numbers from 0
      * to be valid, which holds when the offset is 0.
      */
    constructor FromIndexed(machine: LegacyStateMachine.StateMachine)
      requires machine.Valid() && machine.data != null && machine.Closed()
      requires 0 <= machine.initialState < machine.numStates
      requires machine.numMessages == 0 || machine.messageOffset == 0
      ensures Contents() == SavedDoc(machine.initialState, machine.States(), machine.Messages(), machine.grid)
    {
      var name := machine.GetStateName(machine.initialState);
      var sn := StateNamesFrom(machine);
      var mn := MessageNamesFrom(machine);
      var tables := TablesFrom(machine);
      initial, stateNames, messageNames, states := name, sn, mn, tables;
    }

    /** The state names, in index order. */
    static method StateNamesFrom(machine: LegacyStateMachine.StateMachine) returns (r: seq<Name>)
      requires machine.Valid() && machine.data != null
      ensures r == machine.States()
    {
      r := [];
      for i := 0 to machine.numStates
        invariant r == machine.States()[..i]
      {
        var name := machine.GetStateName(i);
        r := r + [name];
      }
    }

    /** The message names, numbered from 0, in index order. */
    static method MessageNamesFrom(machine: LegacyStateMachine.StateMachine) returns (r: seq<Name>)
      requires machine.Valid() && machine.data != null
      requires machine.numMessages == 0 || machine.messageOffset == 0
      ensures r == machine.Messages()
    {
      r := [];
      for i := 0 to machine.numMessages
        invariant r == machine.Messages()[..i]
      {
        var name := machine.GetMessageName(i);
        r := r + [name];
      }
    }

    /** One table per state, in index order. */
    static method TablesFrom(machine: LegacyStateMachine.StateMachine) returns (r: seq<TableDoc>)
      requires machine.Valid() && machine.data != null && machine.Closed()
      requires 0 <= machine.initialState < machine.numStates
      requires machine.numMessages == 0 || machine.messageOffset == 0
      ensures r == SavedDoc(machine.initialState, machine.States(), machine.Messages(), machine.grid).tables
    {
      ghost var sn, mn, grid := machine.States(), machine.Messages(), machine.grid;
      r := [];
      for i := 0 to machine.numStates
        invariant r == SavedTables(sn, mn, grid, i)
      {
        assert |machine.grid[i]| == machine.numMessages;
        assert forall j :: 0 <= j < machine.numMessages ==> 0 <= machine.grid[i][j] < machine.numStates;
        var table := new StateTableModel.FromIndexed(machine, i);
        assert machine.States() == sn && machine.Messages() == mn && machine.grid == grid;
        r := r + [table.Value()];
      }
      SavedTablesPrefix(machine.initialState, sn, mn, grid, |sn|);
    }

    /**
      * The document of a HybridStateMachine: its initial state, its state
      * and message names in the sets' enumeration order, which C# leaves
      * unspecified, and one table per entry of the StateTable; with
      * `addAllMessages` each table is then padded with a transition back
      * to its own state for every message it has none for.
      */
    constructor FromNamed(machine: HybridStateMachine.HybridStateMachine, addAllMessages: bool)
      requires machine.Valid()
      ensures initial == machine.initialState
      ensures Distinct(stateNames) && forall n :: n in stateNames <==> n.Some? && n.value in machine.states
      ensures Distinct(messageNames) && forall n :: n in messageNames <==> n.Some? && n.value in machine.messages
      ensures TablesOf(states, machine.tables, machine.tables.Keys, messageNames, addAllMessages, addAllMessages)
    {
      initial := machine.initialState;
      stateNames := [];
      messageNames := [];
      states := [];
      new;
      stateNames := Listing(machine.states);
      messageNames := Listing(machine.messages);
      states := TablesFromNamed(machine, messageNames, addAllMessages);
      if addAllMessages {
        ghost var before := states;
        PadTables();
        PaddedTablesOf(before, states, machine.tables, messageNames, true);
      }
    }

    /** `foreach` over a HashSet, adding each name: every member once, in an unspecified order. */
    static method Listing(names: set<string>) returns (r: seq<Name>)
      ensures Distinct(r) && forall n :: n in r <==> n.Some? && n.value in names
    {
      r := [];
      var left := names;
      while left != {}
        invariant left <= names
        invariant Distinct(r)
        invariant forall n :: n in r <==> n.Some? && n.value in names && n.value !in left
        decreases left
      {
        var s :| s in left;
        r := r + [Some(s)];
        left := left - {s};
      }
    }

    /** One StateTableModel per StateTable entry, in the dictionary's enumeration order. */
    static method TablesFromNamed(machine: HybridStateMachine.HybridStateMachine, ms: seq<Name>, addAll: bool)
      returns (ts: seq<TableDoc>)
      requires machine.Valid()
      ensures TablesOf(ts, machine.tables, machine.tables.Keys, ms, addAll, false)
    {
      ts := [];
      var left := machine.stateTable.Keys;
      while left != {}
        invariant left <= machine.stateTable.Keys
        invariant TablesOf(ts, machine.tables, machine.tables.Keys - left, ms, addAll, false)
        decreases left
      {
        var key :| key in left;
        var table := new StateTableModel.FromState(machine.stateTable[key], Some(key), addAll);
        TablesOfStep(ts, table.Value(), machine.tables, machine.tables.Keys - left, ms, addAll, key);
        ts := ts + [table.Value()];
        assert machine.tables.Keys - left + {key} == machine.tables.Keys - (left - {key});
        left := left - {key};
      }
      assert machine.tables.Keys - left == machine.tables.Keys;
    }

    /** The AddAllMessages pass: every table padded with this document's messages. */
    method PadTables()
      modifies this
      ensures initial == old(initial) && stateNames == old(stateNames) && messageNames == old(messageNames)
      ensures |states| == |old(states)|
      ensures forall i :: 0 <= i < |states| ==> states[i] == old(states)[i].(transitions := Padded(old(states)[i].transitions, messageNames, old(states)[i].name))
    {
      for i := 0 to |states|
        invariant initial == old(initial) && stateNames == old(stateNames) && messageNames == old(messageNames)
        invariant |states| == |old(states)|
        invariant forall j :: 0 <= j < i ==> states[j] == old(states)[j].(transitions := Padded(old(states)[j].transitions, messageNames, old(states)[j].name))
        invariant forall j :: i <= j < |states| ==> states[j] == old(states)[j]
      {
        PadTable(i);
      }
    }

    /** For each message in turn, a transition back to the table's state when the table has none for it. */
    method PadTable(i: int)
      requires 0 <= i < |states|
      modifies this
      ensures initial == old(initial) && stateNames == old(stateNames) && messageNames == old(messageNames)
      ensures states == old(states)[i := old(states)[i].(transitions := Padded(old(states)[i].transitions, messageNames, old(states)[i].name))]
    {
      var t := states[i];
      for j := 0 to |messageNames|
        invariant t == old(states)[i].(transitions := Padded(old(states)[i].transitions, messageNames[..j], t.name))
        invariant t.name == old(states)[i].name
      {
        assert messageNames[..j + 1][..j] == messageNames[..j];
        var message := messageNames[j];
        if !Mentions(t.transitions, message) {
          t := t.(transitions := t.transitions + [Change(message, t.name)]);
        }
      }
      assert messageNames[..|messageNames|] == messageNames;
      states := states[i := t];
    }

    /** Hands each item to the parser `callback` names. */
    method ReadChildNodes(nodes: seq<Node>, callback: Callback) returns (fault: Option<ParseFault>)
      modifies this
      ensures Parsed(Contents(), fault) == Walk(old(Contents()), nodes, callback)
      decreases nodes, 0
    {
      fault := None;
      var i := 0;
      while i < |nodes|
        invariant 0 <= i <= |nodes| && fault == None
        invariant Walk(old(Contents()), nodes, callback) == Walk(Contents(), nodes[i..], callback)
        decreases |nodes| - i
      {
        assert nodes[i..][0] == nodes[i] && nodes[i..][1..] == nodes[i + 1..];
        match callback {
          case OnNode => fault := ParseXmlNode(nodes[i]);
          case OnState => fault := ParseStates(nodes[i]);
          case OnMessage => fault := ParseMessages(nodes[i]);
          case OnStateChange => fault := ParseStateChanges(nodes[i]);
        }
        if fault.Some? {
          return;
        }
        i := i + 1;
      }
    }

    method ParseXmlNode(node: Node) returns (fault: Option<ParseFault>)
      modifies this
      ensures Parsed(Contents(), fault) == Step(old(Contents()), node, OnNode)
      decreases node, 1
    {
      fault := None;
      if node.tag == "Asset" {
        fault := ReadChildNodes(node.children, OnNode);
      } else if node.tag == "Type" {
      } else if node.tag == "initial" {
        initial := Some(node.text);
      } else if node.tag == "states" {
        fault := ReadChildNodes(node.children, OnState);
      } else if node.tag == "messages" {
        fault := ReadChildNodes(node.children, OnMessage);
      } else if node.tag == "stateChanges" {
        fault := ReadChildNodes(node.children, OnStateChange);
      } else {
        fault := Some(UnknownTag(node.tag));
      }
    }

    method ParseStates(node: Node) returns (fault: Option<ParseFault>)
      modifies this
      ensures Parsed(Contents(), fault) == Step(old(Contents()), node, OnState)
    {
      var name := Attribute(node, "name");
      if name.None? {
        return Some(MissingAttribute(node.tag, "name"));
      }
      stateNames := stateNames + [Some(name.value)];
      fault := None;
    }

    method ParseMessages(node: Node) returns (fault: Option<ParseFault>)
      modifies this
      ensures Parsed(Contents(), fault) == Step(old(Contents()), node, OnMessage)
    {
      var name := Attribute(node, "name");
      if name.None? {
        return Some(MissingAttribute(node.tag, "name"));
      }
      messageNames := messageNames + [Some(name.value)];
      fault := None;
    }

    /** A new StateTableModel reads the item's own items, and is appended unless that read throws. */
    method ParseStateChanges(node: Node) returns (fault: Option<ParseFault>)
      modifies this
      ensures Parsed(Contents(), fault) == Step(old(Contents()), node, OnStateChange)
    {
      var table := new StateTableModel();
      var i := 0;
      fault := None;
      while i < |node.children|
        invariant 0 <= i <= |node.children| && fault == None
        invariant TableItems(TableDoc(None, [], false), node.children) == TableItems(table.Value(), node.children[i..])
        invariant Contents() == old(Contents())
      {
        assert node.children[i..][0] == node.children[i] && node.children[i..][1..] == node.children[i + 1..];
        fault := table.ParseXmlNode(node.children[i]);
        if fault.Some? {
          return;
        }
        i := i + 1;
      }
      states := states + [table.Value()];
    }

    /**
      * WriteXmlNodes: the initial state as an attribute, then the state
      * names, the message names and the tables, each list first replaced
      * by its ordering by name, and each table's transitions by their
      * ordering by message.
      */
    method WriteXmlNodes(le: (Name, Name) -> bool) returns (w: Written)
      modifies this
      ensures Contents() == Normalized(old(Contents()), le)
      ensures w == Emit(Contents())
    {
      stateNames := SortBy(stateNames, NameKey, le);
      var stateElements := WriteNames("state", stateNames);
      messageNames := SortBy(messageNames, NameKey, le);
      var messageElements := WriteNames("message", messageNames);
      states := SortBy(states, NameOf, le);
      var tableElements := WriteTables(le);
      w := Written([Attr("initial", initial)],
        [Element("states", [], stateElements), Element("messages", [], messageElements), Element("stateChanges", [], tableElements)]);
    }

    /** One element per name, in order. */
    static method WriteNames(tag: string, names: seq<Name>) returns (r: seq<Element>)
      ensures r == NameElements(tag, names)
    {
      r := [];
      for i := 0 to |names|
        invariant r == NameElements(tag, names)[..i]
      {
        assert NameElements(tag, names)[..i + 1] == NameElements(tag, names)[..i] + [NameElements(tag, names)[i]];
        r := r + [Element(tag, [Attr("name", names[i])], [])];
      }
    }

    /** Each table's WriteXmlNodes in turn: its transitions ordered by message, then written. */
    method WriteTables(le: (Name, Name) -> bool) returns (r: seq<Element>)
      modifies this
      ensures initial == old(initial) && stateNames == old(stateNames) && messageNames == old(messageNames)
      ensures states == TransitionsSorted(old(states), le)
      ensures r == TableElements(states)
    {
      r := [];
      for i := 0 to |states|
        invariant initial == old(initial) && stateNames == old(stateNames) && messageNames == old(messageNames)
        invariant |states| == |old(states)| && |r| == i
        invariant forall j :: 0 <= j < i ==> states[j] == TransitionsSorted(old(states), le)[j] && r[j] == TableElement(states[j])
        invariant forall j :: i <= j < |states| ==> states[j] == old(states)[j]
      {
        var table := states[i].(transitions := SortBy(states[i].transitions, MessageOf, le));
        states := states[i := table];
        r := r + [TableElement(table)];
      }
      assert states == TransitionsSorted(old(states), le);
    }
  }
}
