/**
  * The contents of a name-based machine (StringStateMachine and
  * HybridStateMachine) as values: the `States` and `Messages` validation
  * sets and the StateTable, with each State replaced by its StateChanges
  * map. The engines' methods are proved against the functions here.
  */
module Named {
  import opened Common
  import opened Document
  import opened Table

  /** A State's StateChanges dictionary: message name to target state name. */
  type Changes = map<string, string>

  /** The StateTable with each State's dictionary in place of the State. */
  type Tables = map<string, Changes>

  datatype Content = Content(states: set<string>, messages: set<string>, tables: Tables)

  /** Which check of `Set`, or of a table's transition, threw. */
  datatype Fault = UnknownState | NoTable | UnknownMessage | UnknownTarget

  /**
    * The result of an operation that stops at its first exception, with
    * what it had written before it: the C# code has no rollback.
    */
  datatype Outcome<T> = Outcome(fault: Option<Fault>, value: T)

  /** The empty machine. */
  const Fresh := Content({}, {}, map[])

  // ---------------------------------------------------------------------
  // AddStates, AddMessages and Set
  // ---------------------------------------------------------------------

  /** AddStates: each name joins `States` and, when it has no table yet, gets an empty one. */
  function WithStates(c: Content, names: seq<string>): Content
  {
    c.(states := c.states + (set n | n in names),
       tables := c.tables + map n | n in names && n !in c.tables :: map[])
  }

  /** AddMessages: each name joins `Messages`. */
  function WithMessages(c: Content, names: seq<string>): Content
  {
    c.(messages := c.messages + set n | n in names)
  }

  /** Adding the same states again changes nothing, and no existing table is replaced. */
  lemma WithStatesIdempotent(c: Content, names: seq<string>)
    ensures WithStates(WithStates(c, names), names) == WithStates(c, names)
    ensures forall k :: k in c.tables ==> WithStates(c, names).tables[k] == c.tables[k]
    ensures forall n :: n in names ==> n in WithStates(c, names).states && n in WithStates(c, names).tables
  {
    var once := WithStates(c, names);
    assert WithStates(once, names).tables == once.tables;
  }

  /** AddStates one name at a time: the list's next name is added as a list of its own. */
  lemma WithStatesStep(c: Content, names: seq<string>, i: int)
    requires 0 <= i < |names|
    ensures WithStates(c, names[..i + 1]) == WithStates(WithStates(c, names[..i]), [names[i]])
  {
    var p, x := names[..i], names[i];
    assert names[..i + 1] == p + [x];
    NamesStep(c.states, p, x);
    TablesStep(c.tables, p, x);
  }

  lemma NamesStep(s: set<string>, p: seq<string>, x: string)
    ensures s + (set n | n in p + [x]) == (s + (set n | n in p)) + (set n | n in [x])
  {
    assert (set n | n in p + [x]) == (set n | n in p) + (set n | n in [x]);
  }

  lemma TablesStep(t: Tables, p: seq<string>, x: string)
    ensures var t1 := t + map n | n in p && n !in t :: map[];
      t + (map n | n in p + [x] && n !in t :: map[]) == t1 + map n | n in [x] && n !in t1 :: map[]
  {
    var empty: Changes := map[];
    var t1 := t + map n | n in p && n !in t :: empty;
    var lhs := t + map n | n in p + [x] && n !in t :: empty;
    var rhs := t1 + map n | n in [x] && n !in t1 :: empty;
    assert lhs.Keys == rhs.Keys;
    assert forall k :: k in lhs ==> lhs[k] == rhs[k];
  }

  /** AddStates of one name: it joins `States`, and gets an empty table only when it has none. */
  lemma WithStatesOne(c: Content, name: string)
    ensures WithStates(c, [name])
      == c.(states := c.states + {name},
            tables := if name in c.tables then c.tables else c.tables[name := map[]])
  {
    var empty: Changes := map[];
    var none: Tables := map[];
    assert (set n | n in [name]) == {name};
    if name in c.tables {
      assert (map n | n in [name] && n !in c.tables :: empty) == none;
    } else {
      assert (map n | n in [name] && n !in c.tables :: empty) == none[name := empty];
    }
  }

  /** AddStates depends only on which names the list holds. */
  lemma WithStatesOfSet(c: Content, names: seq<string>, s: set<string>)
    requires forall n :: n in names <==> n in s
    ensures WithStates(c, names)
      == c.(states := c.states + s, tables := c.tables + map n | n in s && n !in c.tables :: map[])
  {
    assert (set n | n in names) == s;
  }

  /** AddMessages depends only on which names the list holds. */
  lemma WithMessagesOfSet(c: Content, names: seq<string>, s: set<string>)
    requires forall n :: n in names <==> n in s
    ensures WithMessages(c, names) == c.(messages := c.messages + s)
  {
    assert (set n | n in names) == s;
  }

  /**
    * The checks `Set(s, m, t)` makes, in order: the first that fails names
    * the exception; `None` when all pass.
    */
  function SetCheck(c: Content, s: Name, m: Name, t: Name): (r: Option<Fault>)
    ensures r == None <==>
      s.Some? && s.value in c.states && s.value in c.tables &&
      m.Some? && m.value in c.messages && t.Some? && t.value in c.states
    ensures r == Some(NoTable) ==> s.Some? && s.value in c.states
    ensures r == Some(UnknownTarget) ==> s.Some? && s.value in c.tables && m.Some? && m.value in c.messages
  {
    if !(s.Some? && s.value in c.states) then Some(UnknownState)
    else if s.value !in c.tables then Some(NoTable)
    else if !(m.Some? && m.value in c.messages) then Some(UnknownMessage)
    else if !(t.Some? && t.value in c.states) then Some(UnknownTarget)
    else None
  }

  /** What `Set(s, m, t)` writes once its checks pass. */
  function Written(c: Content, s: string, m: string, t: string): Content
    requires s in c.tables
  {
    c.(tables := c.tables[s := c.tables[s][m := t]])
  }

  /** Names do not change when a transition is written, so the next check is made against the same sets. */
  predicate SameNames(a: Content, b: Content)
  {
    a.states == b.states && a.messages == b.messages && a.tables.Keys == b.tables.Keys
  }

  // ---------------------------------------------------------------------
  // LoadStateMachine: Set for every transition of every table, in order
  // ---------------------------------------------------------------------

  function LoadedRow(c: Content, name: Name, ts: seq<Change>): (r: Outcome<Content>)
    ensures SameNames(r.value, c)
    decreases |ts|
  {
    if |ts| == 0 then Outcome(None, c)
    else
      var f := SetCheck(c, name, ts[0].message, ts[0].target);
      if f.Some? then Outcome(f, c)
      else LoadedRow(Written(c, name.value, ts[0].message.value, ts[0].target.value), name, ts[1..])
  }

  function Loaded(c: Content, tables: seq<TableDoc>): (r: Outcome<Content>)
    ensures SameNames(r.value, c)
    decreases |tables|
  {
    if |tables| == 0 then Outcome(None, c)
    else
      var r := LoadedRow(c, tables[0].name, tables[0].transitions);
      if r.fault.Some? then r else Loaded(r.value, tables[1..])
  }

  /** Every transition the document lists passes `Set`'s checks against `c`. */
  ghost predicate AllSettable(c: Content, tables: seq<TableDoc>)
  {
    forall i, k :: 0 <= i < |tables| && 0 <= k < |tables[i].transitions| ==>
      SetCheck(c, tables[i].name, tables[i].transitions[k].message, tables[i].transitions[k].target) == None
  }

  lemma {:induction false} LoadedRowOk(c: Content, name: Name, ts: seq<Change>)
    ensures LoadedRow(c, name, ts).fault == None <==>
      forall k :: 0 <= k < |ts| ==> SetCheck(c, name, ts[k].message, ts[k].target) == None
    decreases |ts|
  {
    if |ts| > 0 && SetCheck(c, name, ts[0].message, ts[0].target) == None {
      var c' := Written(c, name.value, ts[0].message.value, ts[0].target.value);
      LoadedRowOk(c', name, ts[1..]);
      assert forall k :: 1 <= k < |ts| ==> ts[1..][k - 1] == ts[k];
      assert forall x, y, z :: SetCheck(c', x, y, z) == SetCheck(c, x, y, z);
    }
  }

  /**
    * LoadStateMachine throws exactly when some listed transition fails one
    * of `Set`'s checks; the checks all see the sets as the names left them.
    */
  lemma {:induction false} LoadedOk(c: Content, tables: seq<TableDoc>)
    ensures Loaded(c, tables).fault == None <==> AllSettable(c, tables)
    decreases |tables|
  {
    if |tables| > 0 {
      var r := LoadedRow(c, tables[0].name, tables[0].transitions);
      LoadedRowOk(c, tables[0].name, tables[0].transitions);
      if r.fault.None? {
        LoadedOk(r.value, tables[1..]);
        assert forall x, y, z :: SetCheck(r.value, x, y, z) == SetCheck(c, x, y, z);
        assert forall i :: 1 <= i < |tables| ==> tables[1..][i - 1] == tables[i];
        if AllSettable(r.value, tables[1..]) {
          forall i, k | 0 <= i < |tables| && 0 <= k < |tables[i].transitions|
            ensures SetCheck(c, tables[i].name, tables[i].transitions[k].message, tables[i].transitions[k].target) == None
          {
            if i > 0 {
              assert tables[1..][i - 1] == tables[i];
            }
          }
        }
      } else {
        assert !AllSettable(c, tables) by {
          var k :| 0 <= k < |tables[0].transitions| &&
            SetCheck(c, tables[0].name, tables[0].transitions[k].message, tables[0].transitions[k].target) != None;
        }
      }
    }
  }

  // ---------------------------------------------------------------------
  // State.AddStateMachine(table, machine, name)
  // ---------------------------------------------------------------------

  /** A transition whose message and target the machine knows. */
  predicate Recordable(t: Change, states: set<string>, messages: set<string>)
  {
    t.message.Some? && t.message.value in messages && t.target.Some? && t.target.value in states
  }

  /**
    * The transitions of one table, in order: an unknown message or target
    * throws, and a transition back to `name` itself is not recorded.
    */
  function Recorded(c: Changes, ts: seq<Change>, states: set<string>, messages: set<string>, name: string): (r: Outcome<Changes>)
    decreases |ts|
  {
    if |ts| == 0 then Outcome(None, c)
    else if !(ts[0].message.Some? && ts[0].message.value in messages) then Outcome(Some(UnknownMessage), c)
    else if !(ts[0].target.Some? && ts[0].target.value in states) then Outcome(Some(UnknownTarget), c)
    else
      var c' := if name != ts[0].target.value then c[ts[0].message.value := ts[0].target.value] else c;
      Recorded(c', ts[1..], states, messages, name)
  }

  /** It throws exactly when some transition names an unknown message or target. */
  lemma {:induction false} RecordedOk(c: Changes, ts: seq<Change>, states: set<string>, messages: set<string>, name: string)
    ensures Recorded(c, ts, states, messages, name).fault == None <==>
      forall k :: 0 <= k < |ts| ==> Recordable(ts[k], states, messages)
    decreases |ts|
  {
    if |ts| > 0 && Recordable(ts[0], states, messages) {
      var c' := if name != ts[0].target.value then c[ts[0].message.value := ts[0].target.value] else c;
      RecordedOk(c', ts[1..], states, messages, name);
      assert forall k :: 1 <= k < |ts| ==> ts[1..][k - 1] == ts[k];
    }
  }

  /** No self-transition is ever recorded: an entry pointing at `name` was there before. */
  lemma {:induction false} RecordedNoSelf(c: Changes, ts: seq<Change>, states: set<string>, messages: set<string>, name: string)
    ensures var r := Recorded(c, ts, states, messages, name).value;
      forall k :: k in r && r[k] == name ==> k in c && c[k] == name
    decreases |ts|
  {
    if |ts| > 0 && Recordable(ts[0], states, messages) {
      var c' := if name != ts[0].target.value then c[ts[0].message.value := ts[0].target.value] else c;
      assert Recorded(c, ts, states, messages, name) == Recorded(c', ts[1..], states, messages, name);
      RecordedNoSelf(c', ts[1..], states, messages, name);
    }
  }

  /**
    * No rollback: when transition `i` is the first one that throws, what
    * stays written is exactly what the transitions before it wrote.
    */
  lemma {:induction false} RecordedKeepsPrefix(c: Changes, ts: seq<Change>, states: set<string>, messages: set<string>, name: string, i: int)
    requires 0 <= i < |ts| && !Recordable(ts[i], states, messages)
    requires forall k :: 0 <= k < i ==> Recordable(ts[k], states, messages)
    ensures Recorded(c, ts, states, messages, name).fault.Some?
    ensures Recorded(c, ts, states, messages, name).value == Recorded(c, ts[..i], states, messages, name).value
    decreases i
  {
    if i > 0 {
      var c' := if name != ts[0].target.value then c[ts[0].message.value := ts[0].target.value] else c;
      assert ts[..i][1..] == ts[1..][..i - 1];
      RecordedKeepsPrefix(c', ts[1..], states, messages, name, i - 1);
    }
  }

  /**
    * The transitions a document table built from a State keeps: one per
    * entry of its StateChanges whose target is not the state's own name.
    */
  ghost function Kept(changes: Changes, name: Name): set<Change>
  {
    set k | k in changes && Some(changes[k]) != name :: Change(Some(k), Some(changes[k]))
  }

  // ---------------------------------------------------------------------
  // AddStateMachine(model) and RemoveStateMachine(model)
  // ---------------------------------------------------------------------

  /** The tables of a model, each into the StateTable entry it names, stopping at the first exception. */
  function ComposedTables(c: Content, tables: seq<TableDoc>): (r: Outcome<Content>)
    ensures SameNames(r.value, c)
    decreases |tables|
  {
    if |tables| == 0 then Outcome(None, c)
    else
      var tb := tables[0];
      if !(tb.name.Some? && tb.name.value in c.tables) then Outcome(Some(NoTable), c)
      else
        var rec := Recorded(c.tables[tb.name.value], tb.transitions, c.states, c.messages, tb.name.value);
        var c' := c.(tables := c.tables[tb.name.value := rec.value]);
        if rec.fault.Some? then Outcome(rec.fault, c') else ComposedTables(c', tables[1..])
  }

  /** Composing a list of tables is composing its first table, then the rest unless that threw. */
  lemma ComposedTablesStep(c: Content, tables: seq<TableDoc>)
    requires |tables| > 0
    ensures ComposedTables(c, tables)
      == var first := ComposedTables(c, tables[..1]);
         if first.fault.Some? then first else ComposedTables(first.value, tables[1..])
  {
    assert tables[..1][1..] == [];
  }

  /** AddStateMachine(model): messages, then states, then the tables. */
  function Composed(c: Content, doc: Doc): Outcome<Content>
    requires AllSome(doc.stateNames) && AllSome(doc.messageNames)
  {
    ComposedTables(WithStates(WithMessages(c, Strings(doc.messageNames)), Strings(doc.stateNames)), doc.tables)
  }

  /** State.RemoveStateMachine(model): drop the model's messages and every entry targeting one of its states. */
  function Scrubbed(c: Changes, messages: seq<string>, states: seq<string>): Changes
  {
    map k | k in c && k !in messages && c[k] !in states :: c[k]
  }

  /** Scrubbing twice is scrubbing once. */
  lemma ScrubbedIdempotent(c: Changes, messages: seq<string>, states: seq<string>)
    ensures Scrubbed(Scrubbed(c, messages, states), messages, states) == Scrubbed(c, messages, states)
  {
  }

  /** RemoveStateMachine(model): the names leave both sets and the StateTable, and the other tables are scrubbed. */
  function Decomposed(c: Content, doc: Doc): Content
    requires AllSome(doc.stateNames) && AllSome(doc.messageNames)
  {
    var ms := Strings(doc.messageNames);
    var ss := Strings(doc.stateNames);
    Content(c.states - (set s | s in ss), c.messages - (set m | m in ms),
            map k | k in c.tables && k !in ss :: Scrubbed(c.tables[k], ms, ss))
  }

  /** Dropping the removed states' tables, then scrubbing the rest, is the table part of `Decomposed`. */
  lemma DroppedThenScrubbed(t: Tables, ms: seq<string>, ss: seq<string>)
    ensures (var d := t - (set s | s in ss); map k | k in d :: Scrubbed(d[k], ms, ss))
         == map k | k in t && k !in ss :: Scrubbed(t[k], ms, ss)
  {
  }

  /** Composing only writes into the tables the model names. */
  lemma {:induction false} ComposedTablesTouchOnly(c: Content, tables: seq<TableDoc>)
    ensures forall k :: k in c.tables && (forall i :: 0 <= i < |tables| ==> tables[i].name != Some(k)) ==>
      ComposedTables(c, tables).value.tables[k] == c.tables[k]
    decreases |tables|
  {
    if |tables| > 0 {
      var tb := tables[0];
      if tb.name.Some? && tb.name.value in c.tables {
        var rec := Recorded(c.tables[tb.name.value], tb.transitions, c.states, c.messages, tb.name.value);
        var c' := c.(tables := c.tables[tb.name.value := rec.value]);
        if rec.fault.None? {
          ComposedTablesTouchOnly(c', tables[1..]);
          forall k | k in c.tables && (forall i :: 0 <= i < |tables| ==> tables[i].name != Some(k))
            ensures ComposedTables(c, tables).value.tables[k] == c.tables[k]
          {
            assert tables[0].name != Some(k);
            assert forall i :: 0 <= i < |tables[1..]| ==> tables[1..][i] == tables[i + 1];
          }
        }
      }
    }
  }

  /** The model's names are new to the machine. */
  ghost predicate Disjoint(c: Content, doc: Doc)
    requires AllSome(doc.stateNames) && AllSome(doc.messageNames)
  {
    && (forall s :: s in Strings(doc.stateNames) ==> s !in c.states && s !in c.tables)
    && (forall m :: m in Strings(doc.messageNames) ==> m !in c.messages)
  }

  /**
    * The model touches only its own states' tables, and no existing entry
    * mentions one of its messages or states.
    */
  ghost predicate SelfContained(c: Content, doc: Doc)
    requires AllSome(doc.stateNames) && AllSome(doc.messageNames)
  {
    && (forall i :: 0 <= i < |doc.tables| && doc.tables[i].name.Some? ==> doc.tables[i].name in doc.stateNames)
    && (forall k, m :: k in c.tables && m in c.tables[k] ==> Some(m) !in doc.messageNames && Some(c.tables[k][m]) !in doc.stateNames)
  }

  /**
    * Composition is undone by decomposition. When the model's names are new
    * to the machine, removing the model restores `States`, `Messages` and
    * the StateTable's keys, whether or not adding it threw part-way; when
    * the model is moreover self-contained, every table is restored too.
    */
  lemma RemoveUndoesAdd(c: Content, doc: Doc)
    requires AllSome(doc.stateNames) && AllSome(doc.messageNames)
    requires Disjoint(c, doc)
    ensures var d := Decomposed(Composed(c, doc).value, doc);
      d.states == c.states && d.messages == c.messages && d.tables.Keys == c.tables.Keys
    ensures SelfContained(c, doc) ==> Decomposed(Composed(c, doc).value, doc) == c
  {
    var ms := Strings(doc.messageNames);
    var ss := Strings(doc.stateNames);
    var c1 := WithStates(WithMessages(c, ms), ss);
    var c2 := ComposedTables(c1, doc.tables).value;
    var d := Decomposed(c2, doc);
    assert d.states == c.states;
    assert d.messages == c.messages;
    assert d.tables.Keys == c.tables.Keys;
    if SelfContained(c, doc) {
      ComposedTablesTouchOnly(c1, doc.tables);
      assert forall j :: 0 <= j < |ss| ==> doc.stateNames[j] == Some(ss[j]);
      assert forall j :: 0 <= j < |ms| ==> doc.messageNames[j] == Some(ms[j]);
      forall k | k in c.tables
        ensures d.tables[k] == c.tables[k]
      {
        assert k !in ss;
        assert forall i :: 0 <= i < |doc.tables| ==> doc.tables[i].name != Some(k);
        assert c2.tables[k] == c.tables[k];
        assert Scrubbed(c.tables[k], ms, ss) == c.tables[k];
      }
    }
  }

  // ---------------------------------------------------------------------
  // Importing an index-based machine
  // ---------------------------------------------------------------------

  /** The row's targets are states and its columns messages. */
  ghost predicate RowFits(sn: seq<Name>, mn: seq<Name>, row: seq<int>)
  {
    |row| <= |mn| && forall j :: 0 <= j < |row| ==> 0 <= row[j] < |sn|
  }

  /**
    * Row `i` of an index-based table written into `c` column by column:
    * each cell that is not a self-loop maps its message's name to its
    * target's name.
    */
  function RowApplied(c: Changes, sn: seq<Name>, mn: seq<Name>, row: seq<int>, i: int): Changes
    requires AllSome(sn) && AllSome(mn) && RowFits(sn, mn, row)
    decreases |row|
  {
    if |row| == 0 then c
    else
      var n := |row| - 1;
      var p := RowApplied(c, sn, mn, row[..n], i);
      if row[n] != i then p[mn[n].value := sn[row[n]].value] else p
  }

  /** Writing one more column of the row. */
  lemma RowAppliedStep(c: Changes, sn: seq<Name>, mn: seq<Name>, row: seq<int>, i: int, n: int)
    requires AllSome(sn) && AllSome(mn) && RowFits(sn, mn, row) && 0 <= n < |row|
    ensures RowFits(sn, mn, row[..n]) && RowFits(sn, mn, row[..n + 1])
    ensures var p := RowApplied(c, sn, mn, row[..n], i);
      RowApplied(c, sn, mn, row[..n + 1], i) == if row[n] != i then p[mn[n].value := sn[row[n]].value] else p
  {
    assert row[..n + 1][..n] == row[..n];
  }

  /** A key no column of the row names keeps what it had. */
  lemma {:induction false} AppliedRowElse(c: Changes, sn: seq<Name>, mn: seq<Name>, row: seq<int>, i: int, k: string)
    requires AllSome(sn) && AllSome(mn) && RowFits(sn, mn, row)
    requires Some(k) !in mn[..|row|]
    ensures var r := RowApplied(c, sn, mn, row, i);
      (k in r <==> k in c) && (k in c ==> r[k] == c[k])
    decreases |row|
  {
    if |row| > 0 {
      var n := |row| - 1;
      assert mn[..n] == mn[..|row|][..n];
      assert mn[..|row|][n] == mn[n];
      AppliedRowElse(c, sn, mn, row[..n], i, k);
    }
  }

  /**
    * Writing row `i`'s changes sets message `mn[j]` to `sn[row[j]]` exactly
    * when column `j` is not a self-loop, and leaves it as it was otherwise.
    */
  lemma {:induction false} AppliedRowAt(c: Changes, sn: seq<Name>, mn: seq<Name>, row: seq<int>, i: int, j: int)
    requires AllSome(sn) && AllSome(mn) && Distinct(mn) && RowFits(sn, mn, row)
    requires 0 <= j < |row|
    ensures var r := RowApplied(c, sn, mn, row, i);
      && (mn[j].value in r <==> mn[j].value in c || row[j] != i)
      && (row[j] != i ==> r[mn[j].value] == sn[row[j]].value)
      && (row[j] == i && mn[j].value in c ==> r[mn[j].value] == c[mn[j].value])
    decreases |row|
  {
    var n := |row| - 1;
    if j == n {
      assert Some(mn[n].value) !in mn[..n] by {
        forall a | 0 <= a < n ensures mn[..n][a] != mn[n] {
          assert mn[a] != mn[n];
        }
      }
      AppliedRowElse(c, sn, mn, row[..n], i, mn[n].value);
    } else {
      AppliedRowAt(c, sn, mn, row[..n], i, j);
      assert mn[j] != mn[n];
    }
  }

  /** Every row of `t` fits the names. */
  ghost predicate RowsFit(sn: seq<Name>, mn: seq<Name>, t: Grid)
  {
    |t| == |sn| && forall i :: 0 <= i < |t| ==> RowFits(sn, mn, t[i])
  }

  /** Hybrid SetStateMachine's table: the rows of `t` written one after another into the named tables. */
  function Indexed(c: Content, sn: seq<Name>, mn: seq<Name>, t: Grid, k: nat): (r: Content)
    requires k <= |sn| && AllSome(sn) && AllSome(mn) && RowsFit(sn, mn, t)
    requires forall i :: 0 <= i < |sn| ==> sn[i].value in c.tables
    ensures forall x :: x in c.tables ==> x in r.tables
  {
    if k == 0 then c
    else
      var p := Indexed(c, sn, mn, t, k - 1);
      var s := sn[k - 1].value;
      p.(tables := p.tables[s := RowApplied(p.tables[s], sn, mn, t[k - 1], k - 1)])
  }

  /** With distinct state names, row `i` ends up in table `sn[i]`, unaffected by the other rows. */
  lemma {:induction false} IndexedRowAt(c: Content, sn: seq<Name>, mn: seq<Name>, t: Grid, k: nat, i: int)
    requires k <= |sn| && AllSome(sn) && AllSome(mn) && RowsFit(sn, mn, t)
    requires forall a :: 0 <= a < |sn| ==> sn[a].value in c.tables
    requires Distinct(sn) && 0 <= i < k
    ensures Indexed(c, sn, mn, t, k).tables[sn[i].value] == RowApplied(c.tables[sn[i].value], sn, mn, t[i], i)
    decreases k
  {
    var p := Indexed(c, sn, mn, t, k - 1);
    var s := sn[k - 1].value;
    assert Indexed(c, sn, mn, t, k).tables == p.tables[s := RowApplied(p.tables[s], sn, mn, t[k - 1], k - 1)];
    var x := sn[i].value;
    if i == k - 1 {
      IndexedOther(c, sn, mn, t, k - 1, s);
      assert p.tables[s] == c.tables[s];
    } else {
      IndexedRowAt(c, sn, mn, t, k - 1, i);
      assert sn[i] != sn[k - 1];
      assert x != s;
      assert Indexed(c, sn, mn, t, k).tables[x] == p.tables[x];
    }
  }

  /** Importing rows changes no name. */
  lemma {:induction false} IndexedNames(c: Content, sn: seq<Name>, mn: seq<Name>, t: Grid, k: nat)
    requires k <= |sn| && AllSome(sn) && AllSome(mn) && RowsFit(sn, mn, t)
    requires forall a :: 0 <= a < |sn| ==> sn[a].value in c.tables
    ensures SameNames(Indexed(c, sn, mn, t, k), c)
    decreases k
  {
    if k > 0 {
      IndexedNames(c, sn, mn, t, k - 1);
    }
  }

  /** A table no row names is left alone. */
  lemma {:induction false} IndexedOther(c: Content, sn: seq<Name>, mn: seq<Name>, t: Grid, k: nat, x: string)
    requires k <= |sn| && AllSome(sn) && AllSome(mn) && RowsFit(sn, mn, t)
    requires forall a :: 0 <= a < |sn| ==> sn[a].value in c.tables
    requires x in c.tables && forall a :: 0 <= a < k ==> sn[a] != Some(x)
    ensures Indexed(c, sn, mn, t, k).tables[x] == c.tables[x]
    decreases k
  {
    if k > 0 {
      var p := Indexed(c, sn, mn, t, k - 1);
      var s := sn[k - 1].value;
      assert Indexed(c, sn, mn, t, k).tables == p.tables[s := RowApplied(p.tables[s], sn, mn, t[k - 1], k - 1)];
      IndexedOther(c, sn, mn, t, k - 1, x);
    }
  }

  /** After adding the messages and then the states, every one of those names is known and every state has a table. */
  lemma NamesAdded(c: Content, sn: seq<Name>, mn: seq<Name>)
    requires AllSome(sn) && AllSome(mn)
    ensures var r := WithStates(WithMessages(c, Strings(mn)), Strings(sn));
      && (forall i :: 0 <= i < |sn| ==> sn[i].value in r.states && sn[i].value in r.tables)
      && (forall j :: 0 <= j < |mn| ==> mn[j].value in r.messages)
  {
    var ss, ms := Strings(sn), Strings(mn);
    forall i | 0 <= i < |sn|
      ensures sn[i].value == ss[i]
    {
    }
    forall j | 0 <= j < |mn|
      ensures mn[j].value == ms[j]
    {
    }
  }

  /** The machine SetStateMachine starts from when it is empty: the names, and an empty table per state. */
  lemma {:induction false} NamesOnly(sn: seq<Name>, mn: seq<Name>)
    requires AllSome(sn) && AllSome(mn)
    ensures var c := WithStates(WithMessages(Fresh, Strings(mn)), Strings(sn));
      && (forall s :: s in c.states <==> Some(s) in sn)
      && (forall m :: m in c.messages <==> Some(m) in mn)
      && (forall s :: s in c.tables <==> Some(s) in sn)
      && (forall s :: s in c.tables ==> c.tables[s] == map[])
  {
    var ss := Strings(sn);
    var ms := Strings(mn);
    assert forall j :: 0 <= j < |ss| ==> sn[j] == Some(ss[j]);
    assert forall j :: 0 <= j < |ms| ==> mn[j] == Some(ms[j]);
  }

  /**
    * SetStateMachine on an empty machine, with distinct names: the sets are
    * the names, and state `sn[i]`'s table maps `mn[j]` to `sn[t[i][j]]`
    * for exactly the cells that are not self-loops.
    */
  lemma FromIndexed(sn: seq<Name>, mn: seq<Name>, t: Grid)
    requires AllSome(sn) && AllSome(mn) && Distinct(sn) && Distinct(mn)
    requires Shaped(t, |sn|, |mn|) && InRange(t, |sn|)
    ensures var c := WithStates(WithMessages(Fresh, Strings(mn)), Strings(sn));
      var r := Indexed(c, sn, mn, t, |sn|);
      && (forall s :: s in r.states <==> Some(s) in sn)
      && (forall m :: m in r.messages <==> Some(m) in mn)
      && (forall s :: s in r.tables <==> Some(s) in sn)
      && (forall i, j :: 0 <= i < |sn| && 0 <= j < |mn| ==>
            (mn[j].value in r.tables[sn[i].value] <==> t[i][j] != i))
      && (forall i, j :: 0 <= i < |sn| && 0 <= j < |mn| && t[i][j] != i ==>
            r.tables[sn[i].value][mn[j].value] == sn[t[i][j]].value)
      && (forall i, m :: 0 <= i < |sn| && m in r.tables[sn[i].value] ==> Some(m) in mn)
  {
    var c := WithStates(WithMessages(Fresh, Strings(mn)), Strings(sn));
    NamesOnly(sn, mn);
    var r := Indexed(c, sn, mn, t, |sn|);
    IndexedNames(c, sn, mn, t, |sn|);
    forall i | 0 <= i < |sn|
      ensures forall j :: 0 <= j < |mn| ==> (mn[j].value in r.tables[sn[i].value] <==> t[i][j] != i)
      ensures forall j :: 0 <= j < |mn| && t[i][j] != i ==> r.tables[sn[i].value][mn[j].value] == sn[t[i][j]].value
      ensures forall m :: m in r.tables[sn[i].value] ==> Some(m) in mn
    {
      IndexedRowAt(c, sn, mn, t, |sn|, i);
      assert c.tables[sn[i].value] == map[];
      RowFromEmpty(sn, mn, t[i], i);
    }
  }

  /** Row `i` written into an empty table. */
  lemma RowFromEmpty(sn: seq<Name>, mn: seq<Name>, row: seq<int>, i: int)
    requires AllSome(sn) && AllSome(mn) && Distinct(mn) && RowFits(sn, mn, row) && |row| == |mn|
    ensures var r := RowApplied(map[], sn, mn, row, i);
      && (forall j :: 0 <= j < |mn| ==> (mn[j].value in r <==> row[j] != i))
      && (forall j :: 0 <= j < |mn| && row[j] != i ==> r[mn[j].value] == sn[row[j]].value)
      && (forall m :: m in r ==> Some(m) in mn)
  {
    var r := RowApplied(map[], sn, mn, row, i);
    forall j | 0 <= j < |mn|
      ensures mn[j].value in r <==> row[j] != i
      ensures row[j] != i ==> r[mn[j].value] == sn[row[j]].value
    {
      AppliedRowAt(map[], sn, mn, row, i, j);
    }
    forall m | m in r
      ensures Some(m) in mn
    {
      if Some(m) !in mn {
        assert mn[..|row|] == mn;
        AppliedRowElse(map[], sn, mn, row, i, m);
      }
    }
  }

  // ---------------------------------------------------------------------
  // Helpers for the engines' loops
  // ---------------------------------------------------------------------

  /** The elements of a set in some order: what a `foreach` over a HashSet visits. */
  method Elements(s: set<string>) returns (r: seq<string>)
    ensures forall x :: x in r <==> x in s
  {
    r := [];
    var left := s;
    while left != {}
      invariant forall x :: x in s <==> x in r || x in left
      invariant forall x :: x in left ==> x in s
      decreases left
    {
      var x :| x in left;
      r := r + [x];
      left := left - {x};
    }
  }
}
