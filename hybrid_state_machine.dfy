/**
  * HybridStateMachine (StateMachineBuddy.SharedProject/Hybrid/
  * HybridStateMachine.cs): the shared project's name-based engine. Like the
  * StringStateMachine it has the `States` and `Messages` validation sets, a
  * StateTable from state name to State and a three-name cursor, and it can
  * also import an index-based machine. It has no LoadStateMachine, and its
  * SendStateMessage moves and raises an event even when the target is the
  * current state. The ghost `tables` mirrors the StateTable, and the events
  * raised are kept in a ghost log. An exception is a returned fault, and
  * what was written before it stays.
  */
module HybridStateMachine {
  import opened Common
  import opened Document
  import opened Table
  import opened Named
  import opened HybridState
  import opened IntStateMachine

  class HybridStateMachine {
    var initialState: Name
    var prevState: Name
    var currentState: Name
    var stateTable: map<string, State>
    var messages: set<string>
    var states: set<string>
    /** Each State's StateChanges, by the StateTable key it sits under. */
    ghost var tables: Tables
    /** The key each State was put under; no two keys share a State. */
    ghost var owner: map<State, string>
    /** Every StateChangedEvent and ResetEvent raised, oldest first. */
    ghost var events: seq<Event<Name>>

    /** `tables` is what the StateTable's States hold, and each State sits under one key only. */
    ghost predicate Valid()
      reads this, stateTable.Values
    {
      && stateTable.Keys == tables.Keys
      && (forall k :: k in stateTable ==> stateTable[k].stateChanges == tables[k])
      && (forall k :: k in stateTable ==> stateTable[k] in owner && owner[stateTable[k]] == k)
    }

    /** The machine's names and tables as one value. */
    ghost function Contents(): Content
      reads this
    {
      Content(states, messages, tables)
    }

    /** A new machine: no states, no messages, no tables and a null cursor. */
    constructor()
      ensures Valid() && Contents() == Fresh
      ensures initialState == None && prevState == None && currentState == None
      ensures events == []
    {
      initialState, prevState, currentState := None, None, None;
      stateTable := map[];
      messages, states := {}, {};
      tables := map[];
      owner := map[];
      events := [];
    }

    /** SetInitialState: only a name in `States` moves all three cursor states to it. */
    method SetInitialState(name: Name)
      requires Valid()
      modifies this
      ensures Valid()
      ensures if name.Some? && name.value in states
              then initialState == name && prevState == name && currentState == name
              else initialState == old(initialState) && prevState == old(prevState) && currentState == old(currentState)
      ensures stateTable == old(stateTable) && Contents() == old(Contents()) && events == old(events)
    {
      if name.Some? && name.value in states {
        initialState := name;
        prevState := name;
        currentState := name;
      }
    }

    /**
      * AddStates: each name joins `States` if it is new, and gets an empty
      * State if it has none; an existing State is never replaced. C#
      * dictionary keys cannot be null, so the names are strings.
      */
    method AddStates(names: seq<string>)
      requires Valid()
      modifies this
      ensures Valid()
      ensures Contents() == WithStates(old(Contents()), names)
      ensures forall k :: k in old(stateTable) ==> k in stateTable && stateTable[k] == old(stateTable)[k]
      ensures forall k :: k in stateTable && k !in old(stateTable) ==> fresh(stateTable[k])
      ensures initialState == old(initialState) && prevState == old(prevState) && currentState == old(currentState)
      ensures events == old(events)
    {
      for i := 0 to |names|
        invariant Valid()
        invariant Contents() == WithStates(old(Contents()), names[..i])
        invariant forall k :: k in old(stateTable) ==> k in stateTable && stateTable[k] == old(stateTable)[k]
        invariant forall k :: k in stateTable && k !in old(stateTable) ==> fresh(stateTable[k])
        invariant initialState == old(initialState) && prevState == old(prevState) && currentState == old(currentState)
        invariant events == old(events)
      {
        WithStatesStep(old(Contents()), names, i);
        AddState(names[i]);
      }
      assert names[..|names|] == names;
    }

    /** One step of AddStates. */
    method AddState(name: string)
      requires Valid()
      modifies this
      ensures Valid()
      ensures Contents() == WithStates(old(Contents()), [name])
      ensures forall k :: k in old(stateTable) ==> k in stateTable && stateTable[k] == old(stateTable)[k]
      ensures forall k :: k in stateTable && k !in old(stateTable) ==> fresh(stateTable[k])
      ensures initialState == old(initialState) && prevState == old(prevState) && currentState == old(currentState)
      ensures events == old(events)
    {
      WithStatesOne(Contents(), name);
      states := states + {name};
      if name !in stateTable {
        NewTable(name);
      }
    }

    /** `StateTable.Add(name, new State())` for a name without a State. */
    method NewTable(name: string)
      requires Valid() && name !in stateTable
      modifies this
      ensures Valid()
      ensures name in stateTable && stateTable == old(stateTable)[name := stateTable[name]] && fresh(stateTable[name])
      ensures tables == old(tables)[name := map[]]
      ensures states == old(states) && messages == old(messages)
      ensures initialState == old(initialState) && prevState == old(prevState) && currentState == old(currentState)
      ensures events == old(events)
    {
      var added := new State();
      stateTable := stateTable[name := added];
      tables := tables[name := map[]];
      owner := owner[added := name];
    }

    /** AddMessages: each name joins `Messages` if it is new. */
    method AddMessages(names: seq<string>)
      requires Valid()
      modifies this
      ensures Valid()
      ensures Contents() == WithMessages(old(Contents()), names)
      ensures stateTable == old(stateTable)
      ensures initialState == old(initialState) && prevState == old(prevState) && currentState == old(currentState)
      ensures events == old(events)
    {
      for i := 0 to |names|
        invariant Valid()
        invariant messages == old(messages) + set n | n in names[..i]
        invariant stateTable == old(stateTable) && states == old(states) && tables == old(tables)
        invariant initialState == old(initialState) && prevState == old(prevState) && currentState == old(currentState)
        invariant events == old(events)
      {
        assert names[..i + 1] == names[..i] + [names[i]];
        messages := messages + {names[i]};
      }
      assert names[..|names|] == names;
    }

    /**
      * Set: throws on the first of an unknown state, a state without a
      * table, an unknown message and an unknown target, writing nothing;
      * otherwise maps the message to the target in the state's table,
      * replacing any earlier target.
      */
    method Set(state: Name, message: Name, nextState: Name) returns (fault: Option<Fault>)
      requires Valid()
      modifies stateTable.Values, this
      ensures Valid()
      ensures fault == SetCheck(old(Contents()), state, message, nextState)
      ensures Contents() == if fault.None? then Written(old(Contents()), state.value, message.value, nextState.value) else old(Contents())
      ensures stateTable == old(stateTable)
      ensures initialState == old(initialState) && prevState == old(prevState) && currentState == old(currentState)
      ensures events == old(events)
    {
      if !(state.Some? && state.value in states) {
        return Some(UnknownState);
      } else if state.value !in stateTable {
        return Some(NoTable);
      } else if !(message.Some? && message.value in messages) {
        return Some(UnknownMessage);
      } else if !(nextState.Some? && nextState.value in states) {
        return Some(UnknownTarget);
      }
      var target := stateTable[state.value];
      target.stateChanges := target.stateChanges[message.value := nextState.value];
      tables := tables[state.value := target.stateChanges];
      return None;
    }

    /**
      * AddStateMachine(model): the model's messages, then its states, then
      * each of its tables into the State it names; a table naming no State
      * throws, and so does a transition with an unknown message or target.
      * Nothing written before the exception is undone.
      */
    method AddStateMachine(doc: Doc) returns (fault: Option<Fault>)
      requires Valid() && AllSome(doc.stateNames) && AllSome(doc.messageNames)
      modifies this, stateTable.Values
      ensures Valid()
      ensures Outcome(fault, Contents()) == Composed(old(Contents()), doc)
      ensures initialState == old(initialState) && prevState == old(prevState) && currentState == old(currentState)
      ensures events == old(events)
    {
      AddMessages(Strings(doc.messageNames));
      AddStates(Strings(doc.stateNames));
      fault := AddTables(doc.tables);
    }

    /** The loop of AddStateMachine over the model's tables. */
    method AddTables(tables': seq<TableDoc>) returns (fault: Option<Fault>)
      requires Valid()
      modifies this, stateTable.Values
      ensures Valid()
      ensures Outcome(fault, Contents()) == ComposedTables(old(Contents()), tables')
      ensures stateTable == old(stateTable)
      ensures initialState == old(initialState) && prevState == old(prevState) && currentState == old(currentState)
      ensures events == old(events)
    {
      var i := 0;
      while i < |tables'|
        invariant 0 <= i <= |tables'|
        invariant Valid() && stateTable == old(stateTable)
        invariant ComposedTables(old(Contents()), tables') == ComposedTables(Contents(), tables'[i..])
        invariant initialState == old(initialState) && prevState == old(prevState) && currentState == old(currentState)
        invariant events == old(events)
      {
        ComposedTablesStep(Contents(), tables'[i..]);
        assert tables'[i..][..1] == [tables'[i]];
        assert tables'[i..][1..] == tables'[i + 1..];
        var f := AddTableTo(tables'[i]);
        if f.Some? {
          return f;
        }
        i := i + 1;
      }
      return None;
    }

    /** One step of AddStateMachine's loop: one table into the State it names. */
    method AddTableTo(table: TableDoc) returns (fault: Option<Fault>)
      requires Valid()
      modifies this, stateTable.Values
      ensures Valid()
      ensures Outcome(fault, Contents()) == ComposedTables(old(Contents()), [table])
      ensures stateTable == old(stateTable)
      ensures initialState == old(initialState) && prevState == old(prevState) && currentState == old(currentState)
      ensures events == old(events)
    {
      if !(table.name.Some? && table.name.value in stateTable) {
        return Some(NoTable);
      }
      var target := stateTable[table.name.value];
      fault := target.AddTable(table.transitions, states, messages, table.name.value);
      tables := tables[table.name.value := target.stateChanges];
    }

    /**
      * RemoveStateMachine(model): the model's messages leave `Messages`, its
      * states leave `States` and the StateTable, and every remaining table
      * loses the entries keyed by a removed message or targeting a removed
      * state. If the current state was removed, the machine is forced back
      * to its initial state. ForceState(null) with a non-null current state
      * throws in C#, so that case is excluded.
      */
    method RemoveStateMachine(doc: Doc)
      requires Valid() && AllSome(doc.stateNames) && AllSome(doc.messageNames)
      requires currentState in doc.stateNames ==> initialState.Some?
      modifies this, stateTable.Values
      ensures Valid()
      ensures Contents() == Decomposed(old(Contents()), doc)
      ensures initialState == old(initialState)
      ensures var forced := old(currentState) in doc.stateNames && initialState != old(currentState)
                            && initialState.value in tables;
        && currentState == (if forced then initialState else old(currentState))
        && prevState == (if forced then old(currentState) else old(prevState))
        && events == old(events) + if forced then [StateChanged(old(currentState), initialState)] else []
    {
      var ms := Strings(doc.messageNames);
      var ss := Strings(doc.stateNames);
      RemoveMessages(ms);
      RemoveStates(ss);
      DropTables(ss);
      ScrubTables(ms, ss);
      DroppedThenScrubbed(old(tables), ms, ss);
      if currentState in doc.stateNames {
        ForceState(initialState);
      }
    }

    /** The first loop of RemoveStateMachine: the model's messages leave `Messages`. */
    method RemoveMessages(names: seq<string>)
      requires Valid()
      modifies this
      ensures Valid()
      ensures messages == old(messages) - set m | m in names
      ensures stateTable == old(stateTable) && tables == old(tables) && states == old(states)
      ensures initialState == old(initialState) && prevState == old(prevState) && currentState == old(currentState)
      ensures events == old(events)
    {
      for i := 0 to |names|
        invariant owner == old(owner)
        invariant messages == old(messages) - set m | m in names[..i]
        invariant stateTable == old(stateTable) && tables == old(tables) && states == old(states)
        invariant initialState == old(initialState) && prevState == old(prevState) && currentState == old(currentState)
        invariant events == old(events)
      {
        assert names[..i + 1] == names[..i] + [names[i]];
        messages := messages - {names[i]};
      }
      assert names[..|names|] == names;
    }

    /** The second loop of RemoveStateMachine: the model's states leave `States`. */
    method RemoveStates(names: seq<string>)
      requires Valid()
      modifies this
      ensures Valid()
      ensures states == old(states) - set s | s in names
      ensures stateTable == old(stateTable) && tables == old(tables) && messages == old(messages)
      ensures initialState == old(initialState) && prevState == old(prevState) && currentState == old(currentState)
      ensures events == old(events)
    {
      for i := 0 to |names|
        invariant owner == old(owner)
        invariant states == old(states) - set s | s in names[..i]
        invariant stateTable == old(stateTable) && tables == old(tables) && messages == old(messages)
        invariant initialState == old(initialState) && prevState == old(prevState) && currentState == old(currentState)
        invariant events == old(events)
      {
        assert names[..i + 1] == names[..i] + [names[i]];
        states := states - {names[i]};
      }
      assert names[..|names|] == names;
    }

    /** The third loop of RemoveStateMachine: the removed states leave the StateTable. */
    method DropTables(names: seq<string>)
      requires Valid()
      modifies this
      ensures Valid()
      ensures stateTable == old(stateTable) - (set s | s in names)
      ensures tables == old(tables) - (set s | s in names)
      ensures states == old(states) && messages == old(messages)
      ensures initialState == old(initialState) && prevState == old(prevState) && currentState == old(currentState)
      ensures events == old(events)
    {
      for i := 0 to |names|
        invariant Valid()
        invariant stateTable == old(stateTable) - (set s | s in names[..i])
        invariant tables == old(tables) - (set s | s in names[..i])
        invariant states == old(states) && messages == old(messages)
        invariant initialState == old(initialState) && prevState == old(prevState) && currentState == old(currentState)
        invariant events == old(events)
      {
        RemoveOneMore(stateTable, names[..i], names[i]);
        RemoveOneMore(tables, names[..i], names[i]);
        TakeOneMore(names, i + 1);
        DropOne(names[i]);
      }
      assert names[..|names|] == names;
    }

    /** `StateTable.Remove(name)`. */
    method DropOne(name: string)
      requires Valid()
      modifies this
      ensures Valid()
      ensures stateTable == old(stateTable) - {name} && tables == old(tables) - {name}
      ensures states == old(states) && messages == old(messages)
      ensures initialState == old(initialState) && prevState == old(prevState) && currentState == old(currentState)
      ensures events == old(events)
    {
      stateTable := stateTable - {name};
      tables := tables - {name};
    }

    /** The fourth loop of RemoveStateMachine: each remaining State is scrubbed. */
    method ScrubTables(ms: seq<string>, ss: seq<string>)
      requires Valid()
      modifies this, stateTable.Values
      ensures Valid()
      ensures stateTable == old(stateTable)
      ensures tables == map k | k in old(tables) :: Scrubbed(old(tables)[k], ms, ss)
      ensures states == old(states) && messages == old(messages)
      ensures initialState == old(initialState) && prevState == old(prevState) && currentState == old(currentState)
      ensures events == old(events)
    {
      var keys := stateTable.Keys;
      while keys != {}
        invariant Valid() && stateTable == old(stateTable)
        invariant keys <= stateTable.Keys
        invariant tables.Keys == old(tables).Keys
        invariant forall k :: k in tables ==> tables[k] == if k in keys then old(tables)[k] else Scrubbed(old(tables)[k], ms, ss)
        invariant states == old(states) && messages == old(messages)
        invariant initialState == old(initialState) && prevState == old(prevState) && currentState == old(currentState)
        invariant events == old(events)
        decreases keys
      {
        var k :| k in keys;
        ScrubOne(k, ms, ss);
        keys := keys - {k};
      }
    }

    /** One step of the fourth loop: the State under `k` is scrubbed. */
    method ScrubOne(k: string, ms: seq<string>, ss: seq<string>)
      requires Valid() && k in stateTable
      modifies this, stateTable[k]
      ensures Valid()
      ensures stateTable == old(stateTable)
      ensures tables == old(tables)[k := Scrubbed(old(tables)[k], ms, ss)]
      ensures states == old(states) && messages == old(messages)
      ensures initialState == old(initialState) && prevState == old(prevState) && currentState == old(currentState)
      ensures events == old(events)
    {
      var target := stateTable[k];
      target.RemoveModel(ms, ss);
      tables := tables[k := target.stateChanges];
    }

    /** ResetToInitialState: both cursor states go to the initial one; only the reset event fires. */
    method ResetToInitialState()
      requires Valid()
      modifies this
      ensures Valid()
      ensures prevState == initialState && currentState == initialState
      ensures events == old(events) + [Reset(initialState, initialState)]
      ensures initialState == old(initialState)
      ensures stateTable == old(stateTable) && Contents() == old(Contents())
    {
      prevState := initialState;
      currentState := initialState;
      events := events + [Reset(prevState, currentState)];
    }

    /**
      * SendStateMessage: when the current state's table has the message,
      * the machine moves to its target, records the previous state and
      * raises one event, even when the target is the current state.
      * Looking up a null current state throws in C#.
      */
    method SendStateMessage(message: string)
      requires Valid() && currentState.Some?
      modifies this
      ensures Valid()
      ensures var cur := old(currentState).value;
        var moves := cur in tables && message in tables[cur];
        && currentState == (if moves then Some(tables[cur][message]) else old(currentState))
        && prevState == (if moves then old(currentState) else old(prevState))
        && events == old(events) + if moves then [StateChanged(old(currentState), currentState)] else []
      ensures initialState == old(initialState)
      ensures stateTable == old(stateTable) && Contents() == old(Contents())
    {
      if currentState.value in stateTable {
        var state := stateTable[currentState.value];
        if message in state.stateChanges {
          prevState := currentState;
          currentState := Some(state.stateChanges[message]);
          events := events + [StateChanged(prevState, currentState)];
        }
      }
    }

    /**
      * ForceState: moves, records the previous state and raises one event
      * only for a name other than the current one that has a table. A null
      * name with a non-null current state throws in C#.
      */
    method ForceState(state: Name)
      requires Valid()
      requires state.None? ==> currentState.None?
      modifies this
      ensures Valid()
      ensures var moved := state != old(currentState) && state.value in tables;
        && currentState == (if moved then state else old(currentState))
        && prevState == (if moved then old(currentState) else old(prevState))
        && events == old(events) + if moved then [StateChanged(old(currentState), state)] else []
      ensures initialState == old(initialState)
      ensures stateTable == old(stateTable) && Contents() == old(Contents())
    {
      if state != currentState && state.value in stateTable {
        prevState := currentState;
        currentState := state;
        events := events + [StateChanged(prevState, currentState)];
      }
    }

    /**
      * SetStateMachine: the index-based machine's messages and states, its
      * initial state's name, then for every row in order and every column
      * that is not a self-loop, `Set(row's name, column's name, target's
      * name)`. Every name was just added, so no `Set` throws. The machine's
      * `Debug.Assert`s require its arrays and an initial state within them;
      * C# dictionary keys cannot be null, so every name must be set.
      */
    method SetStateMachine(machine: IntStateMachine)
      requires Valid() && machine.Valid() && machine.data != null && machine.Closed()
      requires AllSome(machine.States()) && AllSome(machine.Messages())
      requires 0 <= machine.initialState < machine.NumStates()
      modifies this, stateTable.Values
      ensures Valid()
      ensures var sn, mn := old(machine.States()), old(machine.Messages());
        var c := WithStates(WithMessages(old(Contents()), Strings(mn)), Strings(sn));
        Contents() == Indexed(c, sn, mn, old(machine.grid), |sn|)
      ensures var name := old(machine.States()[machine.initialState]);
        initialState == name && prevState == name && currentState == name
      ensures events == old(events)
    {
      ghost var sn, mn, t := machine.States(), machine.Messages(), machine.grid;
      ImportNames(machine, sn, mn);
      SetIndexedRows(machine, sn, mn, t);
    }

    /**
      * The first half of SetStateMachine: the machine's messages, then its
      * states, then its initial state as this machine's cursor.
      */
    method ImportNames(machine: IntStateMachine, ghost sn: seq<Name>, ghost mn: seq<Name>)
      requires Valid() && machine.Valid() && machine.data != null
      requires sn == machine.States() && mn == machine.Messages()
      requires AllSome(sn) && AllSome(mn) && 0 <= machine.initialState < |sn|
      modifies this
      ensures Valid()
      ensures Contents() == WithStates(WithMessages(old(Contents()), Strings(mn)), Strings(sn))
      ensures forall i :: 0 <= i < |sn| ==> sn[i].value in states && sn[i].value in tables
      ensures forall j :: 0 <= j < |mn| ==> mn[j].value in messages
      ensures var name := sn[machine.initialState];
        initialState == name && prevState == name && currentState == name
      ensures forall k :: k in old(stateTable) ==> k in stateTable && stateTable[k] == old(stateTable)[k]
      ensures forall k :: k in stateTable && k !in old(stateTable) ==> fresh(stateTable[k])
      ensures events == old(events)
    {
      assert machine.stateNames[..] == sn && machine.messageNames[..] == mn;
      NamesAdded(old(Contents()), sn, mn);
      AddMessages(Strings(machine.messageNames[..]));
      AddStates(Strings(machine.stateNames[..]));
      var initialName := machine.stateNames[machine.initialState];
      assert initialName == sn[machine.initialState];
      SetInitialState(initialName);
    }

    /**
      * The outer loop of SetStateMachine: every row, in order. `sn`, `mn`
      * and `t` are the machine's names and table, which nothing here changes.
      */
    method SetIndexedRows(machine: IntStateMachine, ghost sn: seq<Name>, ghost mn: seq<Name>, ghost t: Grid)
      requires Valid() && machine.Valid() && machine.data != null && machine.Closed()
      requires sn == machine.States() && mn == machine.Messages() && t == machine.grid
      requires AllSome(sn) && AllSome(mn)
      requires forall i :: 0 <= i < |sn| ==> sn[i].value in states && sn[i].value in tables
      requires forall j :: 0 <= j < |mn| ==> mn[j].value in messages
      modifies this, stateTable.Values
      ensures Valid()
      ensures Contents() == Indexed(old(Contents()), sn, mn, t, |sn|)
      ensures initialState == old(initialState) && prevState == old(prevState) && currentState == old(currentState)
      ensures events == old(events)
    {
      for state := 0 to machine.NumStates()
        invariant Valid() && stateTable == old(stateTable)
        invariant Contents() == Indexed(old(Contents()), sn, mn, t, state)
        invariant initialState == old(initialState) && prevState == old(prevState) && currentState == old(currentState)
        invariant events == old(events)
      {
        IndexedNames(old(Contents()), sn, mn, t, state);
        SetIndexedRow(machine, state, sn, mn, t);
      }
    }

    /** One row of SetStateMachine: row `state` into the table named `sn[state]`. */
    method SetIndexedRow(machine: IntStateMachine, state: int, ghost sn: seq<Name>, ghost mn: seq<Name>, ghost t: Grid)
      requires Valid() && machine.Valid() && machine.data != null && machine.Closed()
      requires sn == machine.States() && mn == machine.Messages() && t == machine.grid
      requires AllSome(sn) && AllSome(mn) && 0 <= state < |sn|
      requires forall i :: 0 <= i < |sn| ==> sn[i].value in states && sn[i].value in tables
      requires forall j :: 0 <= j < |mn| ==> mn[j].value in messages
      modifies this, stateTable.Values
      ensures Valid() && stateTable == old(stateTable)
      ensures RowFits(sn, mn, t[state])
      ensures tables == old(tables)[sn[state].value := RowApplied(old(tables)[sn[state].value], sn, mn, t[state], state)]
      ensures states == old(states) && messages == old(messages)
      ensures initialState == old(initialState) && prevState == old(prevState) && currentState == old(currentState)
      ensures events == old(events)
    {
      ghost var row := t[state];
      var stateName := machine.stateNames[state];
      ghost var s := stateName.value;
      assert RowFits(sn, mn, row);
      for message := 0 to machine.NumMessages()
        invariant Valid() && stateTable == old(stateTable)
        invariant tables == old(tables)[s := RowApplied(old(tables)[s], sn, mn, row[..message], state)]
        invariant states == old(states) && messages == old(messages)
        invariant initialState == old(initialState) && prevState == old(prevState) && currentState == old(currentState)
        invariant events == old(events)
      {
        SetIndexedColumn(machine, state, message, stateName, sn, mn, t, old(tables), old(tables)[s]);
      }
      assert row[..machine.NumMessages()] == row;
    }

    /**
      * One column of row `state`: the cell's target, unless it is the row's
      * own state, is written under the column's message. `c` is the table
      * as it was before the row.
      */
    method SetIndexedColumn(machine: IntStateMachine, state: int, message: int, stateName: Name,
                            ghost sn: seq<Name>, ghost mn: seq<Name>, ghost t: Grid, ghost base: Tables, ghost c: Changes)
      requires Valid() && machine.Valid() && machine.data != null && machine.Closed()
      requires sn == machine.States() && mn == machine.Messages() && t == machine.grid
      requires AllSome(sn) && AllSome(mn) && 0 <= state < |sn| && 0 <= message < |mn|
      requires forall i :: 0 <= i < |sn| ==> sn[i].value in states && sn[i].value in tables
      requires forall j :: 0 <= j < |mn| ==> mn[j].value in messages
      requires stateName == sn[state] && RowFits(sn, mn, t[state])
      requires tables == base[stateName.value := RowApplied(c, sn, mn, t[state][..message], state)]
      modifies this, stateTable.Values
      ensures Valid() && stateTable == old(stateTable)
      ensures tables == base[stateName.value := RowApplied(c, sn, mn, t[state][..message + 1], state)]
      ensures states == old(states) && messages == old(messages)
      ensures initialState == old(initialState) && prevState == old(prevState) && currentState == old(currentState)
      ensures events == old(events)
    {
      ghost var before := RowApplied(c, sn, mn, t[state][..message], state);
      RowAppliedStep(c, sn, mn, t[state], state, message);
      var messageName := machine.messageNames[message];
      assert messageName == mn[message];
      var target := machine.GetEntry(state, message);
      if target != state {
        var targetName := machine.stateNames[target];
        assert targetName == sn[t[state][message]];
        SetIndexedCell(stateName, messageName, targetName);
        UpdateTwice(base, stateName.value, before, before[messageName.value := targetName.value]);
      }
    }

    /** One cell of SetStateMachine: a Set whose three names are known, so it cannot throw. */
    method SetIndexedCell(state: Name, message: Name, nextState: Name)
      requires Valid() && state.Some? && state.value in states && state.value in tables
      requires message.Some? && message.value in messages && nextState.Some? && nextState.value in states
      modifies this, stateTable.Values
      ensures Valid() && stateTable == old(stateTable)
      ensures tables == old(tables)[state.value := old(tables)[state.value][message.value := nextState.value]]
      ensures states == old(states) && messages == old(messages)
      ensures initialState == old(initialState) && prevState == old(prevState) && currentState == old(currentState)
      ensures events == old(events)
    {
      var fault := Set(state, message, nextState);
    }
  }
}
