/**
  * StringStateMachine (StateMachineBuddy/StringStateMachine.cs): the current
  * name-based engine. Two validation sets, `States` and `Messages`, a
  * StateTable from state name to State, and a cursor of three state names
  * that are `null` until `SetInitialState` finds its argument among the
  * states. The ghost `tables` mirrors the StateTable with each State's map,
  * and `Valid` ties the two; the events raised are kept in a ghost log.
  * An exception is a returned fault, and what was written before it stays.
  */
module StringStateMachine {
  import opened Common
  import opened Document
  import opened Named
  import opened NamedState

  class StringStateMachine {
    var initialState: Name
    var prevState: Name
    var currentState: Name
    var stateTable: map<string, State>
    var messages: set<string>
    var states: set<string>
    /** Each State's StateChanges, by the StateTable key it sits under. */
    ghost var tables: Tables
    /** The key each State was put under; no two keys share a State. */
    ghost var owner: map<State, string>
    /** Every StateChangedEvent and ResetEvent raised, oldest first. */
    ghost var events: seq<Event<Name>>

    /** `tables` is what the StateTable's States hold, and each State sits under one key only. */
    ghost predicate Valid()
      reads this, stateTable.Values
    {
      && stateTable.Keys == tables.Keys
      && (forall k :: k in stateTable ==> stateTable[k].stateChanges == tables[k])
      && (forall k :: k in stateTable ==> stateTable[k] in owner && owner[stateTable[k]] == k)
    }

    /** The machine's names and tables as one value. */
    ghost function Contents(): Content
      reads this
    {
      Content(states, messages, tables)
    }

    /** A new machine: no states, no messages, no tables and a null cursor. */
    constructor()
      ensures Valid() && Contents() == Fresh
      ensures initialState == None && prevState == None && currentState == None
      ensures events == []
    {
      initialState, prevState, currentState := None, None, None;
      stateTable := map[];
      messages, states := {}, {};
      tables := map[];
      owner := map[];
      events := [];
    }

    /**
      * The copy constructor: a copy of every State under its key, then the
      * other machine's states (each without a table getting an empty one)
      * and messages, then its initial state when that is one of the states.
      * Every State of the copy is new, so the copy shares nothing.
      */
    constructor Copy(other: StringStateMachine)
      requires other.Valid()
      ensures Valid()
      ensures Contents() == Content(other.states, other.messages,
                                    other.tables + map s | s in other.states && s !in other.tables :: map[])
      ensures forall k :: k in stateTable ==> fresh(stateTable[k])
      ensures if other.initialState.Some? && other.initialState.value in other.states
              then initialState == other.initialState && prevState == other.initialState && currentState == other.initialState
              else initialState == None && prevState == None && currentState == None
      ensures events == []
    {
      initialState, prevState, currentState := None, None, None;
      stateTable := map[];
      messages, states := {}, {};
      tables := map[];
      owner := map[];
      events := [];
      new;
      CopyTables(other);
      var stateNames := Elements(other.states);
      WithStatesOfSet(Contents(), stateNames, other.states);
      AddStates(stateNames);
      var messageNames := Elements(other.messages);
      WithMessagesOfSet(Contents(), messageNames, other.messages);
      AddMessages(messageNames);
      SetInitialState(other.initialState);
    }

    /** The copy constructor's loop: a new copy of each of `other`'s States under its key. */
    method CopyTables(other: StringStateMachine)
      requires Valid() && other.Valid() && other != this
      requires stateTable == map[] && states == {} && messages == {}
      modifies this
      ensures Valid()
      ensures tables == other.tables
      ensures forall k :: k in stateTable ==> fresh(stateTable[k])
      ensures states == {} && messages == {}
      ensures initialState == old(initialState) && prevState == old(prevState) && currentState == old(currentState)
      ensures events == old(events)
    {
      var keys := other.stateTable.Keys;
      while keys != {}
        invariant Valid()
        invariant keys <= other.stateTable.Keys
        invariant stateTable.Keys == other.stateTable.Keys - keys
        invariant forall k :: k in tables ==> tables[k] == other.tables[k]
        invariant forall k :: k in stateTable ==> fresh(stateTable[k])
        invariant states == {} && messages == {}
        invariant initialState == old(initialState) && prevState == old(prevState) && currentState == old(currentState)
        invariant events == old(events)
        decreases keys
      {
        var k :| k in keys;
        PutCopy(k, other.stateTable[k]);
        keys := keys - {k};
      }
      assert tables == other.tables;
    }

    /** One step of the copy constructor: a new copy of `from` goes under the new key `k`. */
    method PutCopy(k: string, from: State)
      requires Valid() && k !in stateTable
      modifies this
      ensures Valid()
      ensures stateTable.Keys == old(stateTable.Keys) + {k} && fresh(stateTable[k])
      ensures forall j :: j in old(stateTable) ==> stateTable[j] == old(stateTable)[j]
      ensures tables == old(tables)[k := from.stateChanges]
      ensures states == old(states) && messages == old(messages)
      ensures initialState == old(initialState) && prevState == old(prevState) && currentState == old(currentState) && events == old(events)
    {
      var copy := new State.Copy(from);
      stateTable := stateTable[k := copy];
      tables := tables[k := copy.stateChanges];
      owner := owner[copy := k];
    }

    /** SetInitialState: only a name in `States` moves all three cursor states to it. */
    method SetInitialState(name: Name)
      requires Valid()
      modifies this
      ensures Valid()
      ensures if name.Some? && name.value in states
              then initialState == name && prevState == name && currentState == name
              else initialState == old(initialState) && prevState == old(prevState) && currentState == old(currentState)
      ensures stateTable == old(stateTable) && Contents() == old(Contents()) && events == old(events)
    {
      if name.Some? && name.value in states {
        initialState := name;
        prevState := name;
        currentState := name;
      }
    }

    /**
      * AddStates: each name joins `States` if it is new, and gets an empty
      * State if it has none; an existing State is never replaced. C#
      * dictionary keys cannot be null, so the names are strings.
      */
    method AddStates(names: seq<string>)
      requires Valid()
      modifies this
      ensures Valid()
      ensures Contents() == WithStates(old(Contents()), names)
      ensures forall k :: k in old(stateTable) ==> k in stateTable && stateTable[k] == old(stateTable)[k]
      ensures forall k :: k in stateTable && k !in old(stateTable) ==> fresh(stateTable[k])
      ensures initialState == old(initialState) && prevState == old(prevState) && currentState == old(currentState)
      ensures events == old(events)
    {
      for i := 0 to |names|
        invariant Valid()
        invariant Contents() == WithStates(old(Contents()), names[..i])
        invariant forall k :: k in old(stateTable) ==> k in stateTable && stateTable[k] == old(stateTable)[k]
        invariant forall k :: k in stateTable && k !in old(stateTable) ==> fresh(stateTable[k])
        invariant initialState == old(initialState) && prevState == old(prevState) && currentState == old(currentState)
        invariant events == old(events)
      {
        WithStatesStep(old(Contents()), names, i);
        AddState(names[i]);
      }
      assert names[..|names|] == names;
    }

    /** One step of AddStates. */
    method AddState(name: string)
      requires Valid()
      modifies this
      ensures Valid()
      ensures Contents() == WithStates(old(Contents()), [name])
      ensures forall k :: k in old(stateTable) ==> k in stateTable && stateTable[k] == old(stateTable)[k]
      ensures forall k :: k in stateTable && k !in old(stateTable) ==> fresh(stateTable[k])
      ensures initialState == old(initialState) && prevState == old(prevState) && currentState == old(currentState)
      ensures events == old(events)
    {
      WithStatesOne(Contents(), name);
      states := states + {name};
      if name !in stateTable {
        NewTable(name);
      }
    }

    /** `StateTable.Add(name, new State())` for a name without a State. */
    method NewTable(name: string)
      requires Valid() && name !in stateTable
      modifies this
      ensures Valid()
      ensures name in stateTable && stateTable == old(stateTable)[name := stateTable[name]] && fresh(stateTable[name])
      ensures tables == old(tables)[name := map[]]
      ensures states == old(states) && messages == old(messages)
      ensures initialState == old(initialState) && prevState == old(prevState) && currentState == old(currentState)
      ensures events == old(events)
    {
      var added := new State();
      stateTable := stateTable[name := added];
      tables := tables[name := map[]];
      owner := owner[added := name];
    }

    /** AddMessages: each name joins `Messages` if it is new. */
    method AddMessages(names: seq<string>)
      requires Valid()
      modifies this
      ensures Valid()
      ensures Contents() == WithMessages(old(Contents()), names)
      ensures stateTable == old(stateTable)
      ensures initialState == old(initialState) && prevState == old(prevState) && currentState == old(currentState)
      ensures events == old(events)
    {
      for i := 0 to |names|
        invariant Valid()
        invariant messages == old(messages) + set n | n in names[..i]
        invariant stateTable == old(stateTable) && states == old(states) && tables == old(tables)
        invariant initialState == old(initialState) && prevState == old(prevState) && currentState == old(currentState)
        invariant events == old(events)
      {
        assert names[..i + 1] == names[..i] + [names[i]];
        messages := messages + {names[i]};
      }
      assert names[..|names|] == names;
    }

    /**
      * Set: throws on the first of an unknown state, a state without a
      * table, an unknown message and an unknown target, writing nothing;
      * otherwise maps the message to the target in the state's table,
      * replacing any earlier target.
      */
    method Set(state: Name, message: Name, nextState: Name) returns (fault: Option<Fault>)
      requires Valid()
      modifies stateTable.Values, this
      ensures Valid()
      ensures fault == SetCheck(old(Contents()), state, message, nextState)
      ensures Contents() == if fault.None? then Written(old(Contents()), state.value, message.value, nextState.value) else old(Contents())
      ensures stateTable == old(stateTable)
      ensures initialState == old(initialState) && prevState == old(prevState) && currentState == old(currentState)
      ensures events == old(events)
    {
      if !(state.Some? && state.value in states) {
        return Some(UnknownState);
      } else if state.value !in stateTable {
        return Some(NoTable);
      } else if !(message.Some? && message.value in messages) {
        return Some(UnknownMessage);
      } else if !(nextState.Some? && nextState.value in states) {
        return Some(UnknownTarget);
      }
      var target := stateTable[state.value];
      target.Write(message.value, nextState.value);
      tables := tables[state.value := target.stateChanges];
      return None;
    }

    /**
      * AddStateMachine(model): the model's messages, then its states, then
      * each of its tables into the State it names; a table naming no State
      * throws, and so does a transition with an unknown message or target.
      * Nothing written before the exception is undone.
      */
    method AddStateMachine(doc: Doc) returns (fault: Option<Fault>)
      requires Valid() && AllSome(doc.stateNames) && AllSome(doc.messageNames)
      modifies this, stateTable.Values
      ensures Valid()
      ensures Outcome(fault, Contents()) == Composed(old(Contents()), doc)
      ensures initialState == old(initialState) && prevState == old(prevState) && currentState == old(currentState)
      ensures events == old(events)
    {
      AddMessages(Strings(doc.messageNames));
      AddStates(Strings(doc.stateNames));
      fault := AddTables(doc.tables);
    }

    /** The loop of AddStateMachine over the model's tables. */
    method AddTables(tables': seq<TableDoc>) returns (fault: Option<Fault>)
      requires Valid()
      modifies this, stateTable.Values
      ensures Valid()
      ensures Outcome(fault, Contents()) == ComposedTables(old(Contents()), tables')
      ensures stateTable == old(stateTable)
      ensures initialState == old(initialState) && prevState == old(prevState) && currentState == old(currentState)
      ensures events == old(events)
    {
      var i := 0;
      while i < |tables'|
        invariant 0 <= i <= |tables'|
        invariant Valid() && stateTable == old(stateTable)
        invariant ComposedTables(old(Contents()), tables') == ComposedTables(Contents(), tables'[i..])
        invariant initialState == old(initialState) && prevState == old(prevState) && currentState == old(currentState)
        invariant events == old(events)
      {
        ComposedTablesStep(Contents(), tables'[i..]);
        assert tables'[i..][..1] == [tables'[i]];
        assert tables'[i..][1..] == tables'[i + 1..];
        var f := AddTableTo(tables'[i]);
        if f.Some? {
          return f;
        }
        i := i + 1;
      }
      return None;
    }

    /** One step of AddStateMachine's loop: one table into the State it names. */
    method AddTableTo(table: TableDoc) returns (fault: Option<Fault>)
      requires Valid()
      modifies this, stateTable.Values
      ensures Valid()
      ensures Outcome(fault, Contents()) == ComposedTables(old(Contents()), [table])
      ensures stateTable == old(stateTable)
      ensures initialState == old(initialState) && prevState == old(prevState) && currentState == old(currentState)
      ensures events == old(events)
    {
      if !(table.name.Some? && table.name.value in stateTable) {
        return Some(NoTable);
      }
      var target := stateTable[table.name.value];
      fault := target.AddTable(table.transitions, states, messages, table.name.value);
      tables := tables[table.name.value := target.stateChanges];
    }

    /**
      * RemoveStateMachine(model): the model's messages leave `Messages`, its
      * states leave `States` and the StateTable, and every remaining table
      * loses the entries keyed by a removed message or targeting a removed
      * state. If the current state was removed, the machine is forced back
      * to its initial state. ForceState(null) with a non-null current state
      * throws in C#, so that case is excluded.
      */
    method RemoveStateMachine(doc: Doc)
      requires Valid() && AllSome(doc.stateNames) && AllSome(doc.messageNames)
      requires currentState in doc.stateNames ==> initialState.Some?
      modifies this, stateTable.Values
      ensures Valid()
      ensures Contents() == Decomposed(old(Contents()), doc)
      ensures initialState == old(initialState)
      ensures var forced := old(currentState) in doc.stateNames && initialState != old(currentState)
                            && initialState.value in tables;
        && currentState == (if forced then initialState else old(currentState))
        && prevState == (if forced then old(currentState) else old(prevState))
        && events == old(events) + if forced then [StateChanged(old(currentState), initialState)] else []
    {
      var ms := Strings(doc.messageNames);
      var ss := Strings(doc.stateNames);
      RemoveMessages(ms);
      RemoveStates(ss);
      DropTables(ss);
      ScrubTables(ms, ss);
      DroppedThenScrubbed(old(tables), ms, ss);
      if currentState in doc.stateNames {
        ForceState(initialState);
      }
    }

    /** The first loop of RemoveStateMachine: the model's messages leave `Messages`. */
    method RemoveMessages(names: seq<string>)
      requires Valid()
      modifies this
      ensures Valid()
      ensures messages == old(messages) - set m | m in names
      ensures stateTable == old(stateTable) && tables == old(tables) && states == old(states)
      ensures initialState == old(initialState) && prevState == old(prevState) && currentState == old(currentState)
      ensures events == old(events)
    {
      for i := 0 to |names|
        invariant owner == old(owner)
        invariant messages == old(messages) - set m | m in names[..i]
        invariant stateTable == old(stateTable) && tables == old(tables) && states == old(states)
        invariant initialState == old(initialState) && prevState == old(prevState) && currentState == old(currentState)
        invariant events == old(events)
      {
        assert names[..i + 1] == names[..i] + [names[i]];
        messages := messages - {names[i]};
      }
      assert names[..|names|] == names;
    }

    /** The second loop of RemoveStateMachine: the model's states leave `States`. */
    method RemoveStates(names: seq<string>)
      requires Valid()
      modifies this
      ensures Valid()
      ensures states == old(states) - set s | s in names
      ensures stateTable == old(stateTable) && tables == old(tables) && messages == old(messages)
      ensures initialState == old(initialState) && prevState == old(prevState) && currentState == old(currentState)
      ensures events == old(events)
    {
      for i := 0 to |names|
        invariant owner == old(owner)
        invariant states == old(states) - set s | s in names[..i]
        invariant stateTable == old(stateTable) && tables == old(tables) && messages == old(messages)
        invariant initialState == old(initialState) && prevState == old(prevState) && currentState == old(currentState)
        invariant events == old(events)
      {
        assert names[..i + 1] == names[..i] + [names[i]];
        states := states - {names[i]};
      }
      assert names[..|names|] == names;
    }

    /** The third loop of RemoveStateMachine: the removed states leave the StateTable. */
    method DropTables(names: seq<string>)
      requires Valid()
      modifies this
      ensures Valid()
      ensures stateTable == old(stateTable) - (set s | s in names)
      ensures tables == old(tables) - (set s | s in names)
      ensures states == old(states) && messages == old(messages)
      ensures initialState == old(initialState) && prevState == old(prevState) && currentState == old(currentState)
      ensures events == old(events)
    {
      for i := 0 to |names|
        invariant Valid()
        invariant stateTable == old(stateTable) - (set s | s in names[..i])
        invariant tables == old(tables) - (set s | s in names[..i])
        invariant states == old(states) && messages == old(messages)
        invariant initialState == old(initialState) && prevState == old(prevState) && currentState == old(currentState)
        invariant events == old(events)
      {
        RemoveOneMore(stateTable, names[..i], names[i]);
        RemoveOneMore(tables, names[..i], names[i]);
        TakeOneMore(names, i + 1);
        DropOne(names[i]);
      }
      assert names[..|names|] == names;
    }

    /** `StateTable.Remove(name)`. */
    method DropOne(name: string)
      requires Valid()
      modifies this
      ensures Valid()
      ensures stateTable == old(stateTable) - {name} && tables == old(tables) - {name}
      ensures states == old(states) && messages == old(messages)
      ensures initialState == old(initialState) && prevState == old(prevState) && currentState == old(currentState)
      ensures events == old(events)
    {
      stateTable := stateTable - {name};
      tables := tables - {name};
    }

    /** The fourth loop of RemoveStateMachine: each remaining State is scrubbed. */
    method ScrubTables(ms: seq<string>, ss: seq<string>)
      requires Valid()
      modifies this, stateTable.Values
      ensures Valid()
      ensures stateTable == old(stateTable)
      ensures tables == map k | k in old(tables) :: Scrubbed(old(tables)[k], ms, ss)
      ensures states == old(states) && messages == old(messages)
      ensures initialState == old(initialState) && prevState == old(prevState) && currentState == old(currentState)
      ensures events == old(events)
    {
      var keys := stateTable.Keys;
      while keys != {}
        invariant Valid() && stateTable == old(stateTable)
        invariant keys <= stateTable.Keys
        invariant tables.Keys == old(tables).Keys
        invariant forall k :: k in tables ==> tables[k] == if k in keys then old(tables)[k] else Scrubbed(old(tables)[k], ms, ss)
        invariant states == old(states) && messages == old(messages)
        invariant initialState == old(initialState) && prevState == old(prevState) && currentState == old(currentState)
        invariant events == old(events)
        decreases keys
      {
        var k :| k in keys;
        ScrubOne(k, ms, ss);
        keys := keys - {k};
      }
    }

    /** One step of the fourth loop: the State under `k` is scrubbed. */
    method ScrubOne(k: string, ms: seq<string>, ss: seq<string>)
      requires Valid() && k in stateTable
      modifies this, stateTable[k]
      ensures Valid()
      ensures stateTable == old(stateTable)
      ensures tables == old(tables)[k := Scrubbed(old(tables)[k], ms, ss)]
      ensures states == old(states) && messages == old(messages)
      ensures initialState == old(initialState) && prevState == old(prevState) && currentState == old(currentState)
      ensures events == old(events)
    {
      var target := stateTable[k];
      target.RemoveModel(ms, ss);
      tables := tables[k := target.stateChanges];
    }

    /** ResetToInitialState: both cursor states go to the initial one; only the reset event fires. */
    method ResetToInitialState()
      requires Valid()
      modifies this
      ensures Valid()
      ensures prevState == initialState && currentState == initialState
      ensures events == old(events) + [Reset(initialState, initialState)]
      ensures initialState == old(initialState)
      ensures stateTable == old(stateTable) && Contents() == old(Contents())
    {
      prevState := initialState;
      currentState := initialState;
      events := events + [Reset(prevState, currentState)];
    }

    /**
      * SendStateMessage: moves, records the previous state and raises one
      * event exactly when the current state's table maps the message to a
      * different state. Looking up a null current state throws in C#, so
      * the cursor must have been set.
      */
    method SendStateMessage(message: string) returns (changed: bool)
      requires Valid() && currentState.Some?
      modifies this
      ensures Valid()
      ensures var cur := old(currentState).value;
        changed <==> cur in tables && message in tables[cur] && Some(tables[cur][message]) != old(currentState)
      ensures currentState == if changed then Some(tables[old(currentState).value][message]) else old(currentState)
      ensures prevState == if changed then old(currentState) else old(prevState)
      ensures events == old(events) + if changed then [StateChanged(old(currentState), currentState)] else []
      ensures initialState == old(initialState)
      ensures stateTable == old(stateTable) && Contents() == old(Contents())
    {
      if currentState.value in stateTable {
        var state := stateTable[currentState.value];
        if message in state.stateChanges {
          var nextState := Some(state.stateChanges[message]);
          if nextState != currentState {
            prevState := currentState;
            currentState := nextState;
            events := events + [StateChanged(prevState, currentState)];
            return true;
          }
        }
      }
      return false;
    }

    /**
      * ForceState: moves, records the previous state and raises one event
      * only for a name other than the current one that has a table. A null
      * name with a non-null current state throws in C#.
      */
    method ForceState(state: Name)
      requires Valid()
      requires state.None? ==> currentState.None?
      modifies this
      ensures Valid()
      ensures var moved := state != old(currentState) && state.value in tables;
        && currentState == (if moved then state else old(currentState))
        && prevState == (if moved then old(currentState) else old(prevState))
        && events == old(events) + if moved then [StateChanged(old(currentState), state)] else []
      ensures initialState == old(initialState)
      ensures stateTable == old(stateTable) && Contents() == old(Contents())
    {
      if state != currentState && state.value in stateTable {
        prevState := currentState;
        currentState := state;
        events := events + [StateChanged(prevState, currentState)];
      }
    }

    /**
      * LoadStateMachine(model): the model's states and messages, its initial
      * state, then `Set` for every transition of every table in order,
      * stopping at the first exception.
      */
    method LoadStateMachine(doc: Doc) returns (fault: Option<Fault>)
      requires Valid() && AllSome(doc.stateNames) && AllSome(doc.messageNames)
      modifies this, stateTable.Values
      ensures Valid()
      ensures var c := WithMessages(WithStates(old(Contents()), Strings(doc.stateNames)), Strings(doc.messageNames));
        && Outcome(fault, Contents()) == Loaded(c, doc.tables)
        && (if doc.initial.Some? && doc.initial.value in c.states
            then initialState == doc.initial && prevState == doc.initial && currentState == doc.initial
            else initialState == old(initialState) && prevState == old(prevState) && currentState == old(currentState))
      ensures events == old(events)
    {
      AddStates(Strings(doc.stateNames));
      AddMessages(Strings(doc.messageNames));
      SetInitialState(doc.initial);
      fault := SetTables(doc.tables);
    }

    /** The outer loop of LoadStateMachine. */
    method SetTables(tables': seq<TableDoc>) returns (fault: Option<Fault>)
      requires Valid()
      modifies this, stateTable.Values
      ensures Valid()
      ensures Outcome(fault, Contents()) == Loaded(old(Contents()), tables')
      ensures initialState == old(initialState) && prevState == old(prevState) && currentState == old(currentState)
      ensures events == old(events)
    {
      var i := 0;
      while i < |tables'|
        invariant 0 <= i <= |tables'|
        invariant Valid() && stateTable == old(stateTable)
        invariant Loaded(old(Contents()), tables') == Loaded(Contents(), tables'[i..])
        invariant initialState == old(initialState) && prevState == old(prevState) && currentState == old(currentState)
        invariant events == old(events)
      {
        assert tables'[i..][1..] == tables'[i + 1..];
        var f := SetRow(tables'[i].name, tables'[i].transitions);
        if f.Some? {
          return f;
        }
        i := i + 1;
      }
      return None;
    }

    /** The inner loop of LoadStateMachine: one table's transitions. */
    method SetRow(name: Name, transitions: seq<Change>) returns (fault: Option<Fault>)
      requires Valid()
      modifies this, stateTable.Values
      ensures Valid()
      ensures Outcome(fault, Contents()) == LoadedRow(old(Contents()), name, transitions)
      ensures stateTable == old(stateTable)
      ensures initialState == old(initialState) && prevState == old(prevState) && currentState == old(currentState)
      ensures events == old(events)
    {
      var j := 0;
      while j < |transitions|
        invariant 0 <= j <= |transitions|
        invariant Valid() && stateTable == old(stateTable)
        invariant LoadedRow(old(Contents()), name, transitions) == LoadedRow(Contents(), name, transitions[j..])
        invariant initialState == old(initialState) && prevState == old(prevState) && currentState == old(currentState)
        invariant events == old(events)
      {
        assert transitions[j..][1..] == transitions[j + 1..];
        var f := Set(name, transitions[j].message, transitions[j].target);
        if f.Some? {
          return f;
        }
        j := j + 1;
      }
      return None;
    }
  }
}
