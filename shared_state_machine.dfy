/**
  * StateMachine of the shared project: the index-based engine with a
  * message offset. Message numbers seen by callers are column numbers plus
  * `messageOffset`; the lookups add it and the table accessors subtract it.
  */
module SharedStateMachine {
  import opened Common
  import opened Document
  import opened Table

  class StateMachine {
    var initialState: int
    var messageOffset: int
    var currentState: int
    var prevState: int
    var stateNames: array?<Name>
    var messageNames: array?<Name>
    var data: array2?<int>
    /** The transitions `data` holds, as rows of target states; empty while it is `null`. */
    ghost var grid: Grid
    /** Every StateChangedEvent and ResetEvent raised, oldest first. */
    ghost var events: seq<Event<int>>

    /**
      * The three arrays are allocated together and agree on the dimensions,
      * and `grid` is what the table holds.
      */
    ghost predicate Valid()
      reads this, data
    {
      && (stateNames == null <==> data == null)
      && (messageNames == null <==> data == null)
      && (data == null ==> grid == [])
      && (data != null ==>
            && data.Length0 == stateNames.Length && data.Length1 == messageNames.Length && stateNames != messageNames
            && Holds(data, grid))
    }

    function NumStates(): nat
      reads this
    {
      if stateNames == null then 0 else stateNames.Length
    }

    function NumMessages(): nat
      reads this
    {
      if messageNames == null then 0 else messageNames.Length
    }

    ghost function States(): seq<Name>
      reads this, stateNames
    {
      NamesOf(stateNames)
    }

    ghost function Messages(): seq<Name>
      reads this, messageNames
    {
      NamesOf(messageNames)
    }

    /** Every cell names one of the states. */
    ghost predicate Closed()
      reads this
    {
      InRange(grid, |grid|)
    }

    constructor()
      ensures Valid()
      ensures initialState == 0 && prevState == 0 && currentState == 0 && messageOffset == 0
      ensures stateNames == null && messageNames == null && data == null
      ensures events == []
    {
      initialState := 0;
      prevState := 0;
      currentState := 0;
      messageOffset := 0;
      stateNames := null;
      messageNames := null;
      data := null;
      grid := [];
      events := [];
    }

    /** The InitialState setter: a value outside the states is stored as 0. */
    method SetInitialState(value: int)
      modifies this
      ensures initialState == Clamp(value, NumStates())
      ensures messageOffset == old(messageOffset)
      ensures currentState == old(currentState) && prevState == old(prevState)
      ensures stateNames == old(stateNames) && messageNames == old(messageNames) && data == old(data)
      ensures grid == old(grid) && events == old(events)
    {
      if 0 <= value < NumStates() {
        initialState := value;
      } else {
        initialState := 0;
      }
    }

    /** Set: fresh self-loop table, unset names, the offset recorded, the cursor at `init`. */
    method Set(n: nat, m: nat, init: int, offset: int)
      modifies this
      ensures Valid() && fresh(data) && fresh(stateNames) && fresh(messageNames)
      ensures NumStates() == n && NumMessages() == m
      ensures grid == SelfLoops(n, m) && Closed()
      ensures States() == Blank(n) && Messages() == Blank(m)
      ensures messageOffset == offset
      ensures initialState == init && currentState == init && prevState == init
      ensures events == old(events)
    {
      var d := NewSelfLoops(n, m);
      var sn := NewBlankNames(n);
      var mn := NewBlankNames(m);
      Install(d, SelfLoops(n, m), sn, mn);
      initialState, messageOffset, prevState, currentState := init, offset, init, init;
    }

    /** Points the machine at newly built arrays. */
    method Install(d: array2<int>, ghost g: Grid, sn: array<Name>, mn: array<Name>)
      requires Holds(d, g) && d.Length0 == sn.Length && d.Length1 == mn.Length && sn != mn
      modifies this
      ensures Valid() && data == d && grid == g && stateNames == sn && messageNames == mn
      ensures initialState == old(initialState) && currentState == old(currentState) && prevState == old(prevState)
      ensures messageOffset == old(messageOffset) && events == old(events)
    {
      data, grid, stateNames, messageNames := d, g, sn, mn;
    }

    /** SetEntry: `message` is offset-adjusted to its column; only that cell changes. */
    method SetEntry(state: int, message: int, nextState: int)
      requires Valid() && data != null
      requires 0 <= state < NumStates() && 0 <= nextState < NumStates()
      requires 0 <= message - messageOffset < NumMessages()
      modifies this, data
      ensures Valid() && stateNames == old(stateNames) && messageNames == old(messageNames) && data == old(data)
      ensures messageOffset == old(messageOffset) && events == old(events)
      ensures grid == WithEntry(old(grid), state, message - messageOffset, nextState)
      ensures old(Closed()) ==> Closed()
      ensures initialState == old(initialState) && currentState == old(currentState) && prevState == old(prevState)
    {
      var adjusted := message - messageOffset;
      data[state, adjusted] := nextState;
      grid := WithEntry(grid, state, adjusted, nextState);
    }

    /** SetEntry by names, through the offset-aware lookups. */
    method SetEntryByName(state: int, messageName: Name, nextStateName: Name)
      requires Valid() && data != null && 0 <= state < NumStates()
      requires messageName in Messages() && nextStateName in States()
      modifies this, data
      ensures Valid() && stateNames == old(stateNames) && messageNames == old(messageNames) && data == old(data)
      ensures grid == WithEntry(old(grid), state, IndexOf(Messages(), messageName), IndexOf(States(), nextStateName))
      ensures messageOffset == old(messageOffset) && events == old(events)
      ensures initialState == old(initialState) && currentState == old(currentState) && prevState == old(prevState)
    {
      var message := GetMessageFromName(messageName);
      var nextState := GetStateFromName(nextStateName);
      SetEntry(state, message, nextState);
    }

    /** SetStateName: only slot `state` changes. */
    method SetStateName(state: int, name: Name)
      requires stateNames != null && 0 <= state < NumStates()
      modifies stateNames
      ensures States() == old(States())[state := name]
    {
      stateNames[state] := name;
    }

    /** SetMessageName: the offset-adjusted slot is the only one that changes. */
    method SetMessageName(message: int, name: Name)
      requires messageNames != null && 0 <= message - messageOffset < NumMessages()
      modifies messageNames
      ensures Messages() == old(Messages())[message - messageOffset := name]
    {
      messageNames[message - messageOffset] := name;
    }

    /** Resize: nothing unless both sizes are positive; otherwise the overlap rule. */
    method Resize(n: int, m: int)
      requires Valid()
      modifies this
      ensures Valid()
      ensures n <= 0 || m <= 0 ==>
        stateNames == old(stateNames) && messageNames == old(messageNames) && data == old(data) && grid == old(grid)
      ensures 0 < n && 0 < m ==>
        && fresh(data) && fresh(stateNames) && fresh(messageNames)
        && grid == Resized(old(grid), n, m)
        && States() == ResizedNames(old(States()), n)
        && Messages() == ResizedNames(old(Messages()), m)
      ensures old(Closed()) ==> Closed()
      ensures initialState == old(initialState) && currentState == old(currentState) && prevState == old(prevState)
      ensures messageOffset == old(messageOffset) && events == old(events)
    {
      if n <= 0 || m <= 0 {
        return;
      }
      var d := ResizedCopy(data, grid, n, m);
      var sn := ResizedNamesCopy(stateNames, n);
      var mn := ResizedNamesCopy(messageNames, m);
      stateNames := sn;
      messageNames := mn;
      data := d;
      grid := Resized(grid, n, m);
    }

    /** RemoveState AS WRITTEN (see `RemovedStateAsWritten`). */
    method RemoveState(state: int)
      requires Valid() && data != null && 0 <= state < NumStates()
      modifies this
      ensures Valid() && data != null
      ensures old(NumStates()) == 1 ==>
        data == old(data) && grid == old(grid) && stateNames == old(stateNames) && initialState == old(initialState)
      ensures old(NumStates()) > 1 ==>
        && NumStates() == old(NumStates()) - 1
        && grid == RemovedStateAsWritten(old(grid), old(NumMessages()), state)
        && States() == RemovedStateNamesAsWritten(old(States()), state)
        && initialState == RemovedInitial(old(initialState), old(NumStates()), state)
      ensures messageNames == old(messageNames) && messageOffset == old(messageOffset)
      ensures currentState == old(currentState) && prevState == old(prevState) && events == old(events)
    {
      if NumStates() == 1 {
        return;
      }
      var d, sn := RemovedStateCopy(data, grid, stateNames, state);
      data := d;
      stateNames := sn;
      grid := RemovedStateAsWritten(grid, NumMessages(), state);
      if initialState >= NumStates() || initialState == state {
        initialState := 0;
      }
    }

    /** RemoveMessage: `message` is a column index here, not offset-adjusted. */
    method RemoveMessage(message: int)
      requires Valid() && data != null && 0 <= message < NumMessages()
      modifies this
      ensures Valid() && data != null
      ensures old(NumMessages()) == 1 ==> data == old(data) && grid == old(grid) && messageNames == old(messageNames)
      ensures old(NumMessages()) > 1 ==>
        && NumMessages() == old(NumMessages()) - 1
        && grid == RemovedMessage(old(grid), old(NumMessages()), message)
        && Messages() == RemovedMessageNames(old(Messages()), message, old(NumStates()))
      ensures old(Closed()) ==> Closed()
      ensures stateNames == old(stateNames) && initialState == old(initialState) && messageOffset == old(messageOffset)
      ensures currentState == old(currentState) && prevState == old(prevState) && events == old(events)
    {
      if NumMessages() == 1 {
        return;
      }
      var d, mn := RemovedMessageCopy(data, grid, messageNames, message);
      data := d;
      messageNames := mn;
      grid := RemovedMessage(grid, old(NumMessages()), message);
    }

    /**
      * SendStateMessage (returns nothing in this revision): the cursor
      * follows the offset-adjusted column; a change records the previous
      * state and raises one event.
      */
    method SendStateMessage(message: int)
      requires Valid() && data != null
      requires 0 <= message - messageOffset < NumMessages() && 0 <= currentState < NumStates()
      modifies this
      ensures currentState == old(grid[currentState][message - messageOffset])
      ensures prevState == if currentState != old(currentState) then old(currentState) else old(prevState)
      ensures events == old(events) + if currentState != old(currentState) then [StateChanged(old(currentState), currentState)] else []
      ensures initialState == old(initialState) && messageOffset == old(messageOffset)
      ensures data == old(data) && grid == old(grid) && stateNames == old(stateNames) && messageNames == old(messageNames)
    {
      var adjusted := message - messageOffset;
      var current := currentState;
      currentState := data[currentState, adjusted];
      if current != currentState {
        prevState := current;
        events := events + [StateChanged(prevState, currentState)];
      }
    }

    /** ForceState: moving to another state records the previous one and raises one event. */
    method ForceState(state: int)
      requires 0 <= state < NumStates()
      modifies this
      ensures currentState == state
      ensures prevState == if state != old(currentState) then old(currentState) else old(prevState)
      ensures events == old(events) + if state != old(currentState) then [StateChanged(old(currentState), state)] else []
      ensures initialState == old(initialState) && messageOffset == old(messageOffset)
      ensures data == old(data) && grid == old(grid) && stateNames == old(stateNames) && messageNames == old(messageNames)
    {
      var current := currentState;
      currentState := state;
      if current != currentState {
        prevState := current;
        events := events + [StateChanged(prevState, currentState)];
      }
    }

    /** ResetToInitialState: both cursor states go to the initial one; only the reset event fires. */
    method ResetToInitialState()
      modifies this
      ensures prevState == initialState && currentState == initialState
      ensures events == old(events) + [Reset(initialState, initialState)]
      ensures initialState == old(initialState) && messageOffset == old(messageOffset)
      ensures data == old(data) && grid == old(grid) && stateNames == old(stateNames) && messageNames == old(messageNames)
    {
      prevState := initialState;
      currentState := initialState;
      events := events + [Reset(prevState, currentState)];
    }

    /** GetStateFromName: the first index holding the name, or -1. */
    method GetStateFromName(name: Name) returns (r: int)
      requires stateNames != null
      ensures -1 <= r < NumStates()
      ensures r == -1 <==> name !in States()
      ensures 0 <= r ==> States()[r] == name && name !in States()[..r]
    {
      r := Find(stateNames, name);
    }

    /**
      * GetMessageFromName: the first index holding the name plus the offset,
      * or -1 when the name is absent (a found index that the offset turns
      * into -1 is indistinguishable from absence).
      */
    method GetMessageFromName(name: Name) returns (r: int)
      requires messageNames != null
      ensures r == Lookup(Messages(), name, messageOffset)
      ensures name !in Messages() ==> r == -1
      ensures name in Messages() ==> r - messageOffset == IndexOf(Messages(), name) && Messages()[r - messageOffset] == name
    {
      var i := Find(messageNames, name);
      r := if i == -1 then -1 else i + messageOffset;
    }

    /** GetEntry: the target of `state` under the offset-adjusted message. */
    method GetEntry(state: int, message: int) returns (r: int)
      requires Valid() && data != null
      requires 0 <= state < NumStates() && 0 <= message - messageOffset < NumMessages()
      ensures r == grid[state][message - messageOffset]
      ensures Closed() ==> 0 <= r < NumStates()
    {
      r := data[state, message - messageOffset];
    }

    /** GetStateName: the name in slot `state`. */
    method GetStateName(state: int) returns (r: Name)
      requires stateNames != null && 0 <= state < NumStates()
      ensures r == States()[state]
    {
      r := stateNames[state];
    }

    /** GetMessageName: the name in the offset-adjusted slot. */
    method GetMessageName(message: int) returns (r: Name)
      requires messageNames != null && 0 <= message - messageOffset < NumMessages()
      ensures r == Messages()[message - messageOffset]
      ensures messageOffset == 0 ==> r == Messages()[message]
    {
      r := messageNames[message - messageOffset];
    }

    /** Compare: the same initial state, names and table (the offset is not compared). */
    method Compare(other: StateMachine) returns (r: bool)
      requires Valid() && other.Valid()
      ensures r <==>
        && initialState == other.initialState
        && States() == other.States() && Messages() == other.Messages()
        && grid == other.grid
    {
      if initialState != other.initialState || NumStates() != other.NumStates() || NumMessages() != other.NumMessages() {
        return false;
      }
      if NumStates() > 0 {
        r := SameNames(stateNames, other.stateNames);
        if !r {
          return;
        }
      }
      if NumMessages() > 0 {
        r := SameNames(messageNames, other.messageNames);
        if !r {
          return;
        }
      }
      if NumStates() > 0 && NumMessages() > 0 {
        r := SameTable(data, other.data, grid, other.grid);
        return;
      }
      SameCells(grid, other.grid, NumStates(), NumMessages());
      return true;
    }

    /**
      * The body of LoadXml once the document is read: `Set` with offset 0
      * and the cursor at 0, the names copied, the initial state looked up
      * through the clamping setter, and every table loaded. The C# indexes
      * past the table when a name does not resolve; the precondition
      * excludes that.
      */
    method LoadDocument(doc: Doc)
      requires Fits(Writes(doc.stateNames, doc.messageNames, doc.tables, 0), |doc.stateNames|, |doc.messageNames|)
      modifies this
      ensures Valid() && fresh(data) && fresh(stateNames) && fresh(messageNames)
      ensures States() == doc.stateNames && Messages() == doc.messageNames
      ensures messageOffset == 0
      ensures initialState == Clamp(IndexOf(doc.stateNames, doc.initial), |doc.stateNames|)
      ensures currentState == 0 && prevState == 0
      ensures grid == ApplyWrites(SelfLoops(|doc.stateNames|, |doc.messageNames|), |doc.messageNames|,
                                    Writes(doc.stateNames, doc.messageNames, doc.tables, 0))
      ensures events == old(events)
    {
      Set(|doc.stateNames|, |doc.messageNames|, 0, 0);
      CopyNames(stateNames, doc.stateNames);
      CopyNames(messageNames, doc.messageNames);
      var initial := GetStateFromName(doc.initial);
      SetInitialState(initial);
      LoadTables(data, grid, stateNames, messageNames, doc.tables, 0);
      grid := ApplyWrites(grid, |doc.messageNames|, Writes(doc.stateNames, doc.messageNames, doc.tables, 0));
    }

    /**
      * ReadNames: the names the offset-aware lookups report absent are
      * counted, the machine grows by those counts, and they are written to
      * the new slots in list order. The C# asserts allocated name arrays
      * before looking up, and would write past a table that `Resize`
      * refused to grow; the preconditions exclude both.
      */
    method ReadNames(stateList: seq<Name>, messageList: seq<Name>)
      requires Valid()
      requires |stateList| > 0 ==> stateNames != null
      requires |messageList| > 0 ==> messageNames != null
      requires CountAbsent(States(), stateList, 0) > 0 || CountAbsent(Messages(), messageList, messageOffset) > 0 ==>
        NumStates() + CountAbsent(States(), stateList, 0) > 0 &&
        NumMessages() + CountAbsent(Messages(), messageList, messageOffset) > 0
      modifies this
      ensures Valid() && (data == old(data) || fresh(data))
      ensures States() == Appended(old(States()), stateList, 0)
      ensures Messages() == Appended(old(Messages()), messageList, messageOffset)
      ensures grid == if NumStates() > old(NumStates()) || NumMessages() > old(NumMessages())
        then Resized(old(grid), NumStates(), NumMessages()) else old(grid)
      ensures old(Closed()) ==> Closed()
      ensures initialState == old(initialState) && currentState == old(currentState) && prevState == old(prevState)
      ensures messageOffset == old(messageOffset) && events == old(events)
    {
      ghost var oldStates, oldMessages := States(), Messages();
      var oldN, oldM := NumStates(), NumMessages();
      var ns := CountNew(stateNames, stateList, 0);
      var nm := CountNew(messageNames, messageList, messageOffset);
      Grow(ns, nm);
      if ns > 0 || nm > 0 {
        FillNew(oldStates, oldMessages, oldN, oldM, stateList, messageList, ns, nm);
      }
    }

    /** `ReadNames`'s filling passes, each run only when its count is positive. */
    method FillNew(ghost oldStates: seq<Name>, ghost oldMessages: seq<Name>, oldN: nat, oldM: nat,
                   stateList: seq<Name>, messageList: seq<Name>, ns: nat, nm: nat)
      requires Valid() && oldN == |oldStates| && oldM == |oldMessages|
      requires ns == CountAbsent(oldStates, stateList, 0) && nm == CountAbsent(oldMessages, messageList, messageOffset)
      requires States() == oldStates + Blank(ns) && Messages() == oldMessages + Blank(nm)
      requires stateNames != null && messageNames != null
      modifies stateNames, messageNames
      ensures States() == Appended(oldStates, stateList, 0)
      ensures Messages() == Appended(oldMessages, messageList, messageOffset)
    {
      if ns > 0 {
        assert (oldStates + Blank(ns))[..|oldStates|] == oldStates;
        FillNames(stateNames, oldStates, oldN, stateList, 0);
      }
      if nm > 0 {
        assert (oldMessages + Blank(nm))[..|oldMessages|] == oldMessages;
        FillNames(messageNames, oldMessages, oldM, messageList, messageOffset);
      }
    }

    /** `ReadNames`'s resize step: only when something is new, by the counts of new names. */
    method Grow(ns: nat, nm: nat)
      requires Valid()
      requires ns > 0 || nm > 0 ==> NumStates() + ns > 0 && NumMessages() + nm > 0
      modifies this
      ensures Valid()
      ensures ns > 0 || nm > 0 ==> fresh(data) && fresh(stateNames) && fresh(messageNames)
      ensures ns == 0 && nm == 0 ==> data == old(data) && stateNames == old(stateNames) && messageNames == old(messageNames)
      ensures States() == old(States()) + Blank(ns) && Messages() == old(Messages()) + Blank(nm)
      ensures NumStates() == old(NumStates()) + ns && NumMessages() == old(NumMessages()) + nm
      ensures grid == if NumStates() > old(NumStates()) || NumMessages() > old(NumMessages())
        then Resized(old(grid), NumStates(), NumMessages()) else old(grid)
      ensures old(Closed()) ==> Closed()
      ensures initialState == old(initialState) && currentState == old(currentState) && prevState == old(prevState)
      ensures messageOffset == old(messageOffset) && events == old(events)
    {
      if ns > 0 || nm > 0 {
        Resize(NumStates() + ns, NumMessages() + nm);
      }
    }

    /**
      * The body of AppendXml once the document is read: the names merged by
      * `ReadNames`, then every table loaded with the current offset. The
      * initial state is left alone.
      */
    method AppendDocument(doc: Doc)
      requires Valid()
      requires |doc.stateNames| > 0 ==> stateNames != null
      requires |doc.messageNames| > 0 ==> messageNames != null
      requires var ns := CountAbsent(States(), doc.stateNames, 0);
        var nm := CountAbsent(Messages(), doc.messageNames, messageOffset);
        && (ns > 0 || nm > 0 ==> NumStates() + ns > 0 && NumMessages() + nm > 0)
        && (|doc.tables| > 0 ==> data != null || ns > 0 || nm > 0)
        && var sn, mn := Appended(States(), doc.stateNames, 0), Appended(Messages(), doc.messageNames, messageOffset);
        Fits(Writes(sn, mn, doc.tables, messageOffset), |sn|, |mn|)
      modifies this, data
      ensures Valid() && (data == old(data) || fresh(data))
      ensures States() == Appended(old(States()), doc.stateNames, 0)
      ensures Messages() == Appended(old(Messages()), doc.messageNames, messageOffset)
      ensures var grown := if NumStates() > old(NumStates()) || NumMessages() > old(NumMessages())
          then Resized(old(grid), NumStates(), NumMessages()) else old(grid);
        grid == ApplyWrites(grown, NumMessages(), Writes(States(), Messages(), doc.tables, messageOffset))
      ensures initialState == old(initialState) && currentState == old(currentState) && prevState == old(prevState)
      ensures messageOffset == old(messageOffset) && events == old(events)
    {
      ReadNames(doc.stateNames, doc.messageNames);
      LoadNamedTables(doc.tables);
    }

    /** LoadStateTables over the names the machine holds now. */
    method LoadNamedTables(tables: seq<TableDoc>)
      requires Valid()
      requires |tables| > 0 ==> data != null
      requires Fits(Writes(States(), Messages(), tables, messageOffset), NumStates(), NumMessages())
      modifies this, data
      ensures Valid() && data == old(data) && stateNames == old(stateNames) && messageNames == old(messageNames)
      ensures grid == ApplyWrites(old(grid), NumMessages(), Writes(States(), Messages(), tables, messageOffset))
      ensures initialState == old(initialState) && currentState == old(currentState) && prevState == old(prevState)
      ensures messageOffset == old(messageOffset) && events == old(events)
    {
      if data != null {
        LoadTables(data, grid, stateNames, messageNames, tables, messageOffset);
        grid := ApplyWrites(grid, NumMessages(), Writes(States(), Messages(), tables, messageOffset));
      }
    }
  }
}
