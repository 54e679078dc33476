/**
  * IntStateMachine (the current index-based engine): a dense table of
  * target states, the state and message names, and a cursor made of the
  * initial, current and previous state. C# leaves every array `null` until
  * `Set` allocates them; the events the machine raises are kept in a ghost
  * log.
  */
module IntStateMachine {
  import opened Common
  import opened Document
  import opened Table

  class IntStateMachine {
    var initialState: int
    var currentState: int
    var prevState: int
    var stateNames: array?<Name>
    var messageNames: array?<Name>
    var data: array2?<int>
    /** The transitions `data` holds, as rows of target states; empty while it is `null`. */
    ghost var grid: Grid
    /** Every StateChangedEvent and ResetEvent raised, oldest first. */
    ghost var events: seq<Event<int>>

    /**
      * The three arrays are allocated together and agree on the dimensions,
      * and `grid` is what the table holds.
      */
    ghost predicate Valid()
      reads this, data
    {
      && (stateNames == null <==> data == null)
      && (messageNames == null <==> data == null)
      && (data == null ==> grid == [])
      && (data != null ==>
            && data.Length0 == stateNames.Length && data.Length1 == messageNames.Length && stateNames != messageNames
            && Holds(data, grid))
    }

    /** NumStates: 0 while the names are unallocated. */
    function NumStates(): nat
      reads this
    {
      if stateNames == null then 0 else stateNames.Length
    }

    /** NumMessages: 0 while the names are unallocated. */
    function NumMessages(): nat
      reads this
    {
      if messageNames == null then 0 else messageNames.Length
    }

    ghost function States(): seq<Name>
      reads this, stateNames
    {
      NamesOf(stateNames)
    }

    ghost function Messages(): seq<Name>
      reads this, messageNames
    {
      NamesOf(messageNames)
    }

    /** Every cell names one of the states. */
    ghost predicate Closed()
      reads this
    {
      InRange(grid, |grid|)
    }

    constructor()
      ensures Valid()
      ensures initialState == 0 && prevState == 0 && currentState == 0
      ensures stateNames == null && messageNames == null && data == null
      ensures events == []
    {
      initialState := 0;
      prevState := 0;
      currentState := 0;
      stateNames := null;
      messageNames := null;
      data := null;
      grid := [];
      events := [];
    }

    /** The InitialState setter: a value outside the states is stored as 0. */
    method SetInitialState(value: int)
      modifies this
      ensures initialState == Clamp(value, NumStates())
      ensures initialState == value <==> 0 <= value < NumStates() || value == 0
      ensures currentState == old(currentState) && prevState == old(prevState)
      ensures stateNames == old(stateNames) && messageNames == old(messageNames) && data == old(data)
      ensures grid == old(grid) && events == old(events)
    {
      if 0 <= value < NumStates() {
        initialState := value;
      } else {
        initialState := 0;
      }
    }

    /**
      * Set: fresh arrays of `n` states and `m` messages, every message a
      * self-loop, the names unset, and the cursor at `init`, which is NOT
      * clamped.
      */
    method Set(n: nat, m: nat, init: int)
      modifies this
      ensures Valid() && fresh(data) && fresh(stateNames) && fresh(messageNames)
      ensures NumStates() == n && NumMessages() == m
      ensures grid == SelfLoops(n, m) && Closed()
      ensures States() == Blank(n) && Messages() == Blank(m)
      ensures initialState == init && currentState == init && prevState == init
      ensures events == old(events)
    {
      var d := NewSelfLoops(n, m);
      var sn := NewBlankNames(n);
      var mn := NewBlankNames(m);
      Install(d, SelfLoops(n, m), sn, mn);
      initialState, prevState, currentState := init, init, init;
    }

    /** Points the machine at newly built arrays. */
    method Install(d: array2<int>, ghost g: Grid, sn: array<Name>, mn: array<Name>)
      requires Holds(d, g) && d.Length0 == sn.Length && d.Length1 == mn.Length && sn != mn
      modifies this
      ensures Valid() && data == d && grid == g && stateNames == sn && messageNames == mn
      ensures initialState == old(initialState) && currentState == old(currentState) && prevState == old(prevState)
      ensures events == old(events)
    {
      data, grid, stateNames, messageNames := d, g, sn, mn;
    }

    /** SetEntry: cell (state, message) now leads to `nextState`; no other cell changes. */
    method SetEntry(state: int, message: int, nextState: int)
      requires Valid() && data != null
      requires 0 <= state < NumStates() && 0 <= nextState < NumStates() && 0 <= message < NumMessages()
      modifies this, data
      ensures Valid()
      ensures grid == WithEntry(old(grid), state, message, nextState)
      ensures old(Closed()) ==> Closed()
      ensures stateNames == old(stateNames) && messageNames == old(messageNames) && data == old(data)
      ensures initialState == old(initialState) && currentState == old(currentState) && prevState == old(prevState)
      ensures events == old(events)
    {
      data[state, message] := nextState;
      grid := WithEntry(grid, state, message, nextState);
    }

    /** SetEntry by names: both names are looked up first, then the index form runs. */
    method SetEntryByName(state: int, messageName: Name, nextStateName: Name)
      requires Valid() && data != null && 0 <= state < NumStates()
      requires messageName in Messages() && nextStateName in States()
      modifies this, data
      ensures Valid() && stateNames == old(stateNames) && messageNames == old(messageNames) && data == old(data)
      ensures grid == WithEntry(old(grid), state, IndexOf(Messages(), messageName), IndexOf(States(), nextStateName))
      ensures events == old(events)
      ensures initialState == old(initialState) && currentState == old(currentState) && prevState == old(prevState)
    {
      var message := GetMessageFromName(messageName);
      var nextState := GetStateFromName(nextStateName);
      SetEntry(state, message, nextState);
    }

    /**
      * Resize: nothing happens unless both sizes are positive; otherwise the
      * table and names are rebuilt by the overlap rule and the cursor stays.
      */
    method Resize(n: int, m: int)
      requires Valid()
      modifies this
      ensures Valid()
      ensures n <= 0 || m <= 0 ==>
        stateNames == old(stateNames) && messageNames == old(messageNames) && data == old(data) && grid == old(grid)
      ensures 0 < n && 0 < m ==>
        && fresh(data) && fresh(stateNames) && fresh(messageNames)
        && grid == Resized(old(grid), n, m)
        && States() == ResizedNames(old(States()), n)
        && Messages() == ResizedNames(old(Messages()), m)
      ensures old(Closed()) ==> Closed()
      ensures initialState == old(initialState) && currentState == old(currentState) && prevState == old(prevState)
      ensures events == old(events)
    {
      if n <= 0 || m <= 0 {
        return;
      }
      var d := ResizedCopy(data, grid, n, m);
      var sn := ResizedNamesCopy(stateNames, n);
      var mn := ResizedNamesCopy(messageNames, m);
      stateNames := sn;
      messageNames := mn;
      data := d;
      grid := Resized(grid, n, m);
    }

    /**
      * RemoveState AS WRITTEN: on a single state nothing happens; otherwise
      * the copy loop of `RemovedStateCopy` runs, and the initial state falls
      * back to 0 when it was `state` or lies past the new count.
      */
    method RemoveState(state: int)
      requires Valid() && data != null && 0 <= state < NumStates()
      modifies this
      ensures Valid() && data != null
      ensures old(NumStates()) == 1 ==>
        data == old(data) && grid == old(grid) && stateNames == old(stateNames) && initialState == old(initialState)
      ensures old(NumStates()) > 1 ==>
        && NumStates() == old(NumStates()) - 1
        && grid == RemovedStateAsWritten(old(grid), old(NumMessages()), state)
        && States() == RemovedStateNamesAsWritten(old(States()), state)
        && initialState == RemovedInitial(old(initialState), old(NumStates()), state)
      ensures messageNames == old(messageNames)
      ensures currentState == old(currentState) && prevState == old(prevState) && events == old(events)
    {
      if NumStates() == 1 {
        return;
      }
      var d, sn := RemovedStateCopy(data, grid, stateNames, state);
      data := d;
      stateNames := sn;
      grid := RemovedStateAsWritten(grid, NumMessages(), state);
      if initialState >= NumStates() || initialState == state {
        initialState := 0;
      }
    }

    /** RemoveMessage: on a single message nothing happens; otherwise column `message` goes. */
    method RemoveMessage(message: int)
      requires Valid() && data != null && 0 <= message < NumMessages()
      modifies this
      ensures Valid() && data != null
      ensures old(NumMessages()) == 1 ==> data == old(data) && grid == old(grid) && messageNames == old(messageNames)
      ensures old(NumMessages()) > 1 ==>
        && NumMessages() == old(NumMessages()) - 1
        && grid == RemovedMessage(old(grid), old(NumMessages()), message)
        && Messages() == RemovedMessageNames(old(Messages()), message, old(NumStates()))
      ensures old(Closed()) ==> Closed()
      ensures stateNames == old(stateNames) && initialState == old(initialState)
      ensures currentState == old(currentState) && prevState == old(prevState) && events == old(events)
    {
      if NumMessages() == 1 {
        return;
      }
      var d, mn := RemovedMessageCopy(data, grid, messageNames, message);
      data := d;
      messageNames := mn;
      grid := RemovedMessage(grid, old(NumMessages()), message);
    }

    /**
      * SendStateMessage: the cursor follows the table. It reports a change,
      * records the previous state and raises one StateChanged event exactly
      * when the target differs from the current state.
      */
    method SendStateMessage(message: int) returns (changed: bool)
      requires Valid() && data != null
      requires 0 <= message < NumMessages() && 0 <= currentState < NumStates()
      modifies this
      ensures changed <==> old(grid)[old(currentState)][message] != old(currentState)
      ensures currentState == old(grid)[old(currentState)][message]
      ensures prevState == if changed then old(currentState) else old(prevState)
      ensures events == old(events) + if changed then [StateChanged(old(currentState), currentState)] else []
      ensures initialState == old(initialState)
      ensures data == old(data) && grid == old(grid) && stateNames == old(stateNames) && messageNames == old(messageNames)
    {
      var current := currentState;
      currentState := data[currentState, message];
      if current != currentState {
        prevState := current;
        events := events + [StateChanged(prevState, currentState)];
        return true;
      }
      return false;
    }

    /** ForceState: moving to another state records the previous one and raises one event. */
    method ForceState(state: int)
      requires 0 <= state < NumStates()
      modifies this
      ensures currentState == state
      ensures prevState == if state != old(currentState) then old(currentState) else old(prevState)
      ensures events == old(events) + if state != old(currentState) then [StateChanged(old(currentState), state)] else []
      ensures initialState == old(initialState)
      ensures data == old(data) && grid == old(grid) && stateNames == old(stateNames) && messageNames == old(messageNames)
    {
      var current := currentState;
      currentState := state;
      if current != currentState {
        prevState := current;
        events := events + [StateChanged(prevState, currentState)];
      }
    }

    /** ResetToInitialState: both cursor states go to the initial one; only the reset event fires. */
    method ResetToInitialState()
      modifies this
      ensures prevState == initialState && currentState == initialState
      ensures events == old(events) + [Reset(initialState, initialState)]
      ensures initialState == old(initialState)
      ensures data == old(data) && grid == old(grid) && stateNames == old(stateNames) && messageNames == old(messageNames)
    {
      prevState := initialState;
      currentState := initialState;
      events := events + [Reset(prevState, currentState)];
    }

    /** GetStateFromName: the first index holding the name, or -1. */
    method GetStateFromName(name: Name) returns (r: int)
      requires stateNames != null
      ensures -1 <= r < NumStates()
      ensures r == -1 <==> name !in States()
      ensures 0 <= r ==> States()[r] == name && name !in States()[..r]
    {
      r := Find(stateNames, name);
    }

    /** GetMessageFromName: the first index holding the name, or -1. */
    method GetMessageFromName(name: Name) returns (r: int)
      requires messageNames != null
      ensures -1 <= r < NumMessages()
      ensures r == -1 <==> name !in Messages()
      ensures 0 <= r ==> Messages()[r] == name && name !in Messages()[..r]
    {
      r := Find(messageNames, name);
    }

    /** GetEntry: the target of (state, message). */
    method GetEntry(state: int, message: int) returns (r: int)
      requires Valid() && data != null && 0 <= state < NumStates() && 0 <= message < NumMessages()
      ensures r == grid[state][message]
      ensures Closed() ==> 0 <= r < NumStates()
    {
      r := data[state, message];
    }

    /**
      * Compare: the same initial state, names and table. Unallocated arrays
      * compare like empty ones, as the counts the C# compares are then 0.
      */
    method Compare(other: IntStateMachine) returns (r: bool)
      requires Valid() && other.Valid()
      ensures r <==>
        && initialState == other.initialState
        && States() == other.States() && Messages() == other.Messages()
        && grid == other.grid
    {
      if initialState != other.initialState || NumStates() != other.NumStates() || NumMessages() != other.NumMessages() {
        return false;
      }
      if NumStates() > 0 {
        r := SameNames(stateNames, other.stateNames);
        if !r {
          return;
        }
      }
      if NumMessages() > 0 {
        r := SameNames(messageNames, other.messageNames);
        if !r {
          return;
        }
      }
      if NumStates() > 0 && NumMessages() > 0 {
        r := SameTable(data, other.data, grid, other.grid);
        return;
      }
      SameCells(grid, other.grid, NumStates(), NumMessages());
      return true;
    }

    /**
      * LoadStateMachine: `Set` to the document's sizes with the cursor at 0,
      * the names copied, the initial state looked up through the clamping
      * setter (the cursor is NOT moved to it), and every table loaded.
      * The C# indexes past the table when a name does not resolve; the
      * precondition excludes that.
      */
    method LoadStateMachine(doc: Doc)
      requires Fits(Writes(doc.stateNames, doc.messageNames, doc.tables, 0), |doc.stateNames|, |doc.messageNames|)
      modifies this
      ensures Valid() && fresh(data) && fresh(stateNames) && fresh(messageNames)
      ensures States() == doc.stateNames && Messages() == doc.messageNames
      ensures initialState == Clamp(IndexOf(doc.stateNames, doc.initial), |doc.stateNames|)
      ensures currentState == 0 && prevState == 0
      ensures grid == ApplyWrites(SelfLoops(|doc.stateNames|, |doc.messageNames|), |doc.messageNames|,
                                    Writes(doc.stateNames, doc.messageNames, doc.tables, 0))
      ensures events == old(events)
    {
      Set(|doc.stateNames|, |doc.messageNames|, 0);
      CopyNames(stateNames, doc.stateNames);
      CopyNames(messageNames, doc.messageNames);
      var initial := GetStateFromName(doc.initial);
      SetInitialState(initial);
      LoadTables(data, grid, stateNames, messageNames, doc.tables, 0);
      grid := ApplyWrites(grid, |doc.messageNames|, Writes(doc.stateNames, doc.messageNames, doc.tables, 0));
    }
  }
}
