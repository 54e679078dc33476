/**
  * The oldest StateMachine: the index-based engine with a message offset,
  * whose state and message counts are fields of their own rather than the
  * lengths of the name arrays. It raises no events; `SendStateMessage` and
  * `ForceState` report a change by their result instead.
  */
module LegacyStateMachine {
  import opened Common
  import opened Document
  import opened Table

  class StateMachine {
    var initialState: int
    var currentState: int
    var prevState: int
    var messageOffset: int
    var numStates: int
    var numMessages: int
    var stateNames: array?<Name>
    var messageNames: array?<Name>
    var data: array2?<int>
    /** The transitions `data` holds, as rows of target states; empty while it is `null`. */
    ghost var grid: Grid

    /**
      * The three arrays are allocated together, the counts are their
      * lengths (0 before allocation), and `grid` is what the table holds.
      */
    ghost predicate Valid()
      reads this, data
    {
      && (stateNames == null <==> data == null)
      && (messageNames == null <==> data == null)
      && (data == null ==> grid == [] && numStates == 0 && numMessages == 0)
      && (data != null ==>
            && numStates == data.Length0 == stateNames.Length && numMessages == data.Length1 == messageNames.Length
            && stateNames != messageNames
            && Holds(data, grid))
    }

    ghost function States(): seq<Name>
      reads this, stateNames
    {
      NamesOf(stateNames)
    }

    ghost function Messages(): seq<Name>
      reads this, messageNames
    {
      NamesOf(messageNames)
    }

    /** Every cell names one of the states. */
    ghost predicate Closed()
      reads this
    {
      InRange(grid, |grid|)
    }

    constructor()
      ensures Valid()
      ensures initialState == 0 && prevState == 0 && currentState == 0 && messageOffset == 0
      ensures numStates == 0 && numMessages == 0
      ensures stateNames == null && messageNames == null && data == null
    {
      initialState := 0;
      prevState := 0;
      currentState := 0;
      messageOffset := 0;
      numStates := 0;
      numMessages := 0;
      stateNames := null;
      messageNames := null;
      data := null;
      grid := [];
    }

    /**
      * The InitialState setter AS WRITTEN: the value is kept when it lies
      * below the MESSAGE count, so with more messages than states a value
      * past the last state is kept, and with fewer a valid state becomes 0.
      */
    method SetInitialState(value: int)
      modifies this
      ensures initialState == Clamp(value, numMessages)
      ensures currentState == old(currentState) && prevState == old(prevState) && messageOffset == old(messageOffset)
      ensures numStates == old(numStates) && numMessages == old(numMessages)
      ensures stateNames == old(stateNames) && messageNames == old(messageNames) && data == old(data) && grid == old(grid)
    {
      if 0 <= value < numMessages {
        initialState := value;
      } else {
        initialState := 0;
      }
    }

    /**
      * Set: the counts, offset and (unclamped) initial state recorded, fresh
      * arrays with every message a self-loop and unset names. The cursor is
      * left where it was.
      */
    method Set(n: nat, m: nat, init: int, offset: int)
      modifies this
      ensures Valid() && fresh(data) && fresh(stateNames) && fresh(messageNames)
      ensures numStates == n && numMessages == m
      ensures grid == SelfLoops(n, m) && Closed()
      ensures States() == Blank(n) && Messages() == Blank(m)
      ensures initialState == init && messageOffset == offset
      ensures currentState == old(currentState) && prevState == old(prevState)
    {
      var d := NewSelfLoops(n, m);
      var sn := NewBlankNames(n);
      var mn := NewBlankNames(m);
      Install(d, SelfLoops(n, m), sn, mn);
      initialState, messageOffset := init, offset;
    }

    /** Points the machine at newly built arrays and records their sizes. */
    method Install(d: array2<int>, ghost g: Grid, sn: array<Name>, mn: array<Name>)
      requires Holds(d, g) && d.Length0 == sn.Length && d.Length1 == mn.Length && sn != mn
      modifies this
      ensures Valid() && data == d && grid == g && stateNames == sn && messageNames == mn
      ensures initialState == old(initialState) && currentState == old(currentState) && prevState == old(prevState)
      ensures messageOffset == old(messageOffset)
    {
      data, grid, stateNames, messageNames := d, g, sn, mn;
      numStates, numMessages := d.Length0, d.Length1;
    }

    /** SetEntry: `message` is offset-adjusted to its column; only that cell changes. */
    method SetEntry(state: int, message: int, nextState: int)
      requires Valid() && data != null
      requires 0 <= state < numStates && 0 <= nextState < numStates
      requires 0 <= message - messageOffset < numMessages
      modifies this, data
      ensures Valid() && stateNames == old(stateNames) && messageNames == old(messageNames) && data == old(data)
      ensures messageOffset == old(messageOffset) && numStates == old(numStates) && numMessages == old(numMessages)
      ensures grid == WithEntry(old(grid), state, message - messageOffset, nextState)
      ensures old(Closed()) ==> Closed()
      ensures initialState == old(initialState) && currentState == old(currentState) && prevState == old(prevState)
    {
      var adjusted := message - messageOffset;
      data[state, adjusted] := nextState;
      grid := WithEntry(grid, state, adjusted, nextState);
    }

    /**
      * SendStateMessage: the cursor follows the offset-adjusted column; the
      * result says whether the state changed, and only then is the previous
      * state recorded.
      */
    method SendStateMessage(message: int) returns (changed: bool)
      requires Valid() && data != null
      requires 0 <= message - messageOffset < numMessages && 0 <= currentState < numStates
      modifies this
      ensures changed <==> old(grid[currentState][message - messageOffset]) != old(currentState)
      ensures currentState == old(grid[currentState][message - messageOffset])
      ensures prevState == if changed then old(currentState) else old(prevState)
      ensures initialState == old(initialState) && messageOffset == old(messageOffset)
      ensures numStates == old(numStates) && numMessages == old(numMessages)
      ensures data == old(data) && grid == old(grid) && stateNames == old(stateNames) && messageNames == old(messageNames)
    {
      var current := currentState;
      currentState := data[currentState, message - messageOffset];
      if current != currentState {
        prevState := current;
        return true;
      }
      return false;
    }

    /** ForceState: reports whether the state changed; only then is the previous one recorded. */
    method ForceState(state: int) returns (changed: bool)
      requires 0 <= state < numStates
      modifies this
      ensures changed <==> state != old(currentState)
      ensures currentState == state
      ensures prevState == if changed then old(currentState) else old(prevState)
      ensures initialState == old(initialState) && messageOffset == old(messageOffset)
      ensures numStates == old(numStates) && numMessages == old(numMessages)
      ensures data == old(data) && grid == old(grid) && stateNames == old(stateNames) && messageNames == old(messageNames)
    {
      var current := currentState;
      currentState := state;
      if current != currentState {
        prevState := current;
        return true;
      }
      return false;
    }

    /** ResetToInitialState: both cursor states go to the initial one. */
    method ResetToInitialState()
      modifies this
      ensures prevState == initialState && currentState == initialState
      ensures initialState == old(initialState) && messageOffset == old(messageOffset)
      ensures numStates == old(numStates) && numMessages == old(numMessages)
      ensures data == old(data) && grid == old(grid) && stateNames == old(stateNames) && messageNames == old(messageNames)
    {
      prevState := initialState;
      currentState := initialState;
    }

    /** GetStateIndexFromText: the first index holding the name, or -1. */
    method GetStateFromName(name: Name) returns (r: int)
      requires Valid() && stateNames != null
      ensures r == IndexOf(States(), name)
      ensures -1 <= r < numStates
      ensures r == -1 <==> name !in States()
      ensures 0 <= r ==> States()[r] == name && name !in States()[..r]
    {
      r := Find(stateNames, name);
    }

    /** GetMessageIndexFromText: the first index holding the name plus the offset, or -1. */
    method GetMessageFromName(name: Name) returns (r: int)
      requires Valid() && messageNames != null
      ensures r == Lookup(Messages(), name, messageOffset)
      ensures name !in Messages() ==> r == -1
      ensures name in Messages() ==> r - messageOffset == IndexOf(Messages(), name) && Messages()[r - messageOffset] == name
    {
      var i := Find(messageNames, name);
      r := if i == -1 then -1 else i + messageOffset;
    }

    /** GetStateName: the name in slot `state`. */
    method GetStateName(state: int) returns (r: Name)
      requires Valid() && stateNames != null && 0 <= state < numStates
      ensures r == States()[state]
    {
      r := stateNames[state];
    }

    /** GetMessageName: the name in the offset-adjusted slot. */
    method GetMessageName(message: int) returns (r: Name)
      requires Valid() && messageNames != null && 0 <= message - messageOffset < numMessages
      ensures r == Messages()[message - messageOffset]
    {
      r := messageNames[message - messageOffset];
    }

    /** GetEntry: the target of `state` under the offset-adjusted message. */
    method GetEntry(state: int, message: int) returns (r: int)
      requires Valid() && data != null
      requires 0 <= state < numStates && 0 <= message - messageOffset < numMessages
      ensures r == grid[state][message - messageOffset]
      ensures Closed() ==> 0 <= r < numStates
    {
      r := data[state, message - messageOffset];
    }

    /**
      * Resize: nothing unless both sizes are positive; otherwise the overlap
      * rule, the counts updated, and the cursor reset to the initial state.
      */
    method Resize(n: int, m: int)
      requires Valid()
      modifies this
      ensures Valid()
      ensures n <= 0 || m <= 0 ==>
        && stateNames == old(stateNames) && messageNames == old(messageNames) && data == old(data) && grid == old(grid)
        && currentState == old(currentState) && prevState == old(prevState)
      ensures 0 < n && 0 < m ==>
        && fresh(data) && fresh(stateNames) && fresh(messageNames)
        && numStates == n && numMessages == m
        && grid == Resized(old(grid), n, m)
        && States() == ResizedNames(old(States()), n)
        && Messages() == ResizedNames(old(Messages()), m)
        && currentState == initialState && prevState == initialState
      ensures old(Closed()) ==> Closed()
      ensures initialState == old(initialState) && messageOffset == old(messageOffset)
    {
      if n <= 0 || m <= 0 {
        return;
      }
      var d := ResizedCopy(data, grid, n, m);
      var sn := ResizedNamesCopy(stateNames, n);
      var mn := ResizedNamesCopy(messageNames, m);
      Install(d, Resized(grid, n, m), sn, mn);
      ResetToInitialState();
    }

    /**
      * RemoveState AS WRITTEN (see `RemovedStateAsWritten`); the state count
      * drops by one before the initial state is checked against it.
      */
    method RemoveState(state: int)
      requires Valid() && data != null && 0 <= state < numStates
      modifies this
      ensures Valid() && data != null
      ensures old(numStates) == 1 ==>
        data == old(data) && grid == old(grid) && stateNames == old(stateNames) && initialState == old(initialState)
        && numStates == 1
      ensures old(numStates) > 1 ==>
        && numStates == old(numStates) - 1
        && grid == RemovedStateAsWritten(old(grid), old(numMessages), state)
        && States() == RemovedStateNamesAsWritten(old(States()), state)
        && initialState == RemovedInitial(old(initialState), old(numStates), state)
      ensures messageNames == old(messageNames) && numMessages == old(numMessages) && messageOffset == old(messageOffset)
      ensures currentState == old(currentState) && prevState == old(prevState)
    {
      if numStates == 1 {
        return;
      }
      var d, sn := RemovedStateCopy(data, grid, stateNames, state);
      data := d;
      stateNames := sn;
      grid := RemovedStateAsWritten(grid, numMessages, state);
      numStates := numStates - 1;
      if initialState >= numStates || initialState == state {
        initialState := 0;
      }
    }

    /** RemoveMessage: on a single message nothing happens; otherwise column `message` goes. */
    method RemoveMessage(message: int)
      requires Valid() && data != null && 0 <= message < numMessages
      modifies this
      ensures Valid() && data != null
      ensures old(numMessages) == 1 ==>
        data == old(data) && grid == old(grid) && messageNames == old(messageNames) && numMessages == 1
      ensures old(numMessages) > 1 ==>
        && numMessages == old(numMessages) - 1
        && grid == RemovedMessage(old(grid), old(numMessages), message)
        && Messages() == RemovedMessageNames(old(Messages()), message, old(numStates))
      ensures old(Closed()) ==> Closed()
      ensures stateNames == old(stateNames) && numStates == old(numStates)
      ensures initialState == old(initialState) && messageOffset == old(messageOffset)
      ensures currentState == old(currentState) && prevState == old(prevState)
    {
      if numMessages == 1 {
        return;
      }
      var d, mn := RemovedMessageCopy(data, grid, messageNames, message);
      data := d;
      messageNames := mn;
      grid := RemovedMessage(grid, old(numMessages), message);
      numMessages := numMessages - 1;
    }

    /** Compare: the same initial state, names and table (the offset and cursor are not compared). */
    method Compare(other: StateMachine) returns (r: bool)
      requires Valid() && other.Valid()
      ensures r <==>
        && initialState == other.initialState
        && States() == other.States() && Messages() == other.Messages()
        && grid == other.grid
    {
      if initialState != other.initialState || numStates != other.numStates || numMessages != other.numMessages {
        return false;
      }
      if numStates > 0 {
        r := SameNames(stateNames, other.stateNames);
        if !r {
          return;
        }
      }
      if numMessages > 0 {
        r := SameNames(messageNames, other.messageNames);
        if !r {
          return;
        }
      }
      if numStates > 0 && numMessages > 0 {
        r := SameTable(data, other.data, grid, other.grid);
        return;
      }
      SameCells(grid, other.grid, numStates, numMessages);
      return true;
    }

    /**
      * ReadNames: the names the offset-aware lookups report absent are
      * counted, the machine grows by those counts (which resets the cursor),
      * and they are written to the new slots in list order. The C# asserts
      * allocated name arrays before looking up, and would write past a table
      * that `Resize` refused to grow; the preconditions exclude both.
      */
    method ReadNames(stateList: seq<Name>, messageList: seq<Name>)
      requires Valid()
      requires |stateList| > 0 ==> stateNames != null
      requires |messageList| > 0 ==> messageNames != null
      requires CountAbsent(States(), stateList, 0) > 0 || CountAbsent(Messages(), messageList, messageOffset) > 0 ==>
        numStates + CountAbsent(States(), stateList, 0) > 0 &&
        numMessages + CountAbsent(Messages(), messageList, messageOffset) > 0
      modifies this
      ensures Valid() && (data == old(data) || fresh(data))
      ensures States() == Appended(old(States()), stateList, 0)
      ensures Messages() == Appended(old(Messages()), messageList, messageOffset)
      ensures var grown := numStates > old(numStates) || numMessages > old(numMessages);
        && grid == (if grown then Resized(old(grid), numStates, numMessages) else old(grid))
        && currentState == (if grown then initialState else old(currentState))
        && prevState == (if grown then initialState else old(prevState))
      ensures old(Closed()) ==> Closed()
      ensures initialState == old(initialState) && messageOffset == old(messageOffset)
    {
      ghost var oldStates, oldMessages := States(), Messages();
      var oldN, oldM := numStates, numMessages;
      var ns := CountNew(stateNames, stateList, 0);
      var nm := CountNew(messageNames, messageList, messageOffset);
      Grow(ns, nm);
      if ns > 0 || nm > 0 {
        FillNew(oldStates, oldMessages, oldN, oldM, stateList, messageList, ns, nm);
      }
    }

    /** `ReadNames`'s filling passes, each run only when its count is positive. */
    method FillNew(ghost oldStates: seq<Name>, ghost oldMessages: seq<Name>, oldN: nat, oldM: nat,
                   stateList: seq<Name>, messageList: seq<Name>, ns: nat, nm: nat)
      requires Valid() && oldN == |oldStates| && oldM == |oldMessages|
      requires ns == CountAbsent(oldStates, stateList, 0) && nm == CountAbsent(oldMessages, messageList, messageOffset)
      requires States() == oldStates + Blank(ns) && Messages() == oldMessages + Blank(nm)
      requires stateNames != null && messageNames != null
      modifies stateNames, messageNames
      ensures States() == Appended(oldStates, stateList, 0)
      ensures Messages() == Appended(oldMessages, messageList, messageOffset)
    {
      if ns > 0 {
        assert (oldStates + Blank(ns))[..|oldStates|] == oldStates;
        FillNames(stateNames, oldStates, oldN, stateList, 0);
      }
      if nm > 0 {
        assert (oldMessages + Blank(nm))[..|oldMessages|] == oldMessages;
        FillNames(messageNames, oldMessages, oldM, messageList, messageOffset);
      }
    }

    /** `ReadNames`'s resize step: only when something is new, by the counts of new names. */
    method Grow(ns: nat, nm: nat)
      requires Valid()
      requires ns > 0 || nm > 0 ==> numStates + ns > 0 && numMessages + nm > 0
      modifies this
      ensures Valid()
      ensures ns > 0 || nm > 0 ==> fresh(data) && fresh(stateNames) && fresh(messageNames)
      ensures ns == 0 && nm == 0 ==> data == old(data) && stateNames == old(stateNames) && messageNames == old(messageNames)
      ensures numStates == old(numStates) + ns && numMessages == old(numMessages) + nm
      ensures States() == old(States()) + Blank(ns) && Messages() == old(Messages()) + Blank(nm)
      ensures grid == if ns > 0 || nm > 0 then Resized(old(grid), numStates, numMessages) else old(grid)
      ensures currentState == (if ns > 0 || nm > 0 then initialState else old(currentState))
      ensures prevState == (if ns > 0 || nm > 0 then initialState else old(prevState))
      ensures old(Closed()) ==> Closed()
      ensures initialState == old(initialState) && messageOffset == old(messageOffset)
    {
      if ns > 0 || nm > 0 {
        Resize(numStates + ns, numMessages + nm);
      }
    }

    /**
      * ReadStateTable over a list of tables: each transition written after
      * its names are looked up (the message number brought back to its
      * column). The C# asserts that every lookup lands in the table; the
      * precondition says so. It always reports success.
      */
    method ReadStateTable(tables: seq<TableDoc>) returns (ok: bool)
      requires Valid()
      requires |tables| > 0 ==> data != null
      requires Fits(Writes(States(), Messages(), tables, messageOffset), numStates, numMessages)
      modifies this, data
      ensures ok
      ensures Valid() && data == old(data) && stateNames == old(stateNames) && messageNames == old(messageNames)
      ensures grid == ApplyWrites(old(grid), numMessages, Writes(States(), Messages(), tables, messageOffset))
      ensures numStates == old(numStates) && numMessages == old(numMessages)
      ensures initialState == old(initialState) && currentState == old(currentState) && prevState == old(prevState)
      ensures messageOffset == old(messageOffset)
    {
      if data != null {
        LoadTables(data, grid, stateNames, messageNames, tables, messageOffset);
        grid := ApplyWrites(grid, numMessages, Writes(States(), Messages(), tables, messageOffset));
      }
      return true;
    }

    /**
      * The body of ReadSerializedFile once the content pipeline has built
      * the document: `Set` to the document's sizes with the given offset and
      * the initial state 0, the names copied, the initial state looked up
      * directly (the C# asserts it is found), and every table read.
      */
    method LoadDocument(doc: Doc, offset: int) returns (ok: bool)
      requires doc.initial in doc.stateNames
      requires Fits(Writes(doc.stateNames, doc.messageNames, doc.tables, offset), |doc.stateNames|, |doc.messageNames|)
      modifies this
      ensures ok
      ensures Valid() && fresh(data) && fresh(stateNames) && fresh(messageNames)
      ensures States() == doc.stateNames && Messages() == doc.messageNames
      ensures messageOffset == offset
      ensures initialState == IndexOf(doc.stateNames, doc.initial) && 0 <= initialState < numStates
      ensures grid == ApplyWrites(SelfLoops(|doc.stateNames|, |doc.messageNames|), |doc.messageNames|,
                                    Writes(doc.stateNames, doc.messageNames, doc.tables, offset))
      ensures currentState == old(currentState) && prevState == old(prevState)
    {
      Set(|doc.stateNames|, |doc.messageNames|, 0, offset);
      CopyNames(stateNames, doc.stateNames);
      CopyNames(messageNames, doc.messageNames);
      initialState := GetStateFromName(doc.initial);
      ok := ReadStateTable(doc.tables);
    }

    /**
      * The body of AppendSerializedFile once the document is built: the
      * offset replaced, the names merged by `ReadNames`, the initial state
      * looked up (the C# asserts it is found), and every table read.
      */
    method AppendDocument(doc: Doc, offset: int) returns (ok: bool)
      requires Valid()
      requires |doc.stateNames| > 0 ==> stateNames != null
      requires |doc.messageNames| > 0 ==> messageNames != null
      requires var ns := CountAbsent(States(), doc.stateNames, 0);
        var nm := CountAbsent(Messages(), doc.messageNames, offset);
        && (ns > 0 || nm > 0 ==> numStates + ns > 0 && numMessages + nm > 0)
        && var sn, mn := Appended(States(), doc.stateNames, 0), Appended(Messages(), doc.messageNames, offset);
        && doc.initial in sn
        && Fits(Writes(sn, mn, doc.tables, offset), |sn|, |mn|)
      modifies this, data
      ensures ok
      ensures Valid() && (data == old(data) || fresh(data))
      ensures States() == Appended(old(States()), doc.stateNames, 0)
      ensures Messages() == Appended(old(Messages()), doc.messageNames, offset)
      ensures messageOffset == offset
      ensures initialState == IndexOf(States(), doc.initial)
      ensures var grown := if numStates > old(numStates) || numMessages > old(numMessages)
          then Resized(old(grid), numStates, numMessages) else old(grid);
        grid == ApplyWrites(grown, numMessages, Writes(States(), Messages(), doc.tables, offset))
    {
      messageOffset := offset;
      ok := Merge(doc);
    }

    /** AppendSerializedFile's work under the offset it has just recorded. */
    method Merge(doc: Doc) returns (ok: bool)
      requires Valid()
      requires |doc.stateNames| > 0 ==> stateNames != null
      requires |doc.messageNames| > 0 ==> messageNames != null
      requires var ns := CountAbsent(States(), doc.stateNames, 0);
        var nm := CountAbsent(Messages(), doc.messageNames, messageOffset);
        && (ns > 0 || nm > 0 ==> numStates + ns > 0 && numMessages + nm > 0)
        && var sn, mn := Appended(States(), doc.stateNames, 0), Appended(Messages(), doc.messageNames, messageOffset);
        && doc.initial in sn
        && Fits(Writes(sn, mn, doc.tables, messageOffset), |sn|, |mn|)
      modifies this, data
      ensures ok
      ensures Valid() && (data == old(data) || fresh(data))
      ensures States() == Appended(old(States()), doc.stateNames, 0)
      ensures Messages() == Appended(old(Messages()), doc.messageNames, messageOffset)
      ensures messageOffset == old(messageOffset)
      ensures initialState == IndexOf(States(), doc.initial)
      ensures var grown := if numStates > old(numStates) || numMessages > old(numMessages)
          then Resized(old(grid), numStates, numMessages) else old(grid);
        grid == ApplyWrites(grown, numMessages, Writes(States(), Messages(), doc.tables, messageOffset))
    {
      ghost var sn, mn := Appended(States(), doc.stateNames, 0), Appended(Messages(), doc.messageNames, messageOffset);
      ReadNames(doc.stateNames, doc.messageNames);
      assert numStates == |sn| && numMessages == |mn|;
      ok := LoadAppended(doc.initial, doc.tables);
    }

    /** What AppendSerializedFile does once the names are merged. */
    method LoadAppended(initial: Name, tables: seq<TableDoc>) returns (ok: bool)
      requires Valid() && initial in States()
      requires Fits(Writes(States(), Messages(), tables, messageOffset), numStates, numMessages)
      modifies this, data
      ensures ok
      ensures Valid() && data == old(data) && stateNames == old(stateNames) && messageNames == old(messageNames)
      ensures initialState == IndexOf(States(), initial)
      ensures grid == ApplyWrites(old(grid), numMessages, Writes(States(), Messages(), tables, messageOffset))
      ensures numStates == old(numStates) && numMessages == old(numMessages) && messageOffset == old(messageOffset)
    {
      initialState := GetStateFromName(initial);
      ok := ReadStateTable(tables);
    }
  }
}
