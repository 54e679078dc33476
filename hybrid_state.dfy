/**
  * State of the shared project's HybridStateMachine
  * (StateMachineBuddy.SharedProject/Hybrid/State.cs): a StateChanges
  * dictionary from message name to target state name, filled from an
  * index-based machine's row or from a document's table, and scrubbed of a
  * removed model's names. Its `AddStateMachine(table, machine, name)` is
  * handed the HybridStateMachine and reads only its `States` and
  * `Messages`, which are passed here as sets.
  */
module HybridState {
  import opened Common
  import opened Document
  import opened Table
  import opened Named
  import opened IntStateMachine

  class State {
    var stateChanges: Changes

    /** A new State listens for no message. */
    constructor()
      ensures stateChanges == map[]
    {
      stateChanges := map[];
    }

    /**
      * AddStateMachine(machine, name): for each message of the index-based
      * machine, in order, whose cell in the row of `name` (its first
      * match) is not a self-loop, map the message's name to the target's
      * name. The machine's `Debug.Assert`s require the row and every target
      * to exist; C# dictionary keys cannot be null, so the names must be
      * set.
      */
    method AddIndexed(machine: IntStateMachine, stateName: Name)
      requires machine.Valid() && machine.data != null && machine.Closed()
      requires stateName in machine.States()
      requires AllSome(machine.States()) && AllSome(machine.Messages())
      modifies this
      ensures var i := IndexOf(machine.States(), stateName);
        stateChanges == RowApplied(old(stateChanges), machine.States(), machine.Messages(), machine.grid[i], i)
    {
      var index := machine.GetStateFromName(stateName);
      ghost var sn, mn := machine.States(), machine.Messages();
      ghost var row := machine.grid[index];
      assert RowFits(sn, mn, row);
      for message := 0 to machine.NumMessages()
        invariant stateChanges == RowApplied(old(stateChanges), sn, mn, row[..message], index)
      {
        var messageName := machine.messageNames[message];
        var target := machine.GetEntry(index, message);
        assert row[..message + 1][..message] == row[..message];
        if index != target {
          var targetName := machine.stateNames[target];
          stateChanges := stateChanges[messageName.value := targetName.value];
        }
      }
      assert row[..machine.NumMessages()] == row;
    }

    /**
      * AddStateMachine(table, machine, name): the table's transitions in
      * order. A message the machine does not know, or a target it does not
      * know, throws, keeping what the earlier transitions wrote; a
      * transition back to `name` is not recorded. `states` and `messages`
      * are the machine's `States` and `Messages`.
      */
    method AddTable(transitions: seq<Change>, states: set<string>, messages: set<string>, name: string)
      returns (fault: Option<Fault>)
      modifies this
      ensures Outcome(fault, stateChanges) == Recorded(old(stateChanges), transitions, states, messages, name)
    {
      var i := 0;
      while i < |transitions|
        invariant 0 <= i <= |transitions|
        invariant Recorded(old(stateChanges), transitions, states, messages, name)
               == Recorded(stateChanges, transitions[i..], states, messages, name)
      {
        var change := transitions[i];
        assert transitions[i..][1..] == transitions[i + 1..];
        if !(change.message.Some? && change.message.value in messages) {
          return Some(UnknownMessage);
        }
        if !(change.target.Some? && change.target.value in states) {
          return Some(UnknownTarget);
        }
        if name != change.target.value {
          stateChanges := stateChanges[change.message.value := change.target.value];
        }
        i := i + 1;
      }
      return None;
    }

    /**
      * RemoveStateMachine(model): remove each of the model's messages, then
      * for each of its states every entry that targets it. Nothing else is
      * removed and no target changes.
      */
    method RemoveModel(messages: seq<string>, states: seq<string>)
      modifies this
      ensures forall k :: k in stateChanges <==> k in old(stateChanges) && k !in messages && old(stateChanges)[k] !in states
      ensures forall k :: k in stateChanges ==> stateChanges[k] == old(stateChanges)[k]
      ensures stateChanges == Scrubbed(old(stateChanges), messages, states)
    {
      for i := 0 to |messages|
        invariant forall k :: k in stateChanges <==> k in old(stateChanges) && k !in messages[..i]
        invariant forall k :: k in stateChanges ==> stateChanges[k] == old(stateChanges)[k]
      {
        assert messages[..i + 1] == messages[..i] + [messages[i]];
        stateChanges := stateChanges - {messages[i]};
      }
      assert messages[..|messages|] == messages;
      for i := 0 to |states|
        invariant forall k :: k in stateChanges <==>
          k in old(stateChanges) && k !in messages && old(stateChanges)[k] !in states[..i]
        invariant forall k :: k in stateChanges ==> stateChanges[k] == old(stateChanges)[k]
      {
        assert states[..i + 1] == states[..i] + [states[i]];
        RemoveTargeting(states[i]);
      }
      assert states[..|states|] == states;
    }

    /** The inner loop: every key whose target is `state`, listed first and then removed one by one. */
    method RemoveTargeting(state: string)
      modifies this
      ensures forall k :: k in stateChanges <==> k in old(stateChanges) && old(stateChanges)[k] != state
      ensures forall k :: k in stateChanges ==> stateChanges[k] == old(stateChanges)[k]
    {
      var doomed := set k | k in stateChanges && stateChanges[k] == state;
      var left := doomed;
      while left != {}
        invariant left <= doomed
        invariant forall k :: k in stateChanges <==> k in old(stateChanges) && (k !in doomed || k in left)
        invariant forall k :: k in stateChanges ==> stateChanges[k] == old(stateChanges)[k]
        decreases left
      {
        var k :| k in left;
        stateChanges := stateChanges - {k};
        left := left - {k};
      }
    }
  }
}
