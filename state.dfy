/**
  * State (StateMachineBuddy/State.cs): one state of a StringStateMachine,
  * holding its StateChanges dictionary from message name to target state
  * name. The file itself has only the two constructors; the
  * StringStateMachine also calls `AddStateMachine(table, machine, name)`
  * and `RemoveStateMachine(model)` on it, which this class takes from the
  * State of the shared project (Hybrid/State.cs), the only revision that
  * defines them.
  */
module NamedState {
  import opened Common
  import opened Document
  import opened Named

  class State {
    var stateChanges: Changes

    /** A new State listens for no message. */
    constructor()
      ensures stateChanges == map[]
    {
      stateChanges := map[];
    }

    /**
      * The copy constructor: every (message, target) pair of `other`, added
      * one at a time into a dictionary of this State's own.
      */
    constructor Copy(other: State)
      ensures stateChanges == other.stateChanges
      ensures other.stateChanges == old(other.stateChanges)
    {
      stateChanges := map[];
      new;
      var left := other.stateChanges.Keys;
      while left != {}
        invariant left <= other.stateChanges.Keys
        invariant forall k :: k in stateChanges <==> k in other.stateChanges && k !in left
        invariant forall k :: k in stateChanges ==> stateChanges[k] == other.stateChanges[k]
        decreases left
      {
        var k :| k in left;
        // Dictionary.Add would throw on a repeated key; the keys of a map never repeat.
        assert k !in stateChanges;
        stateChanges := stateChanges[k := other.stateChanges[k]];
        left := left - {k};
      }
    }

    /** `StateChanges[message] = target`: adds the key or replaces its target, and touches no other key. */
    method Write(message: string, target: string)
      modifies this
      ensures message in stateChanges && stateChanges[message] == target
      ensures forall k :: k != message ==> (k in stateChanges <==> k in old(stateChanges))
      ensures forall k :: k != message && k in stateChanges ==> stateChanges[k] == old(stateChanges)[k]
      ensures stateChanges == old(stateChanges)[message := target]
    {
      stateChanges := stateChanges[message := target];
    }

    /** `StateChanges.Remove(message)`: the key is gone and no other key changes. */
    method Remove(message: string)
      modifies this
      ensures message !in stateChanges
      ensures forall k :: k != message ==> (k in stateChanges <==> k in old(stateChanges))
      ensures forall k :: k in stateChanges ==> stateChanges[k] == old(stateChanges)[k]
    {
      stateChanges := stateChanges - {message};
    }

    /**
      * AddStateMachine(table, machine, name): the table's transitions in
      * order. A message the machine does not know, or a target it does not
      * know, throws, keeping what the earlier transitions wrote; a
      * transition back to `name` is not recorded. `states` and `messages`
      * are the machine's `States` and `Messages`.
      */
    method AddTable(transitions: seq<Change>, states: set<string>, messages: set<string>, name: string)
      returns (fault: Option<Fault>)
      modifies this
      ensures Outcome(fault, stateChanges) == Recorded(old(stateChanges), transitions, states, messages, name)
    {
      var i := 0;
      while i < |transitions|
        invariant 0 <= i <= |transitions|
        invariant Recorded(old(stateChanges), transitions, states, messages, name)
               == Recorded(stateChanges, transitions[i..], states, messages, name)
      {
        var change := transitions[i];
        assert transitions[i..][1..] == transitions[i + 1..];
        if !(change.message.Some? && change.message.value in messages) {
          return Some(UnknownMessage);
        }
        if !(change.target.Some? && change.target.value in states) {
          return Some(UnknownTarget);
        }
        if name != change.target.value {
          stateChanges := stateChanges[change.message.value := change.target.value];
        }
        i := i + 1;
      }
      return None;
    }

    /**
      * RemoveStateMachine(model): remove each of the model's messages, then
      * for each of its states every entry that targets it. Nothing else is
      * removed and no target changes.
      */
    method RemoveModel(messages: seq<string>, states: seq<string>)
      modifies this
      ensures forall k :: k in stateChanges <==> k in old(stateChanges) && k !in messages && old(stateChanges)[k] !in states
      ensures forall k :: k in stateChanges ==> stateChanges[k] == old(stateChanges)[k]
      ensures stateChanges == Scrubbed(old(stateChanges), messages, states)
    {
      for i := 0 to |messages|
        invariant forall k :: k in stateChanges <==> k in old(stateChanges) && k !in messages[..i]
        invariant forall k :: k in stateChanges ==> stateChanges[k] == old(stateChanges)[k]
      {
        assert messages[..i + 1] == messages[..i] + [messages[i]];
        stateChanges := stateChanges - {messages[i]};
      }
      assert messages[..|messages|] == messages;
      for i := 0 to |states|
        invariant forall k :: k in stateChanges <==>
          k in old(stateChanges) && k !in messages && old(stateChanges)[k] !in states[..i]
        invariant forall k :: k in stateChanges ==> stateChanges[k] == old(stateChanges)[k]
      {
        assert states[..i + 1] == states[..i] + [states[i]];
        RemoveTargeting(states[i]);
      }
      assert states[..|states|] == states;
    }

    /** The inner loop: every key whose target is `state`, listed first and then removed one by one. */
    method RemoveTargeting(state: string)
      modifies this
      ensures forall k :: k in stateChanges <==> k in old(stateChanges) && old(stateChanges)[k] != state
      ensures forall k :: k in stateChanges ==> stateChanges[k] == old(stateChanges)[k]
    {
      var doomed := set k | k in stateChanges && stateChanges[k] == state;
      var left := doomed;
      while left != {}
        invariant left <= doomed
        invariant forall k :: k in stateChanges <==> k in old(stateChanges) && (k !in doomed || k in left)
        invariant forall k :: k in stateChanges ==> stateChanges[k] == old(stateChanges)[k]
        decreases left
      {
        var k :| k in left;
        stateChanges := stateChanges - {k};
        left := left - {k};
      }
    }
  }

  /**
    * A copy does not follow the original: writing into the original after
    * copying it leaves the copy with the original's earlier pairs.
    */
  method CopyThenWrite(original: State, message: string, target: string) returns (copy: State)
    modifies original
    ensures copy != original
    ensures copy.stateChanges == old(original.stateChanges)
    ensures original.stateChanges == old(original.stateChanges)[message := target]
  {
    copy := new State.Copy(original);
    original.Write(message, target);
  }
}
