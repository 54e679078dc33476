# StateMachineBuddy transition tables, modelled in Dafny

This project models the core of StateMachineBuddy, a C# finite-state-machine
library. The library keeps a machine's transition table in two forms and
persists it as a document.

- **The index-based engine.** It holds a dense `int[,]` table: row = source
  state, column = message, cell = target state. Beside it are arrays of state
  and message names and a cursor of initial, current and previous state. Four
  revisions of it are modelled, each as its own class over an `array2<int>`:
  - `IntStateMachine` (`int_state_machine.dfy`), the current one;
  - the offset-aware `StateMachine` of the shared project (`shared_state_machine.dfy`);
  - the earlier `Source/StateMachine.cs` (`source_state_machine.dfy`);
  - the oldest `StateMachineBuddy/StateMachine.cs` (`legacy_state_machine.dfy`).

  Every class keeps a ghost `grid: seq<seq<int>>` equal to what its array
  holds. Each method is proved against a specification function over that
  grid, found in `table.dfy` (module `Table`): `SelfLoops`, `Resized`,
  `RemovedStateAsWritten`, `RemovedMessage`, `WithEntry`, `Appended` and
  `ApplyWrites`. The array loops shared by the revisions are methods of
  `Table`. The change and reset events the engines raise are recorded in a
  ghost `events` log.
- **The named engine.** It holds two sets of names and a dictionary from a
  state's name to a `State`. A `State` holds a map from a message to the name
  of its target.
  - The current revision is `StringStateMachine` (`string_state_machine.dfy`)
    with `State` (`state.dfy`, module `NamedState`).
  - The older one is `HybridStateMachine` (`hybrid_state_machine.dfy`) with
    its own `State` (`hybrid_state.dfy`).

  The pure meaning of their operations is in `named.dfy` (module `Named`):
  `WithStates`, `WithMessages`, `SetCheck`, `Loaded`, `Recorded`,
  `Composed`, `Decomposed`, `Scrubbed` and `Indexed`. Every method states
  its new `Contents()` through these functions.
- **The transition document.** It holds the initial state, the state and
  message names, and one table of transitions per state.
  - The current models are `StateChangeModel`, `StateModel`, `StateTableModel`
    and `StateMachineModel`.
  - The shared project's older models have the same names with a `Shared`
    prefix on the module.

  Their parsers are modelled as step functions over an abstract XML node
  (`xml.dfy`). Their writers produce an abstract element tree. `Reread`
  states how the walker meets a written element when the file is read
  again. That is what the round-trip lemmas are stated over.

Supporting modules:
- `common.dfy`: `Option`, names as `Option<string>` (a C# `null` is `None`), the first-match `IndexOf`, and small sequence lemmas;
- `document.dfy`: the document datatypes;
- `sorting.dfy`: LINQ's stable `OrderBy` over an abstract comparison.

Behaviour of the C# source that a reader might not expect, which the model follows:
- `IntStateMachine.Set` stores its `initialState` argument directly (StateMachineBuddy/IntStateMachine.cs:141), so unlike the `InitialState` setter (54-68) it does not clamp it.
- `RemoveState` compares the destination counter with the removed state (StateMachineBuddy/IntStateMachine.cs:350-379), so the rows after it are not copied and no target is renumbered. See Findings.
- The current document writer sorts names and tables (StateMachineBuddy/Models/StateMachineModel.cs:177, 189, 201). The shared project's writer (StateMachineBuddy/StateMachineBuddy.SharedProject/Models/StateMachineModel.cs:129-157) writes them in stored order.
- `SendStateMessage` returns whether the state changed in `IntStateMachine` (StateMachineBuddy/IntStateMachine.cs:448), `StringStateMachine` (StateMachineBuddy/StringStateMachine.cs:284) and the oldest revision (StateMachineBuddy/StateMachine.cs:198). It returns nothing in `Source/StateMachine.cs:237`, the shared `StateMachine` (StateMachineBuddy/StateMachineBuddy.SharedProject/StateMachine.cs:456) and `HybridStateMachine` (StateMachineBuddy/StateMachineBuddy.SharedProject/Hybrid/HybridStateMachine.cs:279).
- `AddStateMachine` adds the model's names to hash sets (StateMachineBuddy/StringStateMachine.cs:109-141), so a name already present is merged silently rather than rejected.

## Model

| member | source | states |
|---|---|---|
| IntStateMachine.IntStateMachine.constructor | StateMachineBuddy/IntStateMachine.cs:122-130 | A new machine: cursor at 0, no arrays, no events. |
| IntStateMachine.IntStateMachine.SetInitialState | StateMachineBuddy/IntStateMachine.cs:54-68 | Stores the value when it is a state index, 0 otherwise; the result equals the value exactly when it is in range (or 0); nothing else changes. |
| IntStateMachine.IntStateMachine.Set | StateMachineBuddy/IntStateMachine.cs:138-162 | `n` by `m` table where every cell is its own row (a self-loop), `n` and `m` null names, and initial, current and previous state all `init`, unclamped; no event. |
| IntStateMachine.IntStateMachine.SetEntry | StateMachineBuddy/IntStateMachine.cs:188-198 | Exactly cell (state, message) becomes `nextState`; every other cell, the names and the cursor are unchanged; "every cell is a state" is preserved. |
| IntStateMachine.IntStateMachine.SetEntryByName | StateMachineBuddy/IntStateMachine.cs:207-213 | The cell at the first-match indexes of the message name and the target name is set; nothing else changes. |
| IntStateMachine.IntStateMachine.Resize | StateMachineBuddy/IntStateMachine.cs:279-330 | No-op unless both sizes are positive. Otherwise an old cell inside the new bounds keeps its target when that target is below `n`, and every other cell is a self-loop. The first names are kept and the new ones are null. "Every cell is a state" is preserved. |
| IntStateMachine.IntStateMachine.RemoveState | StateMachineBuddy/IntStateMachine.cs:336-393 | No-op with one state. Otherwise one state fewer, with the table and names as the copy loop really builds them (`RemovedStateAsWritten`). The initial state becomes 0 when it was the removed state or is now out of range. Messages and cursor are unchanged. |
| IntStateMachine.IntStateMachine.RemoveMessage | StateMachineBuddy/IntStateMachine.cs:399-437 | No-op with one message. Otherwise one message fewer, the column deleted and the other columns kept in order, names likewise. "Every cell is a state" is preserved. |
| IntStateMachine.IntStateMachine.SendStateMessage | StateMachineBuddy/IntStateMachine.cs:448-473 | Returns true iff the cell of (current, message) differs from the current state. The current state becomes that cell. The previous state is recorded and one change event logged only when it changed. |
| IntStateMachine.IntStateMachine.ForceState | StateMachineBuddy/IntStateMachine.cs:479-496 | The current state becomes `state`. Only when it differed is the previous state recorded and one change event logged. |
| IntStateMachine.IntStateMachine.ResetToInitialState | StateMachineBuddy/IntStateMachine.cs:514-524 | Previous and current state become the initial state; exactly one reset event, no change event. |
| IntStateMachine.IntStateMachine.GetStateFromName | StateMachineBuddy/IntStateMachine.cs:535-549 | -1 iff the name is absent; otherwise an index holding it with no earlier one. |
| IntStateMachine.IntStateMachine.GetMessageFromName | StateMachineBuddy/IntStateMachine.cs:556-570 | -1 iff the name is absent; otherwise the first index holding it. |
| Common.IndexOf | StateMachineBuddy/IntStateMachine.cs:535-570 | The name lookup: -1 iff the name is absent, otherwise an index holding it with no earlier occurrence. |
| IntStateMachine.IntStateMachine.GetEntry | StateMachineBuddy/IntStateMachine.cs:578-587 | The cell's target, which is a state whenever every cell is one. |
| IntStateMachine.IntStateMachine.Compare | StateMachineBuddy/IntStateMachine.cs:622-660 | True iff initial state, both name arrays and the whole table are equal. |
| IntStateMachine.IntStateMachine.LoadStateMachine | StateMachineBuddy/IntStateMachine.cs:686-734 | The document's names; the initial state's index through the clamping setter; current and previous state left at 0. The table is the self-loop table after each listed transition is written, in order, at its first-match indexes. |
| SharedStateMachine.StateMachine.constructor | StateMachineBuddy/StateMachineBuddy.SharedProject/StateMachine.cs:122-131 | A new machine: cursor and offset 0, no arrays, no events. |
| SharedStateMachine.StateMachine.SetInitialState | StateMachineBuddy/StateMachineBuddy.SharedProject/StateMachine.cs:56-70 | Stores the value when it is a state index, 0 otherwise; nothing else changes. |
| SharedStateMachine.StateMachine.Set | StateMachineBuddy/StateMachineBuddy.SharedProject/StateMachine.cs:140-165 | Self-loop table of the given sizes, null names, the offset recorded, and initial, current and previous state all `init`. |
| SharedStateMachine.StateMachine.SetEntry | StateMachineBuddy/StateMachineBuddy.SharedProject/StateMachine.cs:186-202 | Only the cell at column `message - offset` changes; it must lie in range. |
| SharedStateMachine.StateMachine.SetEntryByName | StateMachineBuddy/StateMachineBuddy.SharedProject/StateMachine.cs:211-217 | For any message offset, the cell at the first-match indexes of both names is set; nothing else changes. |
| SharedStateMachine.StateMachine.SetStateName | StateMachineBuddy/StateMachineBuddy.SharedProject/StateMachine.cs:255-262 | Only the state name at `state` changes. |
| SharedStateMachine.StateMachine.SetMessageName | StateMachineBuddy/StateMachineBuddy.SharedProject/StateMachine.cs:269-280 | Only the message name at `message - offset` changes. |
| SharedStateMachine.StateMachine.Resize | StateMachineBuddy/StateMachineBuddy.SharedProject/StateMachine.cs:287-338 | The overlap rule of `Resized`, and a no-op on non-positive sizes; names kept or padded with nulls. |
| SharedStateMachine.StateMachine.RemoveState | StateMachineBuddy/StateMachineBuddy.SharedProject/StateMachine.cs:344-401 | As for `IntStateMachine.RemoveState`: the as-written copy, the same initial-state rule, a no-op on one state. |
| SharedStateMachine.StateMachine.RemoveMessage | StateMachineBuddy/StateMachineBuddy.SharedProject/StateMachine.cs:407-445 | Column deleted, others in order; a no-op on one message. |
| SharedStateMachine.StateMachine.SendStateMessage | StateMachineBuddy/StateMachineBuddy.SharedProject/StateMachine.cs:456-481 | Moves to the cell at column `message - offset`. Only a different target records the previous state and logs one change event. |
| SharedStateMachine.StateMachine.ForceState | StateMachineBuddy/StateMachineBuddy.SharedProject/StateMachine.cs:487-504 | Moves; only a different state records the previous one and logs one event. |
| SharedStateMachine.StateMachine.ResetToInitialState | StateMachineBuddy/StateMachineBuddy.SharedProject/StateMachine.cs:522-532 | Previous and current state become the initial state; one reset event. |
| SharedStateMachine.StateMachine.GetStateFromName | StateMachineBuddy/StateMachineBuddy.SharedProject/StateMachine.cs:543-557 | -1 iff absent, otherwise the first index holding the name. |
| SharedStateMachine.StateMachine.GetMessageFromName | StateMachineBuddy/StateMachineBuddy.SharedProject/StateMachine.cs:564-580 | -1 when absent; otherwise the first index holding the name plus the offset. |
| SharedStateMachine.StateMachine.GetEntry | StateMachineBuddy/StateMachineBuddy.SharedProject/StateMachine.cs:588-601 | The cell at column `message - offset`; a state whenever every cell is one. |
| SharedStateMachine.StateMachine.GetStateName | StateMachineBuddy/StateMachineBuddy.SharedProject/StateMachine.cs:608-615 | The name at the index. |
| SharedStateMachine.StateMachine.GetMessageName | StateMachineBuddy/StateMachineBuddy.SharedProject/StateMachine.cs:622-633 | The name at `message - offset`. |
| SharedStateMachine.StateMachine.Compare | StateMachineBuddy/StateMachineBuddy.SharedProject/StateMachine.cs:641-679 | True iff initial state, names and table are equal. |
| SharedStateMachine.StateMachine.LoadDocument | StateMachineBuddy/StateMachineBuddy.SharedProject/StateMachine.cs:685-707 | The body of `LoadXml` on a built document: its names, offset 0, the clamped initial index, the cursor at 0, and the self-loop table after every listed transition is written. |
| SharedStateMachine.StateMachine.ReadNames | StateMachineBuddy/StateMachineBuddy.SharedProject/StateMachine.cs:753-818 | The machine grows by the number of listed names the lookups report absent. Old cells are kept and new cells are self-loops. The names become `Appended`: old slots kept, the absent names written from the old count on, in list order. |
| SharedStateMachine.StateMachine.AppendDocument | StateMachineBuddy/StateMachineBuddy.SharedProject/StateMachine.cs:709-723 | The body of `AppendXml`: names merged by `ReadNames`, then each listed transition written into the grown table. |
| SharedStateMachine.StateMachine.LoadNamedTables | StateMachineBuddy/StateMachineBuddy.SharedProject/StateMachine.cs:725-745 | `LoadStateTables`: the table after the writes every listed transition makes, in order. |
| SharedStateMachine.StateMachine.Grow | StateMachineBuddy/StateMachineBuddy.SharedProject/StateMachine.cs:781-785 | `ReadNames` resizing by the two counts: no change when both are 0, otherwise old cells kept under `Resized`, names padded with nulls. |
| SharedStateMachine.StateMachine.FillNew | StateMachineBuddy/StateMachineBuddy.SharedProject/StateMachine.cs:787-817 | The filling loops write the absent names from the old counts on, leaving `Appended`. |
| SourceStateMachine.StateMachine.constructor | Source/StateMachine.cs:124-133 | A new machine: cursor and offset 0, no arrays. |
| SourceStateMachine.StateMachine.SetInitialState | Source/StateMachine.cs:57-71 | Stores the value when it is a state index, 0 otherwise. |
| SourceStateMachine.StateMachine.Set | Source/StateMachine.cs:153-178 | Offset, initial state and a new n by m table are always stored. The fill loop runs over the counts of the name arrays still in place. Succeeds iff that old corner fits the new table, and then the table is `StaleFill` (a self-loop inside the old corner, 0 elsewhere), the names are new and unset, and the cursor is at the initial state. Otherwise the C# throws mid-fill: the table holds what was written before the throw, the old names and cursor stay, and the object no longer satisfies its invariant. |
| SourceStateMachine.StateMachine.SetEntry | Source/StateMachine.cs:199-215 | Only the offset-adjusted cell changes. |
| SourceStateMachine.StateMachine.SetEntryByName | Source/StateMachine.cs:224-230 | For any message offset, the cell at the first-match indexes of both names is set, through the offset-aware lookups and the index form; nothing else changes. |
| SourceStateMachine.StateMachine.SetStateName | Source/StateMachine.cs:462-469 | Only that state name changes. |
| SourceStateMachine.StateMachine.SetMessageName | Source/StateMachine.cs:513-524 | Only the offset-adjusted message name changes. |
| SourceStateMachine.StateMachine.Resize | Source/StateMachine.cs:351-402 | The overlap rule; a no-op on non-positive sizes. |
| SourceStateMachine.StateMachine.RemoveState | Source/StateMachine.cs:530-587 | The as-written copy; one state fewer; the initial state reset to 0 when removed or out of range; a no-op on the last state. |
| SourceStateMachine.StateMachine.RemoveMessage | Source/StateMachine.cs:593-631 | Column dropped, others in order; a no-op on the last message. |
| SourceStateMachine.StateMachine.SendStateMessage | Source/StateMachine.cs:237-262 | Moves along the offset-adjusted column; a change records the previous state and logs one change event. |
| SourceStateMachine.StateMachine.ForceState | Source/StateMachine.cs:268-285 | A different state records the previous one and logs one event; the same state changes nothing. |
| SourceStateMachine.StateMachine.ResetToInitialState | Source/StateMachine.cs:334-344 | Both cursor states become the initial one; one reset event (initial, initial). |
| SourceStateMachine.StateMachine.GetStateFromName | Source/StateMachine.cs:292-306 | -1 iff absent, else the first index. |
| SourceStateMachine.StateMachine.GetMessageFromName | Source/StateMachine.cs:313-329 | -1 when absent, else the first index plus the offset. |
| SourceStateMachine.StateMachine.GetEntry | Source/StateMachine.cs:410-423 | The offset-adjusted cell. |
| SourceStateMachine.StateMachine.GetMessageName | Source/StateMachine.cs:444-455 | The offset-adjusted name. |
| SourceStateMachine.StateMachine.Compare | Source/StateMachine.cs:639-677 | True iff initial state, names and table are equal. |
| SourceStateMachine.StateMachine.ReadNames | Source/StateMachine.cs:1195-1260 | Grows by the unseen names' counts (old cells kept); names become `Appended`. |
| SourceStateMachine.StateMachine.Grow | Source/StateMachine.cs:1195-1260 | The resize inside `ReadNames`: a no-op on two zero counts, otherwise `Resized` with null names appended. |
| SourceStateMachine.StateMachine.FillNew | Source/StateMachine.cs:1195-1260 | The filling loops leave `Appended`. |
| LegacyStateMachine.StateMachine.constructor | StateMachineBuddy/StateMachine.cs:123-134 | A new machine: counts, cursor and offset 0, no arrays. |
| LegacyStateMachine.StateMachine.SetInitialState | StateMachineBuddy/StateMachine.cs:70-84 | Keeps the value when it lies below the message count, as written, else stores 0. |
| LegacyStateMachine.StateMachine.Set | StateMachineBuddy/StateMachine.cs:143-166 | Counts, offset and initial state recorded; self-loop table; null names; current and previous state untouched. |
| LegacyStateMachine.StateMachine.SetEntry | StateMachineBuddy/StateMachine.cs:174-190 | Only the offset-adjusted cell changes. |
| LegacyStateMachine.StateMachine.SendStateMessage | StateMachineBuddy/StateMachine.cs:198-225 | Returns true iff the offset-adjusted cell differs from the current state; only then is the previous state recorded. |
| LegacyStateMachine.StateMachine.ForceState | StateMachineBuddy/StateMachine.cs:232-251 | Returns true iff the state differs from the current one; only then is the previous state recorded. |
| LegacyStateMachine.StateMachine.ResetToInitialState | StateMachineBuddy/StateMachine.cs:300-304 | Both cursor states become the initial one. |
| LegacyStateMachine.StateMachine.GetStateFromName | StateMachineBuddy/StateMachine.cs:258-272 | -1 iff absent, else the first index. |
| LegacyStateMachine.StateMachine.GetMessageFromName | StateMachineBuddy/StateMachine.cs:279-295 | -1 when absent, else the first index plus the offset. |
| LegacyStateMachine.StateMachine.GetStateName | StateMachineBuddy/StateMachine.cs:393-400 | The name at the index. |
| LegacyStateMachine.StateMachine.GetMessageName | StateMachineBuddy/StateMachine.cs:407-418 | The offset-adjusted name. |
| LegacyStateMachine.StateMachine.GetEntry | StateMachineBuddy/StateMachine.cs:373-386 | The offset-adjusted cell. |
| LegacyStateMachine.StateMachine.Resize | StateMachineBuddy/StateMachine.cs:311-365 | The overlap rule and counts, then current and previous state reset to the initial state; a no-op on non-positive sizes. |
| LegacyStateMachine.StateMachine.RemoveState | StateMachineBuddy/StateMachine.cs:456-516 | The as-written copy; the count drops by one before the initial state is checked against it. |
| LegacyStateMachine.StateMachine.RemoveMessage | StateMachineBuddy/StateMachine.cs:522-563 | Column dropped, others in order; a no-op on the last message. |
| LegacyStateMachine.StateMachine.Compare | StateMachineBuddy/StateMachine.cs:571-609 | True iff initial state, names and table are equal. |
| LegacyStateMachine.StateMachine.ReadNames | StateMachineBuddy/StateMachine.cs:1229-1294 | Grows by the unseen names' counts, which resets the cursor; names become `Appended`. |
| LegacyStateMachine.StateMachine.ReadStateTable | StateMachineBuddy/StateMachine.cs:1301-1331 | Each listed transition written at (state, message index - offset) in order; other cells are unchanged. |
| LegacyStateMachine.StateMachine.LoadDocument | StateMachineBuddy/StateMachine.cs:1157-1189 | The body of `ReadSerializedFile`: `Set` to the document's sizes, names copied, the initial state looked up, every transition written. |
| LegacyStateMachine.StateMachine.AppendDocument | StateMachineBuddy/StateMachine.cs:1199-1221 | The body of `AppendSerializedFile`: the offset replaced, names merged by `ReadNames`, the transitions written into the grown table. |
| LegacyStateMachine.StateMachine.Grow | StateMachineBuddy/StateMachine.cs:1229-1294 | The resize inside `ReadNames`; when it grows, current and previous state return to the initial state. |
| LegacyStateMachine.StateMachine.FillNew | StateMachineBuddy/StateMachine.cs:1229-1294 | The filling loops leave `Appended`. |
| LegacyStateMachine.StateMachine.Merge | StateMachineBuddy/StateMachine.cs:1199-1221 | With the offset unchanged: names merged, the initial state looked up in the merged names, every transition written into the grown table. |
| LegacyStateMachine.StateMachine.LoadAppended | StateMachineBuddy/StateMachine.cs:1199-1221 | After the names are merged: the initial index looked up and every listed transition written; sizes and names unchanged. |
| Table.SelfLoops | StateMachineBuddy/IntStateMachine.cs:138-162 | Every cell (i, j) of the filled table is i, so every cell is a state. |
| Table.Blank | StateMachineBuddy/IntStateMachine.cs:138-162 | `n` null names. |
| Table.NewSelfLoops | StateMachineBuddy/IntStateMachine.cs:138-162 | The fill loop yields a fresh array holding `SelfLoops`. |
| Table.StaleFill | Source/StateMachine.cs:153-178 | A cell is its row inside the old counts' corner and 0 outside it. |
| Table.StaleFillIsSelfLoops | Source/StateMachine.cs:153-178 | The stale fill is the self-loop table iff n <= 1, m = 0, or the sizes did not change. |
| Table.NewStaleFill | Source/StateMachine.cs:153-178 | The fill loop over the old counts yields a fresh array holding `StaleFill`. |
| Table.Resized | StateMachineBuddy/IntStateMachine.cs:279-330 | Shape n by m; every cell follows the overlap rule; a table without negative cells gives one whose every cell is a state. |
| Table.ResizedNames | StateMachineBuddy/IntStateMachine.cs:279-330 | The first `n` old names when shrinking; the old names and then nulls when growing. |
| Table.GrowKeepsEntries | StateMachineBuddy/StateMachineBuddy.SharedProject/StateMachine.cs:753-818 | Growing keeps every old cell and makes every new cell a self-loop. |
| Table.ResizedCopy | StateMachineBuddy/IntStateMachine.cs:294-317 | The copy loop fills a new array with exactly `Resized`. |
| Table.ResizedNamesCopy | StateMachineBuddy/IntStateMachine.cs:306-324 | The name copy yields exactly `ResizedNames`. |
| Table.RemovedStateAsWritten | StateMachineBuddy/IntStateMachine.cs:350-379 | One row fewer, same columns; no negative cell appears. |
| Table.RemovedStateAsWrittenAt | StateMachineBuddy/IntStateMachine.cs:350-379 | Cell (i, j) of the as-written removal: 0 from row `s` on; otherwise row i's target, with a target equal to `s` turned into i. |
| Table.RemovedStateNamesAsWritten | StateMachineBuddy/IntStateMachine.cs:350-379 | One name fewer; the names below `s` kept. |
| Table.RemovedInitial | StateMachineBuddy/IntStateMachine.cs:381-389 | The initial state is kept iff it is 0 or below the new count and not the removed state; otherwise 0. |
| Table.RemovedStateCopy | StateMachineBuddy/IntStateMachine.cs:350-379 | The copy loop fills new arrays with exactly `RemovedStateAsWritten` and its names. |
| Table.RemovedMessage | StateMachineBuddy/IntStateMachine.cs:399-437 | One column fewer; column j comes from old column j, or j + 1 from `c` on; every table whose cells are states stays so. |
| Table.RemovedMessageNames | StateMachineBuddy/IntStateMachine.cs:399-437 | One name fewer, the others in order (on a table with at least one state). |
| Table.RemovedMessageCopy | StateMachineBuddy/IntStateMachine.cs:399-437 | The copy loop fills new arrays with exactly `RemovedMessage` and its names. |
| Table.WithEntry | StateMachineBuddy/IntStateMachine.cs:188-198 | The cell (s, c) holds `v`, every other cell is unchanged, and a target that is a state keeps every cell a state. |
| Table.Clamp | StateMachineBuddy/IntStateMachine.cs:54-68 | The index when it is in range, 0 otherwise. |
| Table.Find | StateMachineBuddy/IntStateMachine.cs:535-549 | The lookup loop returns the first index holding the name, or -1. |
| Table.Lookup | StateMachineBuddy/StateMachineBuddy.SharedProject/StateMachine.cs:564-580 | -1 for an absent name, otherwise the first index plus the offset. |
| Table.SameNames | StateMachineBuddy/IntStateMachine.cs:622-660 | `Compare`'s loop is true iff the name arrays are equal. |
| Table.SameTable | StateMachineBuddy/IntStateMachine.cs:622-660 | `Compare`'s nested loop is true iff the tables are equal. |
| Table.Appended | StateMachineBuddy/StateMachineBuddy.SharedProject/StateMachine.cs:753-818 | Grown by the count of absent entries, with the old names as prefix. |
| Table.AppendedMerges | StateMachineBuddy/StateMachineBuddy.SharedProject/StateMachine.cs:753-818 | Without offset or null entries: old names keep their slots, every listed name is present, and each added slot holds a listed name. |
| Table.FillAbsentHoldsAll | StateMachineBuddy/StateMachineBuddy.SharedProject/StateMachine.cs:787-817 | After the filling pass every listed name is present. |
| Table.FillAbsentOnlyListed | StateMachineBuddy/StateMachineBuddy.SharedProject/StateMachine.cs:787-817 | The filling pass writes only listed names; every other slot keeps its name. |
| Table.NoneAbsent | StateMachineBuddy/StateMachineBuddy.SharedProject/StateMachine.cs:753-818 | When the counting pass counts nothing, every listed name is found. |
| Table.CountNew | StateMachineBuddy/StateMachineBuddy.SharedProject/StateMachine.cs:753-818 | The counting loop returns `CountAbsent`. |
| Table.FillNames | StateMachineBuddy/StateMachineBuddy.SharedProject/StateMachine.cs:787-817 | The filling loop leaves `FillAbsent`. |
| Table.ApplyWritesCell | StateMachineBuddy/StateMachineBuddy.SharedProject/StateMachine.cs:733-745 | After a sequence of writes a cell holds the last value written to it, or its old value. |
| Table.LoadTable | StateMachineBuddy/StateMachineBuddy.SharedProject/StateMachine.cs:733-745 | `LoadStateTable`: the table's transitions, each written after its names are looked up. |
| Table.LoadTables | StateMachineBuddy/StateMachineBuddy.SharedProject/StateMachine.cs:725-731 | `LoadStateTables`: the array holds `ApplyWrites` of every table's writes. |
| Table.SavedDoc | StateMachineBuddy/Models/StateMachineModel.cs:57-73 | The document of an index-based machine: its names, one table per state named after it, and the initial state's name. |
| Table.SavedTables | StateMachineBuddy/Models/StateMachineModel.cs:69-72 | The first n saved tables, one per row. |
| Table.RowWrites | StateMachineBuddy/StateMachineBuddy.SharedProject/StateMachine.cs:733-745 | A saved row writes only into its own row, at message indexes within the row, with a target different from the row. |
| Table.SavedTablesPrefix | StateMachineBuddy/Models/StateMachineModel.cs:69-72 | Building the tables row by row gives the saved document's tables. |
| Table.SavedRowResolves | StateMachineBuddy/StateMachineBuddy.SharedProject/StateMachine.cs:733-745 | With distinct names, loading a saved row writes exactly its non-self cells back at their indexes. |
| Table.RowLastWrite | StateMachineBuddy/StateMachineBuddy.SharedProject/StateMachine.cs:733-745 | A saved row's writes set exactly its non-self cells. |
| Table.LoadSavedTables | StateMachineBuddy/StateMachineBuddy.SharedProject/StateMachine.cs:725-745 | Loading the first k saved tables puts in each cell of the first k rows its saved target, and leaves the self-loop elsewhere. |
| Table.SavedCells | StateMachineBuddy/StateMachineBuddy.SharedProject/StateMachine.cs:685-745 | Every write of a saved document fits the table, and the last write to each cell is that cell's target. |
| Table.LoadInvertsSave | StateMachineBuddy/StateMachineBuddy.SharedProject/StateMachine.cs:685-745 | Round trip: with distinct names, loading the document built from a machine gives back its names, its table and its initial state. |
| Table.RemovedState | StateMachineBuddy/IntStateMachine.cs:336-393 | The corrected removal: one row fewer, same columns. |
| Table.RemovedStateNames | StateMachineBuddy/IntStateMachine.cs:336-393 | All names but the removed one, in order. |
| Table.RemovedStateAt | StateMachineBuddy/IntStateMachine.cs:336-393 | Cell (i, j) of the corrected removal comes from the surviving row: a target equal to `s` becomes a self-loop, and a target above `s` is renumbered. |
| Table.RemovedStateKeepsTransitions | StateMachineBuddy/IntStateMachine.cs:336-393 | The corrected removal keeps every cell a state of the smaller machine and every transition between two surviving states, renumbered. |
| Table.RemoveStateAsWrittenLeavesDanglingTarget | StateMachineBuddy/IntStateMachine.cs:336-393 | On the three-state table [[2],[1],[2]], removing state 1 as written leaves a cell naming state 2 of a two-state machine. |
| NamedState.State.constructor | StateMachineBuddy/State.cs:25-28 | A new State has an empty map. |
| NamedState.State.Copy | StateMachineBuddy/State.cs:34-40 | The copy holds exactly the original's (message, target) pairs, in a map of its own. |
| NamedState.CopyThenWrite | StateMachineBuddy/State.cs:34-40 | Writing into the original after copying it leaves the copy with the original's earlier pairs. |
| NamedState.State.Write | StateMachineBuddy/State.cs:16 | Writing a key adds it or replaces its target; no other key changes. |
| NamedState.State.Remove | StateMachineBuddy/State.cs:16 | Removing a key makes it absent; no other key changes. |
| NamedState.State.AddTable | StateMachineBuddy/StateMachineBuddy.SharedProject/Hybrid/State.cs:41-59 | The behaviour `StringStateMachine` calls for: throws iff some transition names an unknown message or target. No self-transition is recorded. What was written before the throw stays (`Recorded`). |
| NamedState.State.RemoveModel | StateMachineBuddy/StateMachineBuddy.SharedProject/Hybrid/State.cs:61-77 | The model's messages are removed, then every entry targeting one of its states (`Scrubbed`). |
| NamedState.State.RemoveTargeting | StateMachineBuddy/StateMachineBuddy.SharedProject/Hybrid/State.cs:70-76 | Every entry whose target is the state is removed and no other. |
| StringStateMachine.StringStateMachine.AddState | StateMachineBuddy/StringStateMachine.cs:112-124 | One name: content becomes `WithStates` of it; existing States kept, a new one fresh. |
| StringStateMachine.StringStateMachine.PutCopy | StateMachineBuddy/StringStateMachine.cs:76-79 | A fresh State under a new key holding the given State's entries; other keys unchanged. |
| HybridState.State.constructor | StateMachineBuddy/StateMachineBuddy.SharedProject/Hybrid/State.cs:17-20 | A new State has an empty map. |
| HybridState.State.AddIndexed | StateMachineBuddy/StateMachineBuddy.SharedProject/Hybrid/State.cs:22-39 | Message `j` maps to the name of its target for exactly the columns of the state's row that are not self-loops; other keys are unchanged. |
| HybridState.State.AddTable | StateMachineBuddy/StateMachineBuddy.SharedProject/Hybrid/State.cs:41-59 | Throws iff some transition's message or target is unknown, with no rollback. Self-transitions are never recorded. |
| HybridState.State.RemoveModel | StateMachineBuddy/StateMachineBuddy.SharedProject/Hybrid/State.cs:61-77 | The map becomes `Scrubbed`: no removed message as key, no removed state as target, every other entry kept. |
| HybridState.State.RemoveTargeting | StateMachineBuddy/StateMachineBuddy.SharedProject/Hybrid/State.cs:70-76 | Every entry whose target is the state is removed and no other. |
| Named.WithStatesIdempotent | StateMachineBuddy/StringStateMachine.cs:109-125 | Adding the same states twice is adding them once. No existing State is replaced. Every added name is a state with a State. |
| Named.WithStatesOne | StateMachineBuddy/StringStateMachine.cs:112-124 | One name joins `States` and gets an empty State only when it has none. |
| Named.WithStatesOfSet | StateMachineBuddy/StringStateMachine.cs:109-125 | AddStates depends only on the set of names listed. |
| Named.WithMessagesOfSet | StateMachineBuddy/StringStateMachine.cs:131-141 | AddMessages is the union with the listed names. |
| Named.SetCheck | StateMachineBuddy/StringStateMachine.cs:182-202 | No exception iff the state is known and has a State, the message is known and the target is known; the exceptions come in the source's order. |
| Named.LoadedRowOk | StateMachineBuddy/StringStateMachine.cs:372-378 | One table's transitions load without exception iff each passes `Set`'s checks. |
| Named.LoadedOk | StateMachineBuddy/StringStateMachine.cs:366-379 | `LoadStateMachine` throws exactly when some listed transition fails one of `Set`'s checks. |
| Named.RecordedOk | StateMachineBuddy/StateMachineBuddy.SharedProject/Hybrid/State.cs:41-59 | A table is recorded without exception iff every transition names a known message and target. |
| Named.RecordedNoSelf | StateMachineBuddy/StateMachineBuddy.SharedProject/Hybrid/State.cs:54-57 | No self-transition is ever recorded. |
| Named.RecordedKeepsPrefix | StateMachineBuddy/StateMachineBuddy.SharedProject/Hybrid/State.cs:43-58 | When transition i is the first to throw, exactly the writes of the transitions before it remain. |
| Named.ComposedTablesStep | StateMachineBuddy/StateMachineBuddy.SharedProject/Hybrid/HybridStateMachine.cs:130-140 | Composing tables is composing the first, then the rest unless it threw. |
| Named.ComposedTables | StateMachineBuddy/StringStateMachine.cs:214-224 | Composing tables never changes the name sets. |
| Named.ComposedTablesTouchOnly | StateMachineBuddy/StateMachineBuddy.SharedProject/Hybrid/HybridStateMachine.cs:130-140 | Composition writes only into the States the model's tables name. |
| Named.ScrubbedIdempotent | StateMachineBuddy/StateMachineBuddy.SharedProject/Hybrid/State.cs:61-77 | Scrubbing twice is scrubbing once. |
| Named.DroppedThenScrubbed | StateMachineBuddy/StateMachineBuddy.SharedProject/Hybrid/HybridStateMachine.cs:191-200 | Dropping the removed states' tables and then scrubbing the rest is the table part of `Decomposed`. |
| Named.RemoveUndoesAdd | StateMachineBuddy/StateMachineBuddy.SharedProject/Hybrid/HybridStateMachine.cs:124-207 | When the model's names are new, removing the model after adding it restores the state set, the message set and the StateTable's keys. When the model touches only its own states, it restores the whole content. |
| Named.RowAppliedStep | StateMachineBuddy/StateMachineBuddy.SharedProject/Hybrid/HybridStateMachine.cs:107-116 | One more column writes its message's name to its target's name unless the cell is a self-loop. |
| Named.AppliedRowAt | StateMachineBuddy/StateMachineBuddy.SharedProject/Hybrid/HybridStateMachine.cs:107-116 | After a row, message `mn[j]` maps to `sn[row[j]]` exactly when column j is not a self-loop, and keeps its entry otherwise. |
| Named.AppliedRowElse | StateMachineBuddy/StateMachineBuddy.SharedProject/Hybrid/HybridStateMachine.cs:107-116 | A key no column names keeps its entry. |
| Named.RowFromEmpty | StateMachineBuddy/StateMachineBuddy.SharedProject/Hybrid/State.cs:22-39 | A row written into an empty map has exactly one entry per non-self column, each to its target's name. |
| Named.IndexedRowAt | StateMachineBuddy/StateMachineBuddy.SharedProject/Hybrid/HybridStateMachine.cs:104-117 | With distinct state names, row i ends in the State of `sn[i]`, unaffected by the other rows. |
| Named.Indexed | StateMachineBuddy/StateMachineBuddy.SharedProject/Hybrid/HybridStateMachine.cs:104-117 | Importing rows keeps every existing State. |
| Named.IndexedNames | StateMachineBuddy/StateMachineBuddy.SharedProject/Hybrid/HybridStateMachine.cs:104-117 | Importing rows changes no name set. |
| Named.IndexedOther | StateMachineBuddy/StateMachineBuddy.SharedProject/Hybrid/HybridStateMachine.cs:104-117 | A State no row names is left alone. |
| Named.NamesAdded | StateMachineBuddy/StateMachineBuddy.SharedProject/Hybrid/HybridStateMachine.cs:98-99 | After the messages and states are added, every one is known and every state has a State. |
| Named.NamesOnly | StateMachineBuddy/StateMachineBuddy.SharedProject/Hybrid/HybridStateMachine.cs:98-99 | On an empty machine the sets are exactly the names and every State is empty. |
| Named.FromIndexed | StateMachineBuddy/StateMachineBuddy.SharedProject/Hybrid/HybridStateMachine.cs:96-118 | With distinct names, `SetStateMachine` on an empty machine: the sets are the names, and state `sn[i]` maps message `mn[j]` exactly when cell (i, j) is not a self-loop, to `sn[t[i][j]]`. |
| StringStateMachine.StringStateMachine.constructor | StateMachineBuddy/StringStateMachine.cs:65-67 | No states, messages or States, and a null cursor. |
| StringStateMachine.StringStateMachine.Copy | StateMachineBuddy/StringStateMachine.cs:73-89 | The copy has the other machine's States (each a new copy) and names. Its initial state is the other's if that is a state. |
| StringStateMachine.StringStateMachine.CopyTables | StateMachineBuddy/StringStateMachine.cs:76-79 | Each State copied under its key into a fresh State. |
| StringStateMachine.StringStateMachine.SetInitialState | StateMachineBuddy/StringStateMachine.cs:95-103 | A name in `States` becomes initial, previous and current state; any other changes nothing. |
| StringStateMachine.StringStateMachine.AddStates | StateMachineBuddy/StringStateMachine.cs:109-125 | Content becomes `WithStates`: idempotent union, a new empty State only for a name without one. |
| StringStateMachine.StringStateMachine.AddMessages | StateMachineBuddy/StringStateMachine.cs:131-141 | Content becomes `WithMessages`: the union. |
| StringStateMachine.StringStateMachine.Set | StateMachineBuddy/StringStateMachine.cs:182-202 | Throws `SetCheck`'s exception and writes nothing, or maps the message to the target, overwriting. |
| StringStateMachine.StringStateMachine.AddStateMachine | StateMachineBuddy/StringStateMachine.cs:208-225 | Content becomes `Composed`: messages, then states, then each table into the State it names. A table naming no State throws, and so does an unknown message or target. |
| StringStateMachine.StringStateMachine.AddTables | StateMachineBuddy/StringStateMachine.cs:214-224 | The loop over the model's tables yields `ComposedTables`. |
| StringStateMachine.StringStateMachine.RemoveStateMachine | StateMachineBuddy/StringStateMachine.cs:231-261 | Content becomes `Decomposed`: the model's names leave both sets and the StateTable, and the other States are scrubbed. A removed current state forces back to the initial one. |
| StringStateMachine.StringStateMachine.RemoveMessages | StateMachineBuddy/StringStateMachine.cs:234-237 | The model's messages leave the set. |
| StringStateMachine.StringStateMachine.RemoveStates | StateMachineBuddy/StringStateMachine.cs:239-242 | The model's states leave the set. |
| StringStateMachine.StringStateMachine.DropTables | StateMachineBuddy/StringStateMachine.cs:245-248 | The model's states leave the StateTable. |
| StringStateMachine.StringStateMachine.ScrubTables | StateMachineBuddy/StringStateMachine.cs:251-254 | Every remaining State is scrubbed. |
| StringStateMachine.StringStateMachine.ResetToInitialState | StateMachineBuddy/StringStateMachine.cs:270-277 | Previous and current become initial; one reset event, no change event. |
| StringStateMachine.StringStateMachine.SendStateMessage | StateMachineBuddy/StringStateMachine.cs:284-312 | True iff the current state's map sends the message to a different state. Then it moves, records the previous state and logs one event; otherwise nothing changes. |
| StringStateMachine.StringStateMachine.ForceState | StateMachineBuddy/StringStateMachine.cs:318-330 | Acts only for a name other than the current one that has a State; otherwise nothing changes. |
| StringStateMachine.StringStateMachine.LoadStateMachine | StateMachineBuddy/StringStateMachine.cs:366-379 | States, messages and initial state, then `Set` for every transition in order; the outcome is `Loaded`, throwing at the first failing check. |
| StringStateMachine.StringStateMachine.SetTables | StateMachineBuddy/StringStateMachine.cs:372-378 | The outer loading loop yields `Loaded`. |
| StringStateMachine.StringStateMachine.SetRow | StateMachineBuddy/StringStateMachine.cs:374-377 | The inner loading loop yields `LoadedRow`. |
| HybridStateMachine.HybridStateMachine.constructor | StateMachineBuddy/StateMachineBuddy.SharedProject/Hybrid/HybridStateMachine.cs:57-62 | No states, messages or States. |
| HybridStateMachine.HybridStateMachine.SetInitialState | StateMachineBuddy/StateMachineBuddy.SharedProject/Hybrid/HybridStateMachine.cs:86-94 | Only a known state moves initial, previous and current state. |
| HybridStateMachine.HybridStateMachine.SetStateMachine | StateMachineBuddy/StateMachineBuddy.SharedProject/Hybrid/HybridStateMachine.cs:96-118 | Content becomes `Indexed` over `WithStates(WithMessages(...))`: the machine's names, its initial state's name, and for every non-self cell its message's name mapped to its target's name. |
| HybridStateMachine.HybridStateMachine.SetIndexedRows | StateMachineBuddy/StateMachineBuddy.SharedProject/Hybrid/HybridStateMachine.cs:104-117 | The row loop yields `Indexed`. |
| HybridStateMachine.HybridStateMachine.SetIndexedRow | StateMachineBuddy/StateMachineBuddy.SharedProject/Hybrid/HybridStateMachine.cs:106-116 | One row written into the State of its name (`RowApplied`). |
| HybridStateMachine.HybridStateMachine.SetIndexedColumn | StateMachineBuddy/StateMachineBuddy.SharedProject/Hybrid/HybridStateMachine.cs:107-116 | One more column of the row applied (`RowApplied` over one more cell). |
| HybridStateMachine.HybridStateMachine.SetIndexedCell | StateMachineBuddy/StateMachineBuddy.SharedProject/Hybrid/HybridStateMachine.cs:114 | The `Set` call: the State of `state` maps `message` to `nextState`; nothing else changes. |
| HybridStateMachine.HybridStateMachine.ImportNames | StateMachineBuddy/StateMachineBuddy.SharedProject/Hybrid/HybridStateMachine.cs:98-101 | Messages then states added (`WithStates(WithMessages(...))`), every name known with a State, the cursor set to the initial state's name. |
| HybridStateMachine.HybridStateMachine.AddState | StateMachineBuddy/StateMachineBuddy.SharedProject/Hybrid/HybridStateMachine.cs:143-159 | One name: content becomes `WithStates` of it; existing States kept. |
| HybridStateMachine.HybridStateMachine.AddStates | StateMachineBuddy/StateMachineBuddy.SharedProject/Hybrid/HybridStateMachine.cs:143-159 | Content becomes `WithStates`. |
| HybridStateMachine.HybridStateMachine.AddMessages | StateMachineBuddy/StateMachineBuddy.SharedProject/Hybrid/HybridStateMachine.cs:161-171 | Content becomes `WithMessages`. |
| HybridStateMachine.HybridStateMachine.Set | StateMachineBuddy/StateMachineBuddy.SharedProject/Hybrid/HybridStateMachine.cs:235-256 | Checks state, State, message and target in that order and throws on the first miss, writing nothing; otherwise overwrites. |
| HybridStateMachine.HybridStateMachine.AddStateMachine | StateMachineBuddy/StateMachineBuddy.SharedProject/Hybrid/HybridStateMachine.cs:124-141 | Content becomes `Composed`. |
| HybridStateMachine.HybridStateMachine.RemoveStateMachine | StateMachineBuddy/StateMachineBuddy.SharedProject/Hybrid/HybridStateMachine.cs:177-207 | Content becomes `Decomposed`; a removed current state forces back to the initial one. |
| HybridStateMachine.HybridStateMachine.DropTables | StateMachineBuddy/StateMachineBuddy.SharedProject/Hybrid/HybridStateMachine.cs:191-194 | The model's states leave the StateTable. |
| HybridStateMachine.HybridStateMachine.ScrubTables | StateMachineBuddy/StateMachineBuddy.SharedProject/Hybrid/HybridStateMachine.cs:197-200 | Every remaining State is scrubbed. |
| HybridStateMachine.HybridStateMachine.ResetToInitialState | StateMachineBuddy/StateMachineBuddy.SharedProject/Hybrid/HybridStateMachine.cs:265-272 | Previous and current become initial; one reset event. |
| HybridStateMachine.HybridStateMachine.SendStateMessage | StateMachineBuddy/StateMachineBuddy.SharedProject/Hybrid/HybridStateMachine.cs:279-299 | Whenever the current state's map has the message it moves to the target, records the previous state and logs one event, even when the target is the current state; otherwise nothing changes. |
| HybridStateMachine.HybridStateMachine.ForceState | StateMachineBuddy/StateMachineBuddy.SharedProject/Hybrid/HybridStateMachine.cs:305-317 | Acts only for a different state that has a State, so a repeated identical call leaves the previous state where the first put it. |
| Xml.Reread | StateMachineBuddy/Models/StateChangeModel.cs:73-79 | A written element is met again with its tag, one leaf item per attribute and then its child elements. |
| StateChangeModel.StateChangeModel.constructor | StateMachineBuddy/Models/StateChangeModel.cs:30-32 | Message and target null. |
| StateChangeModel.StateChangeModel.Of | StateMachineBuddy/Models/StateChangeModel.cs:39-43 | Message and target as given. |
| StateChangeModel.StateChangeModel.ParseXmlNode | StateMachineBuddy/Models/StateChangeModel.cs:46-70 | Lower-cased "message" or "state" sets the field from the text; any other tag is rejected by the base parser. |
| StateChangeModel.StateChangeModel.WriteXmlNodes | StateMachineBuddy/Models/StateChangeModel.cs:73-79 | One "transition" element carrying exactly the message and the target. |
| StateChangeModel.ParsedChangeIgnoresCase | StateMachineBuddy/Models/StateChangeModel.cs:46-70 | The parse depends only on the lower-cased tag. |
| Common.Lower | StateMachineBuddy/Models/StateChangeModel.cs:52 | `ToLower` on tags: same length; exactly the upper-case ASCII letters change; no upper-case letter remains. |
| StateChangeModel.LowerIdempotent | StateMachineBuddy/Models/StateChangeModel.cs:52 | Lower-casing twice is lower-casing once. |
| StateChangeModel.TransitionRoundTrip | StateMachineBuddy/Models/StateChangeModel.cs:46-79 | Reading back a written transition restores it. |
| StateModel.StateModel.constructor | StateMachineBuddy/Models/StateModel.cs:32-34 | Null name, no transitions. |
| StateModel.StateModel.FromState | StateMachineBuddy/Models/StateModel.cs:41-52 | The transitions are exactly the State's entries whose target is not the state's name, once each. |
| StateModel.StateModel.ParseXmlNode | StateMachineBuddy/Models/StateModel.cs:55-79 | Lower-cased "name" sets the name, and "transitions" appends one transition per item. Other tags are rejected. |
| StateModel.StateModel.ParseStateTransitions | StateMachineBuddy/Models/StateModel.cs:85-90 | One item read into a new transition, appended unless the read throws. |
| StateModel.StateModel.WriteXmlNodes | StateMachineBuddy/Models/StateModel.cs:93-111 | Transitions replaced by their ordering by message, then written without those back to the state. |
| StateModel.StateRoundTrip | StateMachineBuddy/Models/StateModel.cs:55-111 | Reading back a written state gives its name and its non-self transitions, in written order. |
| StateModel.KeptAllEmitted | StateMachineBuddy/Models/StateModel.cs:41-111 | A state built from a State loses nothing when written: none of its transitions is a self-transition. |
| StateTableModel.StateTableModel.constructor | StateMachineBuddy/Models/StateTableModel.cs:31-34 | Null name, no transitions. |
| StateTableModel.StateTableModel.WithName | StateMachineBuddy/Models/StateTableModel.cs:36-39 | The name given, no transitions. |
| StateTableModel.StateTableModel.FromIndexed | StateMachineBuddy/Models/StateTableModel.cs:41-53 | Row i's table: one transition per message whose cell is not i, in message order, by names. |
| StateTableModel.StateTableModel.FromState | StateMachineBuddy/Models/StateTableModel.cs:55-67 | The State's entries whose target is not the name, once each, with AddAllMessages recorded. |
| StateTableModel.StateTableModel.ParseXmlNode | StateMachineBuddy/Models/StateTableModel.cs:69-104 | Lower-cased tags: "type" is skipped, "name" sets the name, "transition" appends from its attributes, "transitions" appends one per item, and others are rejected. |
| StateTableModel.StateTableModel.ParseStateTransitions | StateMachineBuddy/Models/StateTableModel.cs:106-111 | One item read into a new transition, appended unless the read throws. |
| StateTableModel.StateTableModel.WriteXmlNodes | StateMachineBuddy/Models/StateTableModel.cs:113-131 | Transitions sorted by message, then written without self-transitions unless AddAllMessages is set. |
| StateTableModel.EmittedKeeps | StateMachineBuddy/Models/StateTableModel.cs:113-131 | Emitted transitions are exactly the stored non-self ones, or all of them with AddAllMessages. |
| StateTableModel.WriteOrdersTransitions | StateMachineBuddy/Models/StateTableModel.cs:113-131 | Sorting is a permutation, is ordered by message, and forgets the stored order when no two different transitions tie. |
| StateTableModel.TransitionsRoundTrip | StateMachineBuddy/Models/StateTableModel.cs:93-111 | Written transitions read back are appended in order. |
| StateTableModel.RereadTable | StateMachineBuddy/Models/StateTableModel.cs:113-131 | A written table is met again as a "name" item and a "transitions" item holding one item per emitted transition. |
| StateTableModel.TableRoundTrip | StateMachineBuddy/Models/StateTableModel.cs:69-131 | Reading back a written table gives its name and the emitted transitions in written order. |
| StateMachineModel.StateMachineModel.constructor | StateMachineBuddy/Models/StateMachineModel.cs:40-55 | No names, no tables, null initial state. |
| StateMachineModel.StateMachineModel.FromIndexed | StateMachineBuddy/Models/StateMachineModel.cs:57-73 | The document is `SavedDoc` of the machine: initial name, names in index order, one table per state. |
| StateMachineModel.StateMachineModel.StateNamesFrom | StateMachineBuddy/Models/StateMachineModel.cs:60-63 | The state names in index order. |
| StateMachineModel.StateMachineModel.MessageNamesFrom | StateMachineBuddy/Models/StateMachineModel.cs:64-67 | The message names in index order. |
| StateMachineModel.StateMachineModel.TablesFrom | StateMachineBuddy/Models/StateMachineModel.cs:69-72 | One table per state, in index order, each as `SavedDoc` has it. |
| StateMachineModel.StateMachineModel.FromNamed | StateMachineBuddy/Models/StateMachineModel.cs:75-105 | Initial copied; each state and message name listed once; one table per StateTable key with its kept transitions and, with `addAllMessages`, a self-transition for each message it lacked. |
| StateMachineModel.StateMachineModel.Listing | StateMachineBuddy/Models/StateMachineModel.cs:78-85 | Each member of the set listed once. |
| StateMachineModel.StateMachineModel.TablesFromNamed | StateMachineBuddy/Models/StateMachineModel.cs:87-90 | One table per StateTable key, holding its kept transitions. |
| StateMachineModel.StateMachineModel.PadTables | StateMachineBuddy/Models/StateMachineModel.cs:92-104 | Every table padded with a self-transition per message it does not mention. |
| StateMachineModel.StateMachineModel.PadTable | StateMachineBuddy/Models/StateMachineModel.cs:96-102 | One table padded; the others unchanged. |
| StateMachineModel.PaddedHolds | StateMachineBuddy/Models/StateMachineModel.cs:92-104 | A padded table holds the old transitions and one self-transition for each listed message they did not mention, and nothing else. |
| StateMachineModel.Padded | StateMachineBuddy/Models/StateMachineModel.cs:92-104 | Padding only appends: the old transitions are a prefix. |
| StateMachineModel.PaddedCovers | StateMachineBuddy/Models/StateMachineModel.cs:92-104 | After padding every message has a transition. |
| StateMachineModel.PaddedDistinct | StateMachineBuddy/Models/StateMachineModel.cs:92-104 | Padding keeps distinct transitions distinct. |
| StateMachineModel.PaddedNothingMissing | StateMachineBuddy/Models/StateMachineModel.cs:92-104 | A table mentioning every message is not padded. |
| StateMachineModel.PaddedIdempotent | StateMachineBuddy/Models/StateMachineModel.cs:92-104 | Padding twice pads once. |
| StateMachineModel.PaddedKept | StateMachineBuddy/Models/StateMachineModel.cs:87-104 | A padded table from a State holds its kept transitions plus the filled self-transitions. |
| StateMachineModel.PaddedTablesOf | StateMachineBuddy/Models/StateMachineModel.cs:87-104 | Padding all tables built from a StateTable gives each its filled transitions. |
| StateMachineModel.StateMachineModel.ReadChildNodes | StateMachineBuddy/Models/StateMachineModel.cs:131-144 | Each item to the parser the callback names; the first fault stops the walk. |
| StateMachineModel.StateMachineModel.ParseXmlNode | StateMachineBuddy/Models/StateMachineModel.cs:107-152 | Exact tags: "Asset" recurses, "Type" is skipped, "initial" sets the initial state, "states"/"messages"/"stateChanges" fill the lists, anything else is a node error. |
| StateMachineModel.StateMachineModel.ParseStates | StateMachineBuddy/Models/StateMachineModel.cs:154-157 | Appends the item's "name" attribute. |
| StateMachineModel.StateMachineModel.ParseMessages | StateMachineBuddy/Models/StateMachineModel.cs:159-162 | Appends the item's "name" attribute. |
| StateMachineModel.StateMachineModel.ParseStateChanges | StateMachineBuddy/Models/StateMachineModel.cs:164-169 | A new table reads the item's items and is appended unless that read throws. |
| StateMachineModel.StateMachineModel.WriteXmlNodes | StateMachineBuddy/Models/StateMachineModel.cs:171-208 | Lists replaced by their orderings by name (tables' transitions by message), then emitted. |
| StateMachineModel.NamesRoundTrip | StateMachineBuddy/Models/StateMachineModel.cs:154-162 | Written names read back are appended in order. |
| StateMachineModel.RereadEmit | StateMachineBuddy/Models/StateMachineModel.cs:171-208 | A written document is met again as four items: "initial", "states", "messages", "stateChanges", each holding its written list. |
| StateMachineModel.TablesRoundTrip | StateMachineBuddy/Models/StateMachineModel.cs:164-169 | Written tables read back are appended as a new table reads each. |
| StateMachineModel.DocRoundTrip | StateMachineBuddy/Models/StateMachineModel.cs:107-208 | Reading a written document gives back its initial state, its names in written order and each table as written. |
| StateMachineModel.NormalizedPermutes | StateMachineBuddy/Models/StateMachineModel.cs:171-208 | Writing only reorders: each list is a sorted permutation of the stored one. |
| StateMachineModel.NormalizedIdempotent | StateMachineBuddy/Models/StateMachineModel.cs:171-208 | Writing twice leaves what writing once left. |
| StateMachineModel.WriteIgnoresOrder | StateMachineBuddy/Models/StateMachineModel.cs:171-208 | Documents whose lists are permutations of each other, with no two different items tying, write the same file. |
| Sorting.SortByPermutes | StateMachineBuddy/Models/StateMachineModel.cs:177 | OrderBy neither adds nor drops anything. |
| Sorting.SortBySorted | StateMachineBuddy/Models/StateMachineModel.cs:177 | OrderBy's result is ordered. |
| Sorting.SortByKeepsSorted | StateMachineBuddy/Models/StateMachineModel.cs:177 | OrderBy leaves an ordered list as it is. |
| Sorting.SortByIgnoresOrder | StateMachineBuddy/Models/StateMachineModel.cs:177 | When only equal items tie, permutations sort alike. |
| Sorting.SortedUnique | StateMachineBuddy/Models/StateMachineModel.cs:177 | Two sorted permutations of a list in which only equal items tie are equal. |
| SharedStateChangeModel.StateChangeModel.constructor | StateMachineBuddy/StateMachineBuddy.SharedProject/Models/StateChangeModel.cs:27-29 | Message and state null. |
| SharedStateChangeModel.StateChangeModel.FromIndexed | StateMachineBuddy/StateMachineBuddy.SharedProject/Models/StateChangeModel.cs:31-35 | Message and state are the names of the two indexes. |
| SharedStateChangeModel.StateChangeModel.ParseXmlNode | StateMachineBuddy/StateMachineBuddy.SharedProject/Models/StateChangeModel.cs:37-66 | Lower-cased "type" is skipped, "message"/"state" set the field, and others are rejected. |
| SharedStateChangeModel.StateChangeModel.WriteXmlNodes | StateMachineBuddy/StateMachineBuddy.SharedProject/Models/StateChangeModel.cs:69-75 | The same "transition" element as the current revision. |
| SharedStateChangeModel.SharedChangeItemsSkipType | StateMachineBuddy/StateMachineBuddy.SharedProject/Models/StateChangeModel.cs:43-49 | Reading items is the current reading of the same items without the "type" ones. |
| SharedStateChangeModel.WithoutType | StateMachineBuddy/StateMachineBuddy.SharedProject/Models/StateChangeModel.cs:43-49 | Exactly the items whose lower-cased tag is not "type". |
| SharedStateChangeModel.SharedTransitionRoundTrip | StateMachineBuddy/StateMachineBuddy.SharedProject/Models/StateChangeModel.cs:37-75 | A written transition reads back as itself. |
| SharedStateTableModel.StateTableModel.constructor | StateMachineBuddy/StateMachineBuddy.SharedProject/Models/StateTableModel.cs:28-31 | No name, no transitions. |
| SharedStateTableModel.StateTableModel.FromIndexed | StateMachineBuddy/StateMachineBuddy.SharedProject/Models/StateTableModel.cs:33-45 | Row i's table: one transition per message whose cell is not i, in message order. |
| SharedStateTableModel.StateTableModel.ParseXmlNode | StateMachineBuddy/StateMachineBuddy.SharedProject/Models/StateTableModel.cs:47-71 | Exact tags: "name" sets the name, "transitions" appends one transition per item, others rejected. |
| SharedStateTableModel.StateTableModel.ParseStateTransitions | StateMachineBuddy/StateMachineBuddy.SharedProject/Models/StateTableModel.cs:73-78 | One item read into a new transition, appended unless the read throws. |
| SharedStateTableModel.StateTableModel.WriteXmlNodes | StateMachineBuddy/StateMachineBuddy.SharedProject/Models/StateTableModel.cs:81-90 | A "transitions" element named by the table holding every stored transition in stored order. |
| SharedStateTableModel.SharedWritesAll | StateMachineBuddy/StateMachineBuddy.SharedProject/Models/StateTableModel.cs:81-90 | The shared writer emits all transitions, as the current one does with AddAllMessages, without sorting. |
| SharedStateTableModel.WrittenTableNotReadBack | StateMachineBuddy/StateMachineBuddy.SharedProject/Models/StateTableModel.cs:47-90 | A written table with a transition reads back its name and then stops at the first "transition" element. |
| SharedStateTableModel.SharedTransitionsRoundTrip | StateMachineBuddy/StateMachineBuddy.SharedProject/Models/StateTableModel.cs:73-78 | Written transitions, one item each, read back appended in order. |
| SharedStateTableModel.NestedTableRoundTrip | StateMachineBuddy/StateMachineBuddy.SharedProject/Models/StateTableModel.cs:47-78 | The nested form the parser expects reads back as the table itself. |
| SharedStateMachineModel.StateMachineModel.constructor | StateMachineBuddy/StateMachineBuddy.SharedProject/Models/StateMachineModel.cs:39-44 | No names, no tables, null initial state. |
| SharedStateMachineModel.StateMachineModel.FromIndexed | StateMachineBuddy/StateMachineBuddy.SharedProject/Models/StateMachineModel.cs:46-62 | The document is `SavedDoc` of the machine. |
| SharedStateMachineModel.StateMachineModel.StateNamesFrom | StateMachineBuddy/StateMachineBuddy.SharedProject/Models/StateMachineModel.cs:49-52 | The state names in index order. |
| SharedStateMachineModel.StateMachineModel.MessageNamesFrom | StateMachineBuddy/StateMachineBuddy.SharedProject/Models/StateMachineModel.cs:53-56 | The message names in index order. |
| SharedStateMachineModel.StateMachineModel.TablesFrom | StateMachineBuddy/StateMachineBuddy.SharedProject/Models/StateMachineModel.cs:58-61 | One table per state, in index order. |
| SharedStateMachineModel.StateMachineModel.ReadChildNodes | StateMachineBuddy/StateMachineBuddy.SharedProject/Models/StateMachineModel.cs:88-101 | Each item to the parser the callback names; the first fault stops the walk. |
| SharedStateMachineModel.StateMachineModel.ParseXmlNode | StateMachineBuddy/StateMachineBuddy.SharedProject/Models/StateMachineModel.cs:64-109 | Exact tags: "Asset" recurses, "Type" is skipped, "initial" is set, "stateNames"/"messageNames"/"states" fill the lists, anything else is a node error. |
| SharedStateMachineModel.StateMachineModel.ParseStateNames | StateMachineBuddy/StateMachineBuddy.SharedProject/Models/StateMachineModel.cs:111-114 | Appends the item's inner text. |
| SharedStateMachineModel.StateMachineModel.ParseMessageNames | StateMachineBuddy/StateMachineBuddy.SharedProject/Models/StateMachineModel.cs:116-119 | Appends the item's inner text. |
| SharedStateMachineModel.StateMachineModel.ParseStates | StateMachineBuddy/StateMachineBuddy.SharedProject/Models/StateMachineModel.cs:121-126 | A new table reads the item's items and is appended unless that read throws. |
| SharedStateMachineModel.StateMachineModel.WriteXmlNodes | StateMachineBuddy/StateMachineBuddy.SharedProject/Models/StateMachineModel.cs:129-157 | The initial state, then the three lists in stored order, unsorted. |
| SharedStateMachineModel.NameItem | StateMachineBuddy/StateMachineBuddy.SharedProject/Models/StateMachineModel.cs:111-119 | Read by inner text a name item gives its text; read by attribute it gives the "name" attribute, failing iff that is absent. |
| SharedStateMachineModel.NamesReadEmpty | StateMachineBuddy/StateMachineBuddy.SharedProject/Models/StateMachineModel.cs:111-149 | Names written as attributes read back by inner text: as many names, every one empty. |
| SharedStateMachineModel.TablesNotReadBack | StateMachineBuddy/StateMachineBuddy.SharedProject/Models/StateMachineModel.cs:121-157 | Written tables come back only when none holds a transition; otherwise the read stops at the first "transition" element. |
| SharedStateMachineModel.DocNotReadBack | StateMachineBuddy/StateMachineBuddy.SharedProject/Models/StateMachineModel.cs:64-157 | A written document reads back with its initial state, blank names and, if any transition exists, a fault. |
| SharedStateMachineModel.RereadSharedEmit | StateMachineBuddy/StateMachineBuddy.SharedProject/Models/StateMachineModel.cs:129-157 | A written shared document is met again as "initial", "stateNames", "messageNames" and "states" items. |
| SharedStateMachineModel.NamesRoundTrip | StateMachineBuddy/StateMachineBuddy.SharedProject/Models/StateMachineModel.cs:111-149 | Names read by their "name" attribute come back appended in order. |
| SharedStateMachineModel.NestedTablesRoundTrip | StateMachineBuddy/StateMachineBuddy.SharedProject/Models/StateMachineModel.cs:121-126 | Tables written in the nested form come back as themselves, in order. |
| SharedStateMachineModel.CorrectedRoundTrip | StateMachineBuddy/StateMachineBuddy.SharedProject/Models/StateMachineModel.cs:64-157 | With names read from their attribute and tables nested, a written document reads back exactly. |
| SharedStateMachineModel.SavedDocRoundTrip | StateMachineBuddy/StateMachineBuddy.SharedProject/Models/StateMachineModel.cs:46-62 | A document built from an index-based machine with set names meets the corrected round trip. |

## Left out

- File, content-pipeline and network I/O are not modelled: `LoadXml`/`AppendXml`/`WriteXml`'s file handling, `ReadSerializedFile`'s `ContentManager`, `ReadXmlFile`, `WriteXMLFile`, `ReadFromNetwork`/`WriteToNetwork`. The engines' loaders take an already-built document.
- The XML library (`XmlFileBuddy`, `XmlObject`, `XmlTextWriter`) is not part of this model. A node is a tag, an inner text, attributes and children. `Reread` fixes how a written element is met again: attributes first, as leaf items, then child elements. The base `ParseXmlNode` and `NodeError` are both modelled as a fault that stops the walk.
- Enum reflection (`Set(Type, Type)`, `AddStates(Type)`, `AddMessages(Type)`, `AddStateMachine(Type, Type, string)`, the `EnumStateMachine` classes) is left out; name sequences are passed directly.
- Event delivery is left out: raised events are appended to a ghost `events` log instead of invoking handlers, so re-entrant handlers are not modelled.
- LINQ's `OrderBy` string comparison is culture-sensitive; the model takes the comparison as a parameter `le` and proves sortedness and permutation for any total preorder.
- Aliasing of the public `List`s and arrays is not modelled: document lists are `seq` fields, and a machine's arrays are private to it.
- `HybridStateMachine`'s copy constructor is left out: it calls a `State` copy constructor that its own `State` class does not have.
- The C# `null` checks the engines leave to the runtime (a null dictionary key, a null name array before `Set`) become preconditions.
- `HybridStateMachine.SetStateMachine` and `HybridState.State.AddIndexed` take the index-based machine as an `IntStateMachine`. The shared `StateMachine` they name numbers messages from 0 through `GetMessageName`, which only addresses a column when its offset is 0, and it then behaves as `IntStateMachine` does.
- The current `State.cs` has no `AddStateMachine`/`RemoveStateMachine`, although `StringStateMachine` calls them; `NamedState.State.AddTable` and `RemoveModel` take their behaviour from the shared project's `State`.
- `StateMachineModel.FromNamed` does not persist `AddAllMessages`; the file carries no flag, so a read-back table has it unset (`StoredTables`).
- The constructors' `Filename` parameter is not modelled.
- The order in which a `HashSet` or `Dictionary` is enumerated is left unspecified: `FromNamed`, `Listing` and `TablesFromNamed` promise each member once, in some order.
- `StringStateMachine.SendStateMessage` requires an initialised cursor, because the C# looks a null current state up in a dictionary and throws.
- Timing benchmarks are not modelled.
- GetMessageFromName: the C# adds `MessageOffset` to the found index in 32-bit arithmetic (StateMachineBuddy/StateMachineBuddy.SharedProject/StateMachine.cs:574, Source/StateMachine.cs:323, StateMachineBuddy/StateMachine.cs:289), which wraps for an offset near `int.MaxValue`; the model's `Table.Lookup` uses unbounded integers and does not wrap. The same holds for the `message - MessageOffset` column adjustment in `SetEntry`, `GetEntry`, `GetMessageName`, `SetMessageName` and `SendStateMessage`.
- Lower (`Common.Lower`): folds only the ASCII letters 'A'-'Z', culture-invariantly. The C# `string.ToLower()` used on tags follows the current culture, so under a Turkish culture 'I' becomes a dotless 'ı', and non-ASCII capitals such as 'Ä' are folded too. The model's parsers can therefore accept or reject a tag differently from the source under such cultures.
- AddStates and AddMessages (`StringStateMachine`, `HybridStateMachine`): the names are `seq<string>`, so the one `null` element a C# `HashSet<string>` accepts cannot be added.

## Findings

| source | as written | input that shows it | evidently intended | confidence | as-written member | corrected member |
|---|---|---|---|---|---|---|
| StateMachineBuddy/IntStateMachine.cs:336-393 (same loop in all four revisions) | The copy loop tests the destination counter, not the source row, against the removed state, and never renumbers targets above it. | Table [[2],[1],[2]], remove state 1: the result [[2],[0]] names state 2 of a two-state machine. | Every row but the removed one copied; transitions into it become self-loops; targets above it renumbered. | not executed | Table.RemoveStateAsWrittenLeavesDanglingTarget | Table.RemovedStateKeepsTransitions |
| StateMachineBuddy/StateMachineBuddy.SharedProject/Models/StateTableModel.cs:81-90 | The writer puts "transition" elements directly inside a "transitions" element, but the parser (47-71) expects a "transitions" item holding the transitions; the first "transition" falls to the base parser. | Any table with one transition, written then read. | The written form reads back as the table. | not executed | SharedStateTableModel.WrittenTableNotReadBack | SharedStateTableModel.NestedTableRoundTrip |
| StateMachineBuddy/StateMachineBuddy.SharedProject/Models/StateMachineModel.cs:129-157 | Names are written as a "name" attribute but read back from the item's inner text (111-119), so every name comes back empty, and the tables stop the read. | A document with one state "a": it reads back as the name "". | Reading a written document gives it back. | not executed | SharedStateMachineModel.DocNotReadBack | SharedStateMachineModel.CorrectedRoundTrip |

The indexed engines keep the as-written `RemoveState`: callers of the library
see that behaviour. The corrected `Table.RemovedState` stands beside it with
its proved properties. The shared document model likewise keeps its
as-written writer, and `NestedTableElement`, `NestedEmit` and
`CorrectedRoundTrip` state the evidently intended form.
