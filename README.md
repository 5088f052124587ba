# Task store models for go-cli-task-manager

A Dafny model of the in-memory task store of the command-line task manager,
in the three versions the repository holds:

- **`TmStore`** (`tm.go`): a `TaskManager` with an id counter `nextId` and an
  `id -> Task` map. `Init` loads the JSON file and sets the counter to one
  past the largest id. `AddTask` ignores empty descriptions. `DeleteTask`,
  `CompleteTask` and `UncheckTask` act only on a present id. `ClearTasks`
  and `ListTasks` take the filters `"completed"` and `"pending"`. Every
  change rewrites the whole file.
- **`SrcStore`** (`src/task_manager.go`): the same store with one
  `ToggleTask`, the filters `"c"` and `"nc"`, and a save that writes
  `path + ".tmp"` and then renames it over the file.
- **`SliceStore`** (`main.go`): the earliest store. Tasks carry an `int32`
  ID and live in a slice. `currMaxId` is the largest ID handed out.
  `DeleteTask` and `CompleteTask` search linearly and `break` at the first
  match.

Shared parts:

- **`Tasks`** (`tasks.dfy`): the task record, the file as the loader finds it
  (`Missing`, `Blank`, a decoded `Document`, or `Malformed`), the running
  maximum, the ascending id order used for listing, and the loop that builds
  a filtered copy of a map.
- **`MapStore`** (`map_store.dfy`): the abstract state `Store(nextId, tasks)`
  of both map-backed versions, the id invariant `IdsBelowNext`, and the
  effect of `Init`, `AddTask` and a plain delete. These are identical in
  `tm.go` and `src/task_manager.go`.

Each version has three parts:

- **The spec.** A function gives the effect of each operation on the abstract
  state (`Added`, `Deleted`, `Toggled`, `Cleared`, `Listed`, `Removed`, ...).
- **The class.** It has the source's fields. Its methods update them in
  place and ensure `Model() == F(old(Model()), ...)`.
- **The lemmas.** They state what the source promises about these functions:
  single steps, its tests, and arbitrary sequences of operations (`Run`).

The file at the store's path is the field `disk`. Saving sets it to
`Document(tasks)`. Loading merges a `Document` into the map, because
`json.Unmarshal` into an existing Go map merges, and it replaces the slice in
`main.go`. A malformed file makes the program panic. Here that is
`ok == false`, with nothing changed, and the run ends there: the map-backed
managers' invariant `Valid()` then stays false, so no mutation can follow.
The clock is a parameter `now`, and
`ZeroTime` (0) stands for Go's zero `time.Time`. Printed outcomes become
return values: the assigned id, or whether the id was found.

## Model

| member | source | states |
|---|---|---|
| Tasks.MaxKey | tm.go:29-33 | The running maximum starting at 0 is non-negative, bounds every id, and is 0 or one of the ids. |
| Tasks.MaxKeyIs | tm.go:29-33 | Any value with those three properties is the running maximum, so the loop's result is determined. |
| Tasks.SortedIds | tm.go:134-140 | The collected and sorted ids are strictly ascending, contain exactly the given ids, and have no duplicates. |
| Tasks.Where | tm.go:88-102 | The filtering loop yields exactly the entries whose task passes the filter, with their tasks unchanged. |
| MapStore.Initialized | tm.go:27-34 | After loading, the map is the old map merged with the file's entries, every id lies below the counter, and the counter is 1 or one past an id in use. |
| MapStore.ReloadSetsCounter | src/task_manager_test.go:249-277 | A file with ids {1,2,3} gives counter 4; one with {5,9} gives 10. |
| MapStore.ReloadKeepsSavedTasks | tm.go:249-261 | Loading a saved document into a fresh store yields exactly the saved mapping. |
| MapStore.ReloadRestoresStore | tm_test.go:59-68 | A reload keeps the map, and restores the counter exactly when it was one past the largest id. |
| MapStore.AddThenReloadIsEqual | tm_test.go:42-68 | A fresh store with one task added reloads into an equal store, counter included. Times are abstract here, so this is the equality the test means; the Go test's `reflect.DeepEqual` also compares the monotonic clock reading that JSON drops. |
| MapStore.RestartReusesDeletedTopId | tm.go:27-61 | After the newest task is deleted, a restart recomputes the counter and hands that id out again. |
| MapStore.AddAssignsFreshId | tm.go:36-48 | An empty description changes nothing. Otherwise the new pending task is stored under the old counter, which was unused, the counter rises by one, and every other entry is kept. |
| MapStore.DeleteRemovesOnlyId | tm.go:53-61 | Delete removes exactly the given key and keeps the counter and every other entry; an absent id changes nothing. |
| TmStore.MarkingKeepsTheRest | tm.go:63-85 | Complete sets the flag and stamps now; Uncheck clears both. Both keep description and creation time, touch no other task, and keep the task stamped. |
| TmStore.ClearKeepsWhatListHides | tm.go:87-108 | Clear keeps exactly the tasks the same filter would not list. Any filter other than "completed" or "pending" empties the map. The counter never moves. |
| TmStore.ClearBothEmpties | tm.go:87-108 | Clearing "completed" and then "pending" empties any store. |
| TmStore.ListSelectsMatchingIds | tm.go:110-140 | "No tasks to show" exactly for an empty store. Otherwise the listing holds exactly the matching ids, strictly ascending. |
| TmStore.StepKeepsIds | tm.go:36-108 | Every operation keeps every id below the counter, never lowers the counter, and never reintroduces a retired id. |
| TmStore.RunKeepsIds | tm.go:27-108 | Over any sequence of operations the id invariant holds and the counter never decreases. |
| TmStore.RetiredIdStaysRetired | tm.go:36-108 | Within one process, an id that was used and then deleted or cleared never reappears, whatever operations follow. A restart can hand it out again (`MapStore.RestartReusesDeletedTopId`). |
| TmStore.RunKeepsStamps | tm.go:41-85 | With a clock that never reads zero, "every task has a creation time, and completedAt is zero iff pending" survives any sequence of operations. |
| TmStore.TaskManager.constructor | tm.go:264-270 | A new manager has counter 1 and no tasks and does no I/O. |
| TmStore.TaskManager.LoadTasksFromFile | tm.go:232-262 | A missing file is created empty. A blank file adds nothing. A document is merged into the map. A malformed one panics, with nothing changed. |
| TmStore.TaskManager.SaveTasksToFile | tm.go:208-230 | The existing file is truncated and receives the whole map. |
| TmStore.TaskManager.Init | tm.go:27-34 | Loading and then the running-max loop give exactly `Initialized`. On success they establish the invariant the mutations require; a malformed file leaves it false, so no mutation can follow. |
| TmStore.TaskManager.AddTask | tm.go:36-51 | Effect is `Added`. It reports the old counter as the new id, which was unused, and saves; an empty description changes and saves nothing. |
| TmStore.TaskManager.DeleteTask | tm.go:53-61 | Found iff the id is present. The effect is `Deleted`, and only a found id is saved. |
| TmStore.TaskManager.CompleteTask | tm.go:63-73 | Found iff present. The effect is `MarkedCompleted`, and only a found id is saved. |
| TmStore.TaskManager.UncheckTask | tm.go:75-85 | Found iff present. The effect is `MarkedPending`, and only a found id is saved. |
| TmStore.TaskManager.ClearTasks | tm.go:87-108 | Effect is `Cleared` for the filter; always saves. |
| TmStore.TaskManager.ListTasks | tm.go:110-140 | The selection: NoTasks iff empty, otherwise exactly the matching ids, strictly ascending. |
| SrcStore.ToggleFlipsOnlyId | src/task_manager.go:62-87 | Toggle flips the flag of a present task and stamps now when it becomes completed, or zero when pending. It keeps description and creation time and touches nothing else; an absent id changes nothing. |
| SrcStore.ToggleTwice | src/task_manager_test.go:87-120 | Toggling twice restores the flag. A pending task comes back exactly; a completed one carries the second clock reading. |
| SrcStore.DeleteAsWrittenKeepsPresentTask | src/task_manager.go:51-60 | As written, deleting a present id leaves the store unchanged. |
| SrcStore.DeleteTestScenario | src/task_manager_test.go:64-84 | After two adds, deleting 1 leaves both tasks as written; the corrected delete leaves only task 2. |
| SrcStore.ClearKeepsWhatListHides | src/task_manager.go:89-106 | Clear keeps exactly the tasks the same filter would not list. Any filter other than "c" or "nc" empties the map. The counter never moves. |
| SrcStore.ClearBothEmpties | src/task_manager_test.go:131-142 | Clearing "c" and then "nc" empties any store. |
| SrcStore.ClearTestScenario | src/task_manager_test.go:123-150 | Clearing "c" drops only the toggled task 2. Clearing "nc" drops the rest. The next adds get ids 4 and 5, and clearing "a" empties the map. |
| SrcStore.SaveTestScenario | src/task_manager_test.go:291-326 | After two adds the saved document decodes to exactly ids 1 and 2 with their descriptions. |
| SrcStore.ListSelectsMatchingIds | src/task_manager.go:108-133 | "No tasks to show" exactly for an empty store. Otherwise the listing holds exactly the matching ids ("c" completed, "nc" pending, else all), strictly ascending. |
| SrcStore.Scenario | src/task_manager.go:25-106 | Add two tasks, toggle 2 and delete 1: one completed task at id 2 is left with counter 3. A reload reproduces the state, and clearing "a" keeps the counter. |
| SrcStore.StepKeepsIds | src/task_manager.go:34-106 | Every operation keeps every id below the counter, never lowers it, and never reintroduces a retired id. |
| SrcStore.RetiredIdStaysRetired | src/task_manager.go:34-106 | Within one process, a retired id never reappears after any sequence of operations; the invariant holds and the counter never decreases. A restart can hand it out again (`MapStore.RestartReusesDeletedTopId`). |
| SrcStore.RunKeepsStamps | src/task_manager.go:39-79 | With a clock that never reads zero, "every task has a creation time, and completedAt is zero iff pending" survives any sequence of operations. |
| SrcStore.TaskManager.constructor | src/task_manager.go:233-239 | A new manager has counter 1, no tasks and no temporary file. |
| SrcStore.TaskManager.LoadTasksFromFile | src/task_manager.go:201-231 | A missing file is created empty. A blank file adds nothing. A document is merged. A malformed one panics, with nothing changed. |
| SrcStore.TaskManager.WriteTemporary | src/task_manager.go:168-191 | The temporary file receives the whole map; its frame (only `tmp` may change) keeps the destination untouched. |
| SrcStore.TaskManager.RenameOverDestination | src/task_manager.go:193-197 | The destination becomes the temporary file's content, and the temporary file is gone. |
| SrcStore.TaskManager.SaveTasksToFile | src/task_manager.go:166-199 | Temp write then rename: the destination ends holding the whole map and no temporary file is left. Between the steps the destination still holds the old document, by the frame of `WriteTemporary`. |
| SrcStore.TaskManager.Init | src/task_manager.go:25-32 | Loading and then the running-max loop give exactly `Initialized`. On success they establish the invariant the mutations require; a malformed file leaves it false, so no mutation can follow. |
| SrcStore.TaskManager.AddTask | src/task_manager.go:34-49 | Effect is `Added`. It reports the old, unused counter as the id and saves; an empty description changes and saves nothing. |
| SrcStore.TaskManager.DeleteTaskAsWritten | src/task_manager.go:51-60 | As written: it reports a deletion iff the id is absent, leaves the store unchanged either way, and saves only for an absent id. |
| SrcStore.TaskManager.DeleteTask | src/task_manager_test.go:64-84 | Corrected: found iff present. The effect is `Deleted`, and only a found id is saved. |
| SrcStore.TaskManager.ToggleTask | src/task_manager.go:62-87 | Found iff present. The effect is `Toggled`, and only a found id is saved. |
| SrcStore.TaskManager.ClearTasks | src/task_manager.go:89-106 | Effect is `Cleared` for the filter; always saves. |
| SrcStore.TaskManager.ListTasks | src/task_manager.go:108-133 | The selection: NoTasks iff empty, otherwise exactly the matching ids, strictly ascending. |
| SliceStore.MaxId | main.go:27-33 | The running maximum starting at 0 is non-negative, bounds every ID, and is 0 or one of the IDs. |
| SliceStore.FirstMatch | main.go:50-55 | The search result is the first index carrying the ID, or none when no element carries it. |
| SliceStore.FirstMatchIs | main.go:50-55 | A matching index with no match before it is the search result. |
| SliceStore.EmptyLoadRestartsAtOne | main.go:169-174 | Init on an empty file resets the literal's counter 1 to 0, so the first task still gets ID 1. |
| SliceStore.AppendedIdIsFresh | main.go:36-46 | Below the int32 limit the new ID is one more than the counter and larger than every ID. The bound and uniqueness carry over. |
| SliceStore.AppendAtLimitWraps | main.go:38-45 | At the int32 limit the new ID wraps to the minimum and the bound is lost. |
| SliceStore.RemovedSplicesOne | main.go:48-56 | Delete removes one element and keeps the order of the rest. That element is the first match when there is one, otherwise the first element. |
| SliceStore.SpliceKeepsIds | main.go:56 | Splicing out an element keeps the ID bound and uniqueness. |
| SliceStore.MarkingTouchesFirstMatchOnly | main.go:73-82 | Complete marks only the first match. It stamps now and keeps IDs, descriptions, creation times and length; with no match nothing changes. |
| SliceStore.RemovedIfPresentIsSafe | main.go:48-56 | The corrected delete changes nothing for an absent ID, and removes the first match otherwise. |
| SliceStore.DeleteOfMissingIdRemovesFirstTask | main.go:49-56 | As written, deleting ID 99 from tasks 1 and 2 removes task 1; the corrected delete keeps both. |
| SliceStore.TaskManager.constructor | main.go:169-173 | The literal in main: counter 1, no tasks. |
| SliceStore.TaskManager.FromFile | main.go:104-127 | A missing file is created empty. A blank file keeps the slice. A document replaces it. A malformed one panics, with nothing changed. |
| SliceStore.TaskManager.Init | main.go:25-34 | The slice is replaced by a document's entries, and a missing file is created empty. After a successful load the counter is the running maximum of the IDs, and every ID is at most the counter. A malformed file changes nothing. |
| SliceStore.TaskManager.AddTask | main.go:36-46 | Appends the pending task with the incremented (wrapping) counter as ID. It keeps the ID bound and uniqueness below the limit and has no empty-description check. |
| SliceStore.TaskManager.DeleteTask | main.go:48-58 | The search with break and the splice give exactly `Removed`, and keep the ID bound and uniqueness. |
| SliceStore.TaskManager.DeleteTaskIfPresent | main.go:48-58 | Corrected delete: found iff some element carries the ID. The effect is `RemovedIfPresent`, and it keeps the bound and uniqueness. |
| SliceStore.TaskManager.CompleteTask | main.go:73-82 | The search with break marks exactly the first match (`MarkedCompleted`) and keeps the ID bound and uniqueness. |

## Findings

| source | as written | input that shows it | evidently intended | confidence | as-written member | corrected member |
|---|---|---|---|---|---|---|
| src/task_manager.go:52 | The presence check is inverted. A present id is reported "not found" and kept. An absent id goes through a no-op delete, a save and a "has been deleted" message. | Store with ids 1 and 2, `DeleteTask(1)`: both tasks remain (`SrcStore.DeleteTestScenario`). | A present id is removed, and an absent id changes nothing (src/task_manager_test.go:64-84, and tm.go:53-61). | high; not executed | SrcStore.TaskManager.DeleteTaskAsWritten | SrcStore.TaskManager.DeleteTask |
| main.go:49-56 | When no element carries the ID, `idx` keeps its zero value and the first task is removed. | Tasks with IDs 1 and 2, `DeleteTask(99)`: task 1 is removed (`SliceStore.DeleteOfMissingIdRemovesFirstTask`). | Deleting an ID that no task carries changes nothing. | medium; not executed | SliceStore.TaskManager.DeleteTask | SliceStore.TaskManager.DeleteTaskIfPresent |

The operation sequences of `SrcStore` (`Step`, `Run`) use the corrected
delete.

## Left out

- Command-line entry points: `main()` in tm.go and main.go, and all of
  src/main.go (flag and cobra parsing, the `-271828` sentinel, the `int32`
  conversion of the flag, `os.Exit`).
- Rendering: the printing half of every `ListTasks`, `ListTasksCompact` and
  `ListTasksTable`, the "days ago" floating-point value, and the newline
  replacement. Printed messages are modelled only as the returned id or
  found flag.
- JSON bytes: `json.MarshalIndent`/`json.Unmarshal` are modelled as copying
  the map or slice into a `Document`. Only the outcome "malformed" of a
  decode is kept.
- I/O failures other than a malformed file: open, stat, read, write, close
  and rename errors that panic. The short-read behaviour of `f.Read` is also
  not modelled.
- The real clock: `time.Now()` is the parameter `now`, and the zero
  `time.Time` is 0. The monotonic clock reading that `time.Now()` carries,
  and that the JSON round trip drops, is not modelled.
- Go map iteration order: the loops pick an arbitrary remaining key, which
  covers every order Go may use.
- main.go `ToFile` is not modelled as an operation of the store, because only
  `main()` calls it. main.go `ListTasks` only prints.
- The stdout-capturing goroutines of src/task_manager_test.go (test-harness
  concurrency).
- Tasks.SortedIds: collecting the keys and the in-place `sort.Ints` are
  modelled by this function on sets. There is no array sort.
- MapStore.Added: does not model 64-bit overflow of `nextId`, because Go's
  `int` is treated as unbounded in the map-backed stores. The `int32`
  wrap-around of main.go is modelled.
- SliceStore.TaskManager.DeleteTask: requires a non-empty slice, because
  main.go panics on an empty one (`tasks[idx+1:]` is out of range).
- TmStore.TaskManager.SaveTasksToFile: requires that the file exists,
  because tm.go opens it without `O_CREATE` and panics otherwise. `Init`
  creates it, so every mutation requires an initialised store.
