# Task scheduler: the task stores, in Dafny

This project models the state logic of a small browser to-do application with
two components:

- `App`, a flat to-do list. Its state is an ordered list of tasks
  (`{id, text, completed}`) and the text in the input box. It has handlers to
  add, delete and toggle a task, plus the completed and total counters behind
  its progress bar.
- `CalendarTaskScheduler`, the same tasks grouped by day. Its state maps a
  date key (`yyyy-MM-dd`) to that day's ordered tasks. It also holds the
  new-task box and an optional in-progress edit. It has handlers to add,
  delete, toggle, start editing, change the draft, save and cancel. The
  calendar marks the days that have tasks.

Each handler becomes a pure function from the current state and the handler's
arguments to the next state. The wall-clock id (`Date.now()`) and the formatted
date key (`format(selectedDate, "yyyy-MM-dd")`) are parameters. Ids are not
assumed unique, so every property holds for all tasks that carry the id.

Modules:

- `JsString` (`js_string.dfy`): ECMAScript `String.prototype.trim` over code
  points, with the whitespace set of sections 12.2 and 12.3 of ECMA-262.
- `TaskSeq` (`task_seq.dfy`): the shared `Task` record and the array
  operations the handlers use: filter by id, toggle map, retext map and the
  completed filter.
- `TodoApp` (`todo_app.dfy`): the flat list component.
- `CalendarStore` (`calendar_store.dfy`): the date-keyed map and its four
  updates. It also covers the no-empty-bucket shape that `deleteTask` keeps
  and that `toggleTaskCompletion` and `saveEditedTask` can break.
- `CalendarScheduler` (`calendar_scheduler.dfy`): the calendar component's
  state with the new-task box and the edit state, plus a worked one-day
  session.

The delete and toggle handlers of the calendar component touch only the
store. For them the `CalendarStore` functions are the model of the handler.

Two behaviours of the code are kept as they are:

- Only `deleteTask` keeps a date's key present exactly when its bucket is
  non-empty. Toggling or saving an edit on a date with no key binds it to
  `[]` (`CalendarStore.ToggleAbsentDateBindsEmpty`,
  `CalendarStore.ApplyEditAbsentDateBindsEmpty`). A later delete on that date
  drops the key again (`CalendarStore.DeleteDropsEmptyBucket`).
- Saving an edit does not check the text
  (`CalendarScheduler.SaveAcceptsEmptyText`), so a task can end up with empty
  text, which `addTask` never produces.

## Model

| member | source | states |
|---|---|---|
| JsString.Trim | src/CalendarTaskScheduler.tsx:53-58 | `trim()` gives the empty string exactly when every character is whitespace; a non-empty result starts and ends with a non-whitespace character and is no longer than the input |
| JsString.TrimCharacterization | src/CalendarTaskScheduler.tsx:53-58 | any split of a string into leading whitespace, a core that is empty or has non-whitespace ends, and trailing whitespace has that core as its `trim()`, so trim is uniquely determined |
| JsString.TrimIdempotent | src/App.tsx:15-18 | trimming an already trimmed text changes nothing, so a stored task text is its own trim |
| JsString.TrimIsInfix | src/App.tsx:18 | the trimmed text is a contiguous piece of what was typed |
| TaskSeq.Without | src/App.tsx:27 | filtering by id keeps exactly the tasks whose id differs; it shortens the list exactly when some task carries the id |
| TaskSeq.WithoutAppend | src/CalendarTaskScheduler.tsx:72 | filtering distributes over concatenation, so survivors keep their relative order |
| TaskSeq.WithoutAbsent | src/App.tsx:27 | filtering out an id that no task carries returns the list unchanged |
| TaskSeq.WithoutIdempotent | src/App.tsx:27 | filtering the same id a second time changes nothing |
| TaskSeq.ToggleMatching | src/App.tsx:31-35 | the toggle map keeps length, ids, texts and positions, and a task's flag changes exactly when its id matches |
| TaskSeq.ToggleInvolution | src/CalendarTaskScheduler.tsx:87-89 | toggling the same id twice restores the list |
| TaskSeq.ToggleAbsent | src/App.tsx:31-35 | toggling an id that no task carries returns the list unchanged |
| TaskSeq.WithoutAfterToggle | src/CalendarTaskScheduler.tsx:72-89 | deleting a task after toggling it gives the same list as deleting it |
| TaskSeq.RetextMatching | src/CalendarTaskScheduler.tsx:105-107 | the edit map keeps length, ids, completion flags and positions; matching tasks get the new text and the others are unchanged |
| TaskSeq.RetextLastWins | src/CalendarTaskScheduler.tsx:105-107 | of two saved edits of the same id, the later text is the one kept |
| TaskSeq.RetextToggleCommute | src/CalendarTaskScheduler.tsx:87-107 | editing the text and toggling completion of an id can be done in either order |
| TaskSeq.RetextSame | src/CalendarTaskScheduler.tsx:105-107 | saving the text every matching task already has changes nothing |
| TaskSeq.Completed | src/App.tsx:38 | the completed filter keeps exactly the completed tasks; it keeps them all exactly when all are completed |
| TaskSeq.CompletedAppend | src/App.tsx:21-38 | appending a task raises the completed count by one exactly when that task is completed |
| TaskSeq.CompletedAfterToggleUnique | src/App.tsx:31-38 | toggling a task whose id is unique moves the completed count by one, down if it was completed and up otherwise |
| TodoApp.Initial | src/App.tsx:11-12 | the list starts with no tasks and an empty input box |
| TodoApp.AddTask | src/App.tsx:14-24 | a blank input leaves the whole state unchanged, box included; otherwise the old list is kept as a prefix, one incomplete task with the given id and the non-empty trimmed text is appended, and the box is cleared |
| TodoApp.DeleteTask | src/App.tsx:26-28 | the new list is the filter by id, so it holds exactly the tasks whose id differs, in their original order (with `TaskSeq.WithoutAppend`); it is shorter exactly when the id was present; the box is untouched |
| TodoApp.ToggleTaskCompletion | src/App.tsx:30-36 | length, ids, texts and positions are kept, and a task's flag changes exactly when its id matches |
| TodoApp.CompletedTasks | src/App.tsx:38-39 | `completedTasks` equals the number of positions holding a completed task; it is at most `totalTasks`, zero exactly when no task is completed and equal to the total exactly when every task is |
| TodoApp.TotalTasks | src/App.tsx:39 | `totalTasks` is the length of the task list |
| TaskSeq.CompletedCountsPositions | src/App.tsx:38 | the completed filter has exactly one entry per position that holds a completed task |
| TodoApp.AddTaskCounts | src/App.tsx:21-39 | a non-blank add raises `totalTasks` by one and leaves `completedTasks` unchanged |
| TodoApp.DeleteUndoesAdd | src/App.tsx:21-27 | deleting the id of a task just added with an unused id gives back the old list |
| TodoApp.DeleteTaskNoOpAndIdempotent | src/App.tsx:27 | deleting an id that no task carries changes nothing, and deleting twice is the same as deleting once |
| TodoApp.ToggleTaskCompletionInvolution | src/App.tsx:31-39 | toggling twice restores the state, and `totalTasks` is unchanged by a toggle |
| TodoApp.ToggleMovesCompletedByOne | src/App.tsx:31-38 | toggling a task with a unique id moves `completedTasks` by exactly one |
| CalendarStore.TasksFor | src/CalendarTaskScheduler.tsx:55 | the lookup with an empty-list default is the date's bucket when the key is present and empty otherwise |
| CalendarStore.HasTasks | src/CalendarTaskScheduler.tsx:123 | a day is marked exactly when its bucket is non-empty, and a marked day has a key |
| CalendarStore.AddTask | src/CalendarTaskScheduler.tsx:52-65 | blank text leaves the map unchanged; otherwise the key set gains the date, other dates are unchanged, and the date's bucket is the old bucket (or empty) followed by one incomplete task with the given id and the non-empty trimmed text |
| CalendarStore.DeleteTask | src/CalendarTaskScheduler.tsx:70-83 | the date's bucket afterwards holds exactly the old tasks whose id differs, in order; the key stays exactly when some task survives; other dates keep their keys and buckets |
| CalendarStore.ToggleTaskCompletion | src/CalendarTaskScheduler.tsx:85-95 | the key set gains the date, other dates are unchanged, and the bucket keeps length, ids and texts while a flag changes exactly when its id matches |
| CalendarStore.ApplyEdit | src/CalendarTaskScheduler.tsx:103-112 | the key set gains the date, other dates are unchanged, and the bucket keeps length, ids and flags while matching tasks get the new text and the others stay unchanged |
| CalendarStore.HasTasksIffKey | src/CalendarTaskScheduler.tsx:76-123 | when no date is bound to an empty bucket, a day is marked exactly when its key is present |
| CalendarStore.AddTaskMarksDate | src/CalendarTaskScheduler.tsx:55-123 | after a non-blank add the date is marked even if it was absent, and the no-empty-bucket shape is kept |
| CalendarStore.DeleteTaskKeepsNoEmptyBuckets | src/CalendarTaskScheduler.tsx:76-80 | delete keeps the no-empty-bucket shape |
| CalendarStore.TogglePresentKeepsNoEmptyBuckets | src/CalendarTaskScheduler.tsx:91-112 | on a date that has a key, toggle and saved edit keep the no-empty-bucket shape |
| CalendarStore.ToggleAbsentDateBindsEmpty | src/CalendarTaskScheduler.tsx:86-94 | toggle on a date with no key binds it to an empty bucket, which breaks the no-empty-bucket shape and leaves a present but unmarked day |
| CalendarStore.ApplyEditAbsentDateBindsEmpty | src/CalendarTaskScheduler.tsx:104-112 | saving an edit on a date with no key binds it to an empty bucket in the same way |
| CalendarStore.DeleteUndoesAdd | src/CalendarTaskScheduler.tsx:55-80 | deleting a task just added with an id unused on its date restores the map, provided the date was not bound to an empty bucket |
| CalendarStore.DeleteTaskNoOpAndIdempotent | src/CalendarTaskScheduler.tsx:71-80 | delete on a date with no key changes nothing, and deleting twice is the same as deleting once |
| CalendarStore.DeleteAbsentIdKeepsStore | src/CalendarTaskScheduler.tsx:71-80 | deleting an id that no task of a non-empty bucket carries leaves the store unchanged |
| CalendarStore.DeleteDropsEmptyBucket | src/CalendarTaskScheduler.tsx:71-80 | deleting anything from a date bound to an empty bucket removes that date's key |
| CalendarStore.ToggleTwice | src/CalendarTaskScheduler.tsx:86-94 | toggling twice restores the date's bucket; it restores the whole map exactly when the date had a key |
| CalendarStore.DeleteAfterToggle | src/CalendarTaskScheduler.tsx:71-94 | deleting after toggling the same id is the same as deleting |
| CalendarScheduler.Initial | src/CalendarTaskScheduler.tsx:22-24 | the component starts with an empty store, an empty box and no edit, which has the no-empty-bucket shape |
| CalendarScheduler.AddTask | src/CalendarTaskScheduler.tsx:52-68 | a blank box leaves the whole state unchanged, box included; otherwise the key set gains the date, every other date keeps its bucket, the date's bucket gains the trimmed task at its end, the box is cleared and the edit state is kept |
| CalendarScheduler.StartEditingTask | src/CalendarTaskScheduler.tsx:97-99 | opens an edit of the given date, id and draft without touching the store or the box |
| CalendarScheduler.ChangeEditingText | src/CalendarTaskScheduler.tsx:232-237 | replaces the draft text, keeping the edited date and id, the store and the box |
| CalendarScheduler.SaveEditedTask | src/CalendarTaskScheduler.tsx:101-115 | with no edit open nothing changes; otherwise the edit is applied to the store, the edit is closed and the box is kept |
| CalendarScheduler.CancelEditingTask | src/CalendarTaskScheduler.tsx:117-119 | closes the edit without touching the store or the box |
| CalendarScheduler.CancelDiscardsDraft | src/CalendarTaskScheduler.tsx:97-237 | start, type, cancel leaves the store and box exactly as they were |
| CalendarScheduler.SaveUnchangedEditIsNoOp | src/CalendarTaskScheduler.tsx:97-112 | saving an edit opened with a task's current text leaves the store unchanged for a date that has a key |
| CalendarScheduler.SaveAcceptsEmptyText | src/CalendarTaskScheduler.tsx:101-112 | an edit saved with an empty draft gives the task empty text; nothing checks it |
| CalendarScheduler.OneDaySessionAdds | src/CalendarTaskScheduler.tsx:52-68 | adding "Buy milk" and then "  Walk dog " to one day gives that day both tasks in order, trimmed and incomplete, and clears the box each time |
| CalendarScheduler.OneDaySessionCompletesAndDeletes | src/CalendarTaskScheduler.tsx:70-95 | completing "Buy milk" flips only that task; deleting "Walk dog" and then "Buy milk" ends with the day's key gone |

## Left out

- Rendering: JSX, styling, the dark-mode toggle, icons and the calendar
  widget are presentation only. The "No tasks available" test on
  `Object.keys` is not modelled.
- Listing order: the "All Tasks" panel lists dates in `Object.entries`
  order, without sorting. The model keeps an unordered map and does not
  model the listing.
- `src/AllTask.tsx` and `src/TaskList.tsx` only render. `TaskList.tsx` looks
  up the selected date with `tasksByDate[date] || []`, which is
  `CalendarStore.TasksFor`. `AllTask.tsx` iterates over `Object.keys` and
  reads `tasksByDate[date].map` with no default, so it only reads keys that
  are present.
- Date formatting with `date-fns` is a foreign library. The date key is an
  opaque string parameter.
- `Date.now()` reads the wall clock. The id is a parameter, and nothing
  assumes ids are unique.
- `localStorage` persistence with `JSON.stringify` is browser I/O. The
  calendar component still writes the whole store to `localStorage` on every
  render (`CalendarTaskScheduler.tsx` line 39). The load effect and the save
  effect are commented out, so nothing is ever read back.
- `progressPercentage` uses floating-point division and is not modelled.
- React `useState` batching and stale closures are not modelled. The
  calendar `deleteTask`, `toggleTaskCompletion` and `saveEditedTask` compute
  the new bucket from the state their closure captured, then write it into
  the latest state. The
  model covers the sequential case, where both are the same state.
- Inherited object properties are not modelled. A date key such as
  `"constructor"` would read a prototype member in JavaScript, but formatted
  dates never take that form.
- The input box's own change handlers (`setNewTask`) and `handleDateChange`
  just store a value. The model takes the box text and the date as given.
- JsString.Trim: strings are sequences of Unicode code points. UTF-16 code
  units and lone surrogates are not modelled, and the whitespace set is the
  fixed list of ECMA-262 sections 12.2 and 12.3.
