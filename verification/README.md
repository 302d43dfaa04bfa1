# To-do list: task table, header statistics and add row

A model of the sequential logic of a mobile to-do app built on a Convex backend:

- **The task table** (`convex/todos.ts`). The "todos" table is an immutable
  sequence of records `{id, text, isCompleted}`, newest first, with ids drawn
  from a counter. Each handler is a pure function: `getTodos` lists,
  `addTodos` inserts, `toggleTodos` flips completion or throws
  "Todo not found", `deleteTask` removes one record, and `clearAllTodos`
  deletes every record and reports how many it deleted. A handler that throws
  rolls back, so the table is the same as before the call.
- **The header statistics** (`components/Header.tsx`). The completed count,
  total count and completion percentage are computed over the listing, which
  is absent (`undefined`) while the query loads. The percentage is an exact
  `real`.
- **The add row** (`components/TodoInput.tsx`). The row holds a text buffer and
  the outcome of the last submit. The button is disabled while the trimmed
  buffer is empty. The submit handler sends the buffer untrimmed. It clears
  the buffer only after the add resolves.

Files: `wrappers.dfy` (Option, Result), `todos.dfy` (module `Todos`),
`header.dfy` (module `Header`), `js_string.dfy` (module `JsString`: JavaScript's
`trim` and string truthiness), `todo_input.dfy` (module `TodoInput`).

Modelling choices:

- The database's `_id` and `_creationTime` are merged into one natural number.
  A larger id means a later insert. `Todos.Valid` is the database's own
  guarantee: ids strictly decrease along the table and are all below the next
  id. The handlers do not require it. Every table reachable from the empty one
  satisfies it (`Todos.ReachableTablesAreValid`).
- `ctx.db.delete` on an id with no document throws in the database runtime.
  `deleteTask` does not check for this itself, so `Todos.DeleteTask` returns
  `NonexistentDocument` for a missing id. It is not a silent no-op.
- `clearAllTodos` collects the table with `collect()`, oldest first, and starts
  all deletes at once with `Promise.all`. The model runs the deletes one after
  another, newest first (the order of `Todos.GetTodos`), which is the order
  `Todos.DeleteEach` is proved for. The count returned is the snapshot's
  length, as in the code.
- The add request's outcome is a parameter (`delivered`). Network and backend
  availability are outside the model. The `await` splits `handleAddTodo` in
  two: `TodoInput.Press` sends the buffer, and `TodoInput.Settle` applies the
  call's outcome to the row as it is when the call settles. Between the two
  the user may type or press again. `TodoInput.HandleAddTodo` is the case
  where nothing happens in between.

Three facts about the code shape the model:

- The backend stores text as typed and accepts every string, the empty one
  included. Only the client guard keeps all-whitespace text out, and it sends
  the untrimmed buffer.
- `ctx.db.delete` on a missing id is an error raised by the database.
- The backend has no update-text handler.

The client and backend names do not match, and the model does not reconcile
them. The backend is modelled as written.

- The add row calls `api.todos.addTodo` (components/TodoInput.tsx:28), but the
  backend exports `addTodos`.
- The item row calls `toggleTodo` and `deleteTodo` with `{id}` only
  (bound at components/TodoItem.tsx:49-50, called at components/TodoItem.tsx:111
  and :130). The backend exports `toggleTodos` and
  `deleteTask`, and `toggleTodos` also requires an `isCompleted` argument that
  it never reads (convex/todos.ts:22-26).

`TodoInput.SubmitToStore`'s delivered case assumes the input component's `addTodo` call
reaches `addTodos`. With the names as written no call reaches the backend:
only the undelivered case occurs, and every press on a non-blank buffer ends
in `AddFailed` with the buffer kept (`TodoInput.FailedSubmitKeepsBuffer`).

## Model

| member | source | states |
|---|---|---|
| `Todos.GetTodos` | convex/todos.ts:6-11 | the listing holds exactly the table's records (as a multiset), and on a valid table they are in strictly descending creation order |
| `Todos.ListingShowsLatestInsertFirst` | convex/todos.ts:6-20 | after inserting texts t1..tn, the listing is the new records latest first, followed by the earlier records in their earlier order |
| `Todos.InsertedLatestFirst` | convex/todos.ts:8-18 | the i-th record of that listing carries the i-th latest text verbatim, is not completed, and has the i-th largest of the new ids |
| `Todos.AddTodos` | convex/todos.ts:13-20 | insert adds exactly one record at the head, with the given text verbatim and `isCompleted` false; all earlier records follow unchanged; on a valid table the id is fresh and validity is kept |
| `Todos.ToggleTodos` | convex/todos.ts:22-34 | fails with TodoNotFound exactly when no record has the id; otherwise the length, every id and every text stay put, and on a valid table only the targeted record's `isCompleted` is negated |
| `Todos.ToggleTwiceRestores` | convex/todos.ts:30 | toggling the same id twice gives back the original table |
| `Todos.ToggleIgnoresFlagArgument` | convex/todos.ts:22-30 | the required `isCompleted` argument does not affect the outcome |
| `Todos.MissingIdLeavesTable` | convex/todos.ts:28-29 | toggling an absent id fails with TodoNotFound, deleting one fails with NonexistentDocument, and after either the settled table is the one before the call |
| `Todos.DeleteTask` | convex/todos.ts:36-42 | fails exactly when the id is absent; otherwise removes one record and, on a valid table, the result is the other records in their original order |
| `Todos.SpliceIsWithout` | convex/todos.ts:40 | in a newest-first table, cutting out the record at a position equals keeping every record whose id differs from it, in order |
| `Todos.DeleteUndoesAdd` | convex/todos.ts:13-42 | deleting the record an insert has just created restores the earlier records; the id is not reused |
| `Todos.DeleteFirst` | convex/todos.ts:40 | deleting the id of the newest record succeeds and leaves the other records in order |
| `Todos.DeleteEach` | convex/todos.ts:47-49 | deleting a prefix of the table, record by record, succeeds and leaves the rest of the table |
| `Todos.ClearAllTodos` | convex/todos.ts:44-52 | clear-all never fails, leaves the table empty, and returns `deleteCount` equal to the number of records before the call |
| `Todos.Apply` | convex/todos.ts:13-52 | every mutation, succeeding or rolled back, keeps the table valid |
| `Todos.Run` | convex/todos.ts:13-52 | any sequence of mutations keeps the table valid and never lowers the next id |
| `Todos.ReachableTablesAreValid` | convex/todos.ts:18 | every table reachable from the empty one has unique ids in newest-first order |
| `Header.Completed` | components/Header.tsx:25-27 | the filter keeps exactly the completed records, keeps all of them exactly when all are completed, and keeps none exactly when none are |
| `Header.CompletedCountsPositions` | components/Header.tsx:25-27 | the filter's length equals the number of positions holding a completed record |
| `Header.CompletedCount` | components/Header.tsx:25-27 | 0 when the listing is absent, otherwise the number of completed tasks |
| `Header.TotalCount` | components/Header.tsx:32 | 0 when the listing is absent, otherwise its length, and never below the completed count |
| `Header.ProgressPercentage` | components/Header.tsx:39-40 | 0 when there are no tasks; always in [0, 100]; 100 exactly when there are tasks and all are completed; 0 exactly when none is completed; with tasks present, p times the total equals 100 times the number of completed positions |
| `Header.Percent` | components/Header.tsx:40 | for 0 < whole and part <= whole the percentage is within [0, 100], equals 100 exactly when part = whole, equals 0 exactly when part = 0, and times whole equals 100 times part |
| `Header.FlipMovesCompletedPositions` | components/Header.tsx:25-27 | flipping the record at one position adds or removes exactly that position among the completed ones |
| `Header.ToggleShiftsCompletedCount` | components/Header.tsx:25-32 | a successful toggle moves the completed count by +1 when the record was open and by -1 when it was done, and leaves the total unchanged |
| `JsString.SkipLeading` | components/TodoInput.tsx:46 | finds the first non-whitespace position; everything before it is whitespace |
| `JsString.SkipTrailing` | components/TodoInput.tsx:46 | finds the end of the last non-whitespace run; everything after it is whitespace |
| `JsString.Trim` | components/TodoInput.tsx:46 | the result is one contiguous slice of the input; everything dropped is whitespace; it neither starts nor ends with whitespace; it is empty exactly when the input is all whitespace |
| `JsString.TrimIdempotent` | components/TodoInput.tsx:118 | trimming an already trimmed string changes nothing |
| `TodoInput.ChangeText` | components/TodoInput.tsx:110 | typing replaces the buffer and keeps the outcome |
| `TodoInput.AddDisabled` | components/TodoInput.tsx:118 | the add button is disabled exactly when the buffer is all whitespace, the empty buffer included |
| `TodoInput.SubmitAllowed` | components/TodoInput.tsx:46 | the submit guard passes exactly when the buffer holds a non-whitespace code point |
| `TodoInput.DisabledExactlyWhenGuardRejects` | components/TodoInput.tsx:46-118 | the button's disabled state and the submit guard are exact complements |
| `TodoInput.Press` | components/TodoInput.tsx:45-74 | a press sends the buffer as typed exactly when it is not all whitespace, and leaves the row unchanged, so the button stays enabled while the call is pending |
| `TodoInput.Settle` | components/TodoInput.tsx:74-78 | once the call settles, a resolve empties whatever the buffer holds by then and records success; a reject keeps the buffer and records the failure |
| `TodoInput.HandleAddTodo` | components/TodoInput.tsx:45-81 | for an all-whitespace buffer nothing is sent and the state is unchanged; otherwise the untrimmed buffer is sent, cleared on resolve, and kept as typed with a failure outcome on reject |
| `TodoInput.InitiallyDisabled` | components/TodoInput.tsx:118 | the row starts with an empty buffer, the button disabled, and a press sends nothing |
| `TodoInput.SecondPressWhilePendingResends` | components/TodoInput.tsx:45-81 | a second press before the first call settles finds the button enabled and sends the same buffer again; both adds store that text under two different ids |
| `TodoInput.TypingWhilePendingIsWiped` | components/TodoInput.tsx:74-75 | text typed while an add is pending is wiped when the add resolves and kept when it rejects |
| `TodoInput.SubmitToStore` | components/TodoInput.tsx:74-78 | an all-whitespace buffer sends nothing and leaves row and table alone; an undelivered call leaves the table and the buffer untouched and reports failure when something was sent; a delivered call stores the buffer as typed, not completed, at the head, keeps every earlier record, and empties the buffer |
| `TodoInput.SubmitStoresBufferAsTyped` | components/TodoInput.tsx:74-75 | a delivered submit puts the buffer, as typed and not completed, at the head of the listing, and empties the buffer |
| `TodoInput.FailedSubmitKeepsBuffer` | components/TodoInput.tsx:74-78 | an undelivered submit keeps the buffer, leaves the table unchanged, and reports failure if a call was made |
| `TodoInput.StoredTextIsNotTrimmed` | components/TodoInput.tsx:74 | for the buffer " milk ", the stored text is " milk " although its trim is "milk" |

## Left out

- The live query subscription, re-delivery to subscribers, and the `undefined` loading state beyond modelling it as an absent listing.
- The Convex runtime's concurrency. Each handler is one atomic step. The parallel deletes of `clearAllTodos` are applied in sequence.
- Argument validation by `v.id("todos")` and `v.string()`. Ids are plain numbers here.
- `Math.round` and the CSS width string in the header (components/Header.tsx:69-74). These are display formatting over floating point. The percentage is an exact real, not a double.
- Haptics, alerts and `console.log`. A failed add is the `AddFailed` outcome only.
- The focus state of the input row, and every animation in it.
- The item row, the empty-state view, the splash screen, navigation and theming. These are presentational or timer-driven.
- The list screen's edit draft, the new-item detection and the single-editor rule. The list screen is not part of this model.
- Strings are sequences of Unicode scalar values, while JavaScript strings are UTF-16 code units, so lone surrogates cannot be represented; `trim` is unaffected because every code point it strips lies in the Basic Multilingual Plane.
- Todos.ClearAllTodos: the deletes run newest first rather than in the oldest-first order of `collect()`; the parallel deletes have no order of their own.
- Todos.DeleteTask: a missing id is modelled as an error because the database throws; the code itself does not check for it.
- TodoInput.SubmitToStore: a call that fails after the backend has committed (a lost response) is not modelled; an undelivered call leaves the table untouched. The delivered case assumes `addTodo` reaches `addTodos`; with the names as written every press on a non-blank buffer ends in `AddFailed`.
