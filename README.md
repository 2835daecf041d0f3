# Task management app: a Dafny model of its store, view and dialog

This project models the client-side core of a single-user task manager written in
TypeScript with React and Redux. It covers four parts:

- **The task store** (`src/store/taskSlice.ts`). The store holds the task list and
  the view filter, and writes the whole list to browser storage after each change
  to the list. It is modelled as the class `TaskSlice.TaskStore`. Its fields are
  `tasks`, `filter` and `stored`. `stored` is the storage entry under the key
  `"tasks"`, and `None` means the key is absent. There is one method per reducer:
  `addTask`, `updateTask`, `deleteTask`, `reorderTasks` and `setFilter`.
  The predicate `Synced()` says that loading storage again would give back the list
  the store holds. Every method keeps it; every list-changing method re-establishes
  it by writing.
- **The view projection** (`src/App.tsx`). It filters the list by status and
  priority, then stable-sorts it by creation time or by priority rank, largest
  first. It is modelled as functions: `App.View`, built from `App.FilterTasks` and
  `App.SortTasks`. The engine's `Array.prototype.sort` is stable, as section
  23.1.3.30 of ECMA-262 (2019 and later) requires. `SortTasks` is an insertion sort
  by key. `App.StableSortIsUnique` proves that every stable sort by descending key
  gives exactly its result, so modelling the engine's sort this way is exact.
  Since `View` is a function, computing it cannot change the store.
- **The drag handler** (`src/App.tsx`). It copies the store's list, splices out
  the element at the source index and splices it back in at the destination
  index. Then it dispatches `reorderTasks`. This is `App.DragReorder` (the list
  computation) and `App.HandleDragEnd` (the dispatch). The indices come from the
  rows of the filtered and sorted view (`src/App.tsx:129-130`). The model keeps
  this as written: it moves the store's element at the view's index.
  `App.View`'s length bound ensures the index is valid in the store's list.
  It is not necessarily the same task, as `App.ViewExample` shows: with
  the default newest-first order the first row is the second stored task.
- **The task dialog** (`src/components/TaskDialog.tsx`). This covers the form it
  opens with (`TaskDialog.FormFor`) and the record its submit handler builds and
  dispatches (`TaskDialog.Submit`, `TaskDialog.HandleSubmit`).

The filter's status and priority are plain strings, as `src/types/task.ts:14-15`
types them. A task's status and priority are enumerations, and `StatusName` and
`PriorityName` give the strings they are stored and compared as. Timestamps are
integers: the milliseconds that `new Date(iso).getTime()` yields.

Four details of the code worth stating plainly:

- The store does not create ids or timestamps. The dialog does, and `addTask`
  pushes whatever payload it gets.
- `updateTask` does not refresh `updatedAt`. The dialog sets it, and the reducer
  stores the payload as it is.
- `deleteTask` writes storage even when no task has the id.
- `updateTask` with an unknown id writes nothing.

## Model

| member | source | states |
|---|---|---|
| TaskTypes.StatusName | src/types/task.ts:5 | a status's stored name is never the filter wildcard "all" |
| TaskTypes.PriorityName | src/types/task.ts:6 | a priority's stored name is never the filter wildcard "all" |
| TaskSlice.IndexOfId | src/store/taskSlice.ts:31 | `findIndex` by id: -1 exactly when no task has the id, otherwise a position holding the id with no earlier position holding it |
| TaskSlice.WithoutId | src/store/taskSlice.ts:38 | the delete filter: no task with the id remains and the list does not grow |
| TaskSlice.WithoutIdCount | src/store/taskSlice.ts:38 | deleting keeps every copy of a task with another id and drops every copy of a task with this id |
| TaskSlice.WithoutIdAppend | src/store/taskSlice.ts:38 | deleting works piecewise over concatenation, so the kept tasks stay in list order |
| TaskSlice.WithoutAbsentId | src/store/taskSlice.ts:37-40 | deleting an id no task has leaves the list as it was (storage is still written) |
| TaskSlice.WithoutIdIdempotent | src/store/taskSlice.ts:37-39 | deleting the same id twice equals deleting it once |
| TaskSlice.IndexOfOwnId | src/store/taskSlice.ts:31-33 | with unique ids, the id of the task at position i is found at position i, so an update hits that task |
| TaskSlice.AddFreshKeepsIdsUnique | src/store/taskSlice.ts:26-29 | appending a task whose id is new keeps the ids unique (the reducer itself checks nothing) |
| TaskSlice.UpdateKeepsIdsUnique | src/store/taskSlice.ts:30-35 | replacing the first task with the payload's id keeps the ids unique |
| TaskSlice.DeleteKeepsIdsUnique | src/store/taskSlice.ts:37-40 | deleting by id keeps the ids unique |
| TaskSlice.TaskStore.constructor | src/store/taskSlice.ts:4-20 | the initial state: the stored list, or no tasks when nothing is stored (`loadTasksFromStorage`, lines 4-7, is the function `TaskSlice.Load`); filter all/all/date; storage untouched; synced |
| TaskSlice.TaskStore.AddTask | src/store/taskSlice.ts:26-29 | the list becomes the old list plus the payload at the end, storage holds the new list, the filter is unchanged |
| TaskSlice.TaskStore.UpdateTask | src/store/taskSlice.ts:30-36 | with the id present, the first task with it is replaced in place and storage holds the new list; with it absent, list and storage are unchanged |
| TaskSlice.TaskStore.DeleteTask | src/store/taskSlice.ts:37-40 | the list becomes the tasks with another id, and storage is written even when nothing was removed |
| TaskSlice.TaskStore.ReorderTasks | src/store/taskSlice.ts:41-44 | the list becomes exactly the payload, unchecked, and storage holds it |
| TaskSlice.TaskStore.SetFilter | src/store/taskSlice.ts:45-47 | the filter becomes the merge of the old filter and the patch; list and storage are untouched |
| TaskSlice.Merge | src/store/taskSlice.ts:46 | the object spread: a field given in the patch overrides, an absent one keeps its old value |
| TaskSlice.MergeIdempotent | src/store/taskSlice.ts:45-47 | applying the same partial filter twice equals applying it once |
| TaskSlice.MergeEmpty | src/store/taskSlice.ts:46 | an empty patch leaves the filter as it is |
| App.FilterTasks | src/App.tsx:37-41 | every kept task passes the filter (status filter "all" or its status, and priority filter "all" or its priority; the `.filter` callback of lines 38-41 is the predicate `App.Shown`); the result is no longer than the list |
| App.FilterTasksAppend | src/App.tsx:37-41 | filtering works piecewise over concatenation, so the kept tasks stay in list order |
| App.FilterTasksCount | src/App.tsx:37-41 | filtering keeps every copy of a task that passes the filter and no copy of one that does not |
| App.PriorityRank | src/App.tsx:46 | the `priorityOrder` ranks lie between 1 and 3 |
| App.WithKeyMembers | src/App.tsx:42-48 | the run of tasks with a given sort key holds exactly the tasks of the list with that key |
| App.InsertContents | src/App.tsx:42-48 | inserting into the sorted prefix adds exactly one copy of the task |
| App.InsertKeepsSorted | src/App.tsx:42-48 | inserting into a list with non-increasing keys keeps the keys non-increasing |
| App.SortTasks | src/App.tsx:42-48 | the sort gives a permutation of its input with keys non-increasing under the comparator `key(b) - key(a)`, whose key (`createdAt` time, or the `priorityOrder` rank, lines 43-47) is `App.SortKey` |
| App.InsertWithKey | src/App.tsx:42-48 | insertion puts the task at the head of its own key's run and leaves all other runs unchanged |
| App.SortTasksStable | src/App.tsx:42-48 | the sort is stable: for every key, the tasks with that key appear in their input order |
| App.SortedRunsDetermine | src/App.tsx:42-48 | two descending lists with the same run for every key are equal |
| App.StableSortIsUnique | src/App.tsx:42-48 | any descending, stable rearrangement of the input is exactly SortTasks's result |
| App.FilterWithKey | src/App.tsx:37-48 | filtering and taking the run of one sort key commute: the run in the filtered list is the shown part of the run in the whole list |
| App.View | src/App.tsx:37-48 | `filteredTasks`: a permutation of the filtered list, no longer than the store's list, with keys that never increase |
| App.ViewCount | src/App.tsx:37-48 | a task appears in the view exactly when the store holds it and it passes the filter, and as often as the store holds it |
| App.ViewNewestFirst | src/App.tsx:42-45 | sorting by date: creation times never increase down the view, and tasks with equal creation time keep the store's order: each creation time's run in the view is the shown part of its run in the store's list |
| App.ViewHighestPriorityFirst | src/App.tsx:46-47 | sorting by priority: ranks (high 3, medium 2, low 1) never increase down the view, and tasks of equal priority keep the store's order: each rank's run in the view is the shown part of its run in the store's list |
| App.ViewExample | src/App.tsx:37-48 | an older low task stored before a newer high one shows as [newer, older] in both orders; a "todo" filter over completed tasks shows nothing |
| App.Splice | src/App.tsx:31-32 | `splice` with a non-negative start removes min(count, length - min(start, length)) elements and changes the length by inserted minus removed |
| App.DragReorder | src/App.tsx:30-32 | the moved list has the same length and the same elements; the source element sits at min(destination, length - 1); the other elements keep their relative order |
| App.MoveKeepsIdsUnique | src/App.tsx:30-34 | a drag move keeps the ids unique, so `reorderTasks` gets no repeated id from a drag |
| App.HandleDragEnd | src/App.tsx:27-35 | with no destination the store is unchanged; otherwise the store's list becomes the moved list, storage holds it, and the filter is unchanged |
| TaskDialog.FormFor | src/components/TaskDialog.tsx:27-50 | an edited task prefills the form with its four editable fields; no task gives an empty title and description, to do and medium |
| TaskDialog.Submit | src/components/TaskDialog.tsx:52-69 | an update exactly when a task is given; the payload's editable fields are the form's; `updatedAt` is now; an edit keeps the id and `createdAt`; an add takes the fresh id and `createdAt` is now |
| TaskDialog.UnchangedEdit | src/components/TaskDialog.tsx:35-41 | submitting the prefilled form untouched gives the same task with only `updatedAt` changed |
| TaskDialog.EditReplacesEditedTask | src/components/TaskDialog.tsx:56-61 | with unique ids in the store, an edit's payload lands on the edited task's own position, and the ids stay unique |
| TaskDialog.AddWithFreshIdKeepsIdsUnique | src/components/TaskDialog.tsx:63-68 | with an id not yet in the store, the added task keeps the ids unique |
| TaskDialog.HandleSubmit | src/components/TaskDialog.tsx:52-72 | a submit dispatches exactly one action: the store appends the new task, or applies the update to the first task with the edited id |

## Left out

- Browser storage and JSON. `stored` stands for the entry under the key
  `"tasks"`. `JSON.stringify` and `JSON.parse` are taken to round-trip the
  list. The exception `JSON.parse` throws on malformed stored text is not
  modelled.
- `uuidv4()` and `new Date().toISOString()`. The fresh id and the current time
  are parameters of `TaskDialog.Submit`. Whether the id is really fresh is a
  requires of the lemmas that depend on it.
- ISO date strings. `createdAt` and `updatedAt` are integer timestamps, assuming
  `getTime` preserves order. An unparsable date, which gives `NaN` and an
  inconsistent comparator, is not modelled. `toLocaleDateString` is not modelled.
- App.DragReorder: negative indices are not modelled. A source index at or past
  the end of the list is excluded by a requires. In the source that case would
  splice `undefined` into the list. It cannot arise, because the indices are
  rows of the view, which is never longer than the store's list.
- App.HandleDragEnd: the drag library's gesture handling is not modelled. Only
  the source and destination indices it reports are.
- React rendering, hooks, the timing of `useEffect`, the material UI widgets and
  the theme are not modelled. Dispatch is modelled as a direct call of the store
  method. `onClose()` and the form's per-keystroke `setFormData` updates are not
  modelled: the form's contents at submit time are a parameter.
- The `required` attribute on the title field is not modelled. The browser uses
  it to block a submit with an empty title, and that validation belongs to the
  widget layer.
- `src/components/TaskCard.tsx`, `src/main.tsx` and `src/store/store.ts` are not
  part of this model. The card's delete button dispatches `deleteTask`, which the
  store model covers. The rest of it is presentation.
