# Task manager: the task list behind both screens

The app keeps an ordered, in-memory list of tasks (`id`, `title`, `description`,
`dueDate`, `completed`) in the state of a screen component and changes it with five
handlers: add a task from the form, toggle a task's completion, delete a task, show only
the incomplete tasks, and show the percentage of completed tasks. Two screens carry
near-identical copies of this logic, `Index` (`task-manager/app/index.tsx`) and
`HomeScreen` (`task-manager/app/screens/HomeScreen.jsx`); they differ only in how
`addTask` validates its input and where the due date comes from.

The model has five modules:

- `Seqs` (`seqs.dfy`): JavaScript's `Array.prototype.filter` as `Filter`, and the
  vocabulary for order and uniqueness (`IsSubsequence`, `Distinct`) with their lemmas.
- `Text` (`text.dfy`): JavaScript's `String.prototype.trim`, with the ECMAScript set of
  white-space and line-terminator characters.
- `TaskStore` (`tasks.dfy`): the `Task` record and the list transformations both screens
  share (`Toggle`, `Delete`, `Incomplete`, `Visible`, `CompletedCount`, `Progress`), the
  store invariant `WellFormed` (ids distinct, tasks in the order their ids were handed
  out) and the lemmas that each transformation keeps it.
- `IndexView` (`index_view.dfy`): class `Index`, the state of `index.tsx` (tasks, switch,
  title, description, picked due date, error message) with one method per handler.
- `HomeView` (`home_view.dfy`): class `HomeScreen`, the state of `HomeScreen.jsx` (tasks,
  switch, title, description, due date text) with one method per handler.

Each class carries a ghost `history` of every id ever added; its `Valid()` says that the
ids held are pairwise distinct, appear in `history`'s order, and that every task held
passed that screen's form check. Every state-changing method keeps `Valid()` and states
its whole new state in terms of the old one. Ids are the source's strings and are only
compared for equality; the id generator is replaced by a caller-supplied id that no task
in the list carries yet. React's state setters are modelled as field assignments made
when the handler runs, each handler running to completion on the current state.

In three places the model follows the code where a reader might expect otherwise:
deleting removes every task carrying the id (a filter), not just one (with distinct ids
it is one task, `DeleteRemovesOne`); the `Index` error message is cleared only by a
successful add, not when the user edits a field; `HomeScreen` accepts any due date text.

## Model

| member | source | states |
|---|---|---|
| `Seqs.Filter` | task-manager/app/index.tsx:67 | `filter` returns no more elements than it was given, and exactly the elements that pass the test |
| `Seqs.FilterIsSubsequence` | task-manager/app/index.tsx:149 | whatever `filter` keeps stays in its original relative order |
| `Text.Trim` | task-manager/app/index.tsx:36 | the trimmed string neither starts nor ends with white space, and is empty exactly when every character is white space (so the empty string is blank) |
| `Text.TrimUnpadded` | task-manager/app/index.tsx:36 | a string without white space at either end trims to itself |
| `TaskStore.Flip` | task-manager/app/index.tsx:61 | the `map` callback changes no field but `completed`, and negates it exactly when the task's id matches |
| `TaskStore.Toggle` | task-manager/app/index.tsx:58-64 | toggling keeps length and order, changes no field but `completed`, and flips `completed` exactly on the tasks whose id matches |
| `TaskStore.ToggleInvolution` | task-manager/app/index.tsx:58-64 | toggling the same id twice gives back the original list |
| `TaskStore.ToggleUnknownId` | task-manager/app/index.tsx:58-64 | toggling an id no task carries is a no-op |
| `TaskStore.ToggleKeepsWellFormed` | task-manager/app/index.tsx:58-64 | toggling keeps the id sequence, hence distinct ids in insertion order |
| `TaskStore.Delete` | task-manager/app/index.tsx:66-68 | deleting leaves an order-preserving subsequence holding exactly the tasks whose id differs, shorter by exactly the number of tasks carrying the id (so every surviving copy is kept); an absent id is a no-op |
| `TaskStore.DeleteRemovesOne` | task-manager/app/index.tsx:66-68 | with distinct ids, deleting a present id shortens the list by exactly one |
| `TaskStore.DeleteKeepsWellFormed` | task-manager/app/index.tsx:66-68 | deleting keeps ids distinct and in insertion order |
| `TaskStore.AppendKeepsWellFormed` | task-manager/app/index.tsx:41-49 | appending a task with a fresh id keeps ids distinct and in insertion order, the new id last |
| `TaskStore.CompletedCount` | task-manager/app/index.tsx:72 | the number of completed tasks is at most the number of tasks |
| `TaskStore.Incomplete` | task-manager/app/index.tsx:149 | the incomplete-only filter is an order-preserving subsequence holding exactly the incomplete tasks, as many as there are incomplete tasks |
| `TaskStore.Visible` | task-manager/app/index.tsx:148-150 | with the flag unset the whole list is shown; set, exactly the incomplete tasks in original order |
| `TaskStore.NothingCompleteShowsAll` | task-manager/app/index.tsx:149 | when no task is complete the incomplete-only view is the whole list |
| `TaskStore.RoundedPercent` | task-manager/app/index.tsx:73 | `Math.round(100 * c / n)` is the integer within half a unit of `100 * c / n` (halves up), in [0, 100], 0 when `c` is 0 and 100 when `c` is `n` |
| `TaskStore.RoundingBounds` | task-manager/app/index.tsx:73 | any integer within half a unit of `100 * c / n` with `c <= n` lies in [0, 100] and is 0 or 100 at the ends |
| `TaskStore.Progress` | task-manager/app/index.tsx:70-74 | progress is in [0, 100], 0 for an empty list or when nothing is complete, 100 when all are complete, and otherwise the rounded percentage of completed tasks |
| `TaskStore.RoundedPercentMonotone` | task-manager/app/index.tsx:73 | more completed tasks out of the same total never give a smaller percentage |
| `TaskStore.CompletedCountCons` | task-manager/app/index.tsx:72 | the completed count of a list is its head's contribution plus the count of its tail |
| `TaskStore.ToggleCompletedCount` | task-manager/app/index.tsx:58-74 | with distinct ids, toggling a present id moves the completed count by exactly one, up or down by the task's old state |
| `TaskStore.ToggleProgress` | task-manager/app/index.tsx:58-74 | completing a task never lowers progress and reopening one never raises it |
| `IndexView.Accepted` | task-manager/app/index.tsx:36 | the form is accepted exactly when both the title and the description hold a character that is not white space |
| `IndexView.Index.constructor` | task-manager/app/index.tsx:27-33 | a fresh screen has no tasks, an empty form, today's date, no error and the switch off |
| `IndexView.Index.SetTitle` | task-manager/app/index.tsx:92 | editing the title field sets the title and nothing else |
| `IndexView.Index.SetDescription` | task-manager/app/index.tsx:98 | editing the description field sets the description and nothing else |
| `IndexView.Index.AddTask` | task-manager/app/index.tsx:35-56 | a blank title or description leaves tasks and form unchanged and sets the fixed error text; otherwise the list becomes old list plus one incomplete task with the given id, the untrimmed title and description and the picked day, title and description are cleared, the date goes back to today and the error is cleared |
| `IndexView.Index.ToggleCompletion` | task-manager/app/index.tsx:58-64 | the list becomes its toggle by id; the invariant is kept |
| `IndexView.Index.DeleteTask` | task-manager/app/index.tsx:66-68 | the list becomes its deletion by id; the invariant is kept |
| `IndexView.Index.ToggleIncompleteOnly` | task-manager/app/index.tsx:123 | the switch flips the incomplete-only flag and nothing else |
| `IndexView.Index.CalculateProgress` | task-manager/app/index.tsx:70-74 | the screen's progress is in [0, 100], 0 with no tasks and 100 when all are complete |
| `IndexView.Index.VisibleTasks` | task-manager/app/index.tsx:148-150 | the listed tasks are all tasks with the switch off, exactly the incomplete ones in order with it on |
| `HomeView.HomeScreen.constructor` | task-manager/app/screens/HomeScreen.jsx:15-19 | a fresh screen has no tasks, an empty form and the switch off |
| `HomeView.HomeScreen.SetTitle` | task-manager/app/screens/HomeScreen.jsx:64 | editing the title field sets the title and nothing else |
| `HomeView.HomeScreen.SetDescription` | task-manager/app/screens/HomeScreen.jsx:70 | editing the description field sets the description and nothing else |
| `HomeView.HomeScreen.SetDueDate` | task-manager/app/screens/HomeScreen.jsx:76 | editing the due date field sets the due date text and nothing else |
| `HomeView.HomeScreen.AddTask` | task-manager/app/screens/HomeScreen.jsx:21-35 | a blank title changes nothing at all, whatever the description; otherwise the list becomes old list plus one incomplete task with the given id and the title, description and due date text verbatim, and all three fields are cleared |
| `HomeView.HomeScreen.ToggleCompletion` | task-manager/app/screens/HomeScreen.jsx:37-43 | the list becomes its toggle by id; the invariant is kept |
| `HomeView.HomeScreen.DeleteTask` | task-manager/app/screens/HomeScreen.jsx:45-47 | the list becomes its deletion by id; the invariant is kept |
| `HomeView.HomeScreen.ToggleIncompleteOnly` | task-manager/app/screens/HomeScreen.jsx:85 | the switch flips the incomplete-only flag and nothing else |
| `HomeView.HomeScreen.CalculateProgress` | task-manager/app/screens/HomeScreen.jsx:49-53 | the screen's progress is in [0, 100], 0 with no tasks and 100 when all are complete |
| `HomeView.HomeScreen.VisibleTasks` | task-manager/app/screens/HomeScreen.jsx:92 | the listed tasks are all tasks with the switch off, exactly the incomplete ones in order with it on |

`IndexView.SessionBlankDescription`, `IndexView.SessionAdd`, `IndexView.SessionCompleteHide` and
`HomeView.Session` are client methods whose assertions walk through the screens'
behaviour using the contracts above only.

## Left out

- Rendering, layout and styles of both screens, and `task-manager/app/components/TaskList.jsx`, which only renders the list and forwards a task's id to the toggle and delete handlers.
- Id generation (`uuid.v4()`, `uuidv4()`): a foreign generator; `AddTask` takes the id as a parameter and requires that no task in the list carries it.
- The `Index` date handling: `Date`, the date picker, `showDatePicker` and `onChangeDate`. The picked date is modelled as its calendar-day string, the value `toISOString().split("T")[0]` stores; that conversion works in UTC and so depends on the device's time zone, which the model does not capture. The reset to `new Date()` reads the clock; the model takes the day as the `today` parameter.
- `TaskStore.RoundedPercent`: models `Math.round((completed / tasks.length) * 100)` as exact round-half-up, `(200 * c + n) / (2 * n)`; the floating-point product can fall just below a half (29 of 200 tasks gives 14.499999999999998, which rounds to 14 where the exact value rounds to 15).
- React's batching and re-render timing: each handler runs to completion on the current state.
- Strings: JavaScript strings are UTF-16 code units and Dafny's `char` is a Unicode scalar value; every character `trim` removes is in the Basic Multilingual Plane, so blankness is the same either way.
