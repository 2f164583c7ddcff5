# AI Task Manager — task list model

A Dafny model of the task-list logic of the AI Task Manager page
(`client/src/pages/Home.tsx`). The page holds a list of tasks, newest
first. Each task has an id, a title, a completed flag, a priority tier and a
creation time. The page also holds the text in the input box and the selected
filter. The model covers:

- the **priority heuristic** (`getPriority`). A title that contains one of
  "urgent", "asap", "important", "critical" or "deadline", in any letter case,
  is high. Otherwise a title containing "simple", "quick", "easy" or "minor" is
  low. Everything else is medium. Words match anywhere, with no word
  boundaries, so "uneasy" counts as easy.
- the **handlers** `addTask`, `toggleTask` and `deleteTask`. They are methods
  of the class `Home.TaskBoard`, whose fields are the page's `tasks`, `newTask`
  and `filter` state. Each handler's new list is a pure function of the old one
  (`Tasks.NewTask`, `Tasks.Toggled`, `Tasks.Deleted`).
- the **derived views**: the filtered list (`Tasks.Visible`) and the header
  counters (`Tasks.StatsOf`).

Layout:

- `text.dfy` (module `Text`): `String.prototype.trim`, ASCII case folding, and
  the left-to-right literal search that a RegExp test performs.
- `priority.dfy` (module `Priority`): the classifier and its characterisation.
- `tasks.dfy` (module `Tasks`): the task record, one filter function shared by
  delete, the views and the counters, toggle, and the lemmas about them.
- `home.dfy` (module `Home`): the page state as a class with its handlers.

Modelling decisions:

- **Case-insensitive matching.** The page tests two regular expressions with
  the `i` flag and without the `u` flag. In that mode ECMA-262 canonicalises a
  character by upper-casing it, but never maps a non-ASCII character to an
  ASCII one. Every keyword is lower-case ASCII, so the only characters that
  can match a keyword letter are that letter and its ASCII capital. ASCII
  folding (`Text.Lower`) is therefore exact for these patterns.
- **Alternation.** A test of `a|b|c` succeeds exactly when one of the
  alternatives occurs somewhere. It is modelled as "some word of the list is
  found by the search" (`Priority.TestAlternation`).
- **Blank input.** `!newTask.trim()` holds when the trimmed text is empty.
  `Text.IsWhitespace` lists the code points ECMAScript's trim removes: the
  WhiteSpace and LineTerminator characters, with category Zs as of Unicode 15.
- **Clock readings.** `Date.now()` and `new Date()` become the parameters `id`
  and `createdAt` of `AddTask`. Ids are not assumed unique, because two adds
  in the same millisecond get the same id. Toggle and delete act on every task
  with the id, and the lemmas are stated that way. `DistinctIds` appears only
  as a hypothesis of the lemmas that describe the unique-id case.
- **Titles are kept as typed.** The new task's title and its priority come
  from the untrimmed text.
- **Class invariant.** `TaskBoard.Valid` says that every task has a title that
  is not blank and the priority suggested for that title. Every handler keeps
  it. It holds only because loading from storage is not modelled.

## Model

| member | source | states |
|---|---|---|
| Text.Trim | client/src/pages/Home.tsx:39 | trim's result neither starts nor ends with whitespace, and it is empty exactly when every character of the input is whitespace |
| Text.TrimStart | client/src/pages/Home.tsx:39 | the leading part trim drops is all whitespace, and what remains is a suffix that does not start with whitespace |
| Text.TrimEnd | client/src/pages/Home.tsx:39 | the trailing part trim drops is all whitespace, and what remains is a prefix that does not end with whitespace |
| Text.ContainsIff | client/src/pages/Home.tsx:43-44 | the left-to-right scan for a keyword succeeds exactly when the keyword occurs at some position |
| Text.MissingCharNotContained | client/src/pages/Home.tsx:43-44 | a keyword with a letter the text lacks is not found in the text |
| Text.OccursInContext | client/src/pages/Home.tsx:43-44 | an occurrence stays an occurrence when text is added on either side (the patterns are unanchored) |
| Priority.TestAlternationIff | client/src/pages/Home.tsx:43-44 | a case-insensitive alternation test succeeds exactly when some alternative occurs in the case-folded title |
| Priority.ClassifyHigh | client/src/pages/Home.tsx:42-45 | the tier is high if and only if the title mentions an urgent word, whatever easy words it also mentions |
| Priority.ClassifyLow | client/src/pages/Home.tsx:42-46 | the tier is low if and only if the title mentions no urgent word and some easy word |
| Priority.ClassifyMedium | client/src/pages/Home.tsx:42-47 | the tier is medium if and only if the title mentions no word of either set |
| Priority.ClassifyEmpty | client/src/pages/Home.tsx:42-47 | the empty title is medium |
| Priority.ClassifyIgnoresCase | client/src/pages/Home.tsx:43-44 | titles that differ only in ASCII letter case get the same tier |
| Priority.HighInContext | client/src/pages/Home.tsx:43-45 | a high title stays high when any text is put before or after it |
| Priority.NoUrgentWord | client/src/pages/Home.tsx:43 | a title that lacks one letter of each urgent word does not match the urgent pattern |
| Priority.UrgentBeatsEasyExample | client/src/pages/Home.tsx:43-45 | "urgent and simple" is high: the urgent check comes first |
| Priority.EasyExample | client/src/pages/Home.tsx:43-46 | "Quick fix" is low: case is ignored and no urgent word is present |
| Priority.InsideWordExample | client/src/pages/Home.tsx:44-46 | "uneasy" is low: "easy" matches inside a longer word |
| Priority.PlainExample | client/src/pages/Home.tsx:42-47 | "write report" is medium |
| Tasks.Select | client/src/pages/Home.tsx:67 | a filter returns no more tasks than its input, and each returned task is an input task that the test accepts |
| Tasks.SelectCount | client/src/pages/Home.tsx:67 | a filter keeps every copy of an accepted task and no copy of a rejected one |
| Tasks.SelectEmbeds | client/src/pages/Home.tsx:67 | a filter's result is an order-preserving subsequence of its input |
| Tasks.SelectAllKept | client/src/pages/Home.tsx:67 | a filter whose test accepts every task returns the list unchanged |
| Tasks.SelectIdempotent | client/src/pages/Home.tsx:67 | filtering twice by the same test equals filtering once |
| Tasks.SelectPartition | client/src/pages/Home.tsx:70-74 | two complementary filters split the list: their multisets add up to the list's, and so do their lengths |
| Tasks.SelectLengthUpdate | client/src/pages/Home.tsx:87-88 | replacing one task changes a filter's length by whether the test accepts the old and the new task |
| Tasks.NewTask | client/src/pages/Home.tsx:50-56 | the new task keeps the typed title untrimmed, is not completed, carries the given id and time, and is high exactly when the title mentions an urgent word, and low exactly when it mentions no urgent word and some easy word |
| Tasks.Toggled | client/src/pages/Home.tsx:63 | toggle keeps length and order; each task with the id has completed flipped and every other field kept; every other task is unchanged |
| Tasks.ToggleInvolution | client/src/pages/Home.tsx:63 | toggling the same id twice restores the list |
| Tasks.ToggleAbsentIsNoop | client/src/pages/Home.tsx:63 | toggling an id no task has changes nothing |
| Tasks.ToggleCommutes | client/src/pages/Home.tsx:63 | toggles of two ids commute |
| Tasks.ToggleDistinct | client/src/pages/Home.tsx:51-63 | with distinct ids, toggling a task's id flips that task alone |
| Tasks.DeleteSpec | client/src/pages/Home.tsx:67 | delete leaves no task with the id, keeps every copy of every task with another id, and keeps their order |
| Tasks.DeleteAbsentIsNoop | client/src/pages/Home.tsx:67 | deleting an id no task has changes nothing |
| Tasks.DeleteIdempotent | client/src/pages/Home.tsx:67 | deleting the same id twice equals deleting it once |
| Tasks.DeleteAfterAdd | client/src/pages/Home.tsx:51-67 | deleting a just-added task's id also removes older tasks that share it; with a fresh id it restores the list from before the add |
| Tasks.DeleteDistinctRemovesOne | client/src/pages/Home.tsx:51-67 | with distinct ids, deleting a present id shortens the list by exactly one |
| Tasks.VisibleAll | client/src/pages/Home.tsx:70-74 | the "all" view is the whole list |
| Tasks.VisiblePartition | client/src/pages/Home.tsx:70-74 | the "active" and "completed" views keep the list's order, share no task, and together hold every task: multisets and lengths add up |
| Tasks.StatsAddUp | client/src/pages/Home.tsx:85-89 | total equals completed plus active, and each counter equals the length of its view |
| Tasks.ToggleStats | client/src/pages/Home.tsx:63-89 | with distinct ids, toggling an active task keeps the total and moves one task from active to completed |
| Home.IsBlankIff | client/src/pages/Home.tsx:39 | text is rejected as blank exactly when it is all whitespace, including the empty text |
| Home.TaskBoard.constructor | client/src/pages/Home.tsx:18-20 | the page starts with no tasks, an empty input box and the "all" filter |
| Home.TaskBoard.SetNewTask | client/src/pages/Home.tsx:135 | typing replaces the input text |
| Home.TaskBoard.SetFilter | client/src/pages/Home.tsx:154-166 | a filter button selects its mode |
| Home.TaskBoard.AddTask | client/src/pages/Home.tsx:38-60 | blank text leaves both the list and the input box unchanged; otherwise the new task is prepended, the old list is the tail, and the box is cleared; the invariant is kept |
| Home.TaskBoard.ToggleTask | client/src/pages/Home.tsx:62-64 | the list becomes the toggled list; the invariant is kept |
| Home.TaskBoard.DeleteTask | client/src/pages/Home.tsx:66-68 | the list becomes the list without the id; the invariant is kept |

## Left out

- Loading from and saving to `localStorage` (lines 23-36): browser storage and JSON are I/O. This includes the save being skipped when the list is empty (line 33), so deleting the last task leaves the old list in storage.
- `Date.now()` and `new Date()` (lines 51, 55): clock reads, passed in as `id` and `createdAt`. `createdAt` is a plain number of milliseconds.
- `getPriorityColor` (lines 76-83): CSS class names only.
- JSX rendering, React hooks, key handling and `toLocaleDateString` (lines 91-226): presentation.
- JavaScript strings are UTF-16 code units; the model's strings are sequences of Unicode scalar values. No keyword or whitespace character involves a surrogate, so the tests give the same answers.
