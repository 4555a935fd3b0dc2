# Taskify task lists, modelled in Dafny

Taskify is a client-side task manager. Its dashboard lists tasks with a search box. A detail
editor ticks subtasks off and edits a task. A new-task dialog collects a title, description,
status, due date and a list of subtask titles. Everything else is rendering and REST calls.
This project models the list logic inside those three components as pure functions over
sequences of records, and proves what each step keeps, changes and drops.

Modules, one per concern:

- `JsString` (`js_string.dfy`): the JavaScript string operations the components use.
  These are `trim`, `toLowerCase`, `includes`, `startsWith`, `length` in UTF-16 code units,
  `slice(0, n)` and decimal rendering of numbers.
- `Types` (`types.dfy`): `Task`, `SubTask`, and subtask ids as `StrId | NumId`. The backend may
  send numeric ids, and `===` and `Map` keys tell `"1"` and `1` apart.
- `Status` (`status.dfy`): the status options of the two editors.
- `SeqOrder` (`seq_order.dfy`): the subsequence relation used for "order is preserved".
- `DashboardSearch` (`dashboard_search.dfy`): the dashboard's search filter.
- `TaskDetailsEditor` (`task_details_editor.dfy`): the detail editor. It covers the
  optimistic toggle, reconciliation with the backend, per-row edits, adding and deleting rows,
  the save payload, cancel, and loading a task.
- `TaskDialog` (`task_dialog.dfy`): the new-task dialog. It covers the 50-unit input cap,
  adding and removing subtask entries, the task payload, the reset, and the `required` gate.
- `DashboardStore` (`dashboard_store.dfy`): the dashboard's task list as the dialog updates it
  (see Findings).

Inputs the components get from outside become parameters:
- the backend's reply to the re-fetch after a toggle (`Option<BackendTask>`; `None` when any
  step of the round trip throws);
- the `${Date.now()}-${Math.random()}` suffix of an editor row id (`stamp`);
- the `Date.now()` readings for the dialog's ids (`clock`, one reading per subtask);
- the ISO rendering of the chosen due date;
- the `id` and `userId` a stored task receives.

## Model

| member | source | states |
|---|---|---|
| JsString.TrimStart | src/components/dashboard/DashboardMain.tsx:20 | the result is a suffix of the input; every dropped character is whitespace; the result does not start with whitespace |
| JsString.TrimEnd | src/components/dashboard/DashboardMain.tsx:20 | the result is a prefix of the input; every dropped character is whitespace; the result does not end with whitespace |
| JsString.Trim | src/components/dashboard/DashboardMain.tsx:20 | the result is no longer than the input and neither starts nor ends with whitespace |
| JsString.TrimIsInfix | src/components/dashboard/DashboardMain.tsx:20 | what `trim` leaves is an infix of the input with only whitespace around it |
| JsString.TrimEndInfix | src/components/dashboard/DashboardMain.tsx:20 | trimming the end of a suffix that follows whitespace leaves an infix of the whole string with whitespace on both sides |
| JsString.BlankIffAllWhitespace | src/components/dashboard/DashboardMain.tsx:20 | `!s.trim()` holds exactly when every character of `s` is whitespace |
| JsString.IsBlank | src/components/dashboard/DashboardMain.tsx:20 | `!s.trim()`: the string is empty after trimming; BlankIffAllWhitespace characterises it as "every character is whitespace" |
| JsString.BlankPrefix | src/components/dashboard/DashboardMain.tsx:20 | a string whose prefix is not blank is not blank |
| JsString.TrimIdempotent | src/components/dashboard/TaskDialog.tsx:46 | trimming an already trimmed entry changes nothing |
| JsString.JsLength | src/components/dashboard/TaskDialog.tsx:126 | the code-unit length lies between the character count and twice it |
| JsString.JsLengthConcat | src/components/dashboard/TaskDialog.tsx:126 | code-unit length adds up over concatenation |
| JsString.JsLengthDrop | src/components/dashboard/TaskDialog.tsx:45-46 | dropping leading characters never makes a string longer |
| JsString.JsLengthTake | src/components/dashboard/TaskDialog.tsx:45-46 | keeping a prefix never makes a string longer |
| JsString.JsLengthTrim | src/components/dashboard/TaskDialog.tsx:45-46 | a trimmed input is never longer than the input, so it is within the cap whenever the input is |
| JsString.JsSlicePrefix | src/components/dashboard/TaskDetailsModal.tsx:227 | `slice(0, n)` is a prefix of at most `n` code units, and the longest such prefix |
| JsString.PrefixAndNextFit | src/components/dashboard/TaskDetailsModal.tsx:227 | in a string of at most `n` units, a prefix plus the next character still fits in `n` |
| JsString.JsSlicePrefixShort | src/components/dashboard/TaskDetailsModal.tsx:227 | a date string of at most ten units is kept whole |
| JsString.JsLengthOneUnit | src/components/dashboard/TaskDetailsModal.tsx:227 | a string without astral characters is as long in code units as in characters |
| JsString.JsSlicePrefixOneUnit | src/components/dashboard/TaskDetailsModal.tsx:227 | on a string without astral characters, `slice(0, n)` keeps exactly the first `n` characters (all of them when fewer) |
| JsString.ToLower | src/components/dashboard/DashboardMain.tsx:23-25 | lower-casing keeps the length and maps each character on its own |
| JsString.ToLowerConcat | src/components/dashboard/DashboardMain.tsx:23-25 | lower-casing distributes over concatenation |
| JsString.LowerCharKeepsWhitespace | src/components/dashboard/DashboardMain.tsx:20-23 | a character is whitespace exactly when its lower-case form is |
| JsString.ToLowerKeepsBlank | src/components/dashboard/DashboardMain.tsx:20-23 | a query is blank exactly when its lower-case form is |
| JsString.StartsWith | src/components/dashboard/TaskDetailsModal.tsx:200 | `s.startsWith(p)`: `p` is the first `|p|` characters of `s`; SendsIdIff uses it for the `temp-` test |
| JsString.Includes | src/components/dashboard/DashboardMain.tsx:23-25 | `h.includes(n)` as a left-to-right scan; IncludesIffOccurs proves it equal to "occurs at some offset" |
| JsString.IncludesIffOccurs | src/components/dashboard/DashboardMain.tsx:23-25 | `h.includes(n)` holds exactly when `n` occurs at some offset of `h` |
| JsString.IncludesExtension | src/components/dashboard/DashboardMain.tsx:23-25 | text that contains `p + x` contains `p` |
| JsString.IncludesNeedsRoom | src/components/dashboard/DashboardMain.tsx:23-25 | a needle longer than the text is never found |
| JsString.Decimal | src/components/dashboard/TaskDialog.tsx:36 | a number renders as a non-empty run of digits, at least two of them from 10 up |
| JsString.DecimalInjective | src/components/dashboard/TaskDialog.tsx:36 | different numbers render as different strings |
| JsString.NumberToString | src/components/dashboard/TaskDetailsModal.tsx:200 | `String(n)` of an integer starts with a digit or a minus sign |
| Status.StatusOptionsAgree | src/components/dashboard/TaskDialog.tsx:14-22 | both editors offer the same seven distinct statuses (TaskDetailsModal.tsx:21-29 lists them in another order), and `"Pending"` is one of them |
| DashboardSearch.Matches | src/components/dashboard/DashboardMain.tsx:22-25 | the per-task test of the filter: the lower-cased query occurs in the lower-cased title or description, or in the title of some subtask when `subTasks` is present |
| DashboardSearch.KeepMatching | src/components/dashboard/DashboardMain.tsx:21-26 | a task is kept exactly when it matches; the result is a subsequence of the input, so order is kept |
| DashboardSearch.KeepMatchingCounts | src/components/dashboard/DashboardMain.tsx:21-26 | every copy of a matching task is kept and no copy of any other, so duplicates survive as `filter` keeps them |
| DashboardSearch.FilterTasks | src/components/dashboard/DashboardMain.tsx:19-27 | a blank query returns the list itself; otherwise a task is in the result iff it is in the list and the lower-cased query occurs in its lower-cased title, description or some subtask title; each task occurs as often as in the list when it passes and not at all otherwise; the result keeps the list's order |
| DashboardSearch.KeepMatchingIdempotent | src/components/dashboard/DashboardMain.tsx:21-26 | filtering twice by one query is filtering once |
| DashboardSearch.FilterIdempotent | src/components/dashboard/DashboardMain.tsx:19-27 | applying the dashboard filter to its own result changes nothing |
| DashboardSearch.KeepMatchingCaseInsensitive | src/components/dashboard/DashboardMain.tsx:23-25 | queries with equal lower-case forms keep the same tasks |
| DashboardSearch.FilterCaseInsensitive | src/components/dashboard/DashboardMain.tsx:20-25 | queries with equal lower-case forms give equal results, blank or not |
| DashboardSearch.FilterNarrowsAsQueryGrows | src/components/dashboard/DashboardMain.tsx:20-25 | characters appended to any query, trailing spaces included, can only remove tasks from the result |
| DashboardSearch.TaskWithoutSubTasks | src/components/dashboard/DashboardMain.tsx:25 | a task with no subtask list, or an empty one, is found only through its title or description |
| DashboardSearch.TrailingSpaceIsMatched | src/components/dashboard/DashboardMain.tsx:20-23 | a non-blank query is matched untrimmed: "ui" finds the task titled "UI" and "ui " does not |
| TaskDetailsEditor.ToggleDone | src/components/dashboard/TaskDetailsModal.tsx:86 | length, order, ids and titles are kept; `done` changes on exactly the rows whose id equals the argument |
| TaskDetailsEditor.ToggleTwice | src/components/dashboard/TaskDetailsModal.tsx:86 | ticking the same id twice restores the list |
| TaskDetailsEditor.ToggleAbsentId | src/components/dashboard/TaskDetailsModal.tsx:86 | ticking an id no row has changes nothing |
| TaskDetailsEditor.BackendList | src/components/dashboard/TaskDetailsModal.tsx:108 | the backend's `subtasks` is used when present, even if empty; otherwise `subTasks`; otherwise nothing |
| TaskDetailsEditor.BuildMap | src/components/dashboard/TaskDetailsModal.tsx:110 | `new Map(list.map(st => [st.id, st]))`, inserting left to right; BuildMapDomain and BuildMapLastWins state its keys and which entry a repeated id keeps |
| TaskDetailsEditor.BuildMapDomain | src/components/dashboard/TaskDetailsModal.tsx:110 | the id map holds exactly the ids of the backend list |
| TaskDetailsEditor.BuildMapLastWins | src/components/dashboard/TaskDetailsModal.tsx:110 | an id that appears in the backend list maps to its last entry there |
| TaskDetailsEditor.DoneFromMap | src/components/dashboard/TaskDetailsModal.tsx:114-119 | a row's reconciled `done`: the map entry's `done` when the id is in the map and the entry has that field, the row's own otherwise; MergeBackend restates it against the list |
| TaskDetailsEditor.MergeWithMap | src/components/dashboard/TaskDetailsModal.tsx:112-120 | each row keeps everything but `done`, which is read from the map when the id is there with a `done` field |
| TaskDetailsEditor.MergeBackend | src/components/dashboard/TaskDetailsModal.tsx:110-120 | length, order, ids and titles are kept; a row's `done` is that of the last backend entry with an equal id when that entry has `done`, and unchanged when no entry has its id |
| TaskDetailsEditor.MergeEmptyIsIdentity | src/components/dashboard/TaskDetailsModal.tsx:108-120 | reconciling against an empty backend list changes nothing |
| TaskDetailsEditor.ToggleRoundTrip | src/components/dashboard/TaskDetailsModal.tsx:83-127 | ids, titles and order always survive; when the round trip throws the optimistic toggle stands unrolled-back; when it succeeds the result is the toggled list reconciled with the fetched list, so a row's `done` is that of the last fetched entry with its id when that entry has `done`, and the toggled value when no entry has its id |
| TaskDetailsEditor.EditAt | src/components/dashboard/TaskDetailsModal.tsx:167-169 | only the named field of the row at `idx` changes; every other row and field is kept; an index outside the list changes nothing |
| TaskDetailsEditor.EditOutOfRange | src/components/dashboard/TaskDetailsModal.tsx:168 | an out-of-range index leaves the list equal to what it was |
| TaskDetailsEditor.EditIdempotent | src/components/dashboard/TaskDetailsModal.tsx:168 | repeating an edit changes nothing further |
| TaskDetailsEditor.AppendBlank | src/components/dashboard/TaskDetailsModal.tsx:171-176 | exactly one row is appended, empty, unticked, with an id starting `temp-`; the existing rows are a prefix of the result |
| TaskDetailsEditor.DeleteById | src/components/dashboard/TaskDetailsModal.tsx:178-180 | a row survives iff its id differs; survivors keep their order; deleting an absent id changes nothing |
| TaskDetailsEditor.DeleteByIdCounts | src/components/dashboard/TaskDetailsModal.tsx:179 | every copy of a row with another id is kept and no row with the deleted id |
| TaskDetailsEditor.DeleteIdempotent | src/components/dashboard/TaskDetailsModal.tsx:179 | deleting an id twice is deleting it once |
| TaskDetailsEditor.DeleteByIdConcat | src/components/dashboard/TaskDetailsModal.tsx:179 | deleting from a concatenation deletes from each part |
| TaskDetailsEditor.DeleteUndoesAppend | src/components/dashboard/TaskDetailsModal.tsx:171-180 | deleting a freshly appended row by its (unused) id gives back the list it was added to |
| TaskDetailsEditor.SendsId | src/components/dashboard/TaskDetailsModal.tsx:200 | `st.id && !String(st.id).startsWith('temp-')`; SendsIdIff lists the ids it rejects |
| TaskDetailsEditor.SendsIdIff | src/components/dashboard/TaskDetailsModal.tsx:200 | an id is dropped from the payload exactly when it is `""`, the number 0, or a string starting `temp-` |
| TaskDetailsEditor.SavePayload | src/components/dashboard/TaskDetailsModal.tsx:199-203 | one entry per row in order, with its title and `done`; the id is absent exactly for `""`, 0 and temp ids, and otherwise is the row's id |
| TaskDetailsEditor.AppendedRowIsSentWithoutId | src/components/dashboard/TaskDetailsModal.tsx:171-203 | a row added in the editor is saved without an id, and the rows before it are saved as before |
| TaskDetailsEditor.SaveRequestOf | src/components/dashboard/TaskDetailsModal.tsx:195-204 | the request carries the buffer's title, description and date, and its subtasks are the save payload of the buffer's rows: one per row in order, with title and `done`, and the row's id exactly when that id is sent |
| TaskDetailsEditor.BufferFromTask | src/components/dashboard/TaskDetailsModal.tsx:225-228 | the buffer holds the task's title and description and its subtasks or none; its due date is the longest prefix of the task's date within ten code units, which for an ASCII date such as an ISO timestamp is exactly its first ten characters |
| TaskDetailsEditor.CancelEdit | src/components/dashboard/TaskDetailsModal.tsx:223-231 | cancel leaves edit mode and keeps the shown list; with a task it reloads the buffer from the task, without one the buffer is untouched |
| TaskDetailsEditor.SyncWithTask | src/components/dashboard/TaskDetailsModal.tsx:73-81 | loading a task sets the shown list and the buffer from it and keeps the mode; with no task nothing changes |
| TaskDetailsEditor.CancelDiscardsEdits | src/components/dashboard/TaskDetailsModal.tsx:223-231 | after cancel the editor no longer depends on what was typed, and equals the freshly loaded state out of edit mode |
| TaskDialog.Initial | src/components/dashboard/TaskDialog.tsx:25-27 | the dialog starts in a valid state |
| TaskDialog.ChangeInput | src/components/dashboard/TaskDialog.tsx:124-127 | a value within 50 units replaces the input, a longer one is refused and the old value kept; validity is preserved |
| TaskDialog.TrimmedInputIsEntry | src/components/dashboard/TaskDialog.tsx:45-46 | a non-blank input within the cap trims to a well-formed entry |
| TaskDialog.AppendEntryKeepsValid | src/components/dashboard/TaskDialog.tsx:46-47 | appending a well-formed entry and clearing the input keeps the dialog valid |
| TaskDialog.AddSubTask | src/components/dashboard/TaskDialog.tsx:44-49 | a non-blank input within the cap is appended trimmed and cleared, and nothing else changes; otherwise the state is unchanged; validity is preserved |
| TaskDialog.AddSubTaskInValidState | src/components/dashboard/TaskDialog.tsx:45 | in a valid state only blankness decides whether an entry is added |
| TaskDialog.RemoveIndex | src/components/dashboard/TaskDialog.tsx:52 | exactly position `idx` is removed and the rest keep their order; an index outside the list changes nothing |
| TaskDialog.ConsAfterRemoval | src/components/dashboard/TaskDialog.tsx:52 | removing position `idx` from a list is keeping its head and removing position `idx - 1` from its tail |
| TaskDialog.RemoveIndexKeepsEntries | src/components/dashboard/TaskDialog.tsx:52 | every entry left after a removal was an entry before it |
| TaskDialog.RemoveSubTask | src/components/dashboard/TaskDialog.tsx:51-53 | removing a chip takes out exactly that entry, touches nothing else, and preserves validity |
| TaskDialog.TempId | src/components/dashboard/TaskDialog.tsx:36 | `temp-${Date.now()}-${idx}` starts with `temp-`, so the editor never sends it as an id |
| TaskDialog.SplitAtLastDash | src/components/dashboard/TaskDialog.tsx:36 | two strings that end in `-` followed by dash-free text split at the same place when their concatenations agree |
| TaskDialog.TempIdInjective | src/components/dashboard/TaskDialog.tsx:36 | a temp id determines both the clock reading and the position it was made from, so ids at different positions differ whatever the readings |
| TaskDialog.NewSubTasks | src/components/dashboard/TaskDialog.tsx:36 | one unticked subtask per entry, in order, titled by the entry, with ids starting `temp-` that are pairwise distinct even when each entry has its own clock reading |
| TaskDialog.TaskPayload | src/components/dashboard/TaskDialog.tsx:31-37 | copies the form fields; the due date is empty when none was picked; no subtask list when none were added, otherwise the entries' new subtasks |
| TaskDialog.AddTask | src/components/dashboard/TaskDialog.tsx:30-42 | hands over the payload, then the form is back at its defaults (empty title and description, `"Pending"`, no date), the list and input are empty, and the dialog is closed |
| TaskDialog.Submit | src/components/dashboard/TaskDialog.tsx:61-70 | the browser blocks submission exactly when the required title or description is empty; otherwise it runs `AddTask` |
| DashboardStore.VisibleTasks | src/components/dashboard/DashboardMain.tsx:19-27 | an array state renders as exactly the filtered list, in order, so a blank search shows the list itself; a non-array state throws a TypeError for any search |
| DashboardStore.AddTaskAsWritten | src/components/dashboard/DashboardMain.tsx:38 | as written, the dialog's payload replaces the whole list with one object; AddTaskAsWrittenBreaksDashboard shows the consequence |
| DashboardStore.AddTaskAsWrittenBreaksDashboard | src/components/dashboard/DashboardMain.tsx:38 | as written, adding a task turns a renderable dashboard into one that throws for every search |
| DashboardStore.TaskFromPayload | src/components/dashboard/TaskDialog.tsx:31-37 | the stored task carries the payload's fields and subtasks |
| DashboardStore.AddTask | src/components/dashboard/DashboardMain.tsx:38 | the new task is appended after the existing ones, which are kept |
| DashboardStore.TitleFindsTask | src/components/dashboard/DashboardMain.tsx:23 | searching for a task's exact title matches it |
| DashboardStore.AddTaskKeepsDashboard | src/components/dashboard/DashboardMain.tsx:19-38 | with the intended update the dashboard renders; a blank search shows the old tasks then the new one; earlier results stay; the new title finds the new task |

## Findings

| source | as written | input that shows it | evidently intended | confidence | as-written member | corrected member |
|---|---|---|---|---|---|---|
| src/components/dashboard/DashboardMain.tsx:38 | the dashboard's list setter is passed to the dialog as `setTasks`, and the dialog calls it with the single new task (TaskDialog.tsx:31), so `tasks` becomes that object | submit any task, e.g. title "A", description "B": the next render calls `tasks.map` (blank search) or `tasks.filter` (any other search) on an object and throws a TypeError | append the new task to the list | high; not executed | DashboardStore.AddTaskAsWrittenBreaksDashboard | DashboardStore.AddTaskKeepsDashboard |

## Left out

- All network calls, bearer tokens and `localStorage`, and HTTP status checks. The backend's
  reply appears only as the `response` argument of `ToggleRoundTrip`.
- `updateTaskStatus` (TaskDetailsModal.tsx:129-165). It sends the chosen status and forwards
  the backend's reply, with no list logic. Only its option list is modelled.
- The `if (!task) return` guard of the toggle. The editor renders nothing without a task, so
  the toggle cannot be reached then.
- Toasts, React state and effect scheduling, dialog and dropdown open flags (except the
  dialog's `open`), icons, dates shown with `toLocaleDateString` or `date-fns`, and styling.
- The `Date` object chosen in the calendar. Its `toISOString()` rendering is taken as given.
- `JsString.ToLower`: maps only ASCII `A`-`Z`. JavaScript's `toLowerCase` also maps other
  scripts, and can change a string's length.
- `JsString.JsSlicePrefix`: when position 10 falls inside a surrogate pair, JavaScript keeps a
  lone high surrogate. A `char` here cannot hold one, so the model drops the whole pair.
- `JsString.NumberToString`: renders integers only, never in exponent form. Ids that are
  fractional, `NaN` or beyond 1e21 are not modelled. Every JavaScript rendering of a number
  still starts with a digit, `-`, `I` or `N`, never with `temp-`.
- `TaskDetailsEditor.EditAt`: assumes the value's type matches the field. The source's
  `string | boolean` value could put a boolean into `title`.
- Overlapping toggles: the reconciled list is built from the list as it was at the click
  (TaskDetailsModal.tsx:86, 122). A second toggle made while the first round trip is in flight
  is overwritten when the first one finishes. `ToggleRoundTrip` models one round trip at a time.
- Ids: subtask ids are modelled as strings or integers. Equality is `===`, which for these
  values is plain value equality.
