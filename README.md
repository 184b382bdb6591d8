# To-do list: a verified model of the task store and reminder table

The application is a desktop checklist. It keeps a list of task texts that the
user can add to, delete from, mark done or undone, clear of completed tasks and
sort (pending tasks first). The list is written to the flat file `tasks.txt`
after every change and read back at start-up. A second structure maps task
text to a reminder time, and a background loop fires and removes reminders
once their time has come.

This project models that core without the window. The module-level globals
become the fields of one class, `TodoApp.AppState`: `tasks` (a sequence of
strings), `reminders` (a map from task text to a time in minutes) and `file`
(the contents of `tasks.txt`, `None` when the file is missing). Each button
handler is a method of that class. A selection in the list box is passed in as
an `Option<nat>`, a parsed reminder date as an `Option<Time>` and the current
time as a plain `Time`. Each warning dialog is returned as a `Status`.

Modules, one per concern:

- `Text` (text.dfy) holds the Python behaviour the code relies on: `str.isspace`,
  `strip`, `replace(pattern, "")` for a non-empty pattern, universal-newline
  reading, and how `for line in file` splits a text into lines.
- `Tasks` (tasks.dfy) holds the task-list operations as functions. A task is done
  when it contains the check mark. "Mark done" toggles that state. "Clear
  completed" filters the list. "Sort" is a stable partition. Deletion removes
  one position.
- `TaskFile` (task_file.dfy) holds the file format. `Serialize` is what
  `save_tasks` writes. `Parse` is what `load_tasks` appends. The round trip is
  proved.
- `Reminders` (reminders.dfy) holds the effect of one checker tick on the
  reminder table.
- `TodoApp` (todo_app.dfy) holds the state class and its handlers.
- `Wrappers` (wrappers.dfy) holds `Option`.

Facts about the code that the model follows, some of them surprising:

- A task counts as done when `✔` appears anywhere in its text, not only at
  its end (To_do_list.py:57, 67, 75). `Tasks.IsDone` follows this.
- "Mark done" un-marks with `replace(" ✔", "")`, which removes every
  occurrence (`Tasks.UnmarkRemovesEveryMark`). Marking twice restores a pending
  task, and a pending task with one appended mark (`Tasks.ToggleTwice`). It
  does not restore a task with a mark in the middle
  (`Tasks.ToggleTwiceChangesMiddleMark`). A done task whose `✔` never follows
  a space cannot be un-marked at all (`Tasks.ToggleStuck`).
- Saving then loading reproduces the list only for tasks without line breaks
  and without surrounding whitespace, because loading strips every line and
  splits on line breaks (`TaskFile.SaveLoadRoundTrip`). Without line breaks,
  every task comes back stripped (`TaskFile.LoadSaved`). A task with a
  `"\n"` is written exactly like two tasks (`TaskFile.LineBreakSplitsTask`),
  and one with a lone `"\r"` is read back as two
  (`TaskFile.CarriageReturnSplitsTask`). An empty task survives the round trip.
- Loading catches only `FileNotFoundError` (To_do_list.py:22), and it appends
  to the list instead of replacing it (To_do_list.py:21).

## Model

| member | source | states |
|---|---|---|
| `Text.TrimLeftSpec` | To_do_list.py:21 | leading-whitespace removal: the result is a suffix, does not start with whitespace, and only whitespace was removed |
| `Text.TrimRightSpec` | To_do_list.py:21 | trailing-whitespace removal: the result is a prefix, does not end with whitespace, and only whitespace was removed |
| `Text.Strip` | To_do_list.py:21 | `line.strip()`: neither end of the result is whitespace; a text is left unchanged exactly when its ends are not whitespace |
| `Text.TrimLeftAppendSpace` | To_do_list.py:21 | lstrip of a text with one more whitespace character: empty when the text was all whitespace, otherwise the old result plus that character |
| `Text.StripIgnoresNewline` | To_do_list.py:21 | a line read with its newline still attached strips to the same text as without it |
| `Text.RemoveAll` | To_do_list.py:57 | `replace(" ✔", "")`: never lengthens the text, and leaves it unchanged exactly when the pattern does not occur |
| `Text.UniversalNewlines` | To_do_list.py:19-20 | text-mode reading leaves no carriage return and changes nothing in a text without one |
| `Text.UniversalNewlinesPrefix` | To_do_list.py:19-20 | text before the first carriage return is read unchanged |
| `Text.UniversalNewlinesLoneCR` | To_do_list.py:19-20 | a carriage return not followed by a newline is read as a line break |
| `Text.UniversalNewlinesCRLF` | To_do_list.py:19-20 | a carriage return followed by a newline is read as a single line break |
| `Text.FirstLineLength` | To_do_list.py:20 | the first line read ends at the first newline, or at the end of the text |
| `Text.LinesConcat` | To_do_list.py:20 | the lines read concatenate back to the whole text |
| `Text.LinesShape` | To_do_list.py:20 | each line read is non-empty with no newline before its end, and every line but the last ends with a newline |
| `Text.LinesAfterLine` | To_do_list.py:20 | a line without a newline, followed by a newline, is read back as exactly one line |
| `Tasks.ToggleMarks` | To_do_list.py:57 | marking a pending task appends `" ✔"` and makes the task completed |
| `Tasks.RemoveAllAfterPending` | To_do_list.py:57 | in a text made of a pending part, the suffix and a rest, un-marking keeps the pending part, deletes that suffix and un-marks the rest |
| `Tasks.RemoveSuffixOfPending` | To_do_list.py:57 | un-marking a pending task with the suffix appended restores the task |
| `Tasks.UnmarkRemovesEveryMark` | To_do_list.py:57 | un-marking deletes every `" ✔"`, not only the first: two pending parts each followed by the suffix become the two parts |
| `Tasks.UnmarkDoubleMark` | To_do_list.py:57 | `"a ✔ ✔"` becomes `"a"` in one toggle |
| `Tasks.ToggleTwice` | To_do_list.py:57 | two toggles restore a pending task, and restore a pending task with one appended suffix |
| `Tasks.ToggleStuck` | To_do_list.py:57 | a completed task with no `" ✔"` in it is left unchanged by "mark done" |
| `Tasks.ToggleTwiceChangesMiddleMark` | To_do_list.py:57 | two toggles turn `"a ✔ b"` into `"a b ✔"`: the mark in the middle is deleted and a new one is appended at the end |
| `Tasks.Select` | To_do_list.py:67 | the filter keeps only tasks of the chosen state and keeps every such task |
| `Tasks.SelectIsSubsequence` | To_do_list.py:67 | the filter keeps tasks in their original order |
| `Tasks.SelectIsLongest` | To_do_list.py:67 | no order-preserving selection of same-state tasks is longer than the filter |
| `Tasks.SelectIsUnique` | To_do_list.py:67 | the filter is the only longest order-preserving selection of same-state tasks, so "clear completed" keeps exactly the pending tasks in order |
| `Tasks.SelectIdempotent` | To_do_list.py:67 | clearing completed tasks twice equals clearing them once |
| `Tasks.SelectAll` | To_do_list.py:67 | a list whose tasks are all in the chosen state passes the filter unchanged |
| `Tasks.SelectNone` | To_do_list.py:67 | a list with no task in the chosen state filters to nothing |
| `Tasks.SelectAppend` | To_do_list.py:67 | filtering distributes over concatenation |
| `Tasks.SelectSplits` | To_do_list.py:75 | the pending and completed tasks together are the whole list, with multiplicity |
| `Tasks.GroupsAreSorted` | To_do_list.py:75 | pending tasks followed by completed tasks are in key order |
| `Tasks.SortByDoneIsStableSort` | To_do_list.py:75 | the sort result is a permutation; no completed task precedes a pending one; each group keeps its relative order |
| `Tasks.SortedSplits` | To_do_list.py:75 | a list in key order is its pending tasks followed by its completed tasks |
| `Tasks.StableSortIsUnique` | To_do_list.py:75 | any stable sort by the completion key yields exactly this partition |
| `Tasks.SortIdempotent` | To_do_list.py:75 | sorting an already sorted list changes nothing |
| `Tasks.RemoveAt` | To_do_list.py:46 | `pop(i)` removes only position `i`: earlier tasks stay, later tasks shift down by one, and the multiset loses that one task |
| `TaskFile.SerializeAppend` | To_do_list.py:28-29 | writing one more task appends its line to the file text |
| `TaskFile.SerializeHasNoCarriageReturn` | To_do_list.py:28-29 | the saved text has no carriage return when no task has one |
| `TaskFile.LinesOfSerialize` | To_do_list.py:20 | saved text reads back as one line per task, each with its newline |
| `TaskFile.LoadSaved` | To_do_list.py:17-29 | loading the saved text gives every task back stripped, in order, when no task has a line break |
| `TaskFile.SaveLoadRoundTrip` | To_do_list.py:17-29 | loading the saved text reproduces the list in order, when no task has a line break or surrounding whitespace |
| `TaskFile.LineBreakSplitsTask` | To_do_list.py:28-29 | on disk, a task with a line break is the same text as the two tasks on either side of it |
| `TaskFile.CarriageReturnSplitsTask` | To_do_list.py:17-29 | a saved task with a carriage return inside it, not followed by a newline, loads back as the two tasks on either side of it |
| `Reminders.AfterTick` | To_do_list.py:105-108 | after one tick, a reminder stays exactly when it is not due; kept reminders keep their time, and that time is after `now` |
| `Reminders.TickSplits` | To_do_list.py:105-108 | every reminder either fires or stays, and never both |
| `Reminders.TickIdempotent` | To_do_list.py:105-108 | a second tick at the same time fires nothing and changes nothing |
| `Reminders.TickFiresOnce` | To_do_list.py:103-109 | with the clock moving forward, a later tick fires only the reminders that became due since, so none fires twice |
| `Reminders.TickBeforeAllTimes` | To_do_list.py:106 | a tick before every reminder's time fires nothing and leaves the table as it is |
| `Reminders.SetThenTick` | To_do_list.py:92-106 | a reminder just set fires at a tick exactly when `now` is at or after its time, and earlier ticks keep it |
| `TodoApp.AppState.constructor` | To_do_list.py:13-14 | the application starts with an empty list and an empty reminder table |
| `TodoApp.AppState.LoadTasks` | To_do_list.py:17-23 | the parsed lines of `tasks.txt` are appended after the existing tasks; a missing file changes nothing |
| `TodoApp.AppState.SaveTasks` | To_do_list.py:26-29 | `tasks.txt` becomes the serialised list |
| `TodoApp.AppState.AddTask` | To_do_list.py:32-40 | empty text: warning, list and file unchanged. Otherwise the text is appended at the end and the file saved |
| `TodoApp.AppState.DeleteTask` | To_do_list.py:43-50 | with a selection: exactly that task is removed, order is kept, and the file is saved. Without one: warning, nothing changes |
| `TodoApp.AppState.MarkDone` | To_do_list.py:53-62 | with a selection: only that task changes, to its toggled text; length and other tasks are kept; the file is saved. Without one: warning, nothing changes |
| `TodoApp.AppState.ClearCompleted` | To_do_list.py:65-71 | the list becomes its pending tasks in order, no completed task remains, and the file is saved |
| `TodoApp.AppState.SortTasks` | To_do_list.py:74-79 | the list becomes its stable sort by completion (a permutation, pending first, groups in order), and the file is saved |
| `TodoApp.AppState.SetReminder` | To_do_list.py:82-99 | no selection gives that warning; an unparsable date gives the format warning; in both cases the table is unchanged. Otherwise the selected task's text is stored or overwritten with the new time |
| `TodoApp.AppState.CheckRemindersTick` | To_do_list.py:104-108 | one pass fires exactly the reminders due at `now`, deletes exactly those, and keeps every later reminder unchanged |

## Left out

- The tkinter window is not modelled: widgets, styles, buttons, the list box, the entries, and the clearing of entries after use. The list box only mirrors `tasks`.
- `messagebox` dialogs are not modelled. Each warning is a returned `Status`, and the state is unchanged. The information dialogs that confirm a reminder or announce one firing are not modelled either.
- The reminder thread is not modelled: its endless loop, `time.sleep(60)`, the daemon flag, and the unsynchronised sharing of `reminders` with the window thread. Only one pass of the loop body is modelled, as `CheckRemindersTick`.
- `datetime.now()` is a parameter `now`. `datetime.strptime` with `"%Y-%m-%d %H:%M"` is not modelled. Its result is a parameter that is either a time in minutes or `None` for a `ValueError`.
- TodoApp.AppState.CheckRemindersTick: the fired reminders are returned as a set. The order of the notification dialogs, which is the table's insertion order, is not modelled.
- Real file access is not modelled. `tasks.txt` is the `file` field. Errors other than a missing file are not modelled: a failed read beyond `FileNotFoundError`, a failed write, and undecodable bytes in the platform's default encoding. In the code all of these propagate.
- Newline translation on write is not modelled. The text is written as a POSIX system writes it, with `"\n"` kept as is.
