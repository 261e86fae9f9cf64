# ToDoList task store in Dafny

The ToDoList program is a single-window tkinter to-do list. Its only logic is the list of task records
the `ToDoList` class holds in `self.tasks` and five operations on that list:

- **add a task.** The entry is stripped and must not be empty. The new task is due today, tomorrow or the day after.
- **mark a task done.** The note is stripped and cut to 30 characters, and the task is stamped with the current minute.
- **delete a task.** This uses `list.remove`, which drops the first task equal by value.
- **split the pending tasks.** Pending tasks go into an on-schedule list and an overdue list.
- **list the completed tasks.** A keyword filter and a lenient date-range filter are applied, then the tasks are sorted newest first.

This project models that store and proves what each operation does.

Files and modules:

- `py_str.dfy` (`PyStr`) models the Python string built-ins the store uses: `str.strip()` with Python's full whitespace set, `str.lower()` and the substring test `k in s`.
- `tasks.dfy` (`Tasks`) holds the task record and its invariant, along with the pure parts of add, mark-done and `list.remove`. It also holds the two views as functions over the list, `Overdue`/`OnSchedule` and `Selected`, plus the lemmas about them.
- `completion_order.dfy` (`CompletionOrder`) models `sorted(..., key=completed_date, reverse=True)` as a stable newest-first insertion sort. It proves that the sort is a permutation, that its output is ordered, that it is stable, and that it is the only list with those properties.
- `todo_list.dfy` (`TodoList`) holds the class `ToDoList`. Its field `tasks: seq<Task>` is updated in place by `AddTask`, `MarkAsDone` and `DeleteTask`. `PendingPartition` and `CompletedView` are the two loops of the refresh handlers, checked against the view functions.

Representation choices:

- Calendar dates are day numbers and completion stamps are minute numbers. The program stores them as `"YYYY-MM-DD"` and `"YYYY-MM-DD HH:MM"` strings, whose lexicographic order is chronological, so the sort by the stamp string is a sort by the minute number. `DayOf(m) = m / 1440` stands for `comp_date.date()`.
- The clock is a parameter: `today` stands for `datetime.today()` and `now` for `datetime.now()`.
- A start or end entry of the search form is a `DateBound`. It is `Blank` for an empty entry, `Malformed` when `strptime` would raise, and `Parsed(day)` otherwise.
- A task is a value (`datatype Task`), so Dafny equality is Python dict equality, which is what `list.remove` uses. The task that `mark_as_done` changes through an aliased dict is named by its position in the list.
- The invariant `ToDoList.Valid` (through `Tasks.WellFormed`) has four parts:
  - a task is done exactly when it has a completion stamp;
  - its text is non-empty and stripped;
  - its note has at most 30 characters;
  - its note is empty while the task is pending.

  The constructor establishes it. `AddTask`, `MarkAsDone` and `DeleteTask` preserve it; the record `AddTask` appends is well formed by `Tasks.NewTask`'s contract.

Behaviour worth noting:

- **Malformed end date.** A malformed end entry only skips the end check, because the start check has already run. A malformed start entry skips both, because its exception is raised first (TodoList.py:198-209).
- **Delete.** Deletion is offered only for overdue tasks, but that is a rule of the widgets. `delete_task` itself removes any task, and so does `DeleteTask`.
- **Re-completion.** Marking a task done is not guarded. Marking a done task again re-stamps it and overwrites its note. `Tasks.Completed` has no precondition on `done`.

## Model

| member | source | states |
|---|---|---|
| `PyStr.StripStart` | TodoList.py:80 | the result is a suffix of the input, everything dropped is whitespace, and it does not start with whitespace |
| `PyStr.StripEnd` | TodoList.py:80 | the result is a prefix of the input, everything dropped is whitespace, and it does not end with whitespace |
| `PyStr.Strip` | TodoList.py:80 | `strip()` keeps an infix whose two ends are not whitespace, drops only whitespace on either side, and is empty exactly when the whole input is whitespace |
| `PyStr.Lower` | TodoList.py:189 | `lower()` keeps the length, leaves no ASCII capital, and changes no other character |
| `PyStr.LowerIdempotent` | TodoList.py:213 | lowering an already lowered string changes nothing |
| `PyStr.LowerEqualIffSameUpToCase` | TodoList.py:189 | two lowered strings are equal exactly when the originals have the same length and agree character by character up to ASCII case (both directions) |
| `PyStr.Contains` | TodoList.py:213 | `k in s`: `k` is a prefix of `s` or of one of its suffixes |
| `PyStr.ContainsIffOccurs` | TodoList.py:213 | `k in s` holds exactly when `k` occurs in `s` at some position (both directions) |
| `Tasks.NewTask` | TodoList.py:79-101 | no task is made exactly when the entry is all whitespace; otherwise the task is well formed, its text is the stripped entry, it is due `today + offset` with offset 0, 1 or 2, it is not done and its note is empty |
| `Tasks.NoteOf` | TodoList.py:259 | the note is the prefix of the stripped entry of length min(30, its length), so it has at most 30 characters |
| `Tasks.Completed` | TodoList.py:258-262 | the task is done, its stamp is `now` and its note is `NoteOf(entry)`; text and due date are unchanged, and a task with a valid text comes out well formed |
| `Tasks.FirstIndex` | TodoList.py:266 | the position found holds the task, and no earlier position does |
| `Tasks.RemoveFirst` | TodoList.py:266 | `list.remove` shortens the list by one and removes one copy of the task from the multiset; the tasks before the first match and after it stay in place and in order |
| `Tasks.Overdue` | TodoList.py:125-129 | a task is in `overdue_tasks` exactly when it is in the list, not done, and due before today |
| `Tasks.OnSchedule` | TodoList.py:125-131 | a task is in `normal_tasks` exactly when it is in the list, not done, and due today or later |
| `Tasks.PendingSplitCounts` | TodoList.py:125-131 | every pending occurrence lands in exactly one of the two lists, and done tasks land in neither (counted per task value) |
| `Tasks.OverdueKeepsOrder` | TodoList.py:125-129 | the overdue list is a subsequence of the task list, so list order is kept |
| `Tasks.OnScheduleKeepsOrder` | TodoList.py:125-131 | the on-schedule list is a subsequence of the task list, so list order is kept |
| `Tasks.AddedTaskIsOnSchedule` | TodoList.py:93-101 | an appended pending task due no earlier than today is the new last on-schedule task, and the overdue list is unchanged, so the pending count grows by one |
| `Tasks.CompletingLeavesPending` | TodoList.py:258-262 | marking a pending task done takes exactly one copy of it out of the two pending lists and changes nothing else in them |
| `Tasks.CompletedTaskIsListed` | TodoList.py:258-262 | a task that was just marked done passes the filter with no keyword and no dates; under any filter it passes it is listed, and when it was pending before, the filter keeps exactly one more copy of it |
| `Tasks.WithinDates` | TodoList.py:197-209 | the date rule: with no bound given every task passes; otherwise a task without a parseable stamp passes (the `except: pass`), a malformed start passes the task, and a parsed bound is checked against the day of the stamp |
| `Tasks.MatchesKeyword` | TodoList.py:212-214 | an empty keyword passes every task; otherwise the lower-cased keyword must occur in the lower-cased text or the lower-cased note |
| `Tasks.DateRuleCases` | TodoList.py:197-209 | the date rule case by case. A start after the stamp's day excludes the task. An end before it excludes the task unless the start is malformed. A missing stamp or a malformed start keeps the task. A malformed end behaves like a blank one. With two parsed bounds the rule is `start <= day <= end` |
| `Tasks.Selected` | TodoList.py:193-216 | a task is in `filtered` exactly when it is in the list, done, passes the date rule and matches the lower-cased keyword in its lower-cased text or note |
| `Tasks.SelectedCounts` | TodoList.py:193-216 | per task value, `filtered` holds every copy of a selected task and no copy of any other, so duplicates are listed as often as they occur |
| `Tasks.SelectedKeepsOrder` | TodoList.py:194-216 | `filtered` is a subsequence of the task list |
| `CompletionOrder.Insert` | TodoList.py:238 | inserting into a newest-first list gives a newest-first list with one more copy of the task |
| `CompletionOrder.SortNewestFirst` | TodoList.py:238 | the sorted list is a permutation of its input and its stamps never increase |
| `CompletionOrder.InsertIsStable` | TodoList.py:238 | insertion keeps the new task ahead of the tasks completed in the same minute |
| `CompletionOrder.SortIsStable` | TodoList.py:238 | for every minute, the tasks completed in it keep their relative order (Python's sort is stable with `reverse=True`) |
| `CompletionOrder.NewestFirstStableIsUnique` | TodoList.py:238 | two newest-first lists that agree, minute by minute, on which tasks completed then and in what order are equal |
| `CompletionOrder.SortIsTheStableNewestFirstOrder` | TodoList.py:238 | any stable newest-first rearrangement of the input, which is what `sorted(..., reverse=True)` returns, equals `SortNewestFirst` |
| `CompletionOrder.ShownAreSelected` | TodoList.py:189-238 | a task is displayed exactly when it is in the list, done, passes the date rule and matches the keyword, and it is displayed as many times as it occurs in the list |
| `TodoList.ToDoList.constructor` | TodoList.py:20 | the store starts empty and valid |
| `TodoList.ToDoList.AddTask` | TodoList.py:79-103 | a task is added exactly when the entry has a non-whitespace character. If none is added the list is unchanged; otherwise exactly one pending task with the stripped text, due `today + offset`, no stamp and an empty note is appended after the unchanged earlier tasks. The invariant is kept |
| `TodoList.ToDoList.MarkAsDone` | TodoList.py:258-263 | only the task at position `i` changes, and it becomes `Completed(task, note, now)`. The length is kept and so is the invariant |
| `TodoList.ToDoList.DeleteTask` | TodoList.py:265-267 | when the task is present, the list becomes `RemoveFirst(list, task)`. Otherwise `list.remove` raises and the list is unchanged. The invariant is kept |
| `TodoList.ToDoList.PendingPartition` | TodoList.py:120-131 | the loop builds exactly `OnSchedule(tasks, today)` and `Overdue(tasks, today)` |
| `TodoList.ToDoList.CompletedView` | TodoList.py:188-238 | the loop follows the source's `try`/`continue` flow and builds exactly `Selected(tasks, lower(keyword), start, end)`; every selected task is stamped, and the result is its stable newest-first sort |

## Left out

- Widgets are not modelled: construction, layout, scrolling, re-rendering (`refresh_ui`, `create_task_row`, `create_widgets`) and `messagebox`. The empty-entry warning shows up only as `added == false`.
- The combobox labels and their label-to-offset map (TodoList.py:36-41, 86-91) are not modelled. The choice is the offset itself, `DueOffset`, which is 0, 1 or 2.
- `load_data`, `save_data`, `on_close`, the data directory setup and JSON are file I/O and are not modelled. The store starts empty, as it does when there is no data file. Consequently, records from a hand-edited file are not modelled: malformed due dates or stamp strings, or missing keys.
- `datetime.today()`, `datetime.now()`, `strptime` and `strftime` are not modelled. Dates are day numbers, stamps are minute numbers and the clock is a parameter. A search entry is already classified as blank, malformed or a parsed day; which strings `strptime` accepts is not modelled.
- `temp_note` (TodoList.py:168) has no behaviour: it is read and never written.
- The MM-DD display of due dates (TodoList.py:155-156) is presentation.
- PyStr.Lower: only ASCII capitals are lowered. Python's `str.lower()` also maps the capitals of other scripts.
- CompletionOrder.SortNewestFirst: requires every task it sorts to have a stamp. Python raises TypeError when it compares a missing stamp with another one; only a single unstamped task would sort without error. `CompletedView` meets the requirement through the store invariant.
- TodoList.ToDoList.MarkAsDone: the task is named by its position. Identity and aliasing of Python dicts are modelled only to the extent that this position picks the one record that changes.
- TodoList.ToDoList.DeleteTask: the ValueError of `list.remove` is modelled as `removed == false` with the list unchanged. The traceback tkinter prints for an uncaught exception in a handler is not modelled.
