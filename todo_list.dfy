/** The task store of the `ToDoList` window: the list `tasks` and the five
    operations the window's handlers perform on it. The clock is a
    parameter: `today` is a day number, `now` a minute number. */
module TodoList {
  import opened PyStr
  import opened Tasks
  import opened CompletionOrder

  class ToDoList {
    /** `self.tasks`, in insertion order. */
    var tasks: seq<Task>

    /** Every task the store holds is well formed; in particular a task is
        done exactly when it has a completion stamp. */
    ghost predicate Valid()
      reads this
    {
      forall t :: t in tasks ==> WellFormed(t)
    }

    /** A window started without a data file holds no tasks. */
    constructor ()
      ensures Valid() && tasks == []
    {
      tasks := [];
    }

    /** `add_task`: strips the entry; an empty result leaves the list as it
        was (the warning branch), otherwise a pending task due `offset`
        days after `today` is appended. */
    method AddTask(entry: string, offset: DueOffset, today: Day) returns (added: bool)
      requires Valid()
      modifies this
      ensures Valid()
      ensures added <==> !AllSpace(entry)
      ensures !added ==> tasks == old(tasks)
      ensures added ==> tasks == old(tasks) + [Task(Strip(entry), today + offset, None, false, [])]
    {
      var created := NewTask(entry, offset, today);
      if created.None? {
        return false;
      }
      tasks := tasks + [created.value];
      added := true;
    }

    /** `mark_as_done` on the task at position `i`: the stripped note, cut to
        30 characters, is stored, the task is marked done and stamped with
        `now`; no other task changes. */
    method MarkAsDone(i: nat, noteEntry: string, now: Minute)
      requires Valid() && i < |tasks|
      modifies this
      ensures Valid()
      ensures |tasks| == |old(tasks)|
      ensures tasks == old(tasks)[i := Completed(old(tasks)[i], noteEntry, now)]
    {
      var t := tasks[i];
      var note := Strip(noteEntry);
      if |note| > NoteLimit {
        note := note[..NoteLimit];
      }
      t := t.(note := note);
      t := t.(done := true);
      t := t.(completedDate := Some(now));
      assert t == Completed(tasks[i], noteEntry, now);
      assert tasks[i] in tasks;
      forall x | x in tasks[i := t]
        ensures WellFormed(x)
      {
        var j :| 0 <= j < |tasks| && tasks[i := t][j] == x;
        if j != i {
          assert x in tasks;
        }
      }
      tasks := tasks[i := t];
    }

    /** `delete_task`: `list.remove` drops the first task equal to `t`. When
        no task is equal to `t`, `list.remove` raises ValueError and the
        list is left as it was; `removed` is false then. */
    method DeleteTask(t: Task) returns (removed: bool)
      requires Valid()
      modifies this
      ensures Valid()
      ensures removed <==> t in old(tasks)
      ensures removed ==> tasks == RemoveFirst(old(tasks), t)
      ensures !removed ==> tasks == old(tasks)
    {
      if t !in tasks {
        return false;
      }
      tasks := RemoveFirst(tasks, t);
      removed := true;
    }

    /** The split at the top of `refresh_task_list`: the pending tasks due
        `today` or later, then those due earlier, each in list order. */
    method PendingPartition(today: Day) returns (normal: seq<Task>, overdue: seq<Task>)
      ensures normal == OnSchedule(tasks, today)
      ensures overdue == Overdue(tasks, today)
    {
      normal, overdue := [], [];
      for i := 0 to |tasks|
        invariant normal == OnSchedule(tasks[..i], today)
        invariant overdue == Overdue(tasks[..i], today)
      {
        var task := tasks[i];
        assert tasks[..i + 1][..i] == tasks[..i];
        if !task.done {
          if task.dueDate < today {
            overdue := overdue + [task];
          } else {
            normal := normal + [task];
          }
        }
      }
      assert tasks[..|tasks|] == tasks;
    }

    /** The filter and sort of `refresh_completed_tasks`. The loop follows the
        source's control flow: the date checks sit in a `try` whose failures
        (no stamp, a malformed start or end) are swallowed, and a rejected
        task is skipped with `continue`. The result is the newest-first
        arrangement of the done tasks that `Selected` keeps. */
    method CompletedView(keyword: string, start: DateBound, end: DateBound) returns (shown: seq<Task>)
      requires Valid()
      ensures AllStamped(Selected(tasks, Lower(keyword), start, end))
      ensures shown == SortNewestFirst(Selected(tasks, Lower(keyword), start, end))
    {
      var kw := Lower(keyword);
      var filtered: seq<Task> := [];
      for i := 0 to |tasks|
        invariant filtered == Selected(tasks[..i], kw, start, end)
      {
        var task := tasks[i];
        SelectedStep(tasks, i, kw, start, end);
        if !task.done {
          continue;
        }
        if !start.Blank? || !end.Blank? {
          // try:
          if task.completedDate.Some? {
            var compDay := DayOf(task.completedDate.value);
            var raised := false;
            if !start.Blank? {
              if start.Malformed? {
                raised := true;
              } else if compDay < start.day {
                continue;
              }
            }
            if !raised && !end.Blank? {
              if end.Parsed? && compDay > end.day {
                continue;
              }
            }
          }
          // except: pass
        }
        if kw != [] {
          if !Contains(Lower(task.text), kw) && !Contains(Lower(task.note), kw) {
            continue;
          }
        }
        filtered := filtered + [task];
      }
      assert tasks[..|tasks|] == tasks;
      assert AllStamped(filtered) by {
        forall x | x in filtered
          ensures x.completedDate.Some?
        {
          assert x in tasks && WellFormed(x);
        }
      }
      shown := SortNewestFirst(filtered);
    }
  }
}
