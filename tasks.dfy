/** The task records held in `ToDoList.tasks` and the pure views computed
    from the list: the pending split into on-schedule and overdue tasks, and
    the filter over completed tasks. Calendar dates are day numbers and
    completion stamps are minute numbers; both orders agree with the
    lexicographic order of the "YYYY-MM-DD" and "YYYY-MM-DD HH:MM" strings
    the program stores. */
module Tasks {
  import opened PyStr

  type Day = int
  type Minute = int

  const MinutesPerDay: int := 1440

  /** Longest completion note kept (the `[:30]` slice). */
  const NoteLimit: nat := 30

  /** The calendar day of a completion stamp (`comp_date.date()`). */
  function DayOf(m: Minute): Day {
    m / MinutesPerDay
  }

  /** The three choices of the due-date picker: today, tomorrow, the day after. */
  type DueOffset = k: int | 0 <= k <= 2

  datatype Option<T> = None | Some(value: T)

  /** One task dict: `text`, `due_date`, `completed_date`, `done`, `note`. */
  datatype Task = Task(
    text: string,
    dueDate: Day,
    completedDate: Option<Minute>,
    done: bool,
    note: string)

  /** What every task the store creates satisfies: it is done exactly when it
      carries a completion stamp, its text is non-empty and stripped, and
      its note is at most 30 characters and empty while it is pending. */
  predicate WellFormed(t: Task) {
    && (t.done <==> t.completedDate.Some?)
    && t.text != [] && Stripped(t.text)
    && |t.note| <= NoteLimit
    && (!t.done ==> t.note == [])
  }

  // ----- add -----

  /** The record `add_task` appends for the entry `entry` picked with
      `offset` on day `today`, or None when the stripped entry is empty
      (the warning branch). */
  function NewTask(entry: string, offset: DueOffset, today: Day): (r: Option<Task>)
    ensures r.None? <==> AllSpace(entry)
    ensures r.Some? ==>
      && WellFormed(r.value)
      && r.value.text == Strip(entry)
      && today <= r.value.dueDate <= today + 2
      && r.value.dueDate == today + offset
      && !r.value.done && r.value.note == []
  {
    var text := Strip(entry);
    if text == [] then None
    else Some(Task(text, today + offset, None, false, []))
  }

  // ----- mark as done -----

  /** The note kept from the entry: the stripped entry cut to 30 characters. */
  function NoteOf(entry: string): (note: string)
    ensures |note| <= NoteLimit
    ensures |note| == if |Strip(entry)| <= NoteLimit then |Strip(entry)| else NoteLimit
    ensures note == Strip(entry)[..|note|]
  {
    var s := Strip(entry);
    if |s| <= NoteLimit then s else s[..NoteLimit]
  }

  /** The task after `mark_as_done(t, entry)` at minute `now`. The source
      does not check `t.done`, so a done task is stamped again. */
  function Completed(t: Task, entry: string, now: Minute): (r: Task)
    ensures r.done && r.completedDate == Some(now)
    ensures r.note == NoteOf(entry)
    ensures r.text == t.text && r.dueDate == t.dueDate
    ensures t.text != [] && Stripped(t.text) ==> WellFormed(r)
  {
    t.(note := NoteOf(entry), done := true, completedDate := Some(now))
  }

  // ----- delete: list.remove -----

  /** Position of the first element of `ts` equal to `t`. */
  function FirstIndex(ts: seq<Task>, t: Task): (i: nat)
    requires t in ts
    ensures i < |ts| && ts[i] == t
    ensures t !in ts[..i]
  {
    if ts[0] == t then 0
    else
      var j := FirstIndex(ts[1..], t);
      assert ts[..j + 1] == [ts[0]] + ts[1..][..j];
      j + 1
  }

  /** `ts.remove(t)`: the first element equal to `t` goes, and the rest keep
      their order. */
  function RemoveFirst(ts: seq<Task>, t: Task): (r: seq<Task>)
    requires t in ts
    ensures |r| == |ts| - 1
    ensures multiset(r) == multiset(ts) - multiset{t}
    ensures var i := FirstIndex(ts, t); r[..i] == ts[..i] && r[i..] == ts[i + 1..]
  {
    var i := FirstIndex(ts, t);
    assert ts == ts[..i] + [ts[i]] + ts[i + 1..];
    ts[..i] + ts[i + 1..]
  }

  // ----- the pending split -----

  predicate IsOverdue(t: Task, today: Day) {
    !t.done && t.dueDate < today
  }

  predicate IsOnSchedule(t: Task, today: Day) {
    !t.done && t.dueDate >= today
  }

  /** `overdue_tasks`: the pending tasks due before `today`, in list order. */
  function Overdue(ts: seq<Task>, today: Day): (r: seq<Task>)
    ensures forall x :: x in r <==> x in ts && IsOverdue(x, today)
  {
    if ts == [] then []
    else
      var last := ts[|ts| - 1];
      assert ts == ts[..|ts| - 1] + [last];
      Overdue(ts[..|ts| - 1], today) + if IsOverdue(last, today) then [last] else []
  }

  /** `normal_tasks`: the pending tasks due today or later, in list order. */
  function OnSchedule(ts: seq<Task>, today: Day): (r: seq<Task>)
    ensures forall x :: x in r <==> x in ts && IsOnSchedule(x, today)
  {
    if ts == [] then []
    else
      var last := ts[|ts| - 1];
      assert ts == ts[..|ts| - 1] + [last];
      OnSchedule(ts[..|ts| - 1], today) + if IsOnSchedule(last, today) then [last] else []
  }

  // ----- the completed-task filter -----

  /** A start or end entry of the search form: left blank, not a
      "YYYY-MM-DD" date (`strptime` raises), or the date it parses to. */
  datatype DateBound = Blank | Malformed | Parsed(day: Day)

  /** The date range rule, stated declaratively. No bound given keeps every
      task; otherwise a task without a parseable stamp is kept, a malformed
      start disables both bounds, and a malformed end disables only itself. */
  predicate WithinDates(t: Task, start: DateBound, end: DateBound) {
    || (start.Blank? && end.Blank?)
    || t.completedDate.None?
    || start.Malformed?
    || (&& (start.Parsed? ==> start.day <= DayOf(t.completedDate.value))
        && (end.Parsed? ==> DayOf(t.completedDate.value) <= end.day))
  }

  /** The cases of the date rule one by one: a start date after the day of
      the stamp or an end date before it excludes the task unless a
      malformed start has already ended the checks; a missing stamp or a
      malformed start keeps the task; a malformed end acts as a blank one. */
  lemma DateRuleCases(t: Task, start: DateBound, end: DateBound)
    ensures t.completedDate.Some? && start.Parsed? && DayOf(t.completedDate.value) < start.day
            ==> !WithinDates(t, start, end)
    ensures t.completedDate.Some? && !start.Malformed? && end.Parsed? && DayOf(t.completedDate.value) > end.day
            ==> !WithinDates(t, start, end)
    ensures t.completedDate.None? || start.Malformed? ==> WithinDates(t, start, end)
    ensures end.Malformed? ==> (WithinDates(t, start, end) <==> WithinDates(t, start, Blank))
    ensures t.completedDate.Some? && start.Parsed? && end.Parsed?
            ==> (WithinDates(t, start, end) <==> start.day <= DayOf(t.completedDate.value) <= end.day)
  {
  }

  /** The keyword rule; `keyword` is already lower-cased. */
  predicate MatchesKeyword(t: Task, keyword: string) {
    keyword == [] || Contains(Lower(t.text), keyword) || Contains(Lower(t.note), keyword)
  }

  predicate IsSelected(t: Task, keyword: string, start: DateBound, end: DateBound) {
    t.done && WithinDates(t, start, end) && MatchesKeyword(t, keyword)
  }

  /** `filtered`: the done tasks passing both rules, in list order. */
  function Selected(ts: seq<Task>, keyword: string, start: DateBound, end: DateBound): (r: seq<Task>)
    ensures forall x :: x in r <==> x in ts && IsSelected(x, keyword, start, end)
  {
    if ts == [] then []
    else
      var last := ts[|ts| - 1];
      assert ts == ts[..|ts| - 1] + [last];
      Selected(ts[..|ts| - 1], keyword, start, end)
        + if IsSelected(last, keyword, start, end) then [last] else []
  }

  /** The filter keeps every copy of a task that passes it and no copy of
      one that does not: duplicates are listed as often as they occur. */
  lemma {:induction false} SelectedCounts(ts: seq<Task>, keyword: string, start: DateBound, end: DateBound, x: Task)
    ensures multiset(Selected(ts, keyword, start, end))[x]
            == if IsSelected(x, keyword, start, end) then multiset(ts)[x] else 0
    decreases |ts|
  {
    if ts != [] {
      var init, last := ts[..|ts| - 1], ts[|ts| - 1];
      SelectedCounts(init, keyword, start, end, x);
      assert ts == init + [last];
      assert multiset(ts) == multiset(init) + multiset{last};
      var k := if IsSelected(last, keyword, start, end) then [last] else [];
      assert Selected(ts, keyword, start, end) == Selected(init, keyword, start, end) + k;
      assert multiset(k)[x] == if IsSelected(x, keyword, start, end) then multiset{last}[x] else 0;
    }
  }

  /** One more task of the list considered by the filter loop. */
  lemma SelectedStep(ts: seq<Task>, i: nat, keyword: string, start: DateBound, end: DateBound)
    requires i < |ts|
    ensures Selected(ts[..i + 1], keyword, start, end)
            == Selected(ts[..i], keyword, start, end)
               + if IsSelected(ts[i], keyword, start, end) then [ts[i]] else []
  {
    assert ts[..i + 1][..i] == ts[..i];
  }

  // ----- order preservation -----

  /** `a` is `b` with some elements left out, the rest in the same order. */
  predicate SubseqOf(a: seq<Task>, b: seq<Task>)
    decreases |b|
  {
    if a == [] then true
    else if b == [] then false
    else
      || (a[|a| - 1] == b[|b| - 1] && SubseqOf(a[..|a| - 1], b[..|b| - 1]))
      || SubseqOf(a, b[..|b| - 1])
  }

  lemma {:induction false} OverdueKeepsOrder(ts: seq<Task>, today: Day)
    ensures SubseqOf(Overdue(ts, today), ts)
    decreases |ts|
  {
    if ts != [] {
      var init := ts[..|ts| - 1];
      OverdueKeepsOrder(init, today);
      var r := Overdue(ts, today);
      if IsOverdue(ts[|ts| - 1], today) {
        assert r == Overdue(init, today) + [ts[|ts| - 1]];
        assert r[..|r| - 1] == Overdue(init, today);
      } else {
        assert r == Overdue(init, today);
      }
    }
  }

  lemma {:induction false} OnScheduleKeepsOrder(ts: seq<Task>, today: Day)
    ensures SubseqOf(OnSchedule(ts, today), ts)
    decreases |ts|
  {
    if ts != [] {
      var init := ts[..|ts| - 1];
      OnScheduleKeepsOrder(init, today);
      var r := OnSchedule(ts, today);
      if IsOnSchedule(ts[|ts| - 1], today) {
        assert r == OnSchedule(init, today) + [ts[|ts| - 1]];
        assert r[..|r| - 1] == OnSchedule(init, today);
      } else {
        assert r == OnSchedule(init, today);
      }
    }
  }

  lemma {:induction false} SelectedKeepsOrder(ts: seq<Task>, keyword: string, start: DateBound, end: DateBound)
    ensures SubseqOf(Selected(ts, keyword, start, end), ts)
    decreases |ts|
  {
    if ts != [] {
      var init := ts[..|ts| - 1];
      SelectedKeepsOrder(init, keyword, start, end);
      var r := Selected(ts, keyword, start, end);
      if IsSelected(ts[|ts| - 1], keyword, start, end) {
        assert r == Selected(init, keyword, start, end) + [ts[|ts| - 1]];
        assert r[..|r| - 1] == Selected(init, keyword, start, end);
      } else {
        assert r == Selected(init, keyword, start, end);
      }
    }
  }

  // ----- properties of the pending split -----

  /** Every pending occurrence in `ts` lands in exactly one of the two lists,
      and no done task lands in either. */
  lemma {:induction false} PendingSplitCounts(ts: seq<Task>, today: Day, x: Task)
    ensures multiset(OnSchedule(ts, today))[x] + multiset(Overdue(ts, today))[x]
            == if x.done then 0 else multiset(ts)[x]
    decreases |ts|
  {
    if ts != [] {
      var init, last := ts[..|ts| - 1], ts[|ts| - 1];
      PendingSplitCounts(init, today, x);
      assert ts == init + [last];
      assert multiset(ts) == multiset(init) + multiset{last};
      var n := if IsOnSchedule(last, today) then [last] else [];
      var o := if IsOverdue(last, today) then [last] else [];
      assert OnSchedule(ts, today) == OnSchedule(init, today) + n;
      assert Overdue(ts, today) == Overdue(init, today) + o;
      assert multiset(n)[x] + multiset(o)[x] == if x.done then 0 else multiset{last}[x];
    }
  }

  /** A pending task added on day `today` and due no earlier joins the end of
      the on-schedule list, and the overdue list does not change. */
  lemma AddedTaskIsOnSchedule(ts: seq<Task>, t: Task, today: Day)
    requires !t.done && today <= t.dueDate
    ensures OnSchedule(ts + [t], today) == OnSchedule(ts, today) + [t]
    ensures Overdue(ts + [t], today) == Overdue(ts, today)
  {
    assert (ts + [t])[..|ts|] == ts;
  }

  /** Marking a pending task done takes exactly one copy of it out of the
      pending lists. */
  lemma CompletingLeavesPending(ts: seq<Task>, i: nat, c: Task, today: Day)
    requires i < |ts| && !ts[i].done && c.done
    ensures multiset(OnSchedule(ts[i := c], today)) + multiset(Overdue(ts[i := c], today)) + multiset{ts[i]}
            == multiset(OnSchedule(ts, today)) + multiset(Overdue(ts, today))
  {
    var ts' := ts[i := c];
    var before := multiset(OnSchedule(ts, today)) + multiset(Overdue(ts, today));
    var after := multiset(OnSchedule(ts', today)) + multiset(Overdue(ts', today));
    forall x
      ensures (after + multiset{ts[i]})[x] == before[x]
    {
      PendingSplitCounts(ts, today, x);
      PendingSplitCounts(ts', today, x);
      UpdateCount(ts, i, c, x);
    }
    assert after + multiset{ts[i]} == before;
  }

  /** A task that was just marked done passes the filter with no keyword and
      no dates. Under any filter it passes it is listed, and when it was
      pending before, the filter keeps one more copy of it than before. */
  lemma CompletedTaskIsListed(ts: seq<Task>, i: nat, entry: string, now: Minute,
                              keyword: string, start: DateBound, end: DateBound)
    requires i < |ts|
    ensures IsSelected(Completed(ts[i], entry, now), [], Blank, Blank)
    ensures var c := Completed(ts[i], entry, now);
            IsSelected(c, keyword, start, end) ==> c in Selected(ts[i := c], keyword, start, end)
    ensures var c := Completed(ts[i], entry, now);
            !ts[i].done && IsSelected(c, keyword, start, end)
            ==> multiset(Selected(ts[i := c], keyword, start, end))[c]
                == multiset(Selected(ts, keyword, start, end))[c] + 1
  {
    var c := Completed(ts[i], entry, now);
    assert ts[i := c][i] == c;
    SelectedCounts(ts, keyword, start, end, c);
    SelectedCounts(ts[i := c], keyword, start, end, c);
    UpdateCount(ts, i, c, c);
  }

  /** How many copies of `x` a sequence holds after one element is replaced. */
  lemma UpdateCount(ts: seq<Task>, i: nat, c: Task, x: Task)
    requires i < |ts|
    ensures multiset(ts[i := c])[x]
            == multiset(ts)[x] - (if ts[i] == x then 1 else 0) + (if c == x then 1 else 0)
  {
    assert multiset(ts[i := c]) == multiset(ts) - multiset{ts[i]} + multiset{c};
  }
}
