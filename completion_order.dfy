/** The order in which completed tasks are shown:
    `sorted(filtered, key=lambda x: x["completed_date"], reverse=True)`.
    Python's sort is stable also with `reverse=True`, so the result is the
    newest-first order in which tasks completed in the same minute keep
    their order in the list. */
module CompletionOrder {
  import opened Tasks

  /** Every task carries a completion stamp, so the sort key is defined
      (Python cannot compare None with a string). */
  predicate AllStamped(ts: seq<Task>) {
    forall t :: t in ts ==> t.completedDate.Some?
  }

  function Stamp(t: Task): Minute
    requires t.completedDate.Some?
  {
    t.completedDate.value
  }

  /** Completion stamps never increase along `ts`. */
  predicate NewestFirst(ts: seq<Task>)
    requires AllStamped(ts)
  {
    forall i, j :: 0 <= i < j < |ts| ==> Stamp(ts[j]) <= Stamp(ts[i])
  }

  /** The tasks of `ts` completed at minute `m`, in their order in `ts`. */
  function StampedAt(ts: seq<Task>, m: Minute): seq<Task> {
    if ts == [] then []
    else (if ts[0].completedDate == Some(m) then [ts[0]] else []) + StampedAt(ts[1..], m)
  }

  /** Puts `t` in front of the first task of `s` completed no later than it. */
  function Insert(t: Task, s: seq<Task>): (r: seq<Task>)
    requires t.completedDate.Some? && AllStamped(s) && NewestFirst(s)
    ensures multiset(r) == multiset(s) + multiset{t}
    ensures AllStamped(r) && NewestFirst(r)
  {
    if s == [] || Stamp(s[0]) <= Stamp(t) then
      PrependNewest(t, s);
      [t] + s
    else
      var r' := Insert(t, s[1..]);
      assert s == [s[0]] + s[1..];
      forall x | x in r'
        ensures x.completedDate.Some? && Stamp(x) <= Stamp(s[0])
      {
        assert x in multiset(r');
      }
      PrependNewest(s[0], r');
      [s[0]] + r'
  }

  /** A task completed no earlier than every task of a newest-first list can
      go in front of it. */
  lemma PrependNewest(x: Task, r: seq<Task>)
    requires x.completedDate.Some? && AllStamped(r) && NewestFirst(r)
    requires forall y :: y in r ==> y.completedDate.Some? && Stamp(y) <= Stamp(x)
    ensures AllStamped([x] + r) && NewestFirst([x] + r)
  {
    var xr := [x] + r;
    forall i, j | 0 <= i < j < |xr|
      ensures Stamp(xr[j]) <= Stamp(xr[i])
    {
      assert xr[j] == r[j - 1];
      if i > 0 {
        assert xr[i] == r[i - 1];
      }
    }
  }

  /** The newest-first arrangement of `ts`: a permutation of it whose
      completion stamps never increase. */
  function SortNewestFirst(ts: seq<Task>): (r: seq<Task>)
    requires AllStamped(ts)
    ensures multiset(r) == multiset(ts)
    ensures AllStamped(r) && NewestFirst(r)
  {
    if ts == [] then []
    else
      assert ts == [ts[0]] + ts[1..];
      Insert(ts[0], SortNewestFirst(ts[1..]))
  }

  /** The tasks of a one-task list completed at minute `m`. */
  function StampedAtOne(t: Task, m: Minute): seq<Task> {
    if t.completedDate == Some(m) then [t] else []
  }

  lemma StampedAtCons(t: Task, s: seq<Task>, m: Minute)
    ensures StampedAt([t] + s, m) == StampedAtOne(t, m) + StampedAt(s, m)
  {
    assert ([t] + s)[0] == t && ([t] + s)[1..] == s;
  }

  /** One step of `Insert` past a task completed later than `t`. */
  lemma InsertPasses(t: Task, s: seq<Task>)
    requires t.completedDate.Some? && AllStamped(s) && NewestFirst(s)
    requires s != [] && Stamp(s[0]) > Stamp(t)
    ensures s == [s[0]] + s[1..]
    ensures AllStamped(s[1..]) && NewestFirst(s[1..])
    ensures Insert(t, s) == [s[0]] + Insert(t, s[1..])
  {
  }

  /** Two tasks completed in different minutes commute as far as any one
      minute is concerned. */
  lemma StampedAtSwap(a: Task, b: Task, rest: seq<Task>, m: Minute)
    requires a.completedDate != b.completedDate
    ensures StampedAtOne(a, m) + (StampedAtOne(b, m) + rest)
         == StampedAtOne(b, m) + (StampedAtOne(a, m) + rest)
  {
    if a.completedDate == Some(m) {
      assert StampedAtOne(b, m) == [];
    }
  }

  /** Inserting keeps `t` ahead of the tasks of `s` completed in the same
      minute. */
  lemma {:induction false} InsertIsStable(t: Task, s: seq<Task>, m: Minute)
    requires t.completedDate.Some? && AllStamped(s) && NewestFirst(s)
    ensures StampedAt(Insert(t, s), m) == StampedAt([t] + s, m)
    decreases |s|
  {
    if s != [] && Stamp(s[0]) > Stamp(t) {
      var s0, rest := s[0], s[1..];
      InsertPasses(t, s);
      InsertIsStable(t, rest, m);
      StampedAtCons(s0, Insert(t, rest), m);
      StampedAtCons(t, rest, m);
      StampedAtCons(s0, rest, m);
      StampedAtCons(t, s, m);
      StampedAtSwap(s0, t, StampedAt(rest, m), m);
    }
  }

  /** The sort is stable: for every minute, the tasks completed in it keep
      their relative order. */
  lemma {:induction false} SortIsStable(ts: seq<Task>, m: Minute)
    requires AllStamped(ts)
    ensures StampedAt(SortNewestFirst(ts), m) == StampedAt(ts, m)
    decreases |ts|
  {
    if ts != [] {
      assert ts == [ts[0]] + ts[1..];
      SortIsStable(ts[1..], m);
      InsertIsStable(ts[0], SortNewestFirst(ts[1..]), m);
      StampedAtCons(ts[0], SortNewestFirst(ts[1..]), m);
      StampedAtCons(ts[0], ts[1..], m);
    }
  }

  lemma {:induction false} StampedAtMembers(s: seq<Task>, m: Minute, x: Task)
    requires x in StampedAt(s, m)
    ensures x in s && x.completedDate == Some(m)
    decreases |s|
  {
    if s[0] != x || s[0].completedDate != Some(m) {
      StampedAtMembers(s[1..], m, x);
    }
  }

  /** A list in which no minute has a task is empty. */
  lemma NoStampsMeansEmpty(s: seq<Task>)
    requires AllStamped(s)
    requires forall m :: StampedAt(s, m) == []
    ensures s == []
  {
    if s != [] {
      var m := s[0].completedDate.value;
      var first := StampedAt(s, m);
      assert false;
    }
  }

  /** No task of a newest-first list is newer than its first task. */
  lemma FirstIsNewest(a: seq<Task>, x: Task)
    requires AllStamped(a) && NewestFirst(a) && x in a
    ensures Stamp(x) <= Stamp(a[0])
  {
    var j :| 0 <= j < |a| && a[j] == x;
    if j > 0 {
      assert Stamp(a[j]) <= Stamp(a[0]);
    }
  }

  /** The first task of a list leads the tasks of its own minute. */
  lemma LeadsItsMinute(a: seq<Task>)
    requires a != [] && a[0].completedDate.Some?
    ensures StampedAt(a, Stamp(a[0])) != [] && StampedAt(a, Stamp(a[0]))[0] == a[0]
  {
    assert a == [a[0]] + a[1..];
    StampedAtCons(a[0], a[1..], Stamp(a[0]));
  }

  /** Two newest-first lists that agree at the minutes of their first tasks
      start with the same task. */
  lemma SameFirst(a: seq<Task>, b: seq<Task>)
    requires a != [] && b != []
    requires AllStamped(a) && NewestFirst(a) && AllStamped(b) && NewestFirst(b)
    requires StampedAt(a, Stamp(a[0])) == StampedAt(b, Stamp(a[0]))
    requires StampedAt(a, Stamp(b[0])) == StampedAt(b, Stamp(b[0]))
    ensures a[0] == b[0]
  {
    var ma, mb := Stamp(a[0]), Stamp(b[0]);
    LeadsItsMinute(a);
    LeadsItsMinute(b);
    assert b[0] in StampedAt(a, mb);
    StampedAtMembers(a, mb, b[0]);
    FirstIsNewest(a, b[0]);
    assert a[0] in StampedAt(b, ma);
    StampedAtMembers(b, ma, a[0]);
    FirstIsNewest(b, a[0]);
    assert ma == mb;
  }

  /** Dropping the same first task from two lists that agree at minute `m`
      leaves lists that agree at `m`. */
  lemma SameRest(a: seq<Task>, b: seq<Task>, m: Minute)
    requires a != [] && b != [] && a[0] == b[0]
    requires StampedAt(a, m) == StampedAt(b, m)
    ensures StampedAt(a[1..], m) == StampedAt(b[1..], m)
  {
    assert a == [a[0]] + a[1..] && b == [b[0]] + b[1..];
    StampedAtCons(a[0], a[1..], m);
    StampedAtCons(b[0], b[1..], m);
    var head := StampedAtOne(a[0], m);
    assert StampedAt(a[1..], m) == StampedAt(a, m)[|head|..];
    assert StampedAt(b[1..], m) == StampedAt(b, m)[|head|..];
  }

  /** The tail of a newest-first list is newest first. */
  lemma NewestFirstRest(a: seq<Task>)
    requires a != [] && AllStamped(a) && NewestFirst(a)
    ensures AllStamped(a[1..]) && NewestFirst(a[1..])
  {
    forall i, j | 0 <= i < j < |a[1..]|
      ensures Stamp(a[1..][j]) <= Stamp(a[1..][i])
    {
      assert a[1..][i] == a[i + 1] && a[1..][j] == a[j + 1];
    }
  }

  /** Two newest-first lists that agree, minute by minute, on which tasks
      completed then and in what order are the same list. */
  lemma {:induction false} NewestFirstStableIsUnique(a: seq<Task>, b: seq<Task>)
    requires AllStamped(a) && NewestFirst(a) && AllStamped(b) && NewestFirst(b)
    requires forall m :: StampedAt(a, m) == StampedAt(b, m)
    ensures a == b
    decreases |a|
  {
    if a == [] {
      NoStampsMeansEmpty(b);
    } else if b == [] {
      NoStampsMeansEmpty(a);
    } else {
      SameFirst(a, b);
      forall m
        ensures StampedAt(a[1..], m) == StampedAt(b[1..], m)
      {
        SameRest(a, b, m);
      }
      NewestFirstRest(a);
      NewestFirstRest(b);
      NewestFirstStableIsUnique(a[1..], b[1..]);
      assert a == [a[0]] + a[1..] && b == [b[0]] + b[1..];
    }
  }

  /** `sorted(..., reverse=True)` returns a newest-first, stable
      rearrangement of its input; this is the only such list and it is
      `SortNewestFirst`. */
  lemma SortIsTheStableNewestFirstOrder(ts: seq<Task>, shown: seq<Task>)
    requires AllStamped(ts) && AllStamped(shown) && NewestFirst(shown)
    requires forall m :: StampedAt(shown, m) == StampedAt(ts, m)
    ensures shown == SortNewestFirst(ts)
  {
    forall m
      ensures StampedAt(shown, m) == StampedAt(SortNewestFirst(ts), m)
    {
      SortIsStable(ts, m);
    }
    NewestFirstStableIsUnique(shown, SortNewestFirst(ts));
  }

  /** The completed list shows exactly the done tasks of `ts` that pass the
      date and keyword rules, each as often as it occurs in `ts`. */
  lemma ShownAreSelected(ts: seq<Task>, keyword: string, start: DateBound, end: DateBound, x: Task)
    requires AllStamped(Selected(ts, keyword, start, end))
    ensures x in SortNewestFirst(Selected(ts, keyword, start, end))
            <==> x in ts && x.done && WithinDates(x, start, end) && MatchesKeyword(x, keyword)
    ensures multiset(SortNewestFirst(Selected(ts, keyword, start, end)))[x]
            == if IsSelected(x, keyword, start, end) then multiset(ts)[x] else 0
  {
    var sel := Selected(ts, keyword, start, end);
    assert x in SortNewestFirst(sel) <==> x in multiset(SortNewestFirst(sel));
    assert x in sel <==> x in multiset(sel);
    SelectedCounts(ts, keyword, start, end, x);
  }
}
