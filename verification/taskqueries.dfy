/**
 * The read-only views of the task list: the tasks of one project (or of
 * all of them), the tasks due on a calendar day, whether a day has any,
 * and the reminder list of unfinished tasks due today or later, ordered
 * by due time.
 */
module TaskQueries {
  import opened TaskModel
  import opened Seqs
  import opened Dates
  import opened DueSort

  /** The test "filed in project `p`". */
  function InProject(p: string): (keep: Task -> bool)
    ensures forall t :: keep(t) <==> t.projectId == p
  {
    (t: Task) => t.projectId == p
  }

  /** The test "has a due date on the calendar day of `d`": the two
      days start at the same instant. */
  function DueOn(d: Instant): (keep: Task -> bool)
    ensures forall t :: keep(t) <==> t.dueDate.Some? && StartOfDay(t.dueDate.value) == StartOfDay(d)
  {
    var keep := (t: Task) => t.dueDate.Some? && DayOf(t.dueDate.value) == DayOf(d);
    assert forall t :: keep(t) <==> t.dueDate.Some? && StartOfDay(t.dueDate.value) == StartOfDay(d) by {
      forall t: Task | t.dueDate.Some? {
        SameDayIffSameStart(t.dueDate.value, d);
      }
    }
    keep
  }

  /** The test of `getUpcomingTasks` at the instant `now`: a due date at
      or after midnight of today, and not completed. */
  function UpcomingFrom(now: Instant): (keep: Task -> bool)
    ensures forall t :: keep(t) <==> t.dueDate.Some? && !t.completed && DayOf(t.dueDate.value) >= DayOf(now)
  {
    var today := StartOfDay(now);
    var keep := (t: Task) => t.dueDate.Some? && t.dueDate.value >= today && !t.completed;
    assert forall t :: keep(t) <==> t.dueDate.Some? && !t.completed && DayOf(t.dueDate.value) >= DayOf(now) by {
      forall t: Task | t.dueDate.Some? {
        AtOrAfterStartOfDay(t.dueDate.value, now);
      }
    }
    keep
  }

  /** `getTasksForProject`: every task under the "all" filter, otherwise
      the tasks filed in `p`. */
  function TasksForProject(tasks: seq<Task>, p: string): (r: seq<Task>)
    ensures p == AllFilter ==> r == tasks
    ensures p != AllFilter ==> |r| <= |tasks|
    ensures p != AllFilter ==> forall i :: 0 <= i < |r| ==> r[i].projectId == p
  {
    if p == AllFilter then tasks else Filter(tasks, InProject(p))
  }

  /** Under a project filter, the view lists exactly the tasks of that
      project, in list order. */
  lemma {:induction false} TasksForProjectIsSelection(tasks: seq<Task>, p: string)
    requires p != AllFilter
    ensures IsSelection(TasksForProject(tasks, p), tasks, InProject(p))
  {
    FilterIsSelection(tasks, InProject(p));
  }

  /** `getTasksForDate`: the tasks with a due date on the day of `d`. */
  function TasksForDate(tasks: seq<Task>, d: Instant): (r: seq<Task>)
    ensures |r| <= |tasks|
    ensures forall i :: 0 <= i < |r| ==> r[i].dueDate.Some? && DayOf(r[i].dueDate.value) == DayOf(d)
  {
    Filter(tasks, DueOn(d))
  }

  /** The day view lists exactly the tasks due that day, in list order. */
  lemma {:induction false} TasksForDateIsSelection(tasks: seq<Task>, d: Instant)
    ensures IsSelection(TasksForDate(tasks, d), tasks, DueOn(d))
  {
    FilterIsSelection(tasks, DueOn(d));
  }

  /** `isDateHasTasks`: some task is due on the day of `d`. */
  function DateHasTasks(tasks: seq<Task>, d: Instant): (b: bool)
    ensures b <==> exists i :: 0 <= i < |tasks| && tasks[i].dueDate.Some?
                                 && DayOf(tasks[i].dueDate.value) == DayOf(d)
  {
    Any(tasks, DueOn(d))
  }

  /** A day is marked on the calendar exactly when its day view is not empty. */
  lemma {:induction false} DateHasTasksIffListed(tasks: seq<Task>, d: Instant)
    ensures DateHasTasks(tasks, d) <==> TasksForDate(tasks, d) != []
  {
    AnyIffFilterNonEmpty(tasks, DueOn(d));
  }

  /** `getUpcomingTasks` at the instant `now`: the unfinished tasks due at
      or after midnight of today, stably sorted by due time. */
  function UpcomingTasks(tasks: seq<Task>, now: Instant): (r: seq<Task>)
    ensures |r| <= |tasks|
    ensures SortedByDue(r)
  {
    SortByDue(Filter(tasks, UpcomingFrom(now)))
  }

  /** Every reminder is a task of the list, unfinished, and due today or
      on a later day. */
  lemma {:induction false} UpcomingTasksSound(tasks: seq<Task>, now: Instant)
    ensures forall i :: 0 <= i < |UpcomingTasks(tasks, now)| ==>
      var t := UpcomingTasks(tasks, now)[i];
      && t in tasks
      && !t.completed
      && t.dueDate.Some?
      && t.dueDate.value >= StartOfDay(now)
      && DayOf(t.dueDate.value) >= DayOf(now)
  {
    var keep := UpcomingFrom(now);
    var kept := Filter(tasks, keep);
    var r := UpcomingTasks(tasks, now);
    SortIsPermutation(kept);
    FilterFrom(tasks, keep);
    forall i | 0 <= i < |r|
      ensures r[i] in tasks && keep(r[i]) && DayOf(r[i].dueDate.value) >= DayOf(now)
    {
      assert r[i] in multiset(kept);
      var j :| 0 <= j < |kept| && kept[j] == r[i];
      AtOrAfterStartOfDay(r[i].dueDate.value, now);
    }
  }

  /** The reminders are the kept tasks rearranged, each as often as it
      occurs among them. */
  lemma {:induction false} UpcomingTasksIsPermutation(tasks: seq<Task>, now: Instant)
    ensures multiset(UpcomingTasks(tasks, now)) == multiset(Filter(tasks, UpcomingFrom(now)))
  {
    SortIsPermutation(Filter(tasks, UpcomingFrom(now)));
  }

  /** Every unfinished task due today or later is among the reminders. */
  lemma {:induction false} UpcomingTasksComplete(tasks: seq<Task>, now: Instant, i: int)
    requires 0 <= i < |tasks|
    requires !tasks[i].completed && tasks[i].dueDate.Some?
    requires DayOf(tasks[i].dueDate.value) >= DayOf(now)
    ensures tasks[i] in UpcomingTasks(tasks, now)
  {
    var keep := UpcomingFrom(now);
    AtOrAfterStartOfDay(tasks[i].dueDate.value, now);
    FilterHas(tasks, keep, i);
    SortIsPermutation(Filter(tasks, keep));
    assert tasks[i] in multiset(UpcomingTasks(tasks, now));
  }

  /** Reminders due at the same instant keep their list order. */
  lemma {:induction false} UpcomingTasksKeepTies(tasks: seq<Task>, now: Instant)
    ensures TiesInOrder(UpcomingTasks(tasks, now), Filter(tasks, UpcomingFrom(now)))
  {
    SortByDueIsStableSort(Filter(tasks, UpcomingFrom(now)));
  }

  /** Any ordering of the kept tasks by due time that keeps ties in list
      order is the reminder list: the result does not depend on which
      stable sort computes it. */
  lemma {:induction false} UpcomingTasksUnique(tasks: seq<Task>, now: Instant, q: seq<Task>)
    requires SortedByDue(q)
    requires TiesInOrder(q, Filter(tasks, UpcomingFrom(now)))
    ensures q == UpcomingTasks(tasks, now)
  {
    StableSortIsUnique(Filter(tasks, UpcomingFrom(now)), q);
  }

  /** Every reminder has a due date, so the `|| 0` fallback of the
      comparator never applies: the sort key of each reminder is its due
      time. */
  lemma {:induction false} UpcomingKeysAreDueTimes(tasks: seq<Task>, now: Instant)
    ensures forall i :: 0 <= i < |UpcomingTasks(tasks, now)| ==>
      UpcomingTasks(tasks, now)[i].dueDate.Some?
      && DueKey(UpcomingTasks(tasks, now)[i]) == UpcomingTasks(tasks, now)[i].dueDate.value
  {
    UpcomingTasksSound(tasks, now);
  }

  /** 10:00 on 14 November 2025. */
  const Nov14Morning: Instant := Nov14 + 36_000_000

  /** Midnight of 16 November 2025. */
  const Nov16: Instant := Nov15 + MsPerDay

  /** Filtering the three initial tasks, one task at a time. */
  lemma {:induction false} FilterInitial(keep: Task -> bool)
    ensures var t := InitialTasks;
      Filter(t, keep) == Filter([t[0]], keep) + Filter([t[1]], keep) + Filter([t[2]], keep)
  {
    var t := InitialTasks;
    assert t == [t[0], t[1]] + [t[2]];
    assert [t[0], t[1]] == [t[0]] + [t[1]];
    FilterAppend([t[0], t[1]], [t[2]], keep);
    FilterAppend([t[0]], [t[1]], keep);
  }

  /** The day views of the initial tasks: two tasks on the 14th, one on
      the 15th, none on the 16th. */
  lemma {:induction false} InitialDayViews()
    ensures TasksForDate(InitialTasks, Nov14Morning) == [InitialTasks[1], InitialTasks[2]]
    ensures DateHasTasks(InitialTasks, Nov15)
    ensures !DateHasTasks(InitialTasks, Nov16)
  {
    var t := InitialTasks;
    FilterInitial(DueOn(Nov14Morning));
    FilterSingleton(t[0], DueOn(Nov14Morning));
    FilterSingleton(t[1], DueOn(Nov14Morning));
    FilterSingleton(t[2], DueOn(Nov14Morning));
    assert DueOn(Nov15)(t[0]);
    assert !DueOn(Nov16)(t[0]) && !DueOn(Nov16)(t[1]) && !DueOn(Nov16)(t[2]);
  }

  /** The "work" view of the initial tasks holds the presentation alone. */
  lemma {:induction false} InitialProjectView()
    ensures TasksForProject(InitialTasks, "work") == [InitialTasks[0]]
  {
    var t := InitialTasks;
    FilterInitial(InProject("work"));
    FilterSingleton(t[0], InProject("work"));
    FilterSingleton(t[1], InProject("work"));
    FilterSingleton(t[2], InProject("work"));
  }

  /** On the morning of 14 November 2025 the reminders put the shopping,
      due that day, before the presentation, due the next day, and leave
      out the completed run although it is due that day too. */
  lemma {:induction false} InitialReminders()
    ensures UpcomingTasks(InitialTasks, Nov14Morning) == [InitialTasks[1], InitialTasks[0]]
  {
    assert StartOfDay(Nov14Morning) == Nov14;
    InitialKeptFrom14th();
    SortTwoOutOfOrder(InitialTasks[0], InitialTasks[1]);
  }

  /** On the morning of the 14th, the two unfinished initial tasks are kept. */
  lemma {:induction false} InitialKeptFrom14th()
    ensures Filter(InitialTasks, UpcomingFrom(Nov14Morning)) == [InitialTasks[0], InitialTasks[1]]
  {
    var t := InitialTasks;
    var keep := UpcomingFrom(Nov14Morning);
    FilterInitial(keep);
    FilterSingleton(t[0], keep);
    FilterSingleton(t[1], keep);
    FilterSingleton(t[2], keep);
  }
}
