/**
 * The state of the task page and the handlers that change it: the task
 * list, the project filter, the title being typed and the chosen due
 * date, with adding a task, toggling its completion, clicking a calendar
 * day, and the reminder list computed by an in-place sort of a fresh
 * array.
 */
module TaskStore {
  import opened TaskModel
  import opened Text
  import opened Dates
  import opened Seqs
  import opened DueSort
  import opened TaskQueries

  /** Every task is filed in a listed project. */
  ghost predicate FiledInListed(tasks: seq<Task>) {
    forall i :: 0 <= i < |tasks| ==> tasks[i].projectId in ProjectIds(InitialProjects)
  }

  /** Appending the task `addTask` builds under a filter the buttons can
      set keeps every task filed in a listed project. */
  lemma {:induction false} NewTaskKeepsFiled(tasks: seq<Task>, id: string, title: string,
                                             due: Option<Instant>, selected: string)
    requires FiledInListed(tasks) && IsFilterValue(selected, InitialProjects)
    ensures FiledInListed(tasks + [NewTask(id, title, due, selected)])
  {
    var t := NewTask(id, title, due, selected);
    NewTaskFiledInListedProject(id, title, due, selected);
    assert forall i :: 0 <= i < |tasks| ==> (tasks + [t])[i] == tasks[i];
  }

  class TaskStore {
    /** The project list; nothing on the page changes it. */
    const projects: seq<Project>
    var tasks: seq<Task>
    /** The project filter: "all" or the id of a listed project. */
    var selectedProject: string
    /** The contents of the title input. */
    var newTaskTitle: string
    /** The due date chosen for the next task, if any. */
    var selectedDate: Option<Instant>

    /** The fixed projects, a filter the buttons can set, and every task
        filed in a listed project. */
    ghost predicate Valid()
      reads this
    {
      && projects == InitialProjects
      && IsFilterValue(selectedProject, projects)
      && FiledInListed(tasks)
    }

    /** The page as it first renders. */
    constructor ()
      ensures Valid()
      ensures tasks == InitialTasks
      ensures selectedProject == AllFilter && newTaskTitle == "" && selectedDate == None
    {
      projects := InitialProjects;
      tasks := InitialTasks;
      selectedProject := AllFilter;
      newTaskTitle := "";
      selectedDate := None;
      assert InitialProjects[0].id == "work" && InitialProjects[1].id == "personal"
          && InitialProjects[2].id == "health";
    }

    /** `addTask` with `newId` as the id it generates: a blank title
        changes nothing; otherwise the task is appended with the title
        as typed, and the title and date inputs are cleared. */
    method AddTask(newId: string)
      requires Valid()
      modifies this
      ensures Valid()
      ensures selectedProject == old(selectedProject)
      ensures IsBlank(old(newTaskTitle)) ==>
        && tasks == old(tasks)
        && newTaskTitle == old(newTaskTitle)
        && selectedDate == old(selectedDate)
      ensures !IsBlank(old(newTaskTitle)) ==>
        && tasks == old(tasks) + [NewTask(newId, old(newTaskTitle), old(selectedDate), selectedProject)]
        && newTaskTitle == ""
        && selectedDate == None
      ensures UniqueIds(old(tasks)) && (forall i :: 0 <= i < |old(tasks)| ==> old(tasks)[i].id != newId)
        ==> UniqueIds(tasks)
    {
      if TrimsToEmpty(newTaskTitle) {
        return;
      }
      var task := NewTask(newId, newTaskTitle, selectedDate, selectedProject);
      NewTaskKeepsFiled(tasks, newId, newTaskTitle, selectedDate, selectedProject);
      if UniqueIds(tasks) && (forall i :: 0 <= i < |tasks| ==> tasks[i].id != newId) {
        AppendFreshKeepsIdsUnique(tasks, task);
      }
      tasks := tasks + [task];
      newTaskTitle := "";
      selectedDate := None;
    }

    /** `toggleTask`: flips the completion of the tasks with id `id`. */
    method ToggleTask(id: string)
      requires Valid()
      modifies this
      ensures Valid()
      ensures tasks == Toggled(old(tasks), id)
      ensures selectedProject == old(selectedProject)
      ensures newTaskTitle == old(newTaskTitle) && selectedDate == old(selectedDate)
    {
      tasks := Toggled(tasks, id);
    }

    /** The calendar's day click: the day becomes the chosen date only
        when some task is due on it. */
    method OnDayClick(date: Instant)
      modifies this
      ensures selectedDate == if DateHasTasks(old(tasks), date) then Some(date) else old(selectedDate)
      ensures tasks == old(tasks) && selectedProject == old(selectedProject)
      ensures newTaskTitle == old(newTaskTitle)
    {
      var tasksForDay := TasksForDate(tasks, date);
      DateHasTasksIffListed(tasks, date);
      if |tasksForDay| > 0 {
        selectedDate := Some(date);
      }
    }

    /** Typing in the title input. */
    method SetNewTaskTitle(title: string)
      modifies this
      ensures newTaskTitle == title
      ensures tasks == old(tasks) && selectedProject == old(selectedProject)
      ensures selectedDate == old(selectedDate)
    {
      newTaskTitle := title;
    }

    /** A project button: "all" or the id of a listed project. */
    method SelectProject(p: string)
      requires Valid() && IsFilterValue(p, projects)
      modifies this
      ensures Valid()
      ensures selectedProject == p
      ensures tasks == old(tasks) && newTaskTitle == old(newTaskTitle)
      ensures selectedDate == old(selectedDate)
    {
      selectedProject := p;
    }

    /** The date picker: picking a day, or clearing the choice. */
    method SelectDate(d: Option<Instant>)
      modifies this
      ensures selectedDate == d
      ensures tasks == old(tasks) && selectedProject == old(selectedProject)
      ensures newTaskTitle == old(newTaskTitle)
    {
      selectedDate := d;
    }

    /** `getUpcomingTasks` at the instant `now`: the kept tasks are copied
        into a fresh array, which is sorted in place. */
    method GetUpcomingTasks(now: Instant) returns (r: seq<Task>)
      ensures r == UpcomingTasks(tasks, now)
    {
      var kept := Filter(tasks, UpcomingFrom(now));
      var a := new Task[|kept|](i requires 0 <= i < |kept| => kept[i]);
      assert a[..] == kept;
      SortByDueInPlace(a);
      r := a[..];
    }
  }
}
