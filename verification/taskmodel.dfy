/**
 * The records of the task store: tasks and projects, the fixed project
 * list and the tasks the page starts with, and the two ways a task
 * list changes: a new task appended by "add", and the completion flag
 * flipped by "toggle".
 */
module TaskModel {

  datatype Option<T> = None | Some(value: T)

  /** A timestamp in milliseconds, as `Date.prototype.getTime` gives it. */
  type Instant = int

  datatype Task = Task(
    id: string,
    title: string,
    completed: bool,
    dueDate: Option<Instant>,
    projectId: string)

  datatype Project = Project(id: string, name: string, color: string)

  /** The project filter value that means "every project"; it is a view
      setting, never the project of a task. */
  const AllFilter: string := "all"

  /** The project a task created under the "all" filter is filed in. */
  const DefaultProject: string := "personal"

  /** The projects the page is set up with; nothing adds or removes any. */
  const InitialProjects: seq<Project> := [
    Project("work", "Работа", "bg-primary"),
    Project("personal", "Личное", "bg-purple-400"),
    Project("health", "Здоровье", "bg-green-400")
  ]

  /** Midnight of 14 and 15 November 2025, the due dates of the initial tasks. */
  const Nov14: Instant := 1_763_078_400_000
  const Nov15: Instant := 1_763_164_800_000

  /** The tasks the page starts with. */
  const InitialTasks: seq<Task> := [
    Task("1", "Завершить презентацию", false, Some(Nov15), "work"),
    Task("2", "Купить продукты", false, Some(Nov14), "personal"),
    Task("3", "Утренняя пробежка", true, Some(Nov14), "health")
  ]

  /** The ids of the listed projects. */
  function ProjectIds(projects: seq<Project>): set<string> {
    set i | 0 <= i < |projects| :: projects[i].id
  }

  /** The listed projects are work, personal and health. */
  lemma {:induction false} InitialProjectIds()
    ensures ProjectIds(InitialProjects) == {"work", "personal", "health"}
  {
    assert InitialProjects[0].id == "work" && InitialProjects[1].id == "personal"
        && InitialProjects[2].id == "health";
  }

  /** A filter value the project buttons can set: "all" or a listed project. */
  predicate IsFilterValue(selected: string, projects: seq<Project>) {
    selected == AllFilter || selected in ProjectIds(projects)
  }

  /** The project a task created under the filter `selected` belongs to. */
  function ProjectFor(selected: string): (p: string)
    ensures p != AllFilter
    ensures selected == AllFilter ==> p == DefaultProject
    ensures selected != AllFilter ==> p == selected
  {
    if selected == AllFilter then DefaultProject else selected
  }

  /** The task "add" creates: not completed, titled with the raw input,
      due on the chosen date, filed under the active project filter. */
  function NewTask(id: string, title: string, due: Option<Instant>, selected: string): (t: Task)
    ensures t.id == id && t.title == title && t.dueDate == due
    ensures !t.completed
    ensures t.projectId != AllFilter
    ensures t.projectId == (if selected == AllFilter then DefaultProject else selected)
  {
    Task(id, title, false, due, ProjectFor(selected))
  }

  /** Under any filter the buttons can set, a new task is filed in a
      listed project, never under "all". */
  lemma {:induction false} NewTaskFiledInListedProject(id: string, title: string, due: Option<Instant>, selected: string)
    requires IsFilterValue(selected, InitialProjects)
    ensures NewTask(id, title, due, selected).projectId in ProjectIds(InitialProjects)
    ensures NewTask(id, title, due, selected).projectId != AllFilter
    ensures selected != AllFilter ==> NewTask(id, title, due, selected).projectId == selected
    ensures selected == AllFilter ==> NewTask(id, title, due, selected).projectId == DefaultProject
  {
    assert InitialProjects[1].id == DefaultProject;
    assert AllFilter !in ProjectIds(InitialProjects);
  }

  /** `t` with its completion flag flipped when its id is `id`. */
  function ToggleIfMatches(t: Task, id: string): (u: Task)
    ensures u.(completed := t.completed) == t
    ensures u.completed == (t.completed != (t.id == id))
  {
    if t.id == id then t.(completed := !t.completed) else t
  }

  /** `tasks.map(...)` in `toggleTask`: the list with the completion of
      every task whose id is `id` negated. */
  function Toggled(tasks: seq<Task>, id: string): (r: seq<Task>)
    ensures |r| == |tasks|
    ensures forall i :: 0 <= i < |tasks| ==>
      && r[i].id == tasks[i].id
      && r[i].title == tasks[i].title
      && r[i].dueDate == tasks[i].dueDate
      && r[i].projectId == tasks[i].projectId
    ensures forall i :: 0 <= i < |tasks| ==>
      r[i].completed == (if tasks[i].id == id then !tasks[i].completed else tasks[i].completed)
  {
    if tasks == [] then []
    else [ToggleIfMatches(tasks[0], id)] + Toggled(tasks[1..], id)
  }

  /** Toggling the same id twice gives back the original list. */
  lemma {:induction false} ToggleTwice(tasks: seq<Task>, id: string)
    ensures Toggled(Toggled(tasks, id), id) == tasks
  {
    if tasks != [] {
      ToggleTwice(tasks[1..], id);
      assert Toggled(tasks, id)[1..] == Toggled(tasks[1..], id);
    }
  }

  /** Toggling an id no task has changes nothing. */
  lemma {:induction false} ToggleUnknownId(tasks: seq<Task>, id: string)
    requires forall i :: 0 <= i < |tasks| ==> tasks[i].id != id
    ensures Toggled(tasks, id) == tasks
  {
    if tasks != [] {
      ToggleUnknownId(tasks[1..], id);
    }
  }

  /** No two tasks share an id. */
  predicate UniqueIds(tasks: seq<Task>) {
    forall i, j :: 0 <= i < j < |tasks| ==> tasks[i].id != tasks[j].id
  }

  /** With unique ids, toggling the id of the task at `k` flips that task
      alone. */
  lemma {:induction false} ToggleFlipsOne(tasks: seq<Task>, k: int)
    requires UniqueIds(tasks) && 0 <= k < |tasks|
    ensures Toggled(tasks, tasks[k].id)[k].completed == !tasks[k].completed
    ensures forall i :: 0 <= i < |tasks| && i != k ==> Toggled(tasks, tasks[k].id)[i] == tasks[i]
  {
  }

  /** Ids stay unique when a task with a fresh id is appended. */
  lemma {:induction false} AppendFreshKeepsIdsUnique(tasks: seq<Task>, t: Task)
    requires UniqueIds(tasks)
    requires forall i :: 0 <= i < |tasks| ==> tasks[i].id != t.id
    ensures UniqueIds(tasks + [t])
  {
  }
}
