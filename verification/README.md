# Task store of the task-manager page

This project models the in-memory task store behind the single page of the
task manager (`src/pages/Index.tsx`). That store has:

- a fixed list of three projects;
- a list of tasks, each with an id, a title, a completion flag, an optional
  due date and the id of its project;
- the project filter, which is `"all"` or a project id;
- the title being typed;
- the due date chosen for the next task.

The handlers that change the store are modelled as methods of the class
`TaskStore.TaskStore`, whose fields are that state:

- adding a task;
- toggling a task's completion;
- clicking a calendar day;
- the three input setters.

The read-only views are modelled as functions over the task list, each with
lemmas that say what it returns:

- the tasks of one project, or of all of them;
- the tasks due on a calendar day;
- whether a day has any tasks;
- the reminder list of unfinished tasks due today or later, stably sorted by
  due time.

The modules are:

- `TaskModel`: the records, the initial projects and tasks, the new task
  `addTask` builds, and the toggled list `toggleTask` computes.
- `Text`: `String.prototype.trim` over ECMAScript white space and line
  terminators. A title counts as blank exactly when it is made of such
  characters only.
- `Dates`: instants as millisecond timestamps, the calendar day of an
  instant, and the start of a day.
- `Seqs`: `filter` and `some` on sequences. `filter` is proved to keep
  exactly the passing elements, in order, and to be the only sequence that
  does.
- `DueSort`: the stable sort by due time. It has three parts:
  - the specification, a recursive insertion sort, proved sorted, a
    permutation and stable;
  - a proof that it is the only sorted sequence that keeps ties in order;
  - the in-place insertion sort on an array, proved to compute it.
- `TaskQueries`: `getTasksForProject`, `getTasksForDate`, `isDateHasTasks`
  and `getUpcomingTasks`, plus the views of the initial tasks.
- `TaskStore`: the page state and its handlers.

Modelling choices:

- A due date is an integer count of milliseconds since the epoch.
- The calendar day of an instant is that count divided by 86 400 000,
  rounded down. This stands for `toDateString()` equality and for
  `setHours(0, 0, 0, 0)` in a time zone without offset.
- The current time that `getUpcomingTasks` reads and the id that `addTask`
  draws from `Date.now()` are both parameters.
- Task ids are meant to be unique: each id is the React `key` of its row
  (`src/pages/Index.tsx:188`, `228`, `279`), and `toggleTask` picks the
  task to flip by its id. But `addTask` takes the id from the millisecond
  clock (`Date.now().toString()`, line 48), so two tasks added within the
  same millisecond would share one. The model follows the code:
  - `AddTask` takes the id as given;
  - it promises unique ids only when the new id is fresh;
  - `ToggleFlipsOne` states what toggling does under unique ids;
  - `Toggled` states what it does in every case, flipping every task with
    a matching id.

## Model

| member | source | states |
|---|---|---|
| TaskModel.InitialProjectIds | src/pages/Index.tsx:33-37 | the listed projects are exactly "work", "personal" and "health" |
| TaskModel.ProjectFor | src/pages/Index.tsx:53 | a new task's project is never "all": under "all" it is "personal", under a project filter it is that project |
| TaskModel.NewTask | src/pages/Index.tsx:48-54 | the new task has the generated id, the title as typed and the chosen date, is not completed, and is filed under the filter's project, or under "personal" when the filter is "all" |
| TaskModel.NewTaskFiledInListedProject | src/pages/Index.tsx:53 | under any filter a project button can set, a new task is filed in a listed project, never under "all"; under "all" it goes to "personal", and under a project filter to that very project |
| TaskModel.ToggleIfMatches | src/pages/Index.tsx:63 | the task is unchanged except for its completion flag, which is negated exactly when the id matches |
| TaskModel.Toggled | src/pages/Index.tsx:61-65 | toggling keeps the length and the id, title, due date and project of every task, and negates the completion flag exactly at the tasks whose id matches |
| TaskModel.ToggleTwice | src/pages/Index.tsx:61-65 | toggling the same id twice gives back the original list |
| TaskModel.ToggleUnknownId | src/pages/Index.tsx:61-65 | toggling an id no task has leaves the list unchanged |
| TaskModel.ToggleFlipsOne | src/pages/Index.tsx:61-65 | with unique ids, toggling the id of one task flips that task and leaves every other task equal |
| TaskModel.AppendFreshKeepsIdsUnique | src/pages/Index.tsx:48 | appending a task whose id no task has keeps the ids unique |
| Text.Trim | src/pages/Index.tsx:46 | the result is the title with a blank front and a blank back cut off; it is empty exactly when the title is blank, and otherwise neither starts nor ends with white space |
| Text.TrimsToEmpty | src/pages/Index.tsx:46 | the guard `!newTaskTitle.trim()` holds exactly when the title is blank |
| Dates.StartOfDay | src/pages/Index.tsx:80-81 | the start of today is at or before now, less than a day before it, on the same calendar day, and a whole number of days from the epoch |
| Dates.AtOrAfterStartOfDay | src/pages/Index.tsx:84 | an instant is at or after the start of today exactly when it falls on today or a later day |
| Dates.SameDayIffSameStart | src/pages/Index.tsx:74 | two instants fall on the same calendar day exactly when their days start at the same instant |
| Seqs.Filter | src/pages/Index.tsx:69 | the result is no longer than the input and every element of it passes the test |
| Seqs.FilterIsSelection | src/pages/Index.tsx:69 | the result of `filter` is the input read at exactly the positions whose element passes, in increasing order |
| Seqs.SelectionIsFilter | src/pages/Index.tsx:69 | any sequence read from the input at exactly the passing positions, in increasing order, is the result of `filter` |
| Seqs.Any | src/pages/Index.tsx:89-92 | `some` holds exactly when some element passes the test |
| Seqs.AnyIffFilterNonEmpty | src/pages/Index.tsx:88-93 | `some` holds exactly when `filter` with the same test keeps something |
| DueSort.DueKey | src/pages/Index.tsx:85 | the sort key is the due time in milliseconds, and 0 for a task without a due date |
| DueSort.InsertByDue | src/pages/Index.tsx:85 | inserting one task into a sorted list adds one element |
| DueSort.InsertIsPermutation | src/pages/Index.tsx:85 | insertion adds the task and loses nothing |
| DueSort.InsertKeepsSorted | src/pages/Index.tsx:85 | insertion into a list sorted by due time leaves it sorted |
| DueSort.SortByDue | src/pages/Index.tsx:85 | the sort keeps the length and orders the tasks by due time, a missing due date counting as 0 |
| DueSort.SortIsPermutation | src/pages/Index.tsx:85 | the sort rearranges the tasks and loses none |
| DueSort.SortKeepsTies | src/pages/Index.tsx:85 | for every due time, the tasks with that due time come out in their original order |
| DueSort.SortByDueIsStableSort | src/pages/Index.tsx:85 | the sort is sorted, a permutation of its input and stable |
| DueSort.StableSortIsUnique | src/pages/Index.tsx:85 | every sorted rearrangement that keeps ties in their original order equals the sort, so any stable sort gives this result |
| DueSort.SortByDueInPlace | src/pages/Index.tsx:85 | the in-place insertion sort leaves the array holding the sort of its old contents |
| DueSort.InsertLast | src/pages/Index.tsx:85 | one insertion step puts the next task into the sorted prefix as insertion specifies and leaves the rest of the array alone |
| DueSort.ShiftAbove | src/pages/Index.tsx:85 | the shifting loop moves exactly the trailing tasks due later than the task being inserted one place up and stops at the first task due no later |
| TaskQueries.InProject | src/pages/Index.tsx:69 | the test passes exactly the tasks filed in the given project |
| TaskQueries.DueOn | src/pages/Index.tsx:73-75 | the test passes exactly the tasks with a due date whose day starts at the same instant as the given day |
| TaskQueries.UpcomingFrom | src/pages/Index.tsx:80-84 | the test passes exactly the unfinished tasks with a due date on today or a later day |
| TaskQueries.TasksForProject | src/pages/Index.tsx:67-70 | under "all" the view is the whole list; under a project it is no longer than the list and holds tasks of that project only |
| TaskQueries.TasksForProjectIsSelection | src/pages/Index.tsx:67-70 | under a project filter the view holds exactly the tasks of that project, in list order |
| TaskQueries.TasksForDate | src/pages/Index.tsx:72-77 | every task in the day view has a due date on that calendar day |
| TaskQueries.TasksForDateIsSelection | src/pages/Index.tsx:72-77 | the day view holds exactly the tasks due that day, in list order |
| TaskQueries.DateHasTasks | src/pages/Index.tsx:88-93 | a day is marked exactly when some task has a due date on it |
| TaskQueries.DateHasTasksIffListed | src/pages/Index.tsx:72-93 | a day is marked exactly when its day view is not empty |
| TaskQueries.UpcomingTasks | src/pages/Index.tsx:79-86 | the reminders are no more than the tasks and are ordered by due time |
| TaskQueries.UpcomingTasksSound | src/pages/Index.tsx:79-86 | every reminder is a task of the list, is not completed, and is due at or after the start of today, that is, today or on a later day |
| TaskQueries.UpcomingTasksComplete | src/pages/Index.tsx:79-86 | every unfinished task due today or on a later day is among the reminders |
| TaskQueries.UpcomingTasksIsPermutation | src/pages/Index.tsx:79-86 | the reminders are the kept tasks rearranged, each as often as it is kept |
| TaskQueries.UpcomingTasksKeepTies | src/pages/Index.tsx:79-86 | reminders due at the same instant keep their list order |
| TaskQueries.UpcomingTasksUnique | src/pages/Index.tsx:79-86 | any ordering of the kept tasks by due time that keeps ties in list order is the reminder list |
| TaskQueries.UpcomingKeysAreDueTimes | src/pages/Index.tsx:85 | every reminder has a due date, so its sort key is its due time and the comparator never falls back to 0 |
| TaskQueries.InitialDayViews | src/pages/Index.tsx:39-43 | on the initial tasks the 14th lists the shopping and the run, the 15th is marked and the 16th is not |
| TaskQueries.InitialProjectView | src/pages/Index.tsx:39-43 | on the initial tasks the "work" view holds the presentation alone |
| TaskQueries.InitialReminders | src/pages/Index.tsx:39-43 | on the morning of the 14th the reminders are the shopping and then the presentation, without the completed run |
| TaskStore.TaskStore.constructor | src/pages/Index.tsx:28-43 | the page starts with the initial tasks, the "all" filter, an empty title and no date, in a valid state |
| TaskStore.TaskStore.AddTask | src/pages/Index.tsx:45-59 | a blank title changes nothing; otherwise exactly one task is appended, not completed, with the title as typed, the chosen date and the filter's project, and the title and date are cleared; the filter is kept, every task stays filed in a listed project, and a fresh id keeps ids unique |
| TaskStore.TaskStore.ToggleTask | src/pages/Index.tsx:61-65 | the task list becomes the toggled list and nothing else changes |
| TaskStore.TaskStore.OnDayClick | src/pages/Index.tsx:260-265 | the clicked day becomes the chosen date exactly when some task is due on it; otherwise nothing changes |
| TaskStore.TaskStore.SetNewTaskTitle | src/pages/Index.tsx:129 | the title input takes the typed text and nothing else changes |
| TaskStore.TaskStore.SelectProject | src/pages/Index.tsx:163-173 | a project button sets the filter to "all" or to a listed project and nothing else changes |
| TaskStore.TaskStore.SelectDate | src/pages/Index.tsx:143 | the date picker sets or clears the chosen date and nothing else changes |
| TaskStore.TaskStore.GetUpcomingTasks | src/pages/Index.tsx:79-86 | filtering into a fresh array and sorting it in place yields exactly the reminder list |

## Left out

- Rendering is not modelled: the JSX, the view switch between projects and calendar, the badges that look up a project with `projects.find`, and the date labels that `date-fns` formats. None of them changes the store.
- The display limit `getUpcomingTasks().slice(0, 3)` is not modelled. It only affects what is shown, and the full reminder list is modelled.
- The clock and the time zone are not modelled. `new Date()` and `Date.now()` become parameters, and a calendar day is counted in a zone without offset.
- React's state hooks and re-rendering are not modelled: the handlers update the fields at once. The projects list is a constant because nothing calls a setter for it.
- Invalid dates (`NaN` timestamps) are not modelled, nor is the `|| 0` fallback they would trigger in the comparator. Every due date is a whole number of milliseconds. The tasks that reach the sort all have a due date, so the fallback plays no role for them.
- TaskStore.TaskStore.AddTask: does not check that the id is fresh, because the code draws it from the clock. Unique ids are promised only when the id given is fresh.
- TaskStore.TaskStore.SelectProject: requires a filter value a button can produce ("all" or a listed id), because the buttons are the only callers.
