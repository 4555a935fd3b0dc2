/**
 * The dashboard's task list state as the new-task dialog updates it, and what the dashboard
 * can render from it.
 *
 * The dashboard hands its list setter to the dialog as the dialog's `setTasks`, and the
 * dialog calls it with the one new task. The setter stores whatever it is given, so the
 * list is replaced by a single object, and the next render throws a TypeError.
 * `AddTaskAsWritten` models that. `AddTask` is the evidently intended behaviour, appending
 * the new task, and the rest of the model uses it.
 */
module DashboardStore {
  import opened Wrappers
  import opened JsString
  import opened Types
  import opened DashboardSearch
  import TaskDialog

  /** The dashboard's `tasks` state: normally an array, but the setter accepts any value. */
  datatype TasksState = TaskArray(tasks: seq<Task>) | LoneObject(task: TaskDialog.NewTask)

  /** The TypeError thrown when a method the code calls on `tasks` does not exist. */
  datatype RenderError = NotAFunction(call: string)

  /**
   * The tasks the dashboard renders for a search. On a lone object, a blank search passes the
   * object itself to the task list, whose `tasks.map` throws; any other search throws at
   * `tasks.filter` first.
   */
  function VisibleTasks(st: TasksState, search: string): (r: Result<seq<Task>, RenderError>)
    ensures st.TaskArray? ==> r.Success? && (forall t :: t in r.value <==> t in st.tasks && (IsBlank(search) || Matches(t, search)))
    ensures st.TaskArray? ==> r == Success(FilterTasks(st.tasks, search))
    ensures st.LoneObject? ==> r.Failure?
  {
    match st
    case TaskArray(ts) => Success(FilterTasks(ts, search))
    case LoneObject(_) =>
      if IsBlank(search) then Failure(NotAFunction("tasks.map"))
      else Failure(NotAFunction("tasks.filter"))
  }

  /** As written: the dialog's payload replaces the whole list. */
  function AddTaskAsWritten(st: TasksState, p: TaskDialog.NewTask): TasksState {
    LoneObject(p)
  }

  /**
   * A dashboard that rendered its list before a task is added cannot render after it,
   * whatever is typed in the search box.
   */
  lemma AddTaskAsWrittenBreaksDashboard(tasks: seq<Task>, p: TaskDialog.NewTask, search: string)
    ensures VisibleTasks(TaskArray(tasks), search).Success?
    ensures VisibleTasks(AddTaskAsWritten(TaskArray(tasks), p), search).Failure?
  {
  }

  /** The stored task for a payload; `id` and `userId` are assigned outside the dialog. */
  function TaskFromPayload(p: TaskDialog.NewTask, id: string, userId: string): (t: Task)
    ensures t.title == p.title && t.description == p.description && t.status == p.status
    ensures t.dueDate == p.dueDate && t.subTasks == p.subTasks
  {
    Task(id, p.title, p.description, p.status, p.dueDate, userId, p.subTasks, None)
  }

  /** Intended: the new task is appended after the existing ones. */
  function AddTask(tasks: seq<Task>, p: TaskDialog.NewTask, id: string, userId: string): (r: seq<Task>)
    ensures |r| == |tasks| + 1 && r[..|tasks|] == tasks
    ensures r[|tasks|] == TaskFromPayload(p, id, userId)
  {
    tasks + [TaskFromPayload(p, id, userId)]
  }

  /** A non-blank query always finds a task with that exact title. */
  lemma TitleFindsTask(t: Task)
    ensures Matches(t, t.title)
  {
    var l := ToLower(t.title);
    assert StartsWith(l, l);
  }

  /**
   * With the intended update the dashboard still renders: a blank search shows the old tasks
   * followed by the new one, every task a search found before is still found, and searching
   * for the new task's title (when not blank) finds it.
   */
  lemma AddTaskKeepsDashboard(tasks: seq<Task>, p: TaskDialog.NewTask, id: string, userId: string, search: string)
    ensures VisibleTasks(TaskArray(AddTask(tasks, p, id, userId)), search).Success?
    ensures IsBlank(search) ==>
              VisibleTasks(TaskArray(AddTask(tasks, p, id, userId)), search).value
              == tasks + [TaskFromPayload(p, id, userId)]
    ensures forall t :: t in FilterTasks(tasks, search) ==>
              t in VisibleTasks(TaskArray(AddTask(tasks, p, id, userId)), search).value
    ensures !IsBlank(p.title) && search == p.title ==>
              TaskFromPayload(p, id, userId) in VisibleTasks(TaskArray(AddTask(tasks, p, id, userId)), search).value
  {
    var r := AddTask(tasks, p, id, userId);
    assert r == tasks + [TaskFromPayload(p, id, userId)];
    TitleFindsTask(TaskFromPayload(p, id, userId));
  }
}
