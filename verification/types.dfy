/** The records the task views pass around: tasks, their subtasks, and subtask ids. */
module Types {
  import opened Wrappers
  import opened JsString

  /**
   * A subtask id. The application types it as a string, but ids that came back from the
   * backend may be numbers (`string | number`), and JavaScript's `===` and `Map` keys tell
   * the string "1" and the number 1 apart. Numbers are modelled as integers.
   */
  datatype Id = StrId(s: string) | NumId(n: int)

  /** `String(id)`. */
  function IdToString(id: Id): string {
    match id
    case StrId(s) => s
    case NumId(n) => NumberToString(n)
  }

  /** JavaScript truthiness of an id: the empty string and the number 0 are falsy. */
  predicate IsTruthy(id: Id) {
    match id
    case StrId(s) => s != ""
    case NumId(n) => n != 0
  }

  /** A checklist item nested under a task. */
  datatype SubTask = SubTask(id: Id, title: string, done: bool)

  /**
   * A task as the client holds it. `subTasks` is the field the views read; `subtasks` is the
   * spelling the backend uses, kept for compatibility. Both may be absent.
   */
  datatype Task = Task(
    id: string,
    title: string,
    description: string,
    status: string,
    dueDate: string,
    userId: string,
    subTasks: Option<seq<SubTask>>,
    subtasks: Option<seq<SubTask>>)
}
