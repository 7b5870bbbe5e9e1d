/**
 * The values the task manager works with: a task of one of three kinds,
 * each with its completion flag, and the structured outcome that each
 * operation hands to the user interface instead of printing.
 */
module TaskModel {

  datatype Task =
    | Todo(description: string, isDone: bool)
    | Deadline(description: string, dueBy: string, isDone: bool)
    | Event(description: string, start: string, end: string, isDone: bool)
  {
    /** `setAsDone` / `setAsNotDone`: the same task with only its flag changed. */
    function WithDone(done: bool): (t: Task)
      ensures t.isDone == done
      ensures SameDetails(t, this)
    {
      this.(isDone := done)
    }
  }

  /** Two tasks of the same kind with the same text fields, whatever their flags. */
  predicate SameDetails(a: Task, b: Task)
  {
    match (a, b)
    case (Todo(d1, _), Todo(d2, _)) => d1 == d2
    case (Deadline(d1, by1, _), Deadline(d2, by2, _)) => d1 == d2 && by1 == by2
    case (Event(d1, f1, t1, _), Event(d2, f2, t2, _)) => d1 == d2 && f1 == f2 && t1 == t2
    case _ => false
  }

  /** Why a command did not add a task. */
  datatype AddError =
    | InvalidTaskType(command: string)
    | InvalidTodoFormat
    | InvalidDeadlineFormat
    | InvalidEventFormat
      /** The command is only spaces: `split(" ")` gives no first token and
          indexing it raises an exception that `addTask` does not catch. */
    | BlankCommand

  /** What an operation reports; positions and counts are as displayed (1-based, new length). */
  datatype Outcome =
    | Added(task: Task, position: nat)
    | Removed(task: Task, remaining: nat)
    | Marked(task: Task)
    | AlreadyMarked
    | Unmarked(task: Task)
    | AlreadyUnmarked
    | AddFailed(error: AddError)
    | IndexError
}
