/**
 * The task manager: an ordered list of tasks and a counter that must equal
 * its length, changed in place by add, delete, mark and unmark. Each
 * operation is specified by a function from the old list to the new list
 * and the reported outcome; the class's methods are proved to follow them.
 */
module TaskManagement {
  import opened TaskModel
  import opened TaskParsing

  const INDEX_OFFSET: int := 1
  const START_INDEX: int := 0

  /** The list after an operation, and what the operation reports. */
  datatype Step = Step(tasks: seq<Task>, outcome: Outcome)

  /** What the storage layer hands the constructor: the saved tasks, or a load failure. */
  datatype LoadResult = Loaded(tasks: seq<Task>) | LoadFailed

  /** A valid 0-based position in a list of `count` tasks. */
  predicate InRange(taskIndex: int, count: int)
  {
    START_INDEX <= taskIndex < count
  }

  /**
   * `addTask`: a command that parses appends its task at the end and
   * reports it with its 1-based position, the new length; any other command
   * leaves the list as it was and reports why.
   */
  function AddStep(tasks: seq<Task>, command: string): (r: Step)
    ensures r.outcome.Added? <==> ParseCommand(command).Parsed?
    ensures r.outcome.Added? ==> r.tasks == tasks + [r.outcome.task] && r.outcome.position == |r.tasks|
    ensures r.outcome.Added? ==> r.outcome.task == ParseCommand(command).task
    ensures !r.outcome.Added? ==> r.tasks == tasks && r.outcome == AddFailed(ParseCommand(command).error)
  {
    match ParseCommand(command)
    case Parsed(t) => Step(tasks + [t], Added(t, |tasks| + INDEX_OFFSET))
    case Rejected(e) => Step(tasks, AddFailed(e))
  }

  /**
   * `deleteTask`: at a valid index the task there is reported and taken
   * out, the tasks before it stay where they are and the tasks after it
   * move up by one; at any other index nothing changes.
   */
  function DeleteStep(tasks: seq<Task>, taskIndex: int): (r: Step)
    ensures InRange(taskIndex, |tasks|) ==>
      && |r.tasks| == |tasks| - 1
      && r.outcome == Removed(tasks[taskIndex], |r.tasks|)
      && (forall j :: 0 <= j < taskIndex ==> r.tasks[j] == tasks[j])
      && (forall j :: taskIndex <= j < |r.tasks| ==> r.tasks[j] == tasks[j + 1])
    ensures !InRange(taskIndex, |tasks|) ==> r == Step(tasks, IndexError)
  {
    if InRange(taskIndex, |tasks|) then
      Step(tasks[..taskIndex] + tasks[taskIndex + 1..], Removed(tasks[taskIndex], |tasks| - INDEX_OFFSET))
    else Step(tasks, IndexError)
  }

  /**
   * `markTask`: out of range reports an index error, an already done task
   * reports so; otherwise only that task's flag becomes true. Either way no
   * other task changes and no task changes kind or text.
   */
  function MarkStep(tasks: seq<Task>, taskIndex: int): (r: Step)
    ensures |r.tasks| == |tasks|
    ensures forall j :: 0 <= j < |tasks| && j != taskIndex ==> r.tasks[j] == tasks[j]
    ensures !InRange(taskIndex, |tasks|) ==> r == Step(tasks, IndexError)
    ensures InRange(taskIndex, |tasks|) ==> r.tasks[taskIndex].isDone && SameDetails(r.tasks[taskIndex], tasks[taskIndex])
    ensures InRange(taskIndex, |tasks|) && tasks[taskIndex].isDone ==> r == Step(tasks, AlreadyMarked)
    ensures InRange(taskIndex, |tasks|) && !tasks[taskIndex].isDone ==> r.outcome == Marked(r.tasks[taskIndex])
  {
    if taskIndex >= |tasks| || taskIndex < START_INDEX then Step(tasks, IndexError)
    else if tasks[taskIndex].isDone then Step(tasks, AlreadyMarked)
    else
      var updated := tasks[taskIndex := tasks[taskIndex].WithDone(true)];
      Step(updated, Marked(updated[taskIndex]))
  }

  /** `unmarkTask`: the mirror image of `MarkStep` with the flag becoming false. */
  function UnmarkStep(tasks: seq<Task>, taskIndex: int): (r: Step)
    ensures |r.tasks| == |tasks|
    ensures forall j :: 0 <= j < |tasks| && j != taskIndex ==> r.tasks[j] == tasks[j]
    ensures !InRange(taskIndex, |tasks|) ==> r == Step(tasks, IndexError)
    ensures InRange(taskIndex, |tasks|) ==> !r.tasks[taskIndex].isDone && SameDetails(r.tasks[taskIndex], tasks[taskIndex])
    ensures InRange(taskIndex, |tasks|) && !tasks[taskIndex].isDone ==> r == Step(tasks, AlreadyUnmarked)
    ensures InRange(taskIndex, |tasks|) && tasks[taskIndex].isDone ==> r.outcome == Unmarked(r.tasks[taskIndex])
  {
    if taskIndex >= |tasks| || taskIndex < START_INDEX then Step(tasks, IndexError)
    else if !tasks[taskIndex].isDone then Step(tasks, AlreadyUnmarked)
    else
      var updated := tasks[taskIndex := tasks[taskIndex].WithDone(false)];
      Step(updated, Unmarked(updated[taskIndex]))
  }

  /**
   * The guard `deleteTask` is written with: `taskIndex < index ||
   * taskIndex >= START_INDEX`. With a count that is never negative it
   * accepts every integer, so its else branch is dead; `InRange` is the
   * guard it was evidently meant to be.
   */
  function DeleteGuardAsWritten(taskIndex: int, count: int): bool
  {
    taskIndex < count || taskIndex >= START_INDEX
  }

  /** The guard as written holds for every index whenever the count is a list size. */
  lemma DeleteGuardAsWrittenAlwaysHolds(taskIndex: int, count: int)
    requires count >= 0
    ensures DeleteGuardAsWritten(taskIndex, count)
  {
  }

  /** Index 3 in a list of 3 passes the guard as written but is out of range. */
  lemma DeleteGuardAsWrittenAdmitsOutOfRange()
    ensures DeleteGuardAsWritten(3, 3) && !InRange(3, 3)
  {
  }

  /** Deleting takes away exactly one occurrence of the removed task and nothing else. */
  lemma DeleteRemovesOne(tasks: seq<Task>, taskIndex: int)
    requires InRange(taskIndex, |tasks|)
    ensures multiset(DeleteStep(tasks, taskIndex).tasks) + multiset{tasks[taskIndex]} == multiset(tasks)
  {
    var r := DeleteStep(tasks, taskIndex).tasks;
    assert r == tasks[..taskIndex] + tasks[taskIndex + 1..];
    assert tasks == tasks[..taskIndex] + [tasks[taskIndex]] + tasks[taskIndex + 1..];
  }

  /**
   * Deleting at the same index twice removes the task that moved into that
   * position, or reports an index error when the first deletion took the
   * last task.
   */
  lemma DeleteTwice(tasks: seq<Task>, taskIndex: int)
    requires InRange(taskIndex, |tasks|)
    ensures var second := DeleteStep(DeleteStep(tasks, taskIndex).tasks, taskIndex);
      if taskIndex + 1 < |tasks| then
        second.outcome == Removed(tasks[taskIndex + 1], |tasks| - 2)
        && second.tasks == tasks[..taskIndex] + tasks[taskIndex + 2..]
      else
        second.outcome == IndexError && second.tasks == tasks[..taskIndex]
  {
    var first := DeleteStep(tasks, taskIndex).tasks;
    var second := DeleteStep(first, taskIndex);
    if taskIndex + 1 < |tasks| {
      assert first[taskIndex] == tasks[taskIndex + 1];
      assert second.tasks == first[..taskIndex] + first[taskIndex + 1..];
      assert first[..taskIndex] == tasks[..taskIndex];
      assert first[taskIndex + 1..] == tasks[taskIndex + 2..];
    } else {
      assert first == tasks[..taskIndex];
    }
  }

  /** Marking a task a second time reports that it is already marked and changes nothing. */
  lemma MarkIdempotent(tasks: seq<Task>, taskIndex: int)
    requires InRange(taskIndex, |tasks|)
    ensures var once := MarkStep(tasks, taskIndex);
      MarkStep(once.tasks, taskIndex) == Step(once.tasks, AlreadyMarked)
  {
  }

  /** Unmarking a task a second time reports that it is already unmarked and changes nothing. */
  lemma UnmarkIdempotent(tasks: seq<Task>, taskIndex: int)
    requires InRange(taskIndex, |tasks|)
    ensures var once := UnmarkStep(tasks, taskIndex);
      UnmarkStep(once.tasks, taskIndex) == Step(once.tasks, AlreadyUnmarked)
  {
  }

  /** Marking an undone task and then unmarking it restores the list. */
  lemma MarkThenUnmarkRestores(tasks: seq<Task>, taskIndex: int)
    requires InRange(taskIndex, |tasks|) && !tasks[taskIndex].isDone
    ensures UnmarkStep(MarkStep(tasks, taskIndex).tasks, taskIndex).tasks == tasks
  {
    var marked := MarkStep(tasks, taskIndex).tasks;
    var restored := UnmarkStep(marked, taskIndex).tasks;
    assert restored[taskIndex] == tasks[taskIndex];
  }

  /** Unmarking a done task and then marking it restores the list. */
  lemma UnmarkThenMarkRestores(tasks: seq<Task>, taskIndex: int)
    requires InRange(taskIndex, |tasks|) && tasks[taskIndex].isDone
    ensures MarkStep(UnmarkStep(tasks, taskIndex).tasks, taskIndex).tasks == tasks
  {
    var unmarked := UnmarkStep(tasks, taskIndex).tasks;
    var restored := MarkStep(unmarked, taskIndex).tasks;
    assert restored[taskIndex] == tasks[taskIndex];
  }

  /** Adding the canonical command of an expressible task appends that task, not done. */
  lemma AddCommandText(tasks: seq<Task>, t: Task)
    requires Expressible(t)
    ensures AddStep(tasks, CommandText(t)) == Step(tasks + [t.WithDone(false)], Added(t.WithDone(false), |tasks| + 1))
  {
    ParseCommandText(t);
  }

  class TaskManager {
    var taskList: seq<Task>
    var index: int

    /** The counter always equals the number of tasks. */
    ghost predicate Valid()
      reads this
    {
      index == |taskList|
    }

    /** Starts from what the storage layer loaded, or from an empty list when loading failed. */
    constructor (stored: LoadResult)
      ensures Valid()
      ensures taskList == (if stored.Loaded? then stored.tasks else [])
    {
      taskList := [];
      index := 0;
      new;
      LoadTasksFromFile(stored);
    }

    /**
     * Appends the loaded tasks and sets the counter to their number (not to
     * the new length: the two agree because only the constructor calls it,
     * on an empty list); on a load failure nothing changes.
     */
    method LoadTasksFromFile(stored: LoadResult)
      modifies this
      ensures stored.Loaded? ==> taskList == old(taskList) + stored.tasks && index == |stored.tasks|
      ensures stored.LoadFailed? ==> taskList == old(taskList) && index == old(index)
    {
      match stored
      case Loaded(tasks) =>
        taskList := taskList + tasks;
        index := |tasks|;
      case LoadFailed =>
    }

    /** Appends a parsed task and reports it at its 1-based position, or reports the parse error. */
    method AppendParsed(parsed: ParseResult) returns (outcome: Outcome)
      requires Valid()
      modifies this
      ensures Valid()
      ensures parsed.Parsed? ==> taskList == old(taskList) + [parsed.task] && outcome == Added(parsed.task, |taskList|)
      ensures parsed.Rejected? ==> taskList == old(taskList) && outcome == AddFailed(parsed.error)
    {
      match parsed
      case Parsed(task) =>
        index := index + INDEX_OFFSET;
        taskList := taskList + [task];
        outcome := Added(taskList[index - INDEX_OFFSET], index);
      case Rejected(error) =>
        outcome := AddFailed(error);
    }

    method AddDeadlineTask(taskDescription: string) returns (outcome: Outcome)
      requires Valid() && |taskDescription| >= DEADLINE_BEGIN_INDEX
      modifies this
      ensures Valid()
      ensures var r := ParseDeadline(taskDescription);
        if r.Parsed? then taskList == old(taskList) + [r.task] && outcome == Added(r.task, |taskList|)
        else taskList == old(taskList) && outcome == AddFailed(InvalidDeadlineFormat)
    {
      outcome := AppendParsed(ParseDeadline(taskDescription));
    }

    method AddEventTask(taskDescription: string) returns (outcome: Outcome)
      requires Valid() && |taskDescription| >= EVENT_BEGIN_INDEX
      modifies this
      ensures Valid()
      ensures var r := ParseEvent(taskDescription);
        if r.Parsed? then taskList == old(taskList) + [r.task] && outcome == Added(r.task, |taskList|)
        else taskList == old(taskList) && outcome == AddFailed(InvalidEventFormat)
    {
      outcome := AppendParsed(ParseEvent(taskDescription));
    }

    method AddTodoTask(taskDescription: string) returns (outcome: Outcome)
      requires Valid() && |taskDescription| >= TODO_BEGIN_INDEX
      modifies this
      ensures Valid()
      ensures var r := ParseTodo(taskDescription);
        if r.Parsed? then taskList == old(taskList) + [r.task] && outcome == Added(r.task, |taskList|)
        else taskList == old(taskList) && outcome == AddFailed(InvalidTodoFormat)
    {
      outcome := AppendParsed(ParseTodo(taskDescription));
    }

    /** Dispatches on the first space-separated word of the command. */
    method AddTask(taskDescription: string) returns (outcome: Outcome)
      requires Valid()
      modifies this
      ensures Valid()
      ensures taskList == AddStep(old(taskList), taskDescription).tasks
      ensures outcome == AddStep(old(taskList), taskDescription).outcome
    {
      KeywordOffsetInRange(taskDescription);
      match FirstToken(taskDescription)
      case None =>
        outcome := AddFailed(BlankCommand);
      case Some(taskType) =>
        if taskType == "deadline" {
          outcome := AddDeadlineTask(taskDescription);
        } else if taskType == "event" {
          outcome := AddEventTask(taskDescription);
        } else if taskType == "todo" {
          outcome := AddTodoTask(taskDescription);
        } else {
          outcome := AddFailed(InvalidTaskType(taskDescription));
        }
    }

    method DeleteTask(taskIndex: int) returns (outcome: Outcome)
      requires Valid()
      modifies this
      ensures Valid()
      ensures taskList == DeleteStep(old(taskList), taskIndex).tasks
      ensures outcome == DeleteStep(old(taskList), taskIndex).outcome
    {
      // The source guards with DeleteGuardAsWritten, which every index
      // passes; an out-of-range index is then refused by `taskList.get`
      // before the list or the counter changes. InRange is that behaviour.
      if !InRange(taskIndex, index) {
        outcome := IndexError;
        return;
      }
      var taskRemoved := taskList[taskIndex];
      taskList := taskList[..taskIndex] + taskList[taskIndex + 1..];
      index := index - INDEX_OFFSET;
      outcome := Removed(taskRemoved, index);
    }

    method MarkTask(taskIndex: int) returns (outcome: Outcome)
      requires Valid()
      modifies this
      ensures Valid()
      ensures taskList == MarkStep(old(taskList), taskIndex).tasks
      ensures outcome == MarkStep(old(taskList), taskIndex).outcome
    {
      if taskIndex >= index || taskIndex < START_INDEX {
        outcome := IndexError;
        return;
      }
      if taskList[taskIndex].isDone {
        outcome := AlreadyMarked;
      } else {
        taskList := taskList[taskIndex := taskList[taskIndex].WithDone(true)];
        outcome := Marked(taskList[taskIndex]);
      }
    }

    method UnmarkTask(taskIndex: int) returns (outcome: Outcome)
      requires Valid()
      modifies this
      ensures Valid()
      ensures taskList == UnmarkStep(old(taskList), taskIndex).tasks
      ensures outcome == UnmarkStep(old(taskList), taskIndex).outcome
    {
      if taskIndex >= index || taskIndex < START_INDEX {
        outcome := IndexError;
        return;
      }
      if !taskList[taskIndex].isDone {
        outcome := AlreadyUnmarked;
      } else {
        taskList := taskList[taskIndex := taskList[taskIndex].WithDone(false)];
        outcome := Unmarked(taskList[taskIndex]);
      }
    }

    /** `printTaskList` without the printing: the tasks in order and their count. */
    method ListTasks() returns (tasks: seq<Task>, count: int)
      requires Valid()
      ensures tasks == taskList && count == |tasks|
    {
      tasks, count := taskList, index;
    }
  }
}
