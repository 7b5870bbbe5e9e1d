# Task manager of a personal task list, in Dafny

This project models `TaskManager`, the core of a command-line task-list
manager. It keeps an ordered list of tasks. A task is a todo, a deadline
with a due text, or an event with a start and an end text, and each task
carries a done flag. The manager turns free-text commands such as
`deadline report /by Fri` into tasks and appends them. It
deletes tasks, marks and unmarks them by 0-based position, and reports
each result.

Modules:

- `JavaStrings` (`java_strings.dfy`) models the two `java.lang.String`
  operations the parser relies on:
  - `split` with a literal delimiter, or an alternation of literal
    delimiters, and the default limit 0. With no match it returns the
    whole string; otherwise it drops trailing empty pieces.
  - `trim`, which removes every character up to U+0020 at both ends.
- `TaskModel` (`task_model.dfy`) holds the task datatype, the errors, and
  the outcome each operation reports. Outcomes are returned instead of
  printed.
- `TaskParsing` (`task_parsing.dfy`) covers the command parsing of
  `addTask` and the three `add…Task` methods, as pure functions.
  `CommandText` builds the canonical command for a task, and the parse of
  that command is proved to give the task back.
- `TaskManagement` (`task_manager.dfy`) holds the class `TaskManager`. Its
  fields are `taskList` and its counter `index`, and `Valid()` ties the
  counter to the length. Each method is proved against a step function
  that maps the old list to the new list and the outcome (`AddStep`,
  `DeleteStep`, `MarkStep`, `UnmarkStep`). Lemmas relate the steps to one
  another.
- `TaskScenarios` (`scenarios.dfy`) holds concrete commands and a short
  session, each an instance of a lemma over arbitrary text.

Where the code behaves differently from what its command format suggests,
the model follows the code:

- The offsets 4, 8 and 5 are exactly the lengths of `todo`, `deadline`
  and `event`. The separating space stays in the remainder and is removed
  by `trim`.
- The parser in `TaskManager` passes a deadline or event whose fields
  are empty after trimming on to the task constructor
  (`EmptyDeadlineFieldsAccepted`, `EmptyEventFieldsAccepted`). Only a
  todo's text is checked for emptiness there. The `Deadline`, `Event` and
  `Todo` classes are not part of this model; the model takes their
  constructors to keep the given texts and never fail (see Left out).
- The event markers `/from` and `/to` may come in any order and any mix,
  repeated or not. All that counts is that exactly three pieces remain
  once trailing empty pieces are dropped: `event a /from b /from /to` is
  accepted as the event `a` from `b` to an empty end.
- A marker at the very end leaves an empty last piece, which `split`
  drops: `deadline d /by` has one part and `event d /from f /to` two, so
  both are rejected (`DeadlineTrailingMarkerRejected`,
  `EventTrailingMarkerRejected`).
- A command made only of spaces has no first word. In Java this raises an
  exception that `addTask` does not catch; the model reports it as the
  error `BlankCommand`.
- An index outside the list reaches `taskList.get` in `deleteTask`, and
  that call throws before anything changes. The model reports such an
  index as `IndexError` and leaves the list as it was (see Findings).

## Model

| member | source | states |
|---|---|---|
| JavaStrings.MatchLength | src/main/java/TaskManager.java:62 | the alternation `/from\|/to` matches at the start of a text exactly when one of its delimiters is a prefix there, with a length that fits the text |
| JavaStrings.MatchLengthIsFirstMatch | src/main/java/TaskManager.java:62 | a match exists exactly when some alternative is the first, in order, to be a prefix of the text, and the match length is then that alternative's length, as a regular-expression alternation picks it |
| JavaStrings.Pieces | src/main/java/TaskManager.java:51 | the pieces between matches number at least one |
| JavaStrings.PiecesHeadIsPrefix | src/main/java/TaskManager.java:24 | the first piece of a split is a prefix of the text, so the first word of a command is where the command starts |
| JavaStrings.DropTrailingEmpty | src/main/java/TaskManager.java:51 | the result is a prefix of the pieces, it does not end in an empty piece, and every piece removed was empty |
| JavaStrings.Split | src/main/java/TaskManager.java:24 | `split` with limit 0: when no delimiter occurs the result is the whole text as its only part; it has no more parts than there are pieces and its first part is a prefix of the text |
| JavaStrings.SplitWhenMatched | src/main/java/TaskManager.java:51 | when some delimiter occurs, `split` returns the pieces with trailing empty ones dropped (a prefix of the pieces ending in a non-empty piece, every dropped piece empty) |
| JavaStrings.OnePieceIsWhole | src/main/java/TaskManager.java:24 | the scan yields a single piece exactly when no delimiter occurs in the text, and that piece is the whole text, so testing for one piece is Java's test for no match |
| JavaStrings.SplitDropsEmptyLast | src/main/java/TaskManager.java:51 | when the pieces end in a single empty piece after a non-empty one, `split` returns the pieces without it |
| JavaStrings.JoinPieces | src/main/java/TaskManager.java:24 | joining the pieces of a split on a delimiter with that delimiter gives back the original text |
| JavaStrings.PiecesWhole | src/main/java/TaskManager.java:51 | with no delimiter anywhere, the text is a single piece |
| JavaStrings.Trim | src/main/java/TaskManager.java:74 | `trim` returns a contiguous part of the text with no whitespace at either end, and what it removes around that part is all whitespace |
| JavaStrings.TrimPadded | src/main/java/TaskManager.java:54 | trimming a text padded with whitespace gives back the unpadded text |
| JavaStrings.TrimIdempotent | src/main/java/TaskManager.java:74 | trimming twice is the same as trimming once |
| TaskModel.Task.WithDone | src/main/java/TaskManager.java:105 | `setAsDone`/`setAsNotDone` set the flag to the given value and keep the kind and every text field |
| TaskParsing.FirstToken | src/main/java/TaskManager.java:24 | the first space-separated word, when there is one, is a prefix of the command |
| TaskParsing.ParseTodo | src/main/java/TaskManager.java:73-82 | a parsed result is a todo that is not done, with a non-empty description without outer whitespace; a rejection is the todo-format error |
| TaskParsing.ParseDeadline | src/main/java/TaskManager.java:50-59 | a parsed result is a deadline that is not done, with description and due text without outer whitespace; a rejection is the deadline-format error |
| TaskParsing.ParseEvent | src/main/java/TaskManager.java:61-71 | a parsed result is an event that is not done, with all three fields without outer whitespace; a rejection is the event-format error |
| TaskParsing.ParseCommand | src/main/java/TaskManager.java:23-48 | a parsed task is not done and the command's first word is its kind's keyword; a todo's description is non-empty; the result is the blank-command error exactly when there is no first word; the unknown-kind error, carrying the whole command, comes exactly when the first word is none of `todo`, `deadline`, `event` |
| TaskParsing.ParseCommandTodo | src/main/java/TaskManager.java:73-78 | a command whose first word is `todo` and whose trimmed remainder after offset 4 is non-empty parses to the todo with exactly that text |
| TaskParsing.ParseCommandDeadline | src/main/java/TaskManager.java:50-55 | a command whose first word is `deadline` and whose remainder after offset 8 splits on `/by` into two parts parses to the deadline with those parts trimmed |
| TaskParsing.ParseCommandEvent | src/main/java/TaskManager.java:61-67 | a command whose first word is `event` and whose remainder after offset 5 splits on `/from\|/to` into three parts parses to the event with those parts trimmed |
| TaskParsing.KeywordOffsetInRange | src/main/java/TaskManager.java:24 | when the first word is a keyword, the command is at least as long as that kind's offset, so the substring is defined |
| TaskParsing.FirstTokenOf | src/main/java/TaskManager.java:24 | a space-free word followed by a space is the command's first word |
| TaskParsing.BlankCommandIff | src/main/java/TaskManager.java:24 | a command has no first word if and only if it is non-empty and made only of spaces |
| TaskParsing.DeadlineWithoutMarkerRejected | src/main/java/TaskManager.java:51-57 | a deadline command with no `/by` after the keyword is rejected with the deadline-format error |
| TaskParsing.EventWithoutMarkersRejected | src/main/java/TaskManager.java:62-69 | an event command with neither `/from` nor `/to` is rejected with the event-format error |
| TaskParsing.DeadlinePartCountRejected | src/main/java/TaskManager.java:51-57 | a `deadline` command whose remainder does not split into exactly two parts is rejected with the deadline-format error |
| TaskParsing.EventPartCountRejected | src/main/java/TaskManager.java:62-69 | an `event` command whose remainder does not split into exactly three parts is rejected with the event-format error |
| TaskParsing.DeadlineTrailingMarkerPieces | src/main/java/TaskManager.java:51 | for marker-free `d`, ` d /by` splits into the single part ` d `, the empty piece after `/by` being dropped |
| TaskParsing.DeadlineTrailingMarkerRejected | src/main/java/TaskManager.java:51-57 | for every marker-free `d`, `deadline d /by` is rejected with the deadline-format error |
| TaskParsing.EventTrailingMarkerPieces | src/main/java/TaskManager.java:62 | for marker-free `d` and `f`, ` d /from f /to` splits into the two parts ` d ` and ` f `, the empty piece after `/to` being dropped |
| TaskParsing.EventTrailingMarkerRejected | src/main/java/TaskManager.java:62-69 | for all marker-free `d` and `f`, `event d /from f /to` is rejected with the event-format error |
| TaskParsing.TodoWithoutTextRejected | src/main/java/TaskManager.java:74-80 | a todo command with only whitespace after the keyword is rejected with the todo-format error |
| TaskParsing.ParseTodoText | src/main/java/TaskManager.java:73-78 | `todo` followed by a space and a trimmed non-empty text parses to the todo with that text |
| TaskParsing.ParseDeadlineText | src/main/java/TaskManager.java:50-55 | `deadline d /by due` with marker-free trimmed fields parses to the deadline with those fields |
| TaskParsing.ParseEventText | src/main/java/TaskManager.java:61-67 | `event d /from f /to until` with marker-free trimmed fields parses to the event with those fields |
| TaskParsing.ParseCommandText | src/main/java/TaskManager.java:23-48 | for every task a command can express, parsing its canonical command gives that task back, not done |
| TaskManagement.AddStep | src/main/java/TaskManager.java:23-82 | a command that parses appends its task at the end and reports the new length as its position; any other command leaves the list unchanged and reports the parse error |
| TaskManagement.DeleteStep | src/main/java/TaskManager.java:84-94 | at a valid index the task is reported with the new count; the tasks before it keep their positions and the later ones move up by one; at any other index nothing changes and an index error is reported |
| TaskManagement.MarkStep | src/main/java/TaskManager.java:96-109 | out of range gives an index error; an already done task gives the already-marked outcome with no change; otherwise only that task's flag becomes true and the updated task is reported |
| TaskManagement.UnmarkStep | src/main/java/TaskManager.java:111-124 | the mirror image of marking, with the flag becoming false |
| TaskManagement.DeleteGuardAsWrittenAlwaysHolds | src/main/java/TaskManager.java:85 | the guard of `deleteTask` as written holds for every index whenever the count is not negative |
| TaskManagement.DeleteGuardAsWrittenAdmitsOutOfRange | src/main/java/TaskManager.java:85 | index 3 in a list of 3 passes the guard as written although it is out of range |
| TaskManagement.DeleteRemovesOne | src/main/java/TaskManager.java:86-87 | deleting removes exactly one occurrence of the reported task and keeps every other task |
| TaskManagement.DeleteTwice | src/main/java/TaskManager.java:84-94 | deleting at the same index twice removes the task that moved into that position, or gives an index error when the first deletion removed the last task |
| TaskManagement.MarkIdempotent | src/main/java/TaskManager.java:102-103 | marking a second time reports already-marked and changes nothing |
| TaskManagement.UnmarkIdempotent | src/main/java/TaskManager.java:118-119 | unmarking a second time reports already-unmarked and changes nothing |
| TaskManagement.MarkThenUnmarkRestores | src/main/java/TaskManager.java:96-124 | marking an undone task and then unmarking it restores the list |
| TaskManagement.UnmarkThenMarkRestores | src/main/java/TaskManager.java:96-124 | unmarking a done task and then marking it restores the list |
| TaskManagement.AddCommandText | src/main/java/TaskManager.java:23-82 | adding the canonical command of an expressible task appends exactly that task, not done, at position length + 1 |
| TaskManagement.TaskManager.constructor | src/main/java/TaskManager.java:131-133 | the manager starts with the loaded tasks, or with an empty list when loading failed, and its counter equals the list length |
| TaskManagement.TaskManager.LoadTasksFromFile | src/main/java/TaskManager.java:135-144 | loaded tasks are appended and the counter is set to their number; a failed load changes nothing |
| TaskManagement.TaskManager.AppendParsed | src/main/java/TaskManager.java:53-55 | a parsed task is appended, the counter grows by one, and the task is reported with its 1-based position |
| TaskManagement.TaskManager.AddDeadlineTask | src/main/java/TaskManager.java:50-59 | the list grows by the parsed deadline, or is unchanged with the deadline-format error |
| TaskManagement.TaskManager.AddEventTask | src/main/java/TaskManager.java:61-71 | the list grows by the parsed event, or is unchanged with the event-format error |
| TaskManagement.TaskManager.AddTodoTask | src/main/java/TaskManager.java:73-82 | the list grows by the parsed todo, or is unchanged with the todo-format error |
| TaskManagement.TaskManager.AddTask | src/main/java/TaskManager.java:23-48 | the new list and the outcome are those of `AddStep`, and the counter still equals the length |
| TaskManagement.TaskManager.DeleteTask | src/main/java/TaskManager.java:84-94 | the new list and the outcome are those of `DeleteStep`, and the counter still equals the length |
| TaskManagement.TaskManager.MarkTask | src/main/java/TaskManager.java:96-109 | the new list and the outcome are those of `MarkStep` |
| TaskManagement.TaskManager.UnmarkTask | src/main/java/TaskManager.java:111-124 | the new list and the outcome are those of `UnmarkStep` |
| TaskManagement.TaskManager.ListTasks | src/main/java/TaskManager.java:126-128 | the tasks are handed over in order, with a count equal to their number |
| TaskScenarios.UnknownWordRejected | src/main/java/TaskManager.java:36-40 | a single word that is no keyword is reported as an unknown task type, together with the command |
| TaskScenarios.DeadlineWithoutByRejected | src/main/java/TaskManager.java:51-57 | `deadline` followed by slash-free text is rejected |
| TaskScenarios.EventWithoutEndRejected | src/main/java/TaskManager.java:62-69 | `event d /from f` without `/to` splits into two parts and is rejected |
| TaskScenarios.TodoExample | src/main/java/TaskManager.java:73-78 | `todo read book` gives the todo `read book` |
| TaskScenarios.DeadlineExample | src/main/java/TaskManager.java:50-55 | `deadline report /by Fri` gives the deadline `report` due `Fri` |
| TaskScenarios.EventExample | src/main/java/TaskManager.java:61-67 | `event sync /from 2pm /to 3pm` gives the event `sync` from `2pm` to `3pm` |
| TaskScenarios.EventWithoutEndExample | src/main/java/TaskManager.java:62-69 | `event sync /from 2pm` is rejected with the event-format error |
| TaskScenarios.DeadlineWithoutByExample | src/main/java/TaskManager.java:51-57 | `deadline submit report` is rejected |
| TaskScenarios.UnknownKindExample | src/main/java/TaskManager.java:36-40 | `blah` is an unknown task type |
| TaskScenarios.BlankExample | src/main/java/TaskManager.java:24 | a command of three spaces has no first word |
| TaskScenarios.EmptyDeadlineFieldsAccepted | src/main/java/TaskManager.java:51-54 | `deadline  /by ` is accepted with an empty description and an empty due text |
| TaskScenarios.EmptyEventFieldsAccepted | src/main/java/TaskManager.java:62-66 | `event  /from  /to ` is accepted with three empty fields |
| TaskScenarios.AddMarkDeleteSession | src/main/java/TaskManager.java:23-94 | on an empty list, adding a task puts it at position 1; marking it reports it done; deleting it leaves 0 tasks; deleting again gives an index error |

## Left out

- Loading from and saving to the data file (`Storage`, `FILE_PATH`, `saveTasksToFile`, the on-disk line format). The constructor takes the loaded tasks, or a load failure, as a parameter.
- The user interface. Confirmations and error messages are returned as an `Outcome` instead of printed, and the message texts are not modelled.
- The texts of exception messages. The texts are not modelled; only the exception's kind and the fact that nothing changed are kept.
- `toString` of tasks and the list display format.
- The `Deadline`, `Event` and `Todo` constructors, whose classes are not part of this model. They are taken to keep their arguments as given and never throw. The counter is incremented before the constructor runs (lines 53-54, 64-65, 76-77), so a throwing constructor would leave `index` one ahead of the list; `Valid()` and the empty-field scenarios rely on this assumption.
- General regular expressions. `split` is modelled only for literal delimiters and alternations of them, which is all the code uses.
- The 32-bit width of `index`. The model's counter is an unbounded integer, since a list never holds 2^31 tasks.
- Object identity of tasks. Marking replaces the task value at its position. In the source, `setAsDone` mutates a task object that no other part of this class holds.
- `TaskManagement.TaskManager.DeleteTask`: for an index that passes the guard as written but is out of range, the source throws from `taskList.get`. The model returns `IndexError` from the corrected guard. Both paths leave the list and the counter unchanged.

## Findings

| source | as written | input that shows it | evidently intended | confidence | as-written member | corrected member |
|---|---|---|---|---|---|---|
| src/main/java/TaskManager.java:85 | `taskIndex < index \|\| taskIndex >= START_INDEX` accepts every index when `index` is not negative, so the guarded `IndexOutOfBoundsException` is never thrown | `taskIndex = 3` with 3 tasks passes the guard; the out-of-range access is then refused only by `taskList.get` | `taskIndex >= START_INDEX && taskIndex < index` | not executed | TaskManagement.DeleteGuardAsWritten, with TaskManagement.DeleteGuardAsWrittenAlwaysHolds and TaskManagement.DeleteGuardAsWrittenAdmitsOutOfRange | TaskManagement.InRange, used by TaskManagement.DeleteStep and TaskManagement.TaskManager.DeleteTask |
