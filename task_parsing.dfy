/**
 * Turning a raw command into a task, as `addTask`, `addTodoTask`,
 * `addDeadlineTask` and `addEventTask` do before they touch the list:
 * dispatch on the first space-separated token, cut the keyword off at a
 * fixed offset, split the remainder on its markers, trim every part.
 */
module TaskParsing {
  import opened JavaStrings
  import opened TaskModel

  const DEADLINE_BEGIN_INDEX: nat := 8
  const EVENT_BEGIN_INDEX: nat := 5
  const TODO_BEGIN_INDEX: nat := 4
  const EVENT_MAX_PARTS: nat := 3
  const DEADLINE_MAX_PARTS: nat := 2

  /** The regex `/by`. */
  const BY_MARKERS: seq<string> := ["/by"]
  /** The regex `/from|/to`. */
  const EVENT_MARKERS: seq<string> := ["/from", "/to"]

  datatype Option<T> = None | Some(value: T)

  datatype ParseResult = Parsed(task: Task) | Rejected(error: AddError)

  /**
   * `command.split(" ")[0]`; `None` when the split is empty and the index
   * fails. Whatever it returns is a prefix of the command.
   */
  function FirstToken(command: string): (r: Option<string>)
    ensures r.Some? ==> StartsWith(command, r.value)
  {
    var words := Split(command, [" "]);
    if |words| == 0 then None else Some(words[0])
  }

  /** `addTodoTask`: everything after the keyword, trimmed, must be non-empty. */
  function ParseTodo(command: string): (r: ParseResult)
    requires |command| >= TODO_BEGIN_INDEX
    ensures r.Parsed? ==> r.task.Todo? && !r.task.isDone
    ensures r.Parsed? ==> r.task.description != [] && NoOuterSpace(r.task.description)
    ensures r.Rejected? ==> r.error == InvalidTodoFormat
  {
    var taskDetails := Trim(command[TODO_BEGIN_INDEX..]);
    if taskDetails != [] then Parsed(Todo(taskDetails, false))
    else Rejected(InvalidTodoFormat)
  }

  /** `addDeadlineTask`: the text after the keyword must split on `/by` into exactly two parts. */
  function ParseDeadline(command: string): (r: ParseResult)
    requires |command| >= DEADLINE_BEGIN_INDEX
    ensures r.Parsed? ==> r.task.Deadline? && !r.task.isDone
    ensures r.Parsed? ==> NoOuterSpace(r.task.description) && NoOuterSpace(r.task.dueBy)
    ensures r.Rejected? ==> r.error == InvalidDeadlineFormat
  {
    var taskDetails := Split(command[DEADLINE_BEGIN_INDEX..], BY_MARKERS);
    if |taskDetails| == DEADLINE_MAX_PARTS then
      Parsed(Deadline(Trim(taskDetails[0]), Trim(taskDetails[1]), false))
    else Rejected(InvalidDeadlineFormat)
  }

  /** `addEventTask`: the text after the keyword must split on `/from` or `/to` into exactly three parts. */
  function ParseEvent(command: string): (r: ParseResult)
    requires |command| >= EVENT_BEGIN_INDEX
    ensures r.Parsed? ==> r.task.Event? && !r.task.isDone
    ensures r.Parsed? ==> NoOuterSpace(r.task.description) && NoOuterSpace(r.task.start) && NoOuterSpace(r.task.end)
    ensures r.Rejected? ==> r.error == InvalidEventFormat
  {
    var taskDetails := Split(command[EVENT_BEGIN_INDEX..], EVENT_MARKERS);
    if |taskDetails| == EVENT_MAX_PARTS then
      Parsed(Event(Trim(taskDetails[0]), Trim(taskDetails[1]), Trim(taskDetails[2]), false))
    else Rejected(InvalidEventFormat)
  }

  /** The keyword that introduces a task of this kind. */
  function Keyword(t: Task): string
  {
    match t
    case Todo(_, _) => "todo"
    case Deadline(_, _, _) => "deadline"
    case Event(_, _, _, _) => "event"
  }

  /**
   * `addTask` up to the point where it mutates the list. A parsed task is
   * not done and the command's first word is its kind's keyword; a command
   * without a first word is blank; any other first word is an unknown kind,
   * reported with the whole command.
   */
  function ParseCommand(command: string): (r: ParseResult)
    ensures r.Parsed? ==> !r.task.isDone && FirstToken(command) == Some(Keyword(r.task))
    ensures r.Parsed? && r.task.Todo? ==> r.task.description != []
    ensures FirstToken(command).None? <==> r == Rejected(BlankCommand)
    ensures r.Rejected? && r.error.InvalidTaskType?
      <==> FirstToken(command).Some? && FirstToken(command).value !in ["todo", "deadline", "event"]
    ensures r.Rejected? && r.error.InvalidTaskType? ==> r.error.command == command
  {
    match FirstToken(command)
    case None => Rejected(BlankCommand)
    case Some(taskType) =>
      if taskType == "deadline" then ParseDeadline(command)
      else if taskType == "event" then ParseEvent(command)
      else if taskType == "todo" then ParseTodo(command)
      else Rejected(InvalidTaskType(command))
  }

  /**
   * Because the first token is a prefix of the command, a command whose
   * first token is a keyword is at least as long as that keyword's offset:
   * `substring(8)`, `substring(5)` and `substring(4)` never fail.
   */
  lemma KeywordOffsetInRange(command: string)
    ensures FirstToken(command) == Some("deadline") ==> |command| >= DEADLINE_BEGIN_INDEX && command[..DEADLINE_BEGIN_INDEX] == "deadline"
    ensures FirstToken(command) == Some("event") ==> |command| >= EVENT_BEGIN_INDEX && command[..EVENT_BEGIN_INDEX] == "event"
    ensures FirstToken(command) == Some("todo") ==> |command| >= TODO_BEGIN_INDEX && command[..TODO_BEGIN_INDEX] == "todo"
  {
    var first := FirstToken(command);
    if first.Some? {
      FirstWordIsPrefix(command, first.value);
    }
  }

  /** The first word is where the command starts. */
  lemma FirstWordIsPrefix(command: string, word: string)
    requires StartsWith(command, word)
    ensures |command| >= |word| && command[..|word|] == word
  {
  }

  /** A word without spaces followed by a space is the first token. */
  lemma FirstTokenOf(word: string, rest: string)
    requires word != [] && forall j :: 0 <= j < |word| ==> word[j] != ' '
    requires rest != [] && rest[0] == ' '
    ensures FirstToken(word + rest) == Some(word)
  {
    var s := word + rest;
    var ds := [" "];
    forall i | 0 <= i < |word| ensures MatchLength(s[i..], ds) == 0 {
      assert s[i..][0] == word[i];
    }
    assert s[|word|..] == rest;
    assert StartsWith(s[|word|..], " ");
    PiecesCut(s, |word|, ds);
    assert s[..|word|] == word;
    var pieces := Pieces(s, ds);
    assert |pieces| >= 2 && pieces[0] == word;
  }

  /** All-space strings split into empty pieces only, one more than there are spaces. */
  lemma {:induction false} PiecesOfSpaces(s: string)
    requires forall j :: 0 <= j < |s| ==> s[j] == ' '
    ensures |Pieces(s, [" "])| == |s| + 1
    ensures forall k :: 0 <= k < |s| + 1 ==> Pieces(s, [" "])[k] == []
  {
    if s != [] {
      assert StartsWith(s, " ");
      PiecesOfSpaces(s[1..]);
    }
  }

  /** Joining empty pieces with a space gives one space per gap. */
  lemma {:induction false} JoinOfEmpties(parts: seq<string>)
    requires forall k :: 0 <= k < |parts| ==> parts[k] == []
    ensures |parts| >= 2 ==> Join(parts, " ") != []
    ensures forall j :: 0 <= j < |Join(parts, " ")| ==> Join(parts, " ")[j] == ' '
  {
    if |parts| >= 2 {
      JoinOfEmpties(parts[1..]);
    }
  }

  /**
   * The first token is missing exactly when the command is non-empty and
   * made of spaces alone (the empty command has the empty first token).
   */
  lemma BlankCommandIff(command: string)
    ensures FirstToken(command).None? <==> command != [] && forall j :: 0 <= j < |command| ==> command[j] == ' '
  {
    var pieces := Pieces(command, [" "]);
    if command != [] && forall j :: 0 <= j < |command| ==> command[j] == ' ' {
      PiecesOfSpaces(command);
      assert pieces[|pieces| - 1] == [];
      assert forall k :: 0 <= k < |pieces| ==> pieces[k] == [];
    }
    if FirstToken(command).None? {
      assert |pieces| != 1;
      assert forall k :: 0 <= k < |pieces| ==> pieces[k] == [];
      JoinPieces(command, " ");
      JoinOfEmpties(pieces);
    }
  }

  /** A command whose remainder has no `/by` at all is not a deadline. */
  lemma DeadlineWithoutMarkerRejected(command: string)
    requires |command| >= DEADLINE_BEGIN_INDEX
    requires !ContainsAny(command[DEADLINE_BEGIN_INDEX..], BY_MARKERS)
    ensures ParseDeadline(command) == Rejected(InvalidDeadlineFormat)
  {
    var rest := command[DEADLINE_BEGIN_INDEX..];
    NoMatchInside(rest, BY_MARKERS);
    PiecesWhole(rest, BY_MARKERS);
  }

  /** A command whose remainder has neither `/from` nor `/to` is not an event. */
  lemma EventWithoutMarkersRejected(command: string)
    requires |command| >= EVENT_BEGIN_INDEX
    requires !ContainsAny(command[EVENT_BEGIN_INDEX..], EVENT_MARKERS)
    ensures ParseEvent(command) == Rejected(InvalidEventFormat)
  {
    var rest := command[EVENT_BEGIN_INDEX..];
    NoMatchInside(rest, EVENT_MARKERS);
    PiecesWhole(rest, EVENT_MARKERS);
  }

  /** `addTask` dispatching on `deadline` when the remainder does not split into two parts. */
  lemma DeadlinePartCountRejected(command: string)
    requires FirstToken(command) == Some("deadline") && |command| >= DEADLINE_BEGIN_INDEX
    requires |Split(command[DEADLINE_BEGIN_INDEX..], BY_MARKERS)| != DEADLINE_MAX_PARTS
    ensures ParseCommand(command) == Rejected(InvalidDeadlineFormat)
  {
  }

  /** `addTask` dispatching on `event` when the remainder does not split into three parts. */
  lemma EventPartCountRejected(command: string)
    requires FirstToken(command) == Some("event") && |command| >= EVENT_BEGIN_INDEX
    requires |Split(command[EVENT_BEGIN_INDEX..], EVENT_MARKERS)| != EVENT_MAX_PARTS
    ensures ParseCommand(command) == Rejected(InvalidEventFormat)
  {
  }

  /** A `/by` at the very end leaves an empty last piece, which `split` drops. */
  lemma DeadlineTrailingMarkerPieces(d: string)
    requires !ContainsAny(d, BY_MARKERS)
    ensures Split(" " + d + " " + "/by", BY_MARKERS) == [" " + d + " "]
  {
    MarkersSpaceFree();
    var rest := " " + d + " " + "/by";
    assert rest == " " + d + " " + ("/by" + []);
    assert StartsWith("/by" + [], "/by");
    PiecesAtMarker(d, "/by", [], BY_MARKERS);
    assert Pieces(rest, BY_MARKERS) == [" " + d + " "] + [[]];
    SplitDropsEmptyLast(rest, BY_MARKERS, [" " + d + " "]);
  }

  /**
   * `deadline d /by` with nothing after the marker: the empty due text is
   * dropped by `split`, one part remains, and the command is rejected.
   */
  lemma DeadlineTrailingMarkerRejected(d: string)
    requires !ContainsAny(d, BY_MARKERS)
    ensures ParseCommand("deadline" + (" " + d + " " + "/by")) == Rejected(InvalidDeadlineFormat)
  {
    var rest := " " + d + " " + "/by";
    FirstTokenOf("deadline", rest);
    DropKeyword("deadline", rest);
    DeadlineTrailingMarkerPieces(d);
    DeadlinePartCountRejected("deadline" + rest);
  }

  /** A `/to` at the very end leaves an empty last piece, which `split` drops. */
  lemma EventTrailingMarkerPieces(d: string, f: string)
    requires !ContainsAny(d, EVENT_MARKERS) && !ContainsAny(f, EVENT_MARKERS)
    ensures Split(" " + d + " " + ("/from" + (" " + f + " " + "/to")), EVENT_MARKERS) == [" " + d + " ", " " + f + " "]
  {
    MarkersSpaceFree();
    var fromTail := " " + f + " " + "/to";
    var rest := " " + d + " " + ("/from" + fromTail);
    assert Pieces(rest, EVENT_MARKERS) == [" " + d + " "] + Pieces(fromTail, EVENT_MARKERS) by {
      FromMarkerMatches(fromTail);
      PiecesAtMarker(d, "/from", fromTail, EVENT_MARKERS);
    }
    assert Pieces(fromTail, EVENT_MARKERS) == [" " + f + " ", []] by {
      assert fromTail == " " + f + " " + ("/to" + []);
      ToMarkerMatches([]);
      PiecesAtMarker(f, "/to", [], EVENT_MARKERS);
    }
    SplitDropsEmptyLast(rest, EVENT_MARKERS, [" " + d + " ", " " + f + " "]);
  }

  /**
   * `event d /from f /to` with nothing after the last marker: the empty end
   * text is dropped by `split`, two parts remain, and the command is rejected.
   */
  lemma EventTrailingMarkerRejected(d: string, f: string)
    requires !ContainsAny(d, EVENT_MARKERS) && !ContainsAny(f, EVENT_MARKERS)
    ensures ParseCommand("event" + (" " + d + " " + ("/from" + (" " + f + " " + "/to")))) == Rejected(InvalidEventFormat)
  {
    var rest := " " + d + " " + ("/from" + (" " + f + " " + "/to"));
    FirstTokenOf("event", rest);
    DropKeyword("event", rest);
    EventTrailingMarkerPieces(d, f);
    EventPartCountRejected("event" + rest);
  }

  /** A todo whose text after the keyword is only whitespace is rejected. */
  lemma TodoWithoutTextRejected(command: string)
    requires |command| >= TODO_BEGIN_INDEX
    requires AllTrimmable(command[TODO_BEGIN_INDEX..])
    ensures ParseTodo(command) == Rejected(InvalidTodoFormat)
  {
    var rest := command[TODO_BEGIN_INDEX..];
    assert rest == rest + [] + [];
    TrimPadded(rest, [], []);
  }

  /** The canonical command that describes a task. */
  function CommandText(t: Task): string
  {
    match t
    case Todo(d, _) => "todo" + (" " + d)
    case Deadline(d, due, _) => "deadline" + (" " + d + " " + ("/by" + (" " + due)))
    case Event(d, f, until, _) => "event" + (" " + d + " " + ("/from" + (" " + f + " " + ("/to" + (" " + until)))))
  }

  /**
   * Tasks a command can describe: text fields without outer whitespace,
   * free of their kind's markers, and a todo's description non-empty.
   */
  predicate Expressible(t: Task)
  {
    match t
    case Todo(d, _) => d != [] && NoOuterSpace(d)
    case Deadline(d, due, _) =>
      NoOuterSpace(d) && NoOuterSpace(due) && !ContainsAny(d, BY_MARKERS) && !ContainsAny(due, BY_MARKERS)
    case Event(d, f, until, _) =>
      NoOuterSpace(d) && NoOuterSpace(f) && NoOuterSpace(until)
      && !ContainsAny(d, EVENT_MARKERS) && !ContainsAny(f, EVENT_MARKERS) && !ContainsAny(until, EVENT_MARKERS)
  }

  /** Marker followed by one more piece: `" " + x + " " + marker + tail` cuts after the space. */
  lemma PiecesAtMarker(x: string, marker: string, tail: string, ds: seq<string>)
    requires ValidDelimiters(ds) && SpaceFree(ds) && !ContainsAny(x, ds)
    requires marker != [] && MatchLength(marker + tail, ds) == |marker|
    ensures Pieces(" " + x + " " + (marker + tail), ds) == [" " + x + " "] + Pieces(tail, ds)
  {
    PiecesPadded(x, marker + tail, ds);
    assert (marker + tail)[|marker|..] == tail;
    var t := Pieces(marker + tail, ds);
    assert t == [[]] + Pieces(tail, ds);
    assert " " + x + " " + t[0] == " " + x + " ";
  }

  /** The last piece: a space and a marker-free text. */
  lemma PiecesLast(x: string, ds: seq<string>)
    requires ValidDelimiters(ds) && SpaceFree(ds) && !ContainsAny(x, ds)
    ensures Pieces(" " + x, ds) == [" " + x]
  {
    NoMatchAfterSpace(x, ds);
    PiecesWhole(" " + x, ds);
  }

  lemma MarkersSpaceFree()
    ensures SpaceFree(BY_MARKERS) && SpaceFree(EVENT_MARKERS)
  {
  }

  /** `addTask` dispatching on `todo`: the task is the trimmed remainder. */
  lemma ParseCommandTodo(command: string)
    requires FirstToken(command) == Some("todo") && |command| >= TODO_BEGIN_INDEX
    requires Trim(command[TODO_BEGIN_INDEX..]) != []
    ensures ParseCommand(command) == Parsed(Todo(Trim(command[TODO_BEGIN_INDEX..]), false))
  {
  }

  /** `addTask` dispatching on `deadline` once the remainder has split into two parts. */
  lemma ParseCommandDeadline(command: string, parts: seq<string>)
    requires FirstToken(command) == Some("deadline") && |command| >= DEADLINE_BEGIN_INDEX
    requires Split(command[DEADLINE_BEGIN_INDEX..], BY_MARKERS) == parts && |parts| == DEADLINE_MAX_PARTS
    ensures ParseCommand(command) == Parsed(Deadline(Trim(parts[0]), Trim(parts[1]), false))
  {
  }

  /** `addTask` dispatching on `event` once the remainder has split into three parts. */
  lemma ParseCommandEvent(command: string, parts: seq<string>)
    requires FirstToken(command) == Some("event") && |command| >= EVENT_BEGIN_INDEX
    requires Split(command[EVENT_BEGIN_INDEX..], EVENT_MARKERS) == parts && |parts| == EVENT_MAX_PARTS
    ensures ParseCommand(command) == Parsed(Event(Trim(parts[0]), Trim(parts[1]), Trim(parts[2]), false))
  {
  }

  /** Cutting the keyword off at its own length leaves the rest. */
  lemma DropKeyword(word: string, rest: string)
    ensures (word + rest)[|word|..] == rest
  {
  }

  lemma ParseTodoText(d: string)
    requires d != [] && NoOuterSpace(d)
    ensures ParseCommand(CommandText(Todo(d, false))) == Parsed(Todo(d, false))
  {
    var rest := " " + d;
    FirstTokenOf("todo", rest);
    DropKeyword("todo", rest);
    TrimAfter(" ", d);
    ParseCommandTodo("todo" + rest);
  }

  lemma DeadlinePieces(d: string, due: string)
    requires !ContainsAny(d, BY_MARKERS) && !ContainsAny(due, BY_MARKERS)
    ensures Pieces(" " + d + " " + ("/by" + (" " + due)), BY_MARKERS) == [" " + d + " ", " " + due]
  {
    MarkersSpaceFree();
    assert StartsWith("/by" + (" " + due), "/by");
    PiecesAtMarker(d, "/by", " " + due, BY_MARKERS);
    PiecesLast(due, BY_MARKERS);
  }

  /** The canonical deadline command has `deadline` as first token and splits into the padded fields. */
  lemma DeadlineCommandParts(d: string, due: string)
    requires !ContainsAny(d, BY_MARKERS) && !ContainsAny(due, BY_MARKERS)
    ensures var command := CommandText(Deadline(d, due, false));
      && FirstToken(command) == Some("deadline") && |command| >= DEADLINE_BEGIN_INDEX
      && Split(command[DEADLINE_BEGIN_INDEX..], BY_MARKERS) == [" " + d + " ", " " + due]
  {
    var rest := " " + d + " " + ("/by" + (" " + due));
    FirstTokenOf("deadline", rest);
    DropKeyword("deadline", rest);
    DeadlinePieces(d, due);
    SplitKeepsNonEmptyLast(rest, BY_MARKERS);
  }

  lemma ParseDeadlineText(d: string, due: string)
    requires NoOuterSpace(d) && NoOuterSpace(due)
    requires !ContainsAny(d, BY_MARKERS) && !ContainsAny(due, BY_MARKERS)
    ensures ParseCommand(CommandText(Deadline(d, due, false))) == Parsed(Deadline(d, due, false))
  {
    DeadlineCommandParts(d, due);
    ParseCommandDeadline(CommandText(Deadline(d, due, false)), [" " + d + " ", " " + due]);
    TrimPadded(" ", d, " ");
    TrimAfter(" ", due);
  }

  /** At `/from` the event alternation matches five characters. */
  lemma FromMarkerMatches(tail: string)
    ensures MatchLength("/from" + tail, EVENT_MARKERS) == 5
  {
    assert StartsWith("/from" + tail, "/from");
  }

  /** At `/to` the first alternative fails on its second character and `/to` matches. */
  lemma ToMarkerMatches(tail: string)
    ensures MatchLength("/to" + tail, EVENT_MARKERS) == 3
  {
    var s := "/to" + tail;
    assert s[1] == 't';
    assert !StartsWith(s, "/from") by {
      if |s| >= 5 {
        assert s[..5][1] == s[1];
      }
    }
    assert StartsWith(s, "/to");
    assert EVENT_MARKERS[1..] == ["/to"];
  }

  lemma EventPieces(d: string, f: string, until: string)
    requires !ContainsAny(d, EVENT_MARKERS) && !ContainsAny(f, EVENT_MARKERS) && !ContainsAny(until, EVENT_MARKERS)
    ensures Pieces(" " + d + " " + ("/from" + (" " + f + " " + ("/to" + (" " + until)))), EVENT_MARKERS)
         == [" " + d + " ", " " + f + " ", " " + until]
  {
    MarkersSpaceFree();
    var fromTail := " " + f + " " + ("/to" + (" " + until));
    assert Pieces(" " + d + " " + ("/from" + fromTail), EVENT_MARKERS) == [" " + d + " "] + Pieces(fromTail, EVENT_MARKERS) by {
      FromMarkerMatches(fromTail);
      PiecesAtMarker(d, "/from", fromTail, EVENT_MARKERS);
    }
    assert Pieces(fromTail, EVENT_MARKERS) == [" " + f + " "] + Pieces(" " + until, EVENT_MARKERS) by {
      ToMarkerMatches(" " + until);
      PiecesAtMarker(f, "/to", " " + until, EVENT_MARKERS);
    }
    PiecesLast(until, EVENT_MARKERS);
  }

  /** The canonical event command has `event` as first token and splits into the padded fields. */
  lemma EventCommandParts(d: string, f: string, until: string)
    requires !ContainsAny(d, EVENT_MARKERS) && !ContainsAny(f, EVENT_MARKERS) && !ContainsAny(until, EVENT_MARKERS)
    ensures var command := CommandText(Event(d, f, until, false));
      && FirstToken(command) == Some("event") && |command| >= EVENT_BEGIN_INDEX
      && Split(command[EVENT_BEGIN_INDEX..], EVENT_MARKERS) == [" " + d + " ", " " + f + " ", " " + until]
  {
    var rest := " " + d + " " + ("/from" + (" " + f + " " + ("/to" + (" " + until))));
    FirstTokenOf("event", rest);
    DropKeyword("event", rest);
    EventPieces(d, f, until);
    SplitKeepsNonEmptyLast(rest, EVENT_MARKERS);
  }

  lemma ParseEventText(d: string, f: string, until: string)
    requires NoOuterSpace(d) && NoOuterSpace(f) && NoOuterSpace(until)
    requires !ContainsAny(d, EVENT_MARKERS) && !ContainsAny(f, EVENT_MARKERS) && !ContainsAny(until, EVENT_MARKERS)
    ensures ParseCommand(CommandText(Event(d, f, until, false))) == Parsed(Event(d, f, until, false))
  {
    EventCommandParts(d, f, until);
    ParseCommandEvent(CommandText(Event(d, f, until, false)), [" " + d + " ", " " + f + " ", " " + until]);
    TrimPadded(" ", d, " ");
    TrimPadded(" ", f, " ");
    TrimAfter(" ", until);
  }

  /** Parsing the canonical command of an expressible task gives that task back, not done. */
  lemma ParseCommandText(t: Task)
    requires Expressible(t)
    ensures ParseCommand(CommandText(t)) == Parsed(t.WithDone(false))
  {
    match t
    case Todo(d, _) => ParseTodoText(d);
    case Deadline(d, due, _) => ParseDeadlineText(d, due);
    case Event(d, f, until, _) => ParseEventText(d, f, until);
  }
}
