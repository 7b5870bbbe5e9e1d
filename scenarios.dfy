/**
 * Concrete commands and sessions: the documented examples, and inputs on
 * which the parser is more permissive than the documented task format.
 * Each example instantiates a lemma about arbitrary text, so that the
 * verifier never has to evaluate the parser on a literal.
 */
module TaskScenarios {
  import opened JavaStrings
  import opened TaskModel
  import opened TaskParsing
  import opened TaskManagement

  /** Text without a slash contains none of the markers. */
  lemma NoSlashIn(s: string)
    requires forall i :: 0 <= i < |s| ==> s[i] != '/'
    ensures !ContainsAny(s, BY_MARKERS) && !ContainsAny(s, EVENT_MARKERS)
  {
    NoDelimiterWithoutLeadChar(s, BY_MARKERS, '/');
    NoDelimiterWithoutLeadChar(s, EVENT_MARKERS, '/');
  }

  /** A command that spells out an expressible task parses to that task. */
  lemma ParsesAs(command: string, t: Task)
    requires Expressible(t) && command == CommandText(t)
    ensures ParseCommand(command) == Parsed(t.WithDone(false))
  {
    ParseCommandText(t);
  }

  /** A single word that is not a keyword is reported as an unknown kind, with the command. */
  lemma UnknownWordRejected(word: string)
    requires word != [] && forall i :: 0 <= i < |word| ==> word[i] != ' '
    requires word != "todo" && word != "deadline" && word != "event"
    ensures ParseCommand(word) == Rejected(InvalidTaskType(word))
  {
    NoDelimiterWithoutLeadChar(word, [" "], ' ');
    NoMatchInside(word, [" "]);
    PiecesWhole(word, [" "]);
  }

  /** `deadline` followed by text without `/by` is rejected. */
  lemma DeadlineWithoutByRejected(command: string, d: string)
    requires command == "deadline" + (" " + d)
    requires forall i :: 0 <= i < |d| ==> d[i] != '/'
    ensures ParseCommand(command) == Rejected(InvalidDeadlineFormat)
  {
    assert command[DEADLINE_BEGIN_INDEX..] == " " + d;
    NoSlashIn(" " + d);
    DeadlineWithoutMarkerRejected(command);
    FirstTokenOf("deadline", " " + d);
  }

  /** Text with `/from` but no `/to` splits into the two padded fields. */
  lemma EventWithoutEndPieces(d: string, f: string)
    requires !ContainsAny(d, EVENT_MARKERS) && !ContainsAny(f, EVENT_MARKERS)
    ensures Split(" " + d + " " + ("/from" + (" " + f)), EVENT_MARKERS) == [" " + d + " ", " " + f]
  {
    var rest := " " + d + " " + ("/from" + (" " + f));
    MarkersSpaceFree();
    FromMarkerMatches(" " + f);
    PiecesAtMarker(d, "/from", " " + f, EVENT_MARKERS);
    PiecesLast(f, EVENT_MARKERS);
    SplitKeepsNonEmptyLast(rest, EVENT_MARKERS);
  }

  /** `event` with `/from` but no `/to` yields two parts and is rejected. */
  lemma EventWithoutEndRejected(command: string, d: string, f: string)
    requires command == "event" + (" " + d + " " + ("/from" + (" " + f)))
    requires forall i :: 0 <= i < |d| ==> d[i] != '/'
    requires forall i :: 0 <= i < |f| ==> f[i] != '/'
    ensures ParseCommand(command) == Rejected(InvalidEventFormat)
  {
    var rest := " " + d + " " + ("/from" + (" " + f));
    assert |Split(command[EVENT_BEGIN_INDEX..], EVENT_MARKERS)| == 2 by {
      NoSlashIn(d);
      NoSlashIn(f);
      DropKeyword("event", rest);
      EventWithoutEndPieces(d, f);
    }
    FirstTokenOf("event", rest);
  }

  lemma TodoExample(command: string)
    requires command == "todo read book"
    ensures ParseCommand(command) == Parsed(Todo("read book", false))
  {
    ParsesAs(command, Todo("read book", false));
  }

  lemma DeadlineExample(command: string)
    requires command == "deadline report /by Fri"
    ensures ParseCommand(command) == Parsed(Deadline("report", "Fri", false))
  {
    var t := Deadline("report", "Fri", false);
    DeadlineExampleSpelled();
    assert Expressible(t) by {
      NoSlashIn("report");
      NoSlashIn("Fri");
    }
    ParsesAs(command, t);
  }

  lemma DeadlineExampleSpelled()
    ensures CommandText(Deadline("report", "Fri", false)) == "deadline report /by Fri"
  {
  }

  lemma EventExample(command: string)
    requires command == "event sync /from 2pm /to 3pm"
    ensures ParseCommand(command)
      == Parsed(Event("sync", "2pm", "3pm", false))
  {
    var t := Event("sync", "2pm", "3pm", false);
    EventExampleSpelled();
    assert Expressible(t) by {
      NoSlashIn("sync");
      NoSlashIn("2pm");
      NoSlashIn("3pm");
    }
    ParsesAs(command, t);
  }

  lemma EventExampleSpelled()
    ensures CommandText(Event("sync", "2pm", "3pm", false)) == "event sync /from 2pm /to 3pm"
  {
  }

  lemma EventWithoutEndExample(command: string)
    requires command == "event sync /from 2pm"
    ensures ParseCommand(command) == Rejected(InvalidEventFormat)
  {
    EventWithoutEndRejected(command, "sync", "2pm");
  }

  lemma DeadlineWithoutByExample(command: string)
    requires command == "deadline submit report"
    ensures ParseCommand(command) == Rejected(InvalidDeadlineFormat)
  {
    DeadlineWithoutByRejected(command, "submit report");
  }

  lemma UnknownKindExample(command: string)
    requires command == "blah"
    ensures ParseCommand(command) == Rejected(InvalidTaskType(command))
  {
    UnknownWordRejected(command);
  }

  lemma BlankExample(command: string)
    requires command == "   "
    ensures ParseCommand(command) == Rejected(BlankCommand)
  {
    BlankCommandIff(command);
  }

  /**
   * The parser accepts a deadline whose description and due text are both
   * empty: the piece after `/by` is a single space, which is not dropped.
   */
  lemma EmptyDeadlineFieldsAccepted(command: string)
    requires command == "deadline  /by "
    ensures ParseCommand(command) == Parsed(Deadline("", "", false))
  {
    ParsesAs(command, Deadline("", "", false));
  }

  /** Likewise an event whose three fields are all empty. */
  lemma EmptyEventFieldsAccepted(command: string)
    requires command == "event  /from  /to "
    ensures ParseCommand(command) == Parsed(Event("", "", "", false))
  {
    ParsesAs(command, Event("", "", "", false));
  }

  /**
   * A session on an empty list: add a task, mark it, delete it, then delete
   * at the same position again.
   */
  lemma AddMarkDeleteSession(t: Task)
    requires Expressible(t) && !t.isDone
    ensures var added := AddStep([], CommandText(t));
      && added == Step([t], Added(t, 1))
      && var marked := MarkStep(added.tasks, 0);
      && marked == Step([t.WithDone(true)], Marked(t.WithDone(true)))
      && var deleted := DeleteStep(marked.tasks, 0);
      && deleted == Step([], Removed(t.WithDone(true), 0))
      && DeleteStep(deleted.tasks, 0) == Step([], IndexError)
  {
    assert AddStep([], CommandText(t)) == Step([t], Added(t, 1)) by {
      AddCommandText([], t);
      assert t.WithDone(false) == t;
    }
    var done := t.WithDone(true);
    assert MarkStep([t], 0) == Step([done], Marked(done)) by {
      assert [t][0 := done] == [done];
    }
    assert DeleteStep([done], 0) == Step([], Removed(done, 0)) by {
      assert [done][..0] + [done][1..] == [];
    }
  }
}
