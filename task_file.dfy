/** The flat file tasks.txt: one task per line, each followed by a newline.
    Serialize is the text `save_tasks` writes; Parse is the list of tasks
    `load_tasks` appends when it reads a text back. */
module TaskFile {
  import opened Text

  /** The text `save_tasks` writes: every task followed by "\n", in order. */
  function Serialize(tasks: seq<string>): string {
    if tasks == [] then "" else tasks[0] + "\n" + Serialize(tasks[1..])
  }

  /** Writing one more task adds its line at the end of the text. */
  lemma {:induction false} SerializeAppend(tasks: seq<string>, task: string)
    ensures Serialize(tasks + [task]) == Serialize(tasks) + task + "\n"
  {
    if tasks != [] {
      SerializeAppend(tasks[1..], task);
      assert (tasks + [task])[1..] == tasks[1..] + [task];
    } else {
      assert [] + [task] == [task];
    }
  }

  /** The tasks `load_tasks` appends for a file whose text is `content`: the
      text is read with universal newlines, split into lines, and every line
      is stripped of surrounding whitespace (a blank line gives an empty task). */
  function Parse(content: string): seq<string> {
    var lines := Lines(UniversalNewlines(content));
    seq(|lines|, i requires 0 <= i < |lines| => Strip(lines[i]))
  }

  /** A task that survives being saved and loaded: no line break inside it and
      no whitespace that strip would remove. */
  predicate Storable(task: string) {
    '\n' !in task && '\r' !in task && Strip(task) == task
  }

  /** Saved text never holds a carriage return when the tasks do not. */
  lemma {:induction false} SerializeHasNoCarriageReturn(tasks: seq<string>)
    requires forall i :: 0 <= i < |tasks| ==> '\r' !in tasks[i]
    ensures '\r' !in Serialize(tasks)
  {
    if tasks != [] {
      SerializeHasNoCarriageReturn(tasks[1..]);
      assert Serialize(tasks) == tasks[0] + "\n" + Serialize(tasks[1..]);
    }
  }

  /** Saved text splits into one line per task. */
  lemma {:induction false} LinesOfSerialize(tasks: seq<string>)
    requires forall i :: 0 <= i < |tasks| ==> '\n' !in tasks[i]
    ensures Lines(Serialize(tasks)) == seq(|tasks|, i requires 0 <= i < |tasks| => tasks[i] + "\n")
  {
    if tasks != [] {
      var rest := tasks[1..];
      LinesOfSerialize(rest);
      assert Serialize(tasks) == tasks[0] + "\n" + Serialize(rest);
      LinesAfterLine(tasks[0], Serialize(rest));
      var lines := Lines(Serialize(tasks));
      assert lines == [tasks[0] + "\n"] + Lines(Serialize(rest));
      forall i | 1 <= i < |tasks|
        ensures lines[i] == tasks[i] + "\n"
      {
        assert lines[i] == Lines(Serialize(rest))[i - 1];
        assert rest[i - 1] == tasks[i];
      }
    }
  }

  /** Loading saved text gives back every task stripped, in order, provided no
      task holds a line break. */
  lemma {:induction false} LoadSaved(tasks: seq<string>)
    requires forall i :: 0 <= i < |tasks| ==> '\n' !in tasks[i] && '\r' !in tasks[i]
    ensures Parse(Serialize(tasks)) == seq(|tasks|, i requires 0 <= i < |tasks| => Strip(tasks[i]))
  {
    SerializeHasNoCarriageReturn(tasks);
    LinesOfSerialize(tasks);
    forall i | 0 <= i < |tasks|
      ensures Strip(tasks[i] + "\n") == Strip(tasks[i])
    {
      StripIgnoresNewline(tasks[i]);
    }
  }

  /** Loading what was saved gives back the same list, in the same order,
      provided every task is storable. */
  lemma SaveLoadRoundTrip(tasks: seq<string>)
    requires forall i :: 0 <= i < |tasks| ==> Storable(tasks[i])
    ensures Parse(Serialize(tasks)) == tasks
  {
    LoadSaved(tasks);
  }

  /** On disk, a task with a line break in it is the same text as the two
      tasks on either side of the break. */
  lemma LineBreakSplitsTask(before: string, after: string)
    ensures Serialize([before + "\n" + after]) == Serialize([before, after])
  {
    assert [before + "\n" + after][1..] == [] && [before, after][1..] == [after];
    assert [after][1..] == [];
  }

  /** A task with a carriage return inside it, not followed by a newline, is
      read back as the two tasks on either side of it. */
  lemma CarriageReturnSplitsTask(before: string, after: string)
    requires '\r' !in before
    requires after != [] && after[0] != '\n'
    ensures Parse(Serialize([before + "\r" + after])) == Parse(Serialize([before, after]))
  {
    assert [before + "\r" + after][1..] == [] && [before, after][1..] == [after];
    assert [after][1..] == [];
    var written := Serialize([before + "\r" + after]);
    assert written == (before + "\r" + after) + "\n" + Serialize([]);
    assert written == before + "\r" + (after + "\n");
    UniversalNewlinesLoneCR(before, after + "\n");
    UniversalNewlinesPrefix(before + "\n", after + "\n");
    assert Serialize([after]) == after + "\n" + "";
    assert Serialize([before, after]) == before + "\n" + (after + "\n");
  }
}
