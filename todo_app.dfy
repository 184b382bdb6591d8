/** The application's state and the handlers that the window's buttons call,
    with the window itself taken away: a selection is passed in, a warning
    dialog becomes a status, and the file tasks.txt is a field of the state. */
module TodoApp {
  import opened Wrappers
  import opened Tasks
  import opened TaskFile
  import opened Reminders

  /** How a handler ended: done, or the warning it would show. */
  datatype Status =
    | Ok
    | EmptyText      // "You must enter a task."
    | NoSelection    // "You must select a task ..."
    | BadFormat      // "Enter date as YYYY-MM-DD and time as HH:MM"

  class AppState {
    /** The task list, in display order. */
    var tasks: seq<string>
    /** Reminder time by task text. */
    var reminders: ReminderTable
    /** The contents of tasks.txt; None when the file does not exist. */
    var file: Option<string>

    /** A fresh application over a working directory whose tasks.txt holds `stored`. */
    constructor (stored: Option<string>)
      ensures tasks == [] && reminders == map[] && file == stored
    {
      tasks := [];
      reminders := map[];
      file := stored;
    }

    /** The list box has a selection and it names a task. A selection past the
        end raises the same IndexError as no selection at all. */
    predicate HasSelection(selection: Option<nat>)
      reads this
    {
      selection.Some? && selection.value < |tasks|
    }

    /** `load_tasks`: append the stripped lines of tasks.txt to the list; a
        missing file adds nothing. */
    method LoadTasks()
      modifies this`tasks
      ensures tasks == old(tasks) + (if file.Some? then Parse(file.value) else [])
    {
      match file
      case None =>
      case Some(content) =>
        var lines := Text.Lines(Text.UniversalNewlines(content));
        ghost var parsed := Parse(content);
        var i := 0;
        while i < |lines|
          invariant 0 <= i <= |lines|
          invariant tasks == old(tasks) + parsed[..i]
        {
          assert parsed[..i + 1] == parsed[..i] + [Text.Strip(lines[i])];
          tasks := tasks + [Text.Strip(lines[i])];
          i := i + 1;
        }
        assert parsed[..|lines|] == parsed;
    }

    /** `save_tasks`: overwrite tasks.txt with one line per task. */
    method SaveTasks()
      modifies this`file
      ensures file == Some(Serialize(tasks))
    {
      var text := "";
      var i := 0;
      while i < |tasks|
        invariant 0 <= i <= |tasks|
        invariant text == Serialize(tasks[..i])
      {
        SerializeAppend(tasks[..i], tasks[i]);
        assert tasks[..i + 1] == tasks[..i] + [tasks[i]];
        text := text + tasks[i] + "\n";
        i := i + 1;
      }
      assert tasks[..|tasks|] == tasks;
      file := Some(text);
    }

    /** `add_task`: empty text is refused and nothing changes, not even the
        file; other text goes at the end of the list and the list is saved. */
    method AddTask(text: string) returns (status: Status)
      modifies this`tasks, this`file
      ensures status == (if text == "" then EmptyText else Ok)
      ensures text == "" ==> tasks == old(tasks) && file == old(file)
      ensures text != "" ==> tasks == old(tasks) + [text] && file == Some(Serialize(tasks))
    {
      if text != "" {
        tasks := tasks + [text];
        SaveTasks();
        status := Ok;
      } else {
        status := EmptyText;
      }
    }

    /** `delete_task`: remove the selected task and save; with no selection,
        nothing changes. */
    method DeleteTask(selection: Option<nat>) returns (status: Status)
      modifies this`tasks, this`file
      ensures status == (if old(HasSelection(selection)) then Ok else NoSelection)
      ensures !old(HasSelection(selection)) ==> tasks == old(tasks) && file == old(file)
      ensures old(HasSelection(selection)) ==>
        tasks == RemoveAt(old(tasks), selection.value) && file == Some(Serialize(tasks))
    {
      if HasSelection(selection) {
        tasks := RemoveAt(tasks, selection.value);
        SaveTasks();
        status := Ok;
      } else {
        status := NoSelection;
      }
    }

    /** `mark_done`: replace the selected task by its toggled text and save;
        every other task stays; with no selection, nothing changes. */
    method MarkDone(selection: Option<nat>) returns (status: Status)
      modifies this`tasks, this`file
      ensures status == (if old(HasSelection(selection)) then Ok else NoSelection)
      ensures !old(HasSelection(selection)) ==> tasks == old(tasks) && file == old(file)
      ensures old(HasSelection(selection)) ==>
        && |tasks| == |old(tasks)|
        && tasks[selection.value] == Toggle(old(tasks)[selection.value])
        && (forall j :: 0 <= j < |tasks| && j != selection.value ==> tasks[j] == old(tasks)[j])
        && file == Some(Serialize(tasks))
    {
      if HasSelection(selection) {
        var i := selection.value;
        tasks := tasks[i := Toggle(tasks[i])];
        SaveTasks();
        status := Ok;
      } else {
        status := NoSelection;
      }
    }

    /** `clear_completed`: keep only the pending tasks, in order, and save. */
    method ClearCompleted()
      modifies this`tasks, this`file
      ensures tasks == Select(old(tasks), false)
      ensures forall i :: 0 <= i < |tasks| ==> !IsDone(tasks[i])
      ensures file == Some(Serialize(tasks))
    {
      tasks := Select(tasks, false);
      SaveTasks();
    }

    /** `sort_tasks`: stable sort by "is completed", and save. */
    method SortTasks()
      modifies this`tasks, this`file
      ensures tasks == SortByDone(old(tasks))
      ensures IsStableSortByDone(tasks, old(tasks))
      ensures file == Some(Serialize(tasks))
    {
      SortByDoneIsStableSort(tasks);
      tasks := SortByDone(tasks);
      SaveTasks();
    }

    /** `set_reminder`: with a selected task and a date that parsed to `when`,
        store (or overwrite) that task's reminder; otherwise the table is
        unchanged. The selection is checked before the date. */
    method SetReminder(selection: Option<nat>, when: Option<Time>) returns (status: Status)
      modifies this`reminders
      ensures status == (if !HasSelection(selection) then NoSelection
                         else if when.None? then BadFormat else Ok)
      ensures status == Ok ==> reminders == old(reminders)[tasks[selection.value] := when.value]
      ensures status != Ok ==> reminders == old(reminders)
    {
      if !HasSelection(selection) {
        status := NoSelection;
      } else if when.None? {
        status := BadFormat;
      } else {
        reminders := reminders[tasks[selection.value] := when.value];
        status := Ok;
      }
    }

    /** One pass of the `check_reminders` loop at time `now`: over a snapshot
        of the table, every reminder that is due fires and is deleted. */
    method CheckRemindersTick(now: Time) returns (fired: set<string>)
      modifies this`reminders
      ensures fired == Due(old(reminders), now)
      ensures reminders == AfterTick(old(reminders), now)
    {
      var snapshot := reminders;
      var unvisited := snapshot.Keys;
      fired := {};
      while unvisited != {}
        invariant unvisited <= snapshot.Keys
        invariant fired == set task | task in snapshot && task !in unvisited && now >= snapshot[task]
        invariant reminders == map task | task in snapshot && (task in unvisited || now < snapshot[task]) :: snapshot[task]
        decreases unvisited
      {
        var task :| task in unvisited;
        if now >= snapshot[task] {
          fired := fired + {task};
          reminders := reminders - {task};
        }
        unvisited := unvisited - {task};
      }
    }
  }
}
