/** Operations on the task list as a value: what a task looks like when it is
    done, how marking toggles it, which tasks "clear completed" keeps, and the
    order "sort" produces. */
module Tasks {
  import opened Text

  /** The check mark U+2714 that the application writes on completed tasks. */
  const CheckMark: char := '\U{2714}'

  /** What marking a pending task appends, and what un-marking deletes. */
  const DoneSuffix: string := [' ', CheckMark]

  /** A task counts as completed when the check mark appears anywhere in its
      text, not only at its end. */
  predicate IsDone(task: string) {
    CheckMark in task
  }

  /** The new text of a task after "mark done": a pending task gets the suffix;
      a completed one loses every " ✔" in it. */
  function Toggle(task: string): string {
    if !IsDone(task) then task + DoneSuffix else RemoveAll(task, DoneSuffix)
  }

  /** Marking a pending task appends exactly the suffix and makes it completed. */
  lemma ToggleMarks(task: string)
    requires !IsDone(task)
    ensures Toggle(task) == task + DoneSuffix
    ensures IsDone(Toggle(task))
  {
  }

  /** Un-marking a text that starts with a pending part followed by the suffix
      deletes that suffix and goes on through the rest of the text: no " ✔" can
      start inside the pending part. */
  lemma {:induction false} RemoveAllAfterPending(a: string, b: string)
    requires !IsDone(a)
    ensures RemoveAll(a + DoneSuffix + b, DoneSuffix) == a + RemoveAll(b, DoneSuffix)
  {
    var s := a + DoneSuffix + b;
    if a == [] {
      assert s[..|DoneSuffix|] == DoneSuffix;
      assert s[|DoneSuffix|..] == b;
    } else {
      assert s[1] != CheckMark by {
        if |a| > 1 { assert s[1] == a[1]; }
      }
      assert s[..|DoneSuffix|] != DoneSuffix;
      RemoveAllAfterPending(a[1..], b);
      assert s[1..] == a[1..] + DoneSuffix + b;
      assert [a[0]] + a[1..] == a;
    }
  }

  /** Deleting every suffix from a pending task with the suffix appended gives the
      task back. */
  lemma RemoveSuffixOfPending(task: string)
    requires !IsDone(task)
    ensures RemoveAll(task + DoneSuffix, DoneSuffix) == task
  {
    RemoveAllAfterPending(task, []);
    assert task + DoneSuffix + [] == task + DoneSuffix;
  }

  /** Un-marking deletes every " ✔", not only the first: a task made of two
      pending parts, each followed by the suffix, becomes the two parts. */
  lemma UnmarkRemovesEveryMark(a: string, b: string)
    requires !IsDone(a) && !IsDone(b)
    ensures Toggle(a + DoneSuffix + b + DoneSuffix) == a + b
  {
    assert CheckMark in a + DoneSuffix + b + DoneSuffix by {
      assert (a + DoneSuffix + b + DoneSuffix)[|a| + 1] == CheckMark;
    }
    RemoveAllAfterPending(a, b + DoneSuffix);
    assert a + DoneSuffix + b + DoneSuffix == a + DoneSuffix + (b + DoneSuffix);
    RemoveSuffixOfPending(b);
  }

  /** A task marked twice over, "a ✔ ✔", loses both marks in one un-marking. */
  lemma UnmarkDoubleMark()
    ensures Toggle("a" + DoneSuffix + DoneSuffix) == "a"
  {
    UnmarkRemovesEveryMark("a", "");
    assert "a" + DoneSuffix + "" + DoneSuffix == "a" + DoneSuffix + DoneSuffix;
  }

  /** Marking a pending task twice restores its text, and un-marking then
      re-marking a task that carries just the one appended suffix restores it too. */
  lemma ToggleTwice(task: string)
    requires !IsDone(task)
    ensures Toggle(Toggle(task)) == task
    ensures Toggle(Toggle(task + DoneSuffix)) == task + DoneSuffix
  {
    ToggleMarks(task);
    RemoveSuffixOfPending(task);
  }

  /** A completed task in which the check mark never follows a space cannot be
      un-marked: "mark done" leaves its text as it is. */
  lemma ToggleStuck(task: string)
    requires IsDone(task) && !Occurs(task, DoneSuffix)
    ensures Toggle(task) == task
  {
  }

  /** Un-marking removes every " ✔", not only the last one, so toggling twice
      does not restore a task with a suffix in the middle. */
  lemma ToggleTwiceChangesMiddleMark()
    ensures Toggle(Toggle("a" + DoneSuffix + " b")) == "a b" + DoneSuffix
  {
    var s := "a" + DoneSuffix + " b";
    assert s == ['a', ' ', CheckMark, ' ', 'b'];
    assert s[..2] == ['a', ' '];
    assert s[1..][..2] == DoneSuffix;
    assert s[1..][2..] == " b";
    assert " b"[..2] == [' ', 'b'];
    assert RemoveAll(" b", DoneSuffix) == [' '] + RemoveAll("b", DoneSuffix);
    assert RemoveAll(s, DoneSuffix) == "a b";
    assert !IsDone("a b");
  }

  /** The tasks whose completion state is `done`, in their original order:
      every kept task has that state, and every task with that state is kept. */
  function Select(tasks: seq<string>, done: bool): (r: seq<string>)
    ensures |r| <= |tasks|
    ensures forall i :: 0 <= i < |r| ==> IsDone(r[i]) == done
    ensures forall t :: t in tasks && IsDone(t) == done ==> t in r
  {
    if tasks == [] then []
    else
      var rest := Select(tasks[1..], done);
      if IsDone(tasks[0]) == done then
        assert forall t :: t in tasks ==> t == tasks[0] || t in tasks[1..];
        [tasks[0]] + rest
      else rest
  }

  /** `r` can be obtained from `s` by deleting elements, without reordering. */
  predicate IsSubsequence<T(==)>(r: seq<T>, s: seq<T>)
    decreases |s|
  {
    if r == [] then true
    else if s == [] then false
    else (r[0] == s[0] && IsSubsequence(r[1..], s[1..])) || IsSubsequence(r, s[1..])
  }

  /** Filtering keeps the order of the tasks it keeps. */
  lemma {:induction false} SelectIsSubsequence(tasks: seq<string>, done: bool)
    ensures IsSubsequence(Select(tasks, done), tasks)
  {
    if tasks != [] {
      SelectIsSubsequence(tasks[1..], done);
      var r := Select(tasks, done);
      if IsDone(tasks[0]) == done {
        assert r[0] == tasks[0] && r[1..] == Select(tasks[1..], done);
      }
    }
  }

  /** No order-preserving selection of tasks in one state is longer than the filter. */
  lemma {:induction false} SelectIsLongest(r: seq<string>, tasks: seq<string>, done: bool)
    requires IsSubsequence(r, tasks)
    requires forall i :: 0 <= i < |r| ==> IsDone(r[i]) == done
    ensures |r| <= |Select(tasks, done)|
  {
    if r != [] {
      if r[0] == tasks[0] && IsSubsequence(r[1..], tasks[1..]) {
        SelectIsLongest(r[1..], tasks[1..], done);
      } else {
        SelectIsLongest(r, tasks[1..], done);
      }
    }
  }

  /** The filter is the only longest order-preserving selection of tasks in one
      state: "clear completed" keeps exactly the pending tasks, in order. */
  lemma {:induction false} SelectIsUnique(r: seq<string>, tasks: seq<string>, done: bool)
    requires IsSubsequence(r, tasks)
    requires forall i :: 0 <= i < |r| ==> IsDone(r[i]) == done
    requires |r| == |Select(tasks, done)|
    ensures r == Select(tasks, done)
  {
    if r != [] {
      if r[0] == tasks[0] && IsSubsequence(r[1..], tasks[1..]) {
        SelectIsUnique(r[1..], tasks[1..], done);
        assert r == [r[0]] + r[1..];
      } else {
        SelectIsLongest(r, tasks[1..], done);
        SelectIsUnique(r, tasks[1..], done);
      }
    }
  }

  /** Filtering a second time keeps everything: "clear completed" is idempotent. */
  lemma {:induction false} SelectIdempotent(tasks: seq<string>, done: bool)
    ensures Select(Select(tasks, done), done) == Select(tasks, done)
  {
    if tasks != [] {
      SelectIdempotent(tasks[1..], done);
      var r := Select(tasks, done);
      if IsDone(tasks[0]) == done {
        assert r[1..] == Select(tasks[1..], done);
      }
    }
  }

  /** A list whose tasks all have the selected state is its own filter. */
  lemma {:induction false} SelectAll(tasks: seq<string>, done: bool)
    requires forall i :: 0 <= i < |tasks| ==> IsDone(tasks[i]) == done
    ensures Select(tasks, done) == tasks
  {
    if tasks != [] {
      SelectAll(tasks[1..], done);
      assert [tasks[0]] + tasks[1..] == tasks;
    }
  }

  /** Filtering distributes over concatenation. */
  lemma {:induction false} SelectAppend(a: seq<string>, b: seq<string>, done: bool)
    ensures Select(a + b, done) == Select(a, done) + Select(b, done)
  {
    if a != [] {
      var tail := a[1..];
      SelectAppend(tail, b, done);
      var ab := a + b;
      assert ab[0] == a[0] && ab[1..] == tail + b;
      var head := if IsDone(a[0]) == done then [a[0]] else [];
      assert Select(ab, done) == head + Select(tail + b, done);
      assert Select(a, done) == head + Select(tail, done);
    } else {
      assert a + b == b;
    }
  }

  /** The pending and the completed tasks together are the whole list, counted
      with multiplicity. */
  lemma {:induction false} SelectSplits(tasks: seq<string>)
    ensures multiset(Select(tasks, false)) + multiset(Select(tasks, true)) == multiset(tasks)
  {
    if tasks != [] {
      SelectSplits(tasks[1..]);
      assert tasks == [tasks[0]] + tasks[1..];
    }
  }

  /** Python's `list.sort(key=lambda x: "✔" in x)`: its sort is stable and
      False orders before True, so pending tasks come first, then completed
      ones, each group in its original order. */
  function SortByDone(tasks: seq<string>): seq<string> {
    Select(tasks, false) + Select(tasks, true)
  }

  /** No completed task comes before a pending one. */
  predicate SortedByDone(tasks: seq<string>) {
    forall i, j :: 0 <= i < j < |tasks| && IsDone(tasks[i]) ==> IsDone(tasks[j])
  }

  /** What a stable sort by the completion key promises: a permutation, in key
      order, that keeps the relative order inside each group. */
  predicate IsStableSortByDone(r: seq<string>, tasks: seq<string>) {
    && multiset(r) == multiset(tasks)
    && SortedByDone(r)
    && Select(r, false) == Select(tasks, false)
    && Select(r, true) == Select(tasks, true)
  }

  /** Pending tasks followed by completed tasks are in key order. */
  lemma GroupsAreSorted(p: seq<string>, c: seq<string>)
    requires forall i :: 0 <= i < |p| ==> !IsDone(p[i])
    requires forall i :: 0 <= i < |c| ==> IsDone(c[i])
    ensures SortedByDone(p + c)
  {
    forall i, j | 0 <= i < j < |p + c| && IsDone((p + c)[i])
      ensures IsDone((p + c)[j])
    {
      assert i >= |p|;
      assert (p + c)[j] == c[j - |p|];
    }
  }

  /** A filter applied to the other group's tasks leaves nothing. */
  lemma {:induction false} SelectNone(tasks: seq<string>, done: bool)
    requires forall i :: 0 <= i < |tasks| ==> IsDone(tasks[i]) != done
    ensures Select(tasks, done) == []
  {
    if tasks != [] {
      SelectNone(tasks[1..], done);
    }
  }

  /** The sorted list meets the stable-sort promise. */
  lemma SortByDoneIsStableSort(tasks: seq<string>)
    ensures IsStableSortByDone(SortByDone(tasks), tasks)
  {
    var p, c := Select(tasks, false), Select(tasks, true);
    SelectSplits(tasks);
    GroupsAreSorted(p, c);
    SelectAppend(p, c, false);
    SelectAppend(p, c, true);
    SelectAll(p, false);
    SelectAll(c, true);
    SelectNone(p, true);
    SelectNone(c, false);
    assert p + [] == p && [] + c == c;
  }

  /** A list in key order is its pending tasks followed by its completed ones. */
  lemma {:induction false} SortedSplits(tasks: seq<string>)
    requires SortedByDone(tasks)
    ensures tasks == Select(tasks, false) + Select(tasks, true)
  {
    if tasks != [] {
      SortedSplits(tasks[1..]);
      if IsDone(tasks[0]) {
        assert forall i :: 0 <= i < |tasks| ==> IsDone(tasks[i]);
        SelectAll(tasks, true);
        SelectNone(tasks, false);
      } else {
        assert tasks == [tasks[0]] + tasks[1..];
      }
    }
  }

  /** Any stable sort by the completion key gives exactly SortByDone: the
      result does not depend on the sorting algorithm. */
  lemma StableSortIsUnique(r: seq<string>, tasks: seq<string>)
    requires IsStableSortByDone(r, tasks)
    ensures r == SortByDone(tasks)
  {
    SortedSplits(r);
  }

  /** Sorting an already sorted list changes nothing. */
  lemma SortIdempotent(tasks: seq<string>)
    ensures SortByDone(SortByDone(tasks)) == SortByDone(tasks)
  {
    SortByDoneIsStableSort(tasks);
    var s := SortByDone(tasks);
    SortedSplits(s);
  }

  /** `list.pop(i)`: the element at `i` leaves, those before stay where they
      are, and those after move down by one. */
  function RemoveAt<T>(s: seq<T>, i: nat): (r: seq<T>)
    requires i < |s|
    ensures |r| == |s| - 1
    ensures forall j :: 0 <= j < i ==> r[j] == s[j]
    ensures forall j :: i <= j < |r| ==> r[j] == s[j + 1]
    ensures multiset(r) + multiset{s[i]} == multiset(s)
  {
    assert s == s[..i] + [s[i]] + s[i + 1..];
    s[..i] + s[i + 1..]
  }
}
