/** The module-level state of TaskManager.js as values: the `tasks` array,
    the periodic sweep over it, `tasks.map(serialize)`, and the filter that
    `delete()` applies. */
module Registry {

  import opened Wrappers
  import opened TaskModel

  predicate Distinct<T(==)>(s: seq<T>) {
    forall i, j :: 0 <= i < j < |s| ==> s[i] != s[j]
  }

  /** Appending an element that is not yet present keeps a list distinct. */
  lemma DistinctAppend<T>(s: seq<T>, x: T)
    requires Distinct(s) && x !in s
    ensures Distinct(s + [x])
  {
  }

  /** `s.filter(t => t !== x)`. */
  function Without<T(==)>(s: seq<T>, x: T): (r: seq<T>)
    ensures x !in r
    ensures forall i :: 0 <= i < |r| ==> r[i] in s
    ensures forall i :: 0 <= i < |s| && s[i] != x ==> s[i] in r
    ensures |r| <= |s|
  {
    if s == [] then []
    else if s[0] == x then Without(s[1..], x)
    else [s[0]] + Without(s[1..], x)
  }

  /** Filtering out an element that is not there changes nothing. */
  lemma {:induction false} WithoutAbsent<T>(s: seq<T>, x: T)
    requires x !in s
    ensures Without(s, x) == s
  {
    if s != [] {
      WithoutAbsent(s[1..], x);
    }
  }

  /** Filtering out the element at `i` of a list without repetitions removes
      exactly that position and keeps the others in order. */
  lemma {:induction false} WithoutRemovesOne<T>(s: seq<T>, i: nat)
    requires Distinct(s) && i < |s|
    ensures Without(s, s[i]) == s[..i] + s[i + 1..]
  {
    if i == 0 {
      assert s[0] !in s[1..];
      WithoutAbsent(s[1..], s[0]);
    } else {
      var t := s[1..];
      assert Distinct(t) && t[i - 1] == s[i];
      WithoutRemovesOne(t, i - 1);
      WithoutKeepsHead(s, s[i]);
      SplitTail(s, i);
    }
  }

  /** Solver aid: one unfolding of the filter. */
  lemma WithoutKeepsHead<T>(s: seq<T>, x: T)
    requires s != [] && s[0] != x
    ensures Without(s, x) == [s[0]] + Without(s[1..], x)
  {
  }

  /** Solver aid: the slice identity of the inductive step. */
  lemma SplitTail<T>(s: seq<T>, i: nat)
    requires 0 < i < |s|
    ensures [s[0]] + (s[1..][..i - 1] + s[1..][i..]) == s[..i] + s[i + 1..]
  {
    assert s[1..][..i - 1] + s[1..][i..] == s[1..i] + s[i + 1..];
  }

  /** Filtering keeps a list free of repetitions. */
  lemma {:induction false} WithoutDistinct<T>(s: seq<T>, x: T)
    requires Distinct(s)
    ensures Distinct(Without(s, x))
  {
    if s != [] {
      assert Distinct(s[1..]);
      WithoutDistinct(s[1..], x);
      assert s[0] !in s[1..];
    }
  }

  // ---------------------------------------------------------------------
  // Saving

  /** `tasks.map(task => task.serialize())`. */
  function SerializeAll(ss: seq<TaskState>): (rs: seq<Record>)
    ensures |rs| == |ss|
    ensures forall i :: 0 <= i < |ss| ==> rs[i] == ToRecord(ss[i])
  {
    seq(|ss|, i requires 0 <= i < |ss| => ToRecord(ss[i]))
  }

  /** Every saved record carries its day, and constructing a task from it on
      that day gives back the task that was saved. */
  lemma SavedTasksRestore(ss: seq<TaskState>)
    ensures forall i :: 0 <= i < |ss| ==>
              SerializeAll(ss)[i].dayIndex.Some? &&
              FromRecord(SerializeAll(ss)[i].dayIndex.value, SerializeAll(ss)[i]) == ss[i]
  {
    forall i | 0 <= i < |ss|
      ensures FromRecord(SerializeAll(ss)[i].dayIndex.value, SerializeAll(ss)[i]) == ss[i]
    {
      RoundTrip(ss[i]);
    }
  }

  // ---------------------------------------------------------------------
  // The periodic sweep

  /** `tasks.filter(t => t.running)`. */
  function RunningOnly(ss: seq<TaskState>): seq<TaskState> {
    if ss == [] then []
    else RunningOnly(ss[..|ss| - 1]) + (if ss[|ss| - 1].running then [ss[|ss| - 1]] else [])
  }

  /** Filtering one more element. */
  lemma RunningOnlyStep(ss: seq<TaskState>, i: nat)
    requires i < |ss|
    ensures RunningOnly(ss[..i + 1]) == RunningOnly(ss[..i]) + (if ss[i].running then [ss[i]] else [])
  {
    assert ss[..i + 1][..i] == ss[..i];
  }

  /** Whether ticking the tasks in order sets `tasksChanged`: some running
      task has time left. */
  predicate AnyMarked(ss: seq<TaskState>) {
    ss != [] && (AnyMarked(ss[..|ss| - 1]) || TickStep(ss[|ss| - 1]).marked)
  }

  /** The descriptions the finish notifications carry when the tasks are
      ticked in order. */
  function FinishedDescs(ss: seq<TaskState>): seq<string> {
    if ss == [] then []
    else FinishedDescs(ss[..|ss| - 1]) +
         (if TickStep(ss[|ss| - 1]).finished then [ss[|ss| - 1].desc] else [])
  }

  /** Ticking one more task. */
  lemma TickedStep(ss: seq<TaskState>, j: nat)
    requires j < |ss|
    ensures AnyMarked(ss[..j + 1]) == (AnyMarked(ss[..j]) || TickStep(ss[j]).marked)
    ensures FinishedDescs(ss[..j + 1]) ==
              FinishedDescs(ss[..j]) + (if TickStep(ss[j]).finished then [ss[j].desc] else [])
  {
    assert ss[..j + 1][..j] == ss[..j];
  }

  function TickAll(ss: seq<TaskState>): (r: seq<TaskState>)
    ensures |r| == |ss| && forall i :: 0 <= i < |ss| ==> r[i] == TickStep(ss[i]).task
  {
    seq(|ss|, i requires 0 <= i < |ss| => TickStep(ss[i]).task)
  }

  /** The tasks after a sweep, the `tasksChanged` flag after it, whether the
      sweep called `debouncedSave`, and the finish notifications it fired. */
  datatype SweepResult = SweepResult(
    states: seq<TaskState>,
    changed: bool,
    saveRequested: bool,
    finished: seq<string>)

  /** The interval callback: collect the running tasks; with none, return;
      otherwise tick each and request a save if the flag is set. */
  function Sweep(ss: seq<TaskState>, changed: bool): SweepResult {
    var runs := RunningOnly(ss);
    if runs == [] then SweepResult(ss, changed, false, [])
    else
      var c := changed || AnyMarked(runs);
      SweepResult(TickAll(ss), c, c, FinishedDescs(runs))
  }

  /** The sweep in the terms the interval callback is proved in: every task
      is ticked, the flag picks up the running tasks' marks, a save is
      requested when some task runs and the flag is then set, and the
      running tasks' finish notifications are fired. */
  lemma SweepClosedForm(ss: seq<TaskState>, changed: bool)
    ensures var runs := RunningOnly(ss);
            var c := changed || AnyMarked(runs);
            Sweep(ss, changed) == SweepResult(TickAll(ss), c, runs != [] && c, FinishedDescs(runs))
  {
    if RunningOnly(ss) == [] {
      RunningOnlyMembers(ss);
      assert TickAll(ss) == ss;
    }
  }

  lemma {:induction false} RunningOnlyMembers(ss: seq<TaskState>)
    ensures RunningOnly(ss) == [] <==> forall i :: 0 <= i < |ss| ==> !ss[i].running
    ensures AnyMarked(RunningOnly(ss)) == AnyMarked(ss)
    ensures FinishedDescs(RunningOnly(ss)) == FinishedDescs(ss)
  {
    if ss != [] {
      var init, last := ss[..|ss| - 1], ss[|ss| - 1];
      RunningOnlyMembers(init);
      var r := RunningOnly(init);
      if last.running {
        assert (r + [last])[..|r + [last]| - 1] == r;
      } else {
        assert RunningOnly(ss) == r + [] == r;
      }
    }
  }

  lemma {:induction false} AnyMarkedMeans(ss: seq<TaskState>)
    ensures AnyMarked(ss) <==> exists i :: 0 <= i < |ss| && ss[i].running && ss[i].remaining > 0
  {
    if ss != [] {
      var init := ss[..|ss| - 1];
      AnyMarkedMeans(init);
      assert forall i :: 0 <= i < |init| ==> init[i] == ss[i];
    }
  }

  /** A sweep with no running task changes no task, leaves the flag as it
      was, requests no save and fires nothing. */
  lemma IdleSweep(ss: seq<TaskState>, changed: bool)
    requires forall i :: 0 <= i < |ss| ==> !ss[i].running
    ensures Sweep(ss, changed) == SweepResult(ss, changed, false, [])
  {
    RunningOnlyMembers(ss);
  }

  /** A sweep ticks every task once (a stopped task's tick is a no-op); it
      sets the flag exactly when it was set or some running task had time
      left, and requests a save exactly when some task runs and the flag is
      then set. It keeps every running countdown non-negative, and fires the
      finish side effects for the running tasks with no time left, in
      registry order. */
  lemma SweepLaws(ss: seq<TaskState>, changed: bool)
    ensures |Sweep(ss, changed).states| == |ss|
    ensures forall i :: 0 <= i < |ss| ==> Sweep(ss, changed).states[i] == TickStep(ss[i]).task
    ensures Sweep(ss, changed).changed <==>
              changed || exists i :: 0 <= i < |ss| && ss[i].running && ss[i].remaining > 0
    ensures Sweep(ss, changed).saveRequested <==>
              (exists i :: 0 <= i < |ss| && ss[i].running) && Sweep(ss, changed).changed
    ensures (forall i :: 0 <= i < |ss| ==> RunningNonNegative(ss[i])) ==>
              forall i :: 0 <= i < |ss| ==> RunningNonNegative(Sweep(ss, changed).states[i])
    ensures Sweep(ss, changed).finished == FinishedDescs(ss)
  {
    RunningOnlyMembers(ss);
    AnyMarkedMeans(ss);
    if RunningOnly(ss) == [] {
      forall i | 0 <= i < |ss| ensures ss[i] == TickStep(ss[i]).task {
      }
      assert forall i :: 0 <= i < |ss| ==> !TickStep(ss[i]).finished;
      NothingFinished(ss);
    }
  }

  lemma {:induction false} NothingFinished(ss: seq<TaskState>)
    requires forall i :: 0 <= i < |ss| ==> !TickStep(ss[i]).finished
    ensures FinishedDescs(ss) == []
  {
    if ss != [] {
      var init := ss[..|ss| - 1];
      assert forall i :: 0 <= i < |init| ==> init[i] == ss[i];
      NothingFinished(init);
    }
  }

  /** `finish()` does not set the flag, so when the only running task
      finishes and nothing else was pending, no save is requested: the
      stored record still says the task is running. */
  lemma FinishIsNotSaved(t: TaskState)
    requires t.running && t.remaining <= 0
    ensures Sweep([t], false) == SweepResult([FinishStep(t)], false, false, [t.desc])
  {
    assert [t][..|[t]| - 1] == [];
    assert RunningOnly([t]) == [t];
    assert !AnyMarked([t]);
    assert FinishedDescs([t]) == [t.desc];
    assert TickAll([t]) == [FinishStep(t)];
  }
}
