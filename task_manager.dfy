/** TaskManager.js as the browser runs it, minus the DOM: the module-level
    registry (`tasks`, `tasksChanged`, the interval handle and the debounced
    save) as the class `Planner`, and the class `Task`, whose methods update
    their fields and the registry in place. Each method is proved to do what
    the corresponding function of TaskModel or Registry says. */
module TaskManager {

  import opened Wrappers
  import opened TaskModel
  import opened Registry
  import Clock

  /** The states of a list of tasks, in order. */
  ghost function StatesOf(ts: seq<Task>): (ss: seq<TaskState>)
    reads set t | t in ts
    ensures |ss| == |ts| && forall i :: 0 <= i < |ts| ==> ss[i] == ts[i].State()
  {
    seq(|ts|, i requires 0 <= i < |ts| reads ts => ts[i].State())
  }

  lemma StatesOfAppend(ts: seq<Task>, t: Task)
    ensures StatesOf(ts + [t]) == StatesOf(ts) + [t.State()]
  {
  }

  class Planner {
    /** `tasks`, in creation order. */
    var tasks: seq<Task>
    /** `tasksChanged`: in-memory state differs from the last save. */
    var tasksChanged: bool
    /** `timerInterval !== null`: the one-second interval is installed. */
    var timerStarted: bool
    /** How many times `debouncedSave` has been called. */
    var saveRequests: nat
    /** A `debouncedSave` call whose quiescence window has not closed yet. */
    var savePending: bool
    /** The descriptions carried by the finish side effects fired so far. */
    ghost var notices: seq<string>

    /** Every task is registered once. */
    ghost predicate Valid()
      reads this
    {
      Distinct(tasks)
    }

    /** The page's initial state. */
    constructor ()
      ensures Valid() && tasks == [] && !tasksChanged && !timerStarted
      ensures saveRequests == 0 && !savePending && notices == []
    {
      tasks, tasksChanged, timerStarted := [], false, false;
      saveRequests, savePending, notices := 0, false, [];
    }

    /** `startGlobalTimer()`: install the interval unless it already is. */
    method StartGlobalTimer()
      modifies this`timerStarted
      ensures timerStarted
    {
      if timerStarted {
        return;
      }
      timerStarted := true;
    }

    /** `debouncedSave()`: (re)open the quiescence window. */
    method RequestSave()
      modifies this`saveRequests, this`savePending
      ensures saveRequests == old(saveRequests) + 1 && savePending
    {
      saveRequests := saveRequests + 1;
      savePending := true;
    }

    /** The registry side of `new Task(...)`: start the interval if the new
        task is running, append it to `tasks`, set the flag and request a
        save. */
    method Register(t: Task)
      requires Valid() && t !in tasks
      modifies this`tasks, this`tasksChanged, this`timerStarted, this`saveRequests, this`savePending
      ensures Valid() && tasks == old(tasks) + [t]
      ensures tasksChanged && timerStarted == (old(timerStarted) || t.running)
      ensures saveRequests == old(saveRequests) + 1 && savePending
    {
      if t.running {
        StartGlobalTimer();
      }
      DistinctAppend(tasks, t);
      tasks := tasks + [t];
      tasksChanged := true;
      RequestSave();
    }

    /** `saveTasks()`: the value written under the key 'tasks' is every
        task's `serialize()`, in registry order; the flag is cleared. */
    method SaveTasks() returns (written: seq<Record>)
      modifies this`tasksChanged
      ensures written == SerializeAll(StatesOf(tasks))
      ensures !tasksChanged
    {
      written := [];
      var i := 0;
      while i < |tasks|
        invariant 0 <= i <= |tasks|
        invariant |written| == i
        invariant forall k :: 0 <= k < i ==> written[k] == ToRecord(tasks[k].State())
      {
        written := written + [tasks[i].Serialize()];
        i := i + 1;
      }
      tasksChanged := false;
    }

    /** The quiescence window of `debouncedSave` closing: a pending save is
        performed once; with none pending nothing happens. */
    method SaveWindowElapsed() returns (written: Option<seq<Record>>)
      modifies this`tasksChanged, this`savePending
      ensures !savePending
      ensures old(savePending) ==> written == Some(SerializeAll(StatesOf(tasks))) && !tasksChanged
      ensures !old(savePending) ==> written == None && tasksChanged == old(tasksChanged)
    {
      if !savePending {
        return None;
      }
      savePending := false;
      var data := SaveTasks();
      written := Some(data);
    }

    /** `tasks.filter(t => t.running)`. */
    method RunningTasks() returns (rs: seq<Task>)
      requires Valid()
      ensures Distinct(rs) && StatesOf(rs) == RunningOnly(StatesOf(tasks))
      ensures forall m :: 0 <= m < |rs| ==> rs[m] in tasks && rs[m].running
      ensures forall k :: 0 <= k < |tasks| && tasks[k].running ==> tasks[k] in rs
    {
      ghost var s0 := StatesOf(tasks);
      ghost var at: seq<nat> := [];
      rs := [];
      var i := 0;
      while i < |tasks|
        invariant 0 <= i <= |tasks|
        invariant |at| == |rs| && Distinct(rs)
        invariant forall m :: 0 <= m < |rs| ==> at[m] < i && tasks[at[m]] == rs[m]
        invariant forall m :: 0 <= m < |rs| ==> rs[m].running
        invariant forall k :: 0 <= k < i && tasks[k].running ==> tasks[k] in rs
        invariant StatesOf(rs) == RunningOnly(s0[..i])
      {
        RunningOnlyStep(s0, i);
        if tasks[i].running {
          assert forall m :: 0 <= m < |rs| ==> rs[m] != tasks[i];
          StatesOfAppend(rs, tasks[i]);
          rs, at := rs + [tasks[i]], at + [i];
        }
        i := i + 1;
      }
      assert s0[..|tasks|] == s0;
    }

    /** Call `tick()` on each of the given tasks, in order. */
    method TickEach(rs: seq<Task>)
      requires Distinct(rs)
      modifies this`tasksChanged, this`notices, rs
      ensures forall m :: 0 <= m < |rs| ==> rs[m].State() == TickStep(old(rs[m].State())).task
      ensures tasksChanged == (old(tasksChanged) || AnyMarked(old(StatesOf(rs))))
      ensures notices == old(notices) + FinishedDescs(old(StatesOf(rs)))
    {
      ghost var r0 := StatesOf(rs);
      var j := 0;
      while j < |rs|
        invariant 0 <= j <= |rs|
        invariant forall m :: 0 <= m < j ==> rs[m].State() == TickStep(r0[m]).task
        invariant forall m :: j <= m < |rs| ==> rs[m].State() == r0[m]
        invariant tasksChanged == (old(tasksChanged) || AnyMarked(r0[..j]))
        invariant notices == old(notices) + FinishedDescs(r0[..j])
      {
        TickedStep(r0, j);
        rs[j].Tick(this);
        j := j + 1;
      }
      assert r0[..|rs|] == r0;
    }

    /** The interval callback: tick every running task, then request a save
        if the flag is set; with no running task, do nothing. */
    method IntervalTick()
      requires Valid() && timerStarted
      modifies this`tasksChanged, this`saveRequests, this`savePending, this`notices, tasks
      ensures Valid()
      ensures forall k :: 0 <= k < |tasks| ==> tasks[k].State() == TickStep(old(tasks[k].State())).task
      ensures var runs := RunningOnly(old(StatesOf(tasks)));
              tasksChanged == (old(tasksChanged) || AnyMarked(runs))
              && saveRequests == old(saveRequests) + (if runs != [] && tasksChanged then 1 else 0)
              && savePending == (old(savePending) || (runs != [] && tasksChanged))
              && notices == old(notices) + FinishedDescs(runs)
    {
      ghost var s0 := StatesOf(tasks);
      ghost var c0 := tasksChanged;
      var runningTasks := RunningTasks();
      ghost var r0 := StatesOf(runningTasks);
      if |runningTasks| == 0 {
        return;
      }
      TickEach(runningTasks);
      forall k | 0 <= k < |tasks|
        ensures tasks[k].State() == TickStep(s0[k]).task
      {
        if tasks[k] in runningTasks {
          var m :| 0 <= m < |runningTasks| && runningTasks[m] == tasks[k];
        } else {
          assert !s0[k].running;
        }
      }
      if tasksChanged {
        RequestSave();
      }
    }
  }

  class Task {
    var dayIndex: int
    var descValue: string
    var hoursValue: int
    var minutesValue: int
    var remaining: int
    var running: bool

    function State(): TaskState
      reads this
    {
      TaskState(dayIndex, descValue, hoursValue, minutesValue, remaining, running)
    }

    /** `new Task(dayIndex, data)`: fill the fields from the record, start
        the interval if the task is running, register the task at the end
        of `tasks`, set the flag and request a save. The countdown is the
        source's wherever the source reads a number; where it reads `NaN`
        the countdown is 0 (see `TaskModel.InitialRemaining`). */
    constructor (dayIndex: int, data: Record, p: Planner)
      requires p.Valid()
      modifies p
      ensures State() == FromRecord(dayIndex, data)
      ensures RemainingAsWritten(data, hoursValue, minutesValue).Some? ==>
                remaining == RemainingAsWritten(data, hoursValue, minutesValue).value
      ensures p.Valid() && p.tasks == old(p.tasks) + [this]
      ensures p.tasksChanged && p.timerStarted == (old(p.timerStarted) || running)
      ensures p.saveRequests == old(p.saveRequests) + 1 && p.savePending
      ensures p.notices == old(p.notices)
    {
      var hours := NumberField(data.hours);
      var minutes := NumberField(data.minutes);
      this.dayIndex := dayIndex;
      descValue := data.desc.GetOr("");
      hoursValue := hours;
      minutesValue := minutes;
      remaining := InitialRemaining(data, hours, minutes);
      running := data.running.GetOr(false);
      new;
      p.Register(this);
    }

    /** `finish()`: stop at 0 and fire the beep and the notification. */
    method Finish(p: Planner)
      modifies this`running, this`remaining, p`notices
      ensures State() == FinishStep(old(State()))
      ensures p.notices == old(p.notices) + [descValue]
    {
      running := false;
      remaining := 0;
      p.notices := p.notices + [descValue];
    }

    /** `tick()`. */
    method Tick(p: Planner)
      modifies this`running, this`remaining, p`tasksChanged, p`notices
      ensures State() == TickStep(old(State())).task
      ensures p.tasksChanged == (old(p.tasksChanged) || TickStep(old(State())).marked)
      ensures p.notices == old(p.notices) + (if TickStep(old(State())).finished then [descValue] else [])
    {
      if !running {
        return;
      }
      if remaining <= 0 {
        Finish(p);
      } else {
        remaining := remaining - 1;
        p.tasksChanged := true;
      }
    }

    /** `toggle()`, the start/pause button. */
    method Toggle(p: Planner)
      modifies this`running, this`remaining, p`tasksChanged, p`timerStarted, p`saveRequests, p`savePending
      ensures State() == ToggleStep(old(State())).task
      ensures p.tasksChanged == (old(p.tasksChanged) || ToggleStep(old(State())).marked)
      ensures p.saveRequests == old(p.saveRequests) + (if ToggleStep(old(State())).marked then 1 else 0)
      ensures p.savePending == (old(p.savePending) || ToggleStep(old(State())).marked)
      ensures p.timerStarted == (old(p.timerStarted) || running)
    {
      if running {
        running := false;
      } else {
        if remaining <= 0 {
          remaining := hoursValue * 3600 + minutesValue * 60;
          if remaining <= 0 {
            return;
          }
        }
        running := true;
        p.StartGlobalTimer();
      }
      p.tasksChanged := true;
      p.RequestSave();
    }

    /** `delete()`: stop the task and filter it out of `tasks`. */
    method Delete(p: Planner)
      requires p.Valid()
      modifies this`running, p`tasks, p`tasksChanged, p`saveRequests, p`savePending
      ensures State() == DeleteStep(old(State()))
      ensures p.Valid() && p.tasks == Without(old(p.tasks), this)
      ensures p.tasksChanged && p.saveRequests == old(p.saveRequests) + 1 && p.savePending
    {
      running := false;
      WithoutDistinct(p.tasks, this);
      p.tasks := Without(p.tasks, this);
      p.tasksChanged := true;
      p.RequestSave();
    }

    /** The `input` listener of the hours field. */
    method SetHours(input: string, p: Planner)
      modifies this`hoursValue, this`remaining, p`tasksChanged, p`saveRequests, p`savePending
      ensures State() == HoursEdit(old(State()), input).task
      ensures p.tasksChanged && p.saveRequests == old(p.saveRequests) + 1 && p.savePending
    {
      hoursValue := Coercion.ParseIntOrZero(input);
      if !running {
        remaining := hoursValue * 3600 + minutesValue * 60;
      }
      p.tasksChanged := true;
      p.RequestSave();
    }

    /** The `input` listener of the minutes field. */
    method SetMinutes(input: string, p: Planner)
      modifies this`minutesValue, this`remaining, p`tasksChanged, p`saveRequests, p`savePending
      ensures State() == MinutesEdit(old(State()), input).task
      ensures p.tasksChanged && p.saveRequests == old(p.saveRequests) + 1 && p.savePending
    {
      minutesValue := Coercion.ParseIntOrZero(input);
      if !running {
        remaining := hoursValue * 3600 + minutesValue * 60;
      }
      p.tasksChanged := true;
      p.RequestSave();
    }

    /** The `input` listener of the description field. */
    method SetDescription(input: string, p: Planner)
      modifies this`descValue, p`tasksChanged, p`saveRequests, p`savePending
      ensures State() == DescriptionEdit(old(State()), input).task
      ensures p.tasksChanged && p.saveRequests == old(p.saveRequests) + 1 && p.savePending
    {
      descValue := input;
      p.tasksChanged := true;
      p.RequestSave();
    }

    /** `serialize()`: the record of this task's state (TaskModel.RoundTrip
        shows the constructor rebuilds the task from it). */
    function Serialize(): (r: Record)
      reads this
      ensures r == ToRecord(State())
    {
      Record(Some(dayIndex), Some(descValue), Some(Num(hoursValue)), Some(Num(minutesValue)),
             Some(Num(remaining)), Some(running))
    }

    /** The timer text of `updateDisplay()`; for a non-negative countdown it
        reads back as the countdown. */
    function TimerText(): (s: string)
      reads this
      ensures s == Clock.Format(remaining)
      ensures remaining >= 0 ==> Clock.ReadClock(s) == Some(remaining)
    {
      if remaining >= 0 then Clock.ClockRoundTrip(remaining); Clock.Format(remaining)
      else Clock.Format(remaining)
    }
  }

  /** Five quick edits of a task each call `debouncedSave`, but while they
      fall inside one quiescence window only one save is performed when it
      closes, and a second closing performs none. */
  method DebounceScenario(p: Planner, t: Task)
    modifies p, t
  {
    var before := p.saveRequests;
    t.SetHours("1", p);
    t.SetMinutes("3", p);
    t.SetMinutes("30", p);
    t.SetDescription("Rea", p);
    t.SetDescription("Read", p);
    assert p.saveRequests == before + 5 && p.savePending;
    var first := p.SaveWindowElapsed();
    var second := p.SaveWindowElapsed();
    assert first.Some? && second == None && !p.tasksChanged;
  }
}
