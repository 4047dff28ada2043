/** The task record of TaskManager.js as a value, with one step function per
    operation of the `Task` class. The class in task_manager.dfy updates its
    fields in place and is proved to follow these functions; the properties of
    the lifecycle are proved here, on values. */
module TaskModel {

  import opened Wrappers
  import opened Coercion

  /** A field of a stored record as `JSON.parse` can return it. */
  datatype Value = Num(n: int) | Text(s: string) | Null

  /** The `data` object a task is built from, and what `serialize` returns.
      Every field may be missing: a task added with a day's "add" button is
      built from `{}`. */
  datatype Record = Record(
    dayIndex: Option<int>,
    desc: Option<string>,
    hours: Option<Value>,
    minutes: Option<Value>,
    remaining: Option<Value>,
    running: Option<bool>)

  /** The empty object `{}`. */
  const NoData := Record(None, None, None, None, None, None)

  /** The fields of a task that the source reads and writes: the weekday
      column, the description, the entered duration, the countdown in
      seconds and whether it is counting down. */
  datatype TaskState = TaskState(
    dayIndex: int,
    desc: string,
    hours: int,
    minutes: int,
    remaining: int,
    running: bool)

  /** The new task, whether the step set the global `tasksChanged` flag, and
      whether it fired the finish side effects (beep and notification). */
  datatype Effect = Effect(task: TaskState, marked: bool, finished: bool)

  /** `hoursValue * 3600 + minutesValue * 60`. */
  function Duration(hours: int, minutes: int): int {
    hours * 3600 + minutes * 60
  }

  /** A running task never counts down from a negative value. */
  predicate RunningNonNegative(t: TaskState) {
    t.running ==> t.remaining >= 0
  }

  // ---------------------------------------------------------------------
  // Timer steps

  /** `finish()`: stop and clamp the countdown to 0. */
  function FinishStep(t: TaskState): (r: TaskState)
    ensures !r.running && r.remaining == 0
    ensures r.(running := t.running, remaining := t.remaining) == t
  {
    t.(running := false, remaining := 0)
  }

  /** `tick()`: a stopped task is left alone; a running one counts down by a
      second while time is left, and is finished otherwise. */
  function TickStep(t: TaskState): (e: Effect)
    ensures e.task.(remaining := t.remaining, running := t.running) == t
    ensures RunningNonNegative(t) ==> RunningNonNegative(e.task)
  {
    if !t.running then Effect(t, false, false)
    else if t.remaining <= 0 then Effect(FinishStep(t), false, true)
    else Effect(t.(remaining := t.remaining - 1), true, false)
  }

  /** What `n` consecutive ticks do to one task: the final task, how many of
      them set `tasksChanged`, and how many fired the finish side effects. */
  datatype Run = Run(task: TaskState, marks: nat, finishes: nat)

  function Ticks(t: TaskState, n: nat): Run
    decreases n
  {
    if n == 0 then Run(t, 0, 0)
    else
      var e := TickStep(t);
      var rest := Ticks(e.task, n - 1);
      Run(rest.task, rest.marks + (if e.marked then 1 else 0),
          rest.finishes + (if e.finished then 1 else 0))
  }

  /** Ticks leave a stopped task alone. */
  lemma {:induction false} TicksOfStopped(t: TaskState, n: nat)
    requires !t.running
    ensures Ticks(t, n) == Run(t, 0, 0)
  {
    if n > 0 {
      TicksOfStopped(t, n - 1);
    }
  }

  /** A task running with `r >= 0` seconds left counts down by exactly one
      second per tick, setting `tasksChanged` each time, for `r` ticks; tick
      `r + 1` finishes it without setting the flag, and later ticks change
      nothing: the finish side effects fire exactly once. */
  lemma {:induction false} TicksUntilFinished(t: TaskState, n: nat)
    requires t.running && t.remaining >= 0
    ensures n <= t.remaining ==> Ticks(t, n) == Run(t.(remaining := t.remaining - n), n, 0)
    ensures n > t.remaining ==> Ticks(t, n) == Run(FinishStep(t), t.remaining, 1)
    decreases n
  {
    if n > 0 {
      if t.remaining > 0 {
        TicksUntilFinished(t.(remaining := t.remaining - 1), n - 1);
      } else {
        TicksOfStopped(FinishStep(t), n - 1);
      }
    }
  }

  /** A task started with one second left still runs, at 0, after one tick;
      the second tick finishes it and fires the side effects; any further
      ticks leave it finished without firing them again. */
  lemma CompletionScenario(t: TaskState, n: nat)
    requires t.running && t.remaining == 1
    ensures Ticks(t, 1) == Run(t.(remaining := 0), 1, 0)
    ensures n >= 2 ==> Ticks(t, n) == Run(t.(running := false, remaining := 0), 1, 1)
  {
    TicksUntilFinished(t, 1);
    TicksUntilFinished(t, n);
  }

  // ---------------------------------------------------------------------
  // Start, pause and resume

  /** `toggle()`: pause a running task; start a stopped one, first resetting
      the countdown to the entered duration when none is left, and refusing
      to start when even that is not positive. */
  function ToggleStep(t: TaskState): (e: Effect)
    ensures !e.finished
    ensures e.task.(remaining := t.remaining, running := t.running) == t
    ensures e.task.running ==> e.task.remaining > 0
  {
    if t.running then Effect(t.(running := false), true, false)
    else
      var r := if t.remaining <= 0 then Duration(t.hours, t.minutes) else t.remaining;
      if r <= 0 then Effect(t.(remaining := r), false, false)
      else Effect(t.(remaining := r, running := true), true, false)
  }

  /** The toggle laws: the task ends up running exactly when it was stopped
      and has (or is reset to) a positive countdown; the flag is set exactly
      when the running state flips; the countdown is only ever reset when a
      stopped task had none left, and pausing keeps it. */
  lemma ToggleLaws(t: TaskState)
    ensures ToggleStep(t).task.running <==>
              !t.running && (t.remaining > 0 || Duration(t.hours, t.minutes) > 0)
    ensures ToggleStep(t).marked <==> ToggleStep(t).task.running != t.running
    ensures ToggleStep(t).task.remaining ==
              if !t.running && t.remaining <= 0 then Duration(t.hours, t.minutes) else t.remaining
  {
  }

  /** Starting and then pausing a stopped task that has time left gives back
      the same task, and both steps set the flag. */
  lemma ToggleTwice(t: TaskState)
    requires !t.running && t.remaining > 0
    ensures ToggleStep(t).marked && ToggleStep(ToggleStep(t).task).marked
    ensures ToggleStep(ToggleStep(t).task).task == t
  {
  }

  /** A task with no duration and nothing left cannot be started, and the
      attempt does not set the flag. */
  lemma ZeroDurationCannotStart(t: TaskState)
    requires !t.running && t.hours == 0 && t.minutes == 0 && t.remaining <= 0
    ensures ToggleStep(t) == Effect(t.(remaining := 0), false, false)
  {
  }

  // ---------------------------------------------------------------------
  // Editing

  /** The `input` handler of the hours field. */
  function HoursEdit(t: TaskState, input: string): (e: Effect)
    ensures e.marked && !e.finished
    ensures e.task.running == t.running
    ensures RunningNonNegative(t) ==> RunningNonNegative(e.task)
  {
    var hours := ParseIntOrZero(input);
    var t' := t.(hours := hours);
    Effect(if t.running then t' else t'.(remaining := Duration(hours, t.minutes)), true, false)
  }

  /** The `input` handler of the minutes field. */
  function MinutesEdit(t: TaskState, input: string): (e: Effect)
    ensures e.marked && !e.finished
    ensures e.task.running == t.running
    ensures RunningNonNegative(t) ==> RunningNonNegative(e.task)
  {
    var minutes := ParseIntOrZero(input);
    var t' := t.(minutes := minutes);
    Effect(if t.running then t' else t'.(remaining := Duration(t.hours, minutes)), true, false)
  }

  /** The `input` handler of the description field. */
  function DescriptionEdit(t: TaskState, input: string): (e: Effect)
    ensures e.marked && !e.finished
    ensures e.task.desc == input
    ensures e.task.(desc := t.desc) == t
  {
    Effect(t.(desc := input), true, false)
  }

  /** An edit of the hours or minutes stores the coerced number; a stopped
      task's countdown becomes the new duration, a running task's countdown
      is untouched. */
  lemma EditLaws(t: TaskState, input: string)
    ensures HoursEdit(t, input).task.hours == ParseIntOrZero(input)
    ensures MinutesEdit(t, input).task.minutes == ParseIntOrZero(input)
    ensures HoursEdit(t, input).task.remaining ==
              if t.running then t.remaining else Duration(ParseIntOrZero(input), t.minutes)
    ensures MinutesEdit(t, input).task.remaining ==
              if t.running then t.remaining else Duration(t.hours, ParseIntOrZero(input))
    ensures HoursEdit(t, input).task.(hours := t.hours, remaining := t.remaining) == t
    ensures MinutesEdit(t, input).task.(minutes := t.minutes, remaining := t.remaining) == t
  {
  }

  /** On a stopped task the countdown follows both fields, whichever is
      edited last. */
  lemma StoppedEditsCommute(t: TaskState, h: string, m: string)
    requires !t.running
    ensures MinutesEdit(HoursEdit(t, h).task, m).task == HoursEdit(MinutesEdit(t, m).task, h).task
    ensures MinutesEdit(HoursEdit(t, h).task, m).task.remaining == Duration(ParseIntOrZero(h), ParseIntOrZero(m))
  {
  }

  /** Nothing keeps the countdown non-negative: the number field's minimum is
      only a hint, and typing "-1" hours into a stopped task gives -3600
      seconds. */
  lemma NegativeHoursReachable(t: TaskState)
    requires !t.running && t.minutes == 0
    ensures HoursEdit(t, "-1").task.remaining == -3600
  {
    assert Decimal(-1) == "-1" by {
      assert Digits(1) == "1";
    }
    ParseDecimal(-1);
    var hours := ParseIntOrZero("-1");
    assert hours == -1;
    assert HoursEdit(t, "-1").task.remaining == Duration(hours, 0);
  }

  /** `delete()` stops the task; its removal is a registry operation. */
  function DeleteStep(t: TaskState): (r: TaskState)
    ensures !r.running && r.(running := t.running) == t
  {
    t.(running := false)
  }

  // ---------------------------------------------------------------------
  // Serialization and construction

  /** `serialize()`. */
  function ToRecord(t: TaskState): Record {
    Record(Some(t.dayIndex), Some(t.desc), Some(Num(t.hours)), Some(Num(t.minutes)),
           Some(Num(t.remaining)), Some(t.running))
  }

  /** JavaScript's `String(v)`, which `parseInt` applies to its argument
      first. */
  function AsText(v: Option<Value>): string {
    match v
    case None => "undefined"
    case Some(Null) => "null"
    case Some(Text(s)) => s
    case Some(Num(n)) => Decimal(n)
  }

  /** `parseInt(v, 10) || 0` of a record field. */
  function NumberField(v: Option<Value>): int {
    ParseIntOrZero(AsText(v))
  }

  /** The countdown the constructor takes AS WRITTEN: the duration when the
      record has no `remaining`, else `parseInt(remaining, 10)` with no `|| 0`,
      so `None` (NaN) when that field holds no number. */
  function RemainingAsWritten(data: Record, hours: int, minutes: int): Option<int> {
    if data.remaining.None? then Some(Duration(hours, minutes))
    else ParseInt(AsText(data.remaining))
  }

  /** The countdown the constructor takes, with the missing `|| 0` supplied
      as for every other numeric field. It agrees with the source wherever
      the source yields a number. */
  function InitialRemaining(data: Record, hours: int, minutes: int): (r: int)
    ensures RemainingAsWritten(data, hours, minutes).Some? ==>
              r == RemainingAsWritten(data, hours, minutes).value
    ensures RemainingAsWritten(data, hours, minutes).None? ==> r == 0
  {
    if data.remaining.None? then Duration(hours, minutes)
    else NumberField(data.remaining)
  }

  /** The constructor `new Task(dayIndex, data)`, apart from the DOM. */
  function FromRecord(dayIndex: int, data: Record): TaskState {
    var hours := NumberField(data.hours);
    var minutes := NumberField(data.minutes);
    TaskState(dayIndex, data.desc.GetOr(""), hours, minutes,
              InitialRemaining(data, hours, minutes), data.running.GetOr(false))
  }

  /** Constructing a task from what `serialize` returned reproduces every
      field, and the source's own reading of `remaining` agrees. */
  lemma RoundTrip(t: TaskState)
    ensures FromRecord(t.dayIndex, ToRecord(t)) == t
    ensures RemainingAsWritten(ToRecord(t), t.hours, t.minutes) == Some(t.remaining)
  {
    ParseDecimal(t.hours);
    ParseDecimal(t.minutes);
    ParseDecimal(t.remaining);
  }

  /** A task added from `{}` has an empty description, no duration, nothing
      left and is stopped. */
  lemma FreshTaskDefaults(dayIndex: int)
    ensures FromRecord(dayIndex, NoData) == TaskState(dayIndex, "", 0, 0, 0, false)
  {
    NoDigitsIsZero("undefined");
  }

  /** Without a stored `remaining` the countdown starts at the duration. */
  lemma MissingRemainingIsDuration(dayIndex: int, data: Record)
    requires data.remaining.None?
    ensures FromRecord(dayIndex, data).remaining ==
              Duration(FromRecord(dayIndex, data).hours, FromRecord(dayIndex, data).minutes)
  {
  }

  /** A task for day 2 built from 1 hour and 30 minutes serializes as
      {dayIndex: 2, desc: "", hours: 1, minutes: 30, remaining: 5400,
      running: false}. */
  lemma PersistenceScenario()
    ensures ToRecord(FromRecord(2, NoData.(hours := Some(Num(1)), minutes := Some(Num(30)))))
         == Record(Some(2), Some(""), Some(Num(1)), Some(Num(30)), Some(Num(5400)), Some(false))
  {
    ParseDecimal(1);
    ParseDecimal(30);
  }

  /** As written, a stored `remaining` that is not a number ("abc" typed into
      storage, or `null`, which is what JSON makes of NaN) gives a NaN
      countdown. */
  lemma MalformedRemainingIsNaN()
    ensures RemainingAsWritten(NoData.(remaining := Some(Text("abc"))), 0, 0) == None
    ensures RemainingAsWritten(NoData.(remaining := Some(Null)), 0, 0) == None
  {
    NoDigitsIsZero("abc");
    NoDigitsIsZero("null");
  }

  /** With the fallback supplied, a record whose numeric fields hold no
      number builds the same task as `{}`. */
  lemma MalformedRecordIsFresh(dayIndex: int, h: string, m: string, r: string)
    requires ParseInt(h) == None && ParseInt(m) == None && ParseInt(r) == None
    ensures FromRecord(dayIndex, NoData.(hours := Some(Text(h)), minutes := Some(Text(m)),
                                         remaining := Some(Text(r))))
         == FromRecord(dayIndex, NoData)
  {
    FreshTaskDefaults(dayIndex);
  }
}
