# Day-Planner task timers, modelled in Dafny

This project models `TaskManager.js` of the Day-Planner web page without its DOM. The page keeps one countdown task per card in seven day columns. Each task has a description, an entered duration in hours and minutes, a countdown `remaining` in seconds and a `running` flag. A module-level array `tasks` holds every task in creation order. A flag `tasksChanged` records that memory differs from the last save. One global one-second interval ticks every running task. A debounced `saveTasks` writes `tasks.map(serialize)` to storage.

The model is layered like the program:

- `wrappers.dfy`: `Option`.
- `coercion.dfy` (module `Coercion`): `parseInt(x, 10)` on its string argument. It skips leading JavaScript whitespace, takes an optional sign and the longest digit run, and gives `None` for `NaN`. It also has the `|| 0` fallback, and the decimal text of an integer (`Number.prototype.toString`).
- `clock.dfy` (module `Clock`): the `HH:MM:SS` text of `updateDisplay`. It uses JavaScript's floor division and JavaScript's truncating `%`, and provides a reader that parses the text back.
- `task_model.dfy` (module `TaskModel`): the task as a value `TaskState`, plus the stored record `Record`. Each optional field is a JSON `Value`. There is one step function per operation. `TickStep`, `ToggleStep`, `HoursEdit`, `MinutesEdit` and `DescriptionEdit` return the new task and whether `tasksChanged` was set. They also say whether the finish side effects (beep and notification) fired. The lifecycle lemmas are proved here.
- `registry.dfy` (module `Registry`): the module-level state as values. It has the sweep of the interval callback, `tasks.map(serialize)`, and the filter `delete()` applies.
- `task_manager.dfy` (module `TaskManager`): the imperative program.
  - Class `Planner` holds the globals: `tasks`, `tasksChanged`, whether the interval is installed, and a count of `debouncedSave` calls with a pending-window flag. It also has a ghost log of finish notifications.
  - Class `Task` has the six fields the source updates in place. The registry part of its constructor (lines 73-77) is the method `Planner.Register`, which the constructor calls once its fields are set.
  - Every method is proved to change its state exactly as the corresponding step function says.
  - `DebounceScenario` walks five quick edits through one save window, which ends in one save.

## Model

| member | source | states |
|---|---|---|
| Coercion.ParseDecimal | TaskManager.js:64-66 | `parseInt` of an integer's decimal text gives the integer back, negative ones included, and so does `parseInt(...) \|\| 0` |
| Coercion.ParseDecimalPrefix | TaskManager.js:108 | `parseInt` keeps the integer prefix of a text when what follows does not start with a digit ("1.5", "3e2", "7px") |
| Coercion.NoDigitsIsZero | TaskManager.js:122 | input whose first character after its leading whitespace and optional sign is not a digit parses to `NaN`, and `\|\| 0` turns it into 0 |
| Coercion.NonNumericIsZero | TaskManager.js:108 | the empty field, "abc", " abc" and a lone "-" coerce to 0 |
| Coercion.NumericInputExamples | TaskManager.js:108 | "-2" coerces to -2, so negative values get through; "1.5" coerces to 1 and "3e2" to 3 |
| Coercion.TrimStartSplits | TaskManager.js:64 | the whitespace `parseInt` skips is exactly a leading run of whitespace, and the rest of the text is kept unchanged |
| Coercion.ParseInt | TaskManager.js:64-65 | `parseInt(x, 10)`; its properties are the lemmas: leading whitespace is skipped (`TrimStartSplits`), the integer prefix is read (`ParseDecimalPrefix`), and text without a leading digit gives `NaN` (`NoDigitsIsZero`) |
| Coercion.ParseIntOrZero | TaskManager.js:108 | `parseInt(x, 10) \|\| 0`; it gives back every integer from its text (`ParseDecimal`), 0 for non-numeric input (`NonNumericIsZero`), and lets negatives through (`NumericInputExamples`) |
| Coercion.Decimal | TaskManager.js:162 | `toString()` of an integer; `ParseInt(Decimal(n)) == Some(n)` for every `n` (`ParseDecimal`) |
| Clock.Format | TaskManager.js:159-162 | the timer text; `ReadClock(Format(r)) == Some(r)` for `r >= 0` (`ClockRoundTrip`), and `Format(-1) == "-1:-1:-1"` (`NegativeDisplay`) |
| Clock.Hours | TaskManager.js:159 | `Math.floor(remaining / 3600)`; non-negative for `remaining >= 0`, and recombines with the other fields to `remaining` (`FieldsRecompose`) |
| Clock.Minutes | TaskManager.js:160 | `Math.floor((remaining % 3600) / 60)`; in 0..59 for `remaining >= 0` (`FieldsRecompose`), and -1 for -1 (`NegativeDisplay`) |
| Clock.Seconds | TaskManager.js:161 | `remaining % 60`; in 0..59 for `remaining >= 0` (`FieldsRecompose`), and -1 for -1 (`NegativeDisplay`) |
| TaskModel.FinishStep | TaskManager.js:197-199 | `finish()` stops the task at 0 and changes no other field; tick r+1 of a task with r seconds left gives it (`TicksUntilFinished`) |
| TaskModel.ToRecord | TaskManager.js:214-222 | `serialize()`; `FromRecord(t.dayIndex, ToRecord(t)) == t` (`RoundTrip`) |
| TaskModel.FromRecord | TaskManager.js:61-67 | the constructor's fields; it inverts `ToRecord` (`RoundTrip`), gives the defaults for `{}` (`FreshTaskDefaults`) and the duration for a missing `remaining` (`MissingRemainingIsDuration`), and takes its countdown from `InitialRemaining` |
| TaskModel.RemainingAsWritten | TaskManager.js:66 | line 66 as written; `NaN` for a stored "abc" or `null` (`MalformedRemainingIsNaN`), and the saved countdown for a serialized task (`RoundTrip`) |
| Registry.RunningOnly | TaskManager.js:52 | `tasks.filter(t => t.running)`; empty exactly when no task runs (`RunningOnlyMembers`), and what `Planner.RunningTasks` is proved to return |
| Registry.Sweep | TaskManager.js:51-56 | the interval callback on values; its laws are `SweepLaws`, `IdleSweep`, `SweepClosedForm` and `FinishIsNotSaved` |
| Clock.JsRem | TaskManager.js:160-161 | JavaScript's `%` by a positive divisor lies strictly between minus and plus the divisor and equals Dafny's remainder for a non-negative dividend; for a negative dividend it is at most 0 and is what the quotient truncated toward zero leaves |
| Clock.Pad2 | TaskManager.js:162 | `padStart(2, '0')` gives at least two characters, made of '0's followed by the original text |
| Clock.FieldsRecompose | TaskManager.js:159-161 | for `remaining >= 0` the hours are non-negative, minutes and seconds lie in 0..59, and hours*3600 + minutes*60 + seconds equals `remaining` |
| Clock.ClockRoundTrip | TaskManager.js:158-162 | the displayed text of a non-negative countdown reads back as that countdown |
| Clock.NegativeDisplay | TaskManager.js:159-162 | a countdown of -1 displays as "-1:-1:-1", which reads back as -3661, not -1 |
| TaskModel.TickStep | TaskManager.js:170-179 | a tick changes only `remaining` and `running`, and keeps "running implies remaining >= 0" |
| TaskModel.TicksOfStopped | TaskManager.js:171 | any number of ticks leave a stopped task unchanged, never set the flag and fire nothing |
| TaskModel.TicksUntilFinished | TaskManager.js:170-179 | a task running with r >= 0 seconds left counts down one second per tick, setting the flag, for r ticks; tick r+1 finishes it without setting the flag; the finish side effects fire exactly once |
| TaskModel.CompletionScenario | TaskManager.js:172-175 | a task running with 1 second left is still running at 0 after one tick, and is finished only by the second |
| TaskModel.ToggleStep | TaskManager.js:181-195 | toggling changes only `remaining` and `running`, never fires the finish side effects, and never leaves a task running with `remaining <= 0` |
| TaskModel.ToggleLaws | TaskManager.js:181-195 | the task ends up running if and only if it was stopped with time left or a positive duration; the flag is set exactly when `running` flips; `remaining` is reset to the duration only when a stopped task had none left |
| TaskModel.ToggleTwice | TaskManager.js:182-189 | starting and then pausing a stopped task that has time left gives back the same task, and both toggles set the flag |
| TaskModel.ZeroDurationCannotStart | TaskManager.js:185-187 | a stopped task with no duration and no time left stays stopped with `remaining` 0, without setting the flag |
| TaskModel.HoursEdit | TaskManager.js:107-113 | an hours edit sets the flag, fires nothing, keeps `running`, and keeps "running implies remaining >= 0" |
| TaskModel.MinutesEdit | TaskManager.js:121-127 | a minutes edit sets the flag, fires nothing, keeps `running`, and keeps "running implies remaining >= 0" |
| TaskModel.DescriptionEdit | TaskManager.js:92-96 | a description edit sets the flag, stores the input as the description and changes nothing else |
| TaskModel.EditLaws | TaskManager.js:107-127 | an hours or minutes edit stores the coerced input; a stopped task's countdown becomes the new duration, a running task's is untouched; no other field changes |
| TaskModel.StoppedEditsCommute | TaskManager.js:109-123 | on a stopped task, hours and minutes edits give the same task in either order, with the countdown equal to the two coerced inputs' duration |
| TaskModel.NegativeHoursReachable | TaskManager.js:104-109 | typing "-1" into the hours of a stopped task with no minutes gives a countdown of -3600 seconds: `min=0` does not bound the model |
| TaskModel.DeleteStep | TaskManager.js:206-207 | deleting stops the task and changes no other field |
| TaskModel.InitialRemaining | TaskManager.js:66 | the constructor's countdown equals the source's `parseInt(data.remaining, 10)` whenever that is a number, and is 0 where the source gets `NaN` |
| TaskModel.RoundTrip | TaskManager.js:214-222 | constructing a task from its `serialize()` record on its own day reproduces every field, and the source's own reading of `remaining` agrees |
| TaskModel.FreshTaskDefaults | TaskManager.js:61-67 | a task built from `{}` has description '', 0 hours, 0 minutes, 0 remaining and is stopped |
| TaskModel.MissingRemainingIsDuration | TaskManager.js:66 | without a stored `remaining`, the countdown is hours*3600 + minutes*60 |
| TaskModel.PersistenceScenario | TaskManager.js:61-67 | a day-2 task built from 1 hour 30 minutes serializes with remaining 5400 and running false |
| TaskModel.MalformedRemainingIsNaN | TaskManager.js:66 | as written, a stored `remaining` of "abc" or `null` makes the countdown `NaN` |
| TaskModel.MalformedRecordIsFresh | TaskManager.js:64-66 | with the fallback supplied, a record whose numeric fields hold no number builds the same task as `{}` |
| Registry.DistinctAppend | TaskManager.js:75 | appending a task that is not yet registered keeps the registry free of repetitions |
| Registry.Without | TaskManager.js:209 | the filtered list lacks the removed task, holds only members of the original, and keeps every other member |
| Registry.WithoutAbsent | TaskManager.js:209 | filtering out a task that is not registered changes nothing |
| Registry.WithoutRemovesOne | TaskManager.js:209 | in a list without repetitions, filtering out the task at position i removes exactly that position and keeps the others in order |
| Registry.WithoutDistinct | TaskManager.js:209 | filtering keeps the registry free of repetitions |
| Registry.SavedTasksRestore | TaskManager.js:41 | every record of `SerializeAll` (`tasks.map(serialize)`) carries its day, and constructing from it on that day gives back the saved task |
| Registry.RunningOnlyMembers | TaskManager.js:52 | the filter of running tasks is empty exactly when no task runs; ticking only those tasks sets the flag and fires the notifications exactly as ticking all would |
| Registry.AnyMarkedMeans | TaskManager.js:54 | ticking a list of tasks sets the flag if and only if some task is running with time left |
| Registry.IdleSweep | TaskManager.js:53 | a sweep with no running task changes no task, leaves the flag alone, requests no save and fires nothing |
| Registry.SweepLaws | TaskManager.js:51-56 | a sweep ticks every task once (its states are `TickAll` of the tasks). It sets the flag if and only if the flag was set or a running task had time left. It requests a save if and only if some task runs and the flag is then set. It keeps running countdowns non-negative, and notifies the finished tasks in registry order |
| Registry.SweepClosedForm | TaskManager.js:51-56 | the sweep equals, field by field, what `Planner.IntervalTick` is proved to do |
| Registry.NothingFinished | TaskManager.js:54 | when no tick finishes a task, no notification fires |
| Registry.FinishIsNotSaved | TaskManager.js:197-204 | when the only running task finishes and the flag was clear, the sweep requests no save |
| TaskManager.Planner.constructor | TaskManager.js:36-48 | the page starts with no tasks, the flag clear, no interval, no save requested |
| TaskManager.Planner.StartGlobalTimer | TaskManager.js:49-50 | afterwards the interval is installed; a second call changes nothing |
| TaskManager.Planner.RequestSave | TaskManager.js:45 | each `debouncedSave` call is counted and opens a pending window |
| TaskManager.Planner.Register | TaskManager.js:73-77 | the new task is appended to `tasks`, the interval is started if the task runs, the flag is set and one save is requested |
| TaskManager.Planner.SaveTasks | TaskManager.js:40-44 | the written value is every task's `serialize()` in registry order, and the flag is cleared |
| TaskManager.Planner.SaveWindowElapsed | TaskManager.js:4-10 | when the debounce window closes, a pending save is performed once and nothing happens otherwise |
| TaskManager.Planner.RunningTasks | TaskManager.js:52 | the result has no repetitions, holds exactly the registry's running tasks, and their states are the registry's running states in order |
| TaskManager.Planner.TickEach | TaskManager.js:54 | each task is ticked once. The flag picks up every tick's mark, and the notifications are the finished tasks' descriptions in order |
| TaskManager.Planner.IntervalTick | TaskManager.js:51-56 | every task's new state is its tick. The flag and the notifications follow the running tasks' ticks. A save is requested only if some task runs and the flag is then set |
| TaskManager.Task.constructor | TaskManager.js:61-77 | the new task's fields are `FromRecord` of the record: hours and minutes coerced with `\|\| 0` as the source does, and the countdown equal to the source's `parseInt(data.remaining, 10)` wherever that is a number (0 where it is `NaN`, see Findings); it is registered last, the interval is started if it runs, the flag is set and one save is requested |
| TaskManager.Task.Finish | TaskManager.js:197-204 | the task is stopped at 0 and its description is notified; the flag is not touched |
| TaskManager.Task.Tick | TaskManager.js:170-179 | the task moves to its tick; the flag is set and a notification is fired exactly as the tick says |
| TaskManager.Task.Toggle | TaskManager.js:181-195 | the task moves to its toggle. The flag is set and a save is requested exactly when the toggle is accepted. A task that starts installs the interval |
| TaskManager.Task.Delete | TaskManager.js:206-212 | the task is stopped and filtered out of `tasks`, the registry stays free of repetitions, the flag is set and a save is requested |
| TaskManager.Task.SetHours | TaskManager.js:107-113 | the task moves to its hours edit, the flag is set and a save is requested |
| TaskManager.Task.SetMinutes | TaskManager.js:121-127 | the task moves to its minutes edit, the flag is set and a save is requested |
| TaskManager.Task.SetDescription | TaskManager.js:92-96 | the task moves to its description edit, the flag is set and a save is requested |
| TaskManager.Task.Serialize | TaskManager.js:214-222 | the record of the task's current fields, which `TaskModel.RoundTrip` rebuilds |
| TaskManager.Task.TimerText | TaskManager.js:158-162 | the timer text is `Clock.Format` of the countdown, so the padding and negative-display laws apply; for a non-negative countdown it reads back as the countdown |

Where the code and its evident intent differ, the model follows the code, except for the one case under "## Findings":

- A rejected start (`toggle` on a stopped task with nothing left and no duration) still writes the duration into `remaining`. The duration is at most 0 then (`ToggleLaws`).
- A task running with 1 second left needs two ticks to finish: the first shows 00:00:00 and the second finishes it (`CompletionScenario`).
- `finish()` does not set `tasksChanged`. When nothing else changed, the finished task is not re-saved, and storage still says it is running (`FinishIsNotSaved`).
- Nothing keeps counters non-negative. The input fields' `min=0` is only a hint (`NegativeHoursReachable`, `NegativeDisplay`).
- `delete()` on a task that is no longer registered still sets the flag and requests a save (`WithoutAbsent`).

## Left out

- DOM construction and styling: `createDOM`, the class toggles and button text of `updateDisplay`, `column.prepend` and `taskEl.remove`. They are presentation only and do not affect the order of `tasks`.
- `playBeep` and `notifyTaskFinished`, and the notification permission request. These are browser APIs. A finish is recorded in the ghost log `Planner.notices` as the description the notification would carry.
- `localStorage` and `JSON.stringify`/`JSON.parse`, including the try/catch load loop at the bottom of the file. These are storage I/O and a library parser. `SaveTasks` returns the array it would write, and `Registry.SavedTasksRestore` states what reloading it builds.
- Wall-clock timing: the 1000 ms interval and the 500 ms debounce delay. `Planner.IntervalTick` is one firing of the interval, and `Planner.SaveWindowElapsed` is the close of a debounce window. `debouncedSave` is a call counter plus a pending flag.
- The add-task buttons and the final `startGlobalTimer()` call are event wiring. They construct tasks from `{}` (`TaskModel.FreshTaskDefaults`) and install the interval (`Planner.StartGlobalTimer`).
- `TaskManager.Task.constructor`: for a stored `remaining` that holds no number ("abc", or `null`), line 66 gives a `NaN` countdown; an `int` cannot hold `NaN`, so the model takes 0 there, as the other numeric fields do. Its contract promises the source's countdown only where the source reads a number. The as-written value is `TaskModel.RemainingAsWritten`; see "## Findings".
- `TaskModel.FromRecord`: takes the countdown from `TaskModel.InitialRemaining`, so it shares the constructor's 0-for-`NaN` reading above; the `NaN` countdown's later behaviour (ticking forever, displayed as "NaN:NaN:NaN") is not modelled.
- `dayIndex` without a day column: line 69 (`dayColumns[dayIndex].querySelector`) throws for a `dayIndex` that has no column, such as 7 or -1, so no task is built. The model's constructor accepts every integer day, because the columns are DOM.
- Record fields of other JavaScript types: a non-string `desc`, a non-boolean `running`, an undefined `dayIndex`. `data.desc || ''` and `data.running || false` are modelled for a string and a boolean, or a missing field. An empty `desc` gives '' either way.
- Floating point. Every number is an integer. `parseInt` results too large for a double, exponent notation in `toString` for numbers of 1e21 and more, and fractional values stored in a record are not modelled.
- `Coercion.ParseInt`: models `parseInt(x, 10)` only for the decimal radix the source uses, and does not model rounding of long digit runs to the nearest double.
- script.js and SettingsMenu.js are not part of this model. They only toggle CSS classes on the settings menu.

## Findings

| source | as written | input that shows it | evidently intended | confidence | as-written member | corrected member |
|---|---|---|---|---|---|---|
| TaskManager.js:66 | `parseInt(data.remaining, 10)` has no `\|\| 0` fallback, unlike the hours and minutes on lines 64-65 | a stored record with `remaining: null` (what `JSON.stringify` makes of `NaN`) or `remaining: "abc"` gives a `NaN` countdown, which never finishes, displays as "NaN:NaN:NaN" and is saved as `null` again | a missing number counts as 0, as for every other numeric field | not executed | TaskModel.MalformedRemainingIsNaN | TaskModel.InitialRemaining |
