# Pomodoro timer and todo list, modelled in Dafny

The application is one browser-side JavaScript class, `PomodoroApp`. It holds two small cores
beneath its DOM wiring:

* a **work/break countdown**. The fields are `workTime` and `breakTime` (minutes), `currentTime`
  (seconds left), `isWorking`, `isRunning` and `sessionCount`. The operations are `start`, `pause`,
  `reset`, the one-second `tick`, `switchSession`, the two duration sliders, and the `MM:SS` text
  written by `updateDisplay`.
* a **todo list**. It is an ordered list of `{id, text, completed, createdAt}` records. The
  operations are add (trimmed text, with empty input ignored), toggle, delete, clear-completed,
  a filtered view (`all` / `active` / `completed`, where any other name shows everything), and the
  "N task(s) remaining" line with the visibility of the clear-completed control.

Layout:

| file | module | contents |
|---|---|---|
| wrappers.dfy | `Wrappers` | `Option` |
| js_text.dfy | `JsText` | the JavaScript library behaviour the program relies on: `trim`, integer `toString`, `padStart(2, '0')`, the truncating `%`, and a decimal reader for stating round trips |
| timer_display.dfy | `TimerDisplay` | the countdown text and its reader |
| timer_model.dfy | `TimerModel` | the timer fields as a value, one function per transition, and the lemmas about them |
| todo_model.dfy | `TodoModel` | the record, `filter`, the list operations, the views and counts, and `find` as a loop |
| pomodoro_app.dfy | `Pomodoro` | class `PomodoroApp`: the fields, the constructor defaults, one method per handler, and two small clients |

Each state-changing method of `PomodoroApp` says its new state is the transition function applied
to the old state. For the timer this is `Timer() == TimerModel.Tick(old(Timer()))`; for the list
it is `todos == Toggled(old(todos), id)`. Each method also says which other fields keep their
values. The properties themselves are lemmas about those functions.

Two behaviours of the code are easy to miss:

* `deleteTodo` is a `filter` on the id, so it removes **every** record with that id, not just one.
  `toggleTodo` uses `find`, so it flips only the **first** such record. Ids are `Date.now()`
  readings, so two records added in the same millisecond share one; `DeletedKeepsOthers` and
  `ToggledFlipsFirstMatch` state what happens then.
* `tick` ends a session when the decremented count is `<= 0`, not only when it hits 0 exactly.

## Model

| member | source | states |
|---|---|---|
| `Pomodoro.PomodoroApp.constructor` | script.js:2-11 | timer starts at 25/5 minutes, 1500 s left, in work mode, stopped, 0 sessions; the list is the saved list; the filter is "all" |
| `Pomodoro.PomodoroApp.Start` | script.js:74-81 | new timer state is `TimerModel.Start` of the old one; the list and filter are untouched |
| `Pomodoro.PomodoroApp.Pause` | script.js:83-90 | new timer state is `TimerModel.Pause` of the old one; the rest is untouched |
| `Pomodoro.PomodoroApp.Reset` | script.js:92-96 | calls `Pause`, then rewinds; new timer state is `TimerModel.Reset` of the old one |
| `Pomodoro.PomodoroApp.SwitchSession` | script.js:109-122 | new timer state is `TimerModel.SwitchSession` of the old one |
| `Pomodoro.PomodoroApp.Tick` | script.js:98-107 | new timer state is `TimerModel.Tick` of the old one; a notification is requested exactly when the session ends, and its text is chosen by the mode after the switch |
| `Pomodoro.PomodoroApp.SetWorkTime` | script.js:44-51 | new timer state is `TimerModel.SetWorkTime` of the old one and the slider value |
| `Pomodoro.PomodoroApp.SetBreakTime` | script.js:53-60 | new timer state is `TimerModel.SetBreakTime` of the old one and the slider value |
| `Pomodoro.PomodoroApp.TimeText` | script.js:124-127 | the countdown text; for a non-negative count it reads back as exactly `currentTime` |
| `Pomodoro.PomodoroApp.AddTodo` | script.js:152-167 | the list becomes `Added(old list, input, id, date)`; the input box is cleared exactly when the input is not all whitespace |
| `Pomodoro.PomodoroApp.ToggleTodo` | script.js:169-177 | finds the first record with the id and flips it in place; the list becomes `Toggled(old list, id)` |
| `Pomodoro.PomodoroApp.DeleteTodo` | script.js:179-184 | the list becomes `Deleted(old list, id)`; the timer and filter are untouched |
| `Pomodoro.PomodoroApp.ClearCompletedTodos` | script.js:186-191 | the list becomes `ClearedCompleted(old list)`; the timer and filter are untouched |
| `Pomodoro.PomodoroApp.SetFilter` | script.js:193-194 | stores the filter name; the list and timer are untouched |
| `Pomodoro.PomodoroApp.GetFilteredTodos` | script.js:200-209 | the shown records are an order-preserving selection of the stored ones, and all of them for a name other than "active"/"completed" |
| `Pomodoro.PomodoroApp.RemainingText` | script.js:235-238 | the counter text starts with the open count in decimal, reading back as it, then " task remaining" for exactly 1 and " tasks remaining" otherwise |
| `Pomodoro.PomodoroApp.ClearCompletedVisible` | script.js:236-239 | the clear-completed control is displayed exactly when some stored record is completed |
| `Pomodoro.StartPauseResetClient` | script.js:74-96 | from the constructor state, start twice, pause twice and reset: stopped, showing "25:00" |
| `Pomodoro.AddToggleClearClient` | script.js:152-191 | on the object: add "A" and "B", toggle "A", clear completed: texts are ["B"], "1 task remaining", clear control hidden |
| `TimerModel.StartRuns` | script.js:74-81 | `start` sets only `isRunning`; on a running timer it changes nothing; it is idempotent |
| `TimerModel.PauseStops` | script.js:83-90 | `pause` clears only `isRunning`; on a stopped timer it changes nothing; a second pause is a no-op |
| `TimerModel.ResetRewinds` | script.js:92-96 | `reset` stops the timer and sets the count to the current mode's full length; mode, durations and session count stay; idempotent |
| `TimerModel.TickCountsDown` | script.js:98-102 | a tick with more than 1 s left takes exactly 1 s off and changes nothing else |
| `TimerModel.TickEndsWork` | script.js:98-122 | the tick that ends work stops the timer, enters break with `breakTime*60` and adds 1 to the session count |
| `TimerModel.TickEndsBreak` | script.js:98-122 | the tick that ends a break stops the timer and enters work with `workTime*60`; the session count stays |
| `TimerModel.SwitchSessionAlternates` | script.js:109-122 | the mode flips; the count becomes the new mode's full length; only a work→break switch counts a session; durations and running flag stay |
| `TimerModel.NotificationNamesEndedSession` | script.js:135-141 | after a session ends, the notification title names the session that ended |
| `TimerModel.SetWorkTimeEffect` | script.js:44-51 | the work slider always stores the value, and rewinds the count to `minutes*60` only when stopped in work mode |
| `TimerModel.SetBreakTimeEffect` | script.js:53-60 | the break slider always stores the value, and rewinds the count only when stopped in break mode |
| `TimerModel.TicksAdd` | script.js:98-107 | n+m ticks are m ticks followed by n ticks |
| `TimerModel.TicksCountDown` | script.js:98-102 | fewer ticks than the seconds left only count down, by the number of ticks |
| `TimerModel.SessionEndsOnTime` | script.js:98-122 | exactly as many ticks as seconds left end the session with a switch from the stopped, zeroed state |
| `TimerModel.WorkAndBreakCycle` | script.js:74-122 | a full work session, start pressed again, then a full break: the state is as before but stopped, with one more session |
| `TimerModel.InRangePreserved` | script.js:44-122 | with durations of 1-60 minutes and 1-3600 s left, start, pause, reset, tick and switchSession keep those bounds, and so do the sliders given values in range |
| `TimerModel.InRangeDisplaysFiveCharacters` | script.js:124-127 | in range, the countdown text is five characters with the colon in the middle |
| `TimerModel.InitialInRange` | script.js:3-8 | the constructor's timer state is in range and displays "25:00" |
| `TimerDisplay.FormatTimeShape` | script.js:124-127 | for t ≥ 0: minutes in ≥ 2 digits reading back as floor(t/60), a colon, then 2 digits reading back as t mod 60; five characters exactly when t < 6000, and a leading zero exactly when t < 600 |
| `TimerDisplay.PaddedMinutes` | script.js:125-127 | the padded minutes are at least two digits reading back as the count, exactly two below 100, with a leading zero exactly below 10 |
| `TimerDisplay.PaddedSeconds` | script.js:126-127 | the padded seconds are exactly two digits reading back as the count |
| `TimerDisplay.ReadClockFormatTime` | script.js:124-127 | reading the display text back gives the seconds it was made from |
| `TimerDisplay.FormatTimeInjective` | script.js:124-127 | different non-negative counts display differently |
| `TimerDisplay.FormatTimeExamples` | script.js:124-127 | 125 → "02:05", 0 → "00:00", 3599 → "59:59", 6000 → "100:00" |
| `TimerDisplay.FormatTimeNegative` | script.js:125-127 | negative counts follow the JavaScript operators: -1 → "-1:-1", -61 → "-2:-1" |
| `JsText.TrimIsTheInnerSlice` | script.js:153 | `trim` returns the slice after the leading whitespace; it drops only whitespace on both sides and neither starts nor ends with whitespace |
| `JsText.TrimEmptyIff` | script.js:153-154 | the trimmed text is empty exactly when the input is all whitespace |
| `JsText.TrimIdempotent` | script.js:153 | trimming twice is trimming once |
| `JsText.NatToStringReadsBack` | script.js:127 | the decimal spelling reads back as the number, has no leading zero, and has 1 digit exactly for 0-9 and 2 exactly for 10-99 |
| `JsText.PadStart2Digits` | script.js:127 | padding keeps the digit value and the original digits at the end, and gives length max(2, n) |
| `JsText.JsRemainderTruncates` | script.js:126 | `%` agrees with the mathematical remainder on non-negative values; it is odd in the dividend and smaller than the divisor in magnitude |
| `TodoModel.AddedAppendsOne` | script.js:152-167 | all-whitespace input changes nothing; other input appends exactly one open record with the trimmed text, the id and the date, and earlier records stay |
| `TodoModel.FindTodo` | script.js:170 | `find` returns None exactly when no record has the id; otherwise it returns the first index whose record has it |
| `TodoModel.ToggledFlipsFirstMatch` | script.js:169-177 | toggling flips `completed` on the first record with the id only |
| `TodoModel.ToggledNoMatch` | script.js:170-171 | toggling an id no record has leaves the list identical |
| `TodoModel.ToggledTwice` | script.js:169-177 | toggling the same id twice restores the list |
| `TodoModel.ToggledKeepsRecords` | script.js:169-177 | toggling keeps the length and every record's id, text, date and position |
| `TodoModel.DeletedKeepsOthers` | script.js:179-184 | delete keeps, in order and with their multiplicities, exactly the records whose id differs; none with the id remains; an absent id changes nothing |
| `TodoModel.DeletedIdempotent` | script.js:179-184 | deleting the same id twice is deleting it once |
| `TodoModel.ClearedCompletedKeepsOpen` | script.js:186-191 | clear keeps, in order and with their multiplicities, exactly the open records; none completed remains; the open count stays; idempotent |
| `TodoModel.FilteredTodosView` | script.js:200-209 | "active" shows exactly the open records and "completed" exactly the completed ones, in order and with their multiplicities; any other name shows the whole list |
| `TodoModel.FilterIsSubsequence` | script.js:180 | `filter` keeps its input's order (the result is a subsequence) |
| `TodoModel.FilterMultiplicity` | script.js:180 | `filter` keeps every occurrence of an element that passes and none of one that fails |
| `TodoModel.FilterMembership` | script.js:187 | an element is in the filtered list exactly when it is in the input and passes |
| `TodoModel.FilterKeepsAll` | script.js:180 | a filter every element passes returns its input unchanged |
| `TodoModel.FilterSplits` | script.js:235-236 | filtering by a predicate and by its negation gives lengths that add up to the input's length |
| `TodoModel.FilterElements` | script.js:203-205 | every element of a filtered list passes the filter and came from the input |
| `TodoModel.CountsAddUp` | script.js:235-236 | the open and completed counts add up to the list length |
| `TodoModel.StatsTextReadsBack` | script.js:238 | the counter text starts with the count in decimal and reads back as it; then " task remaining" for exactly 1 and " tasks remaining" otherwise |
| `TodoModel.StatsTextExamples` | script.js:238 | 0 → "0 tasks remaining", 1 → "1 task remaining", 2 → "2 tasks remaining" |
| `TodoModel.ClearCompletedShownIff` | script.js:236-239 | the clear-completed control is shown exactly when some record is completed |
| `TodoModel.TextsStayTrimmed` | script.js:152-191 | if every stored text is non-empty and trimmed, add, toggle, delete and clear keep it so |
| `TodoModel.AddToggleClearExample` | script.js:152-238 | from empty: add "A", add "B", toggle "A", clear: the list is the open "B", "1 task remaining", clear control hidden |

## Left out

- DOM plumbing is not modelled. This covers `initializeElements`, `bindEvents`, the element
  building in `renderTodos`, the button enabling in `start`/`pause`/`updateDisplay`, the label
  and session-type texts, the class changes in `setFilter`, and `style.display`. The values these
  show are the functions `TimeText`, `GetFilteredTodos`, `RemainingText` and
  `ClearCompletedVisible`. The `querySelector` in `setFilter` runs after `currentFilter` is stored,
  so it cannot affect the state.
- `setInterval`/`clearInterval` are represented by `isRunning` alone. Wall-clock scheduling and
  timer drift cannot be modelled; `Ticks` stands for successive interval callbacks.
- `playNotification`: the Notification API, its permission states and its asynchronous permission
  request are external. `Tick` returns the notification the program would ask for, with title,
  body and icon chosen from `isWorking` after the switch; whether it appears is not modelled.
- `localStorage` and JSON are not modelled: the constructor takes the saved list as a parameter,
  and `saveTodos` is not modelled. The JSON round trip turns the `createdAt` date into a string,
  which the model does not track; `createdAt` is a value the model never inspects.
- `Date.now()`, `new Date()` and `parseInt` are parameters: the id, the creation date and the
  slider minutes are given by the caller. A `NaN` from `parseInt` is not modelled.
- JavaScript numbers are modelled as unbounded integers, so the model does not capture double
  rounding: beyond 2^53, `currentTime--`, `sessionCount++`, `workTime * 60` and the `Date.now()`
  ids would no longer be exact, and from 1e21 on `toString` would use exponent notation.
- The todo text is rendered as raw HTML in `renderTodos`; this is view code and is not modelled.
- Records are values in a sequence, so `toggleTodo`'s in-place write to the found object is a
  sequence update at its index. The program holds no other reference to a record that could
  observe aliasing.
