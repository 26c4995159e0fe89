# Pomodoro timer: a Dafny model

This project models the core of a browser Pomodoro timer. The timer
alternates work and break intervals and counts each one down a second at a
time. A todo list sits next to it, and whole minutes of wall-clock work
time are credited to the selected todo. Two versions of the script are
modelled:

- `src/timer.ts` is the earlier one. When an interval runs out, it switches
  mode and stays stopped until the user starts it again.
- `dist/timer.js` is compiled from a later source. It restarts the timer by
  itself after every switch, keeps a todo list (add, delete, select, toggle
  completion, drag-and-drop reorder), and credits work time on pause and at
  the end of a work interval.

Everything is immutable data and pure functions. The clock (`Date.now()`)
is a parameter. The repeating interval is represented by the `isRunning`
flag, because the interval handle is non-null exactly while that flag is
set. A tick is therefore delivered only while the timer runs.

Files:

- `optional.dfy` holds `Option`.
- `strings.dfy` holds the JavaScript string built-ins: `trim`, integer
  `toString`, `padStart`, and decimal readers for their output.
- `format.dfy` holds `formatTime` and `formatMinutes`, each with a reader
  and a round-trip lemma.
- `pomodoro.dfy` holds the two modes and the interval lengths.
- `timer_ts.dfy` holds the timer of `src/timer.ts`.
- `todos.dfy` holds the todo list operations of `dist/timer.js`.
- `timer_js.dfy` holds the whole `dist/timer.js` session: timer, todos and
  work-time accrual.

Behaviour of the code that the model keeps:

- An interval takes its length plus one ticks. The countdown reaches 0 on
  one tick, and the switch happens on the next
  (`TimerTs.IntervalEndsStopped`, `TimerJs.IntervalEnds`).
- `src/timer.ts` stays stopped after a switch until the user starts it
  again (`TimerTs.StoppedStaysPut`). `dist/timer.js` restarts at once.
- Work time is credited in whole minutes of wall-clock time, on pause and
  at the end of a work interval. It goes to the first todo whose id is
  `currentTodoId`.
- Completing a todo flips its flag in place. The order of the list stays
  the same.
- `dist/timer.js:4-5` reads the interval lengths in minutes from the `work`
  and `break` query parameters. It falls back to 25 and 5 only when a
  parameter is missing or empty. Any other value is used as parsed, with
  no range check, so a length of 0 is allowed.
- In `dist/timer.js` the reset button is disabled while the timer runs.
  In `src/timer.ts` it never is. So a reset while running reaches only the
  earlier version (`TimerJs.Step`, `TimerTs.Step`).

## Model

| member | source | states |
|---|---|---|
| Strings.Trim | dist/timer.js:112 | `trim` drops exactly the leading and trailing ECMAScript whitespace. The result is an infix of the input with only whitespace around it, and it is empty iff the input is all whitespace |
| Strings.TrimIdempotent | dist/timer.js:112 | trimming trimmed text changes nothing |
| Strings.NatToString | src/timer.ts:23 | `toString` of a non-negative integer gives non-empty decimal digits with no leading zero, one digit below 10 and at most two below 100 |
| Strings.NatToStringRoundTrip | src/timer.ts:23 | reading back the digits `toString` printed gives the number |
| Strings.IntToString | dist/timer.js:116 | `toString` of any integer gives digits with a leading minus sign exactly for negative numbers, no leading zero, and never `-0` |
| Strings.IntToStringRoundTrip | dist/timer.js:116 | reading back the text `toString` printed gives the integer, sign included |
| Strings.CanonicalIsPrinted | src/timer.ts:23 | every digit string without a leading zero is the `toString` of the number it denotes |
| Strings.IntToStringParse | dist/timer.js:116 | the integer reader accepts a string as `i` if and only if it is exactly the `toString` of `i` |
| Strings.PadStart | src/timer.ts:23 | `padStart(w, '0')` gives max(width, length) characters: the original text at the end, fill characters before it |
| Strings.PaddedRoundTrip | src/timer.ts:23 | zero padding does not change the value the digits denote |
| Format.FormatTime | src/timer.ts:20-24 | the clock face is digits, a colon three places from the end, and exactly five characters below 100 minutes; it starts with a padding zero exactly below 10 minutes, so from 100 minutes on the minutes field is the plain number with no leading zero |
| Format.FormatTimeRoundTrip | src/timer.ts:20-24 | reading the MM and SS fields back gives MM*60+SS = seconds, with SS < 60 in two digits |
| Format.FormatTimeInjective | dist/timer.js:27-31 | two different countdown values never show the same clock face |
| Format.FormatMinutes | dist/timer.js:35-42 | the label contains 時 iff minutes >= 60, and ends in 分 iff minutes < 60 or a leftover minute count follows the hours |
| Format.FormatMinutesRoundTrip | dist/timer.js:35-42 | reading `{m}分`, `{h}時間` or `{h}時間{m}分` back gives the minutes, negative counts included |
| Format.LabelIsPrinted | dist/timer.js:35-42 | any text the label reader accepts is the label of what it read: `{m}分` only for m < 60, and from 60 on the hours field is m div 60 with the leftover m mod 60 written only when non-zero |
| Format.FormatMinutesExact | dist/timer.js:35-42 | a string reads as `m` if and only if it is `formatMinutes(m)`, so the label of every count is pinned down character by character |
| Pomodoro.Other | src/timer.ts:38 | a switch always moves to the other mode |
| TimerTs.StopTimer | src/timer.ts:87-93 | stopping clears the running flag and keeps mode and countdown |
| TimerTs.SwitchMode | src/timer.ts:37-45 | a switch gives the other mode with its full interval, leaves the running flag as it was, and the result is within bounds |
| TimerTs.Tick | src/timer.ts:50-58 | with time left, a tick takes exactly one second off and keeps mode and running flag. At zero it stops, flips the mode and loads the new mode's length, with no restart. Ticks keep the countdown within its interval |
| TimerTs.StartTimer | src/timer.ts:63-71 | start leaves a running timer alone; otherwise only the running flag is set |
| TimerTs.PauseTimer | src/timer.ts:76-82 | pause leaves a stopped timer alone; otherwise it stops with mode and countdown exactly preserved |
| TimerTs.ResetTimer | src/timer.ts:98-106 | reset gives a stopped full work interval from any state |
| TimerTs.StepKeepsValid | src/timer.ts:50-58 | every button and every tick keeps 0 <= timeRemaining <= length(mode) |
| TimerTs.RunKeepsValid | src/timer.ts:37-39 | any run of events from a state within bounds stays within bounds |
| TimerTs.ReachableValid | src/timer.ts:6-7 | every state reachable from `(work, WORK_TIME)` keeps 0 <= timeRemaining <= length(mode) |
| TimerTs.PauseIdempotent | src/timer.ts:76-82 | pausing twice equals pausing once |
| TimerTs.Step | src/timer.ts:109-111 | a running timer stays in its mode while it runs, and stops only on pause, reset, or a firing at zero. A stopped timer is changed only by start or reset, so a firing while stopped does nothing |
| TimerTs.ResetIdempotent | src/timer.ts:98-102 | resetting twice equals resetting once |
| TimerTs.Countdown | src/timer.ts:51-53 | k <= n ticks from a running countdown at n give n-k, with mode and running flag kept |
| TimerTs.IntervalEndsStopped | src/timer.ts:55-56 | a full interval runs length+1 ticks and ends stopped in the other mode with that mode's full length |
| TimerTs.DefaultWorkInterval | src/timer.ts:3-4 | with `WORK_TIME = 1500` and `BREAK_TIME = 300`, a started work interval takes 1501 firings and leaves a stopped 300-second break |
| TimerTs.StoppedStaysPut | src/timer.ts:87-93 | once stopped, no number of ticks moves the timer: there is no auto-restart |
| Todos.FindTodo | dist/timer.js:153 | `find` returns the first todo with the id, and nothing exactly when no todo has it |
| Todos.ToggleComplete | dist/timer.js:152-160 | toggle flips `completed` on the first todo with the id only. Order and all other fields are kept, and a missing id is a no-op |
| Todos.ToggleTwice | dist/timer.js:155 | toggling the same id twice is the identity |
| Todos.AddWorkTime | dist/timer.js:216-218 | only the first todo with the id gains the minutes. Order and all other fields are kept, and a missing id changes nothing |
| Todos.CreditNeverDecreases | dist/timer.js:270-272 | a non-negative credit never lowers any todo's work time |
| Todos.AddTodo | dist/timer.js:111-128 | blank input changes nothing. Otherwise the old list is an unchanged prefix and the one new last todo has the trimmed, non-empty text, `workTime` 0, `completed` false, the `toString` of the clock as id and the given creation time |
| Todos.RemoveId | dist/timer.js:133 | the survivors are exactly the todos with another id |
| Todos.KeptPositions | dist/timer.js:133 | the kept positions are increasing and are exactly the positions whose todo has another id |
| Todos.RemoveIdKeepsOrder | dist/timer.js:133 | the k-th survivor of a delete is the todo at the k-th kept position, so relative order is preserved |
| Todos.RemoveMissingId | dist/timer.js:133 | deleting an id no todo has leaves the list unchanged |
| Todos.RemoveIdIdempotent | dist/timer.js:132-140 | deleting twice equals deleting once |
| Todos.AddThenRemove | dist/timer.js:111-140 | deleting a todo just added under a fresh id gives the list back |
| Todos.SpliceStart | dist/timer.js:176 | `splice(newIndex, 0, x)` inserts at `newIndex`, or at the end when `newIndex` is past it |
| Todos.MoveTodo | dist/timer.js:171-179 | the two-splice reorder is a permutation with the moved todo at the insertion index. Taking it out again gives the list with the moved todo removed, so the others keep their relative order |
| Todos.MoveBack | dist/timer.js:175-176 | dragging the todo back from where it landed restores the list |
| TimerJs.ElapsedMinutes | dist/timer.js:215 | the credit is floor((now - start) / 60000): the largest r with r*60000 <= now - start, never negative when the clock did not go back |
| TimerJs.RecordWork | dist/timer.js:214-222 | the accrual block credits exactly the first todo matching `currentTodoId` with the elapsed whole minutes and changes nothing else |
| TimerJs.StartTimer | dist/timer.js:248-260 | start leaves a running timer alone. Otherwise it sets the running flag and records `workStartTime = now` only in work mode, with mode, countdown, todos and selection kept |
| TimerJs.StopTimer | dist/timer.js:286-292 | stopping changes only the running flag |
| TimerJs.PauseTimer | dist/timer.js:264-282 | pause leaves a stopped timer alone; otherwise it stops with mode and countdown kept. Only when accrual is due (work mode, selection and start time set) is the selected todo credited and the start time cleared; otherwise todos and start time are kept |
| TimerJs.SwitchMode | dist/timer.js:212-231 | a switch credits the selected todo only when a work interval ends with accrual due. It moves to the other mode with its full length and always ends running; a new work interval records `now` as its start |
| TimerJs.Tick | dist/timer.js:235-244 | with time left, a tick only takes one second off. At zero it flips the mode, loads the new length and ends running (auto-restart) |
| TimerJs.ResetTimer | dist/timer.js:296-304 | reset gives a stopped full work interval, credits nothing, and keeps todos, selection and start time |
| TimerJs.AddTodo | dist/timer.js:111-128 | adding leaves the timer and the selection alone, and either changes nothing or appends one todo |
| TimerJs.DeleteTodo | dist/timer.js:132-140 | the todos left are exactly those with another id. The selection is cleared iff it was that id and otherwise kept, and the timer is untouched |
| TimerJs.SelectTodo | dist/timer.js:144-148 | the selection becomes the id with no existence check, and nothing else changes |
| TimerJs.ToggleComplete | dist/timer.js:152-160 | toggling leaves the timer and the selection alone and flips only the first matching todo in place |
| TimerJs.MoveTodo | dist/timer.js:171-179 | the reorder leaves the timer and the selection alone and permutes the todos |
| TimerJs.StepKeepsInv | dist/timer.js:248-258 | every event keeps the countdown within its interval, and a timer running in work mode always has a start time |
| TimerJs.RunKeepsInv | dist/timer.js:235-244 | any run of events from a state satisfying the invariant keeps it |
| TimerJs.Step | dist/timer.js:248-308 | a running timer is stopped only by pause: a reset click is not delivered while running, and a switch restarts at once. A stopped timer is started only by start. A firing or pause while stopped, and a drop from outside the list, change nothing |
| TimerJs.AccrualDue | dist/timer.js:268 | the guard `currentMode === 'work' && currentTodoId && workStartTime` with JavaScript truthiness: the id must be set and non-empty, the start time set and non-zero |
| TimerJs.FalsyFieldsSkipAccrual | dist/timer.js:214 | an empty selected id or a start time of 0 blocks the credit: pause keeps todos and start time, and a switch keeps the todos |
| TimerJs.ReachableInv | dist/timer.js:6-12 | every state reachable after loading satisfies the invariant |
| TimerJs.PauseIdempotent | dist/timer.js:264-266 | pausing twice equals pausing once, whatever the clock reads the second time |
| TimerJs.ResetIdempotent | dist/timer.js:296-300 | resetting twice equals resetting once |
| TimerJs.DeleteIdempotent | dist/timer.js:132-136 | deleting the same id twice equals deleting it once |
| TimerJs.DeletedSelectionEarnsNothing | dist/timer.js:134-136 | after the selected todo is deleted, a pause credits no todo |
| TimerJs.UnknownSelectionEarnsNothing | dist/timer.js:270-271 | a selection that no todo has makes pause and switch credit no todo |
| TimerJs.ShortSpanIsDropped | dist/timer.js:268-277 | a pause less than a minute after the work start credits nothing yet clears the start time, so that partial minute is never credited |
| TimerJs.Countdown | dist/timer.js:236-239 | ticks at any clock readings, no more than the time left, only count down |
| TimerJs.IntervalEnds | dist/timer.js:240-243 | a running interval ends after its time left plus one ticks, already running in the other mode at full length |
| TimerJs.FullCycle | dist/timer.js:212-231 | a work interval started at t0 and run out credits the selected todo with the whole minutes from t0 to its last tick. The break after it credits nothing and hands over to a running full work interval that starts at the last break tick |

## Left out

- Rendering is not modelled: `renderTodos`, `updateDisplay`, the mode labels, enabling and disabling buttons, and the event listeners. These are presentation. The `Step` functions stand in for the listeners.
- `alert` in `switchMode` of `src/timer.ts` is a side effect on the user interface and does not affect the state.
- `playNotificationSound` is left out: Web Audio with floating-point gain ramps is a side effect. The `soundToggle` gate decides only whether it plays.
- `setInterval`/`clearInterval` are represented only by the `isRunning` flag. The 1000 ms scheduling is outside the model, and a tick is delivered only while the timer runs.
- `loadTodos`/`saveTodos` (`localStorage` with JSON) are I/O. The list read at start is a parameter of `TimerJs.Initial`, and saving has no effect on the state.
- `initSortable`'s SortableJS wiring is a third-party library. Only the two-splice reorder in its `onEnd` callback is modelled.
- Reading the interval lengths with `URLSearchParams` and `parseInt` is left out, since `parseInt` can give NaN or negative numbers. The lengths are natural-number parameters (`Config`), and `src/timer.ts` uses the constants 1500 and 300 (`TimerTs.DefaultConfig`).
- `Date.now()` readings are parameters. `switchMode` reads the clock at most once: for the credit when a work interval ends, or for the new start time when a work interval begins. `addTodo` reads it twice, and the model keeps both readings (`idTime`, `createdAt`).
- Id uniqueness is not claimed. Two todos added within the same millisecond share an id, and lookups by id act on the first one.
- A drop whose old index is outside the list is taken by `TimerJs.Step` as a step that changes nothing. In the source, `splice` would then insert `undefined`. The drag library reports positions of rendered todos, so such a drop does not arise from the list. Negative indices are not modelled.
- Format.FormatTime: the argument is a natural number. The countdown never goes below zero, so the source's `Math.floor` and `%` on negative seconds are not modelled.
- TimerJs.ElapsedMinutes: it is exact integer floor division. The source divides doubles twice before `Math.floor`, and the rounding of those two divisions is not modelled. Work times are unbounded integers rather than doubles.
- Numbers are unbounded integers, and the source's are IEEE doubles. Integer arithmetic on doubles is exact only up to 2^53, and the interval lengths have no upper bound. The model is faithful only below those sizes.
- Strings.NatToString: plain decimal digits for every number. `Number.prototype.toString` switches to exponent notation from 10^21 (`(1e21).toString()` is `"1e+21"`), which is not modelled.
- Strings.IntToString: the same holds for magnitudes from 10^21 on.
- TimerTs.Countdown: each firing takes exactly one second off at any size. `timeRemaining--` on a double is exact only below 2^53.
- TimerJs.Countdown: the same holds as for `TimerTs.Countdown`.
- JavaScript strings are UTF-16 code units, and the model uses Unicode scalar values. Every character `trim` removes is a single code unit, so trimming agrees.
