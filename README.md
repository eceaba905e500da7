# Pomodoro timer: a Dafny model of its countdown state machine

This project models the `PomodoroTimer` class of a small Tk desktop Pomodoro
timer (`pomodoro.py`). The class holds a countdown (`work_time`), a
running/paused flag (`state`), a cycle counter (`cycle_count`, bounded by
`cycles`), two break lengths, and the start of the open logging span
(`task_start_time`). Four methods change these fields:

- `update_timer` is called once a second. While running it takes one second
  off. When the countdown underflows, it counts a cycle, writes a `completed`
  row, and loads the long break (every `cycles`-th underflow) or the short
  break.
- `start_timer` is the Start/Pause button. It opens a span if none is open,
  flips `state`, and writes `started` or `paused`.
- `reset_timer` restores 25 minutes and a zero cycle count, writes `reset`
  and closes the span.
- `log_task` builds the row (task, start, end, status, time spent) and
  appends it to the history file. It closes the span after `completed` and
  `reset`, even when the write fails with `PermissionError`; an uncaught
  write error leaves the span open (`TimerAsWritten.RaisedWriteKeepsSpanOnReset`).

Layout:

- `records.dfy` (module `Records`): the row, how a row is built, and the
  minutes/seconds split of the label.
- `timer_model.dfy` (module `TimerModel`): the timer's fields as a value
  `Timer`, and one function per method giving the state after it. Each
  function's contract states what the method promises.
- `timer_runs.dfy` (module `TimerRuns`): properties of many calls. It covers
  runs of ticks, as the once-a-second driver makes them, and any interleaving
  of ticks, toggles and resets.
- `timer_as_written.dfy` (module `TimerAsWritten`): the three methods when a
  write fails with an error that `log_task` does not catch.
- `pomodoro_timer.dfy` (module `PomodoroApp`): the class itself, with the
  source's fields. Its methods update them in place. Each method is proved to
  reach the state the `TimerModel` function of the same name gives. The
  history file is a ghost sequence of rows.

Modelling choices:

- The wall clock, the task label in the combo box and the success of the file
  write are parameters of each call: `now`, `task` and `writeOk`. Timestamps
  are whole seconds. Time spent is `end - start`. `start_timer` reads the
  clock twice, once to open a span and once for the row, so it takes two
  readings, `openedAt` and `now`.
- `writeOk = false` stands for a write that fails and is caught. In the code
  only `PermissionError` is caught. Other write errors escape the method;
  `TimerAsWritten` models them (see "## Findings").
- `if self.task_start_time` tests a `datetime`, which is always truthy, so it
  is modelled as "a span is open" (`taskStart.Some?`).
- `divmod(work_time, 60)` floors. Dafny's `/` and `%` agree with it for the
  positive divisor 60, negative values included.
- The properties need only non-negative break lengths and `cycles >= 1`
  (`TimerModel.Valid`). The source's own values are 300, 900 and 4.

The code behaves in ways a reader might not expect; the model follows the
code:

- There is no interval kind. Every underflow counts a cycle, including the
  end of a break, and is followed by a break. The countdown returns to 25
  minutes only through reset. So with `cycles = 4` the periods are loaded
  with 1500, 300, 300, 300, 900, 300, … seconds, and each lasts one tick
  longer, because the underflow happens only at −1 (`TimerRuns.FinishPeriod`,
  `TimerRuns.CycleCountModulo`, `TimerRuns.LongBreakEveryCycles`).
- `reset_timer` hard-codes `25*60` and leaves `state` as it was.
- `start_timer` opens a span before toggling, so a pause with no open span
  opens one. The `paused` row then spans only the time between the two clock
  readings of that call.
- The span is closed after `completed` and `reset` whether the row was
  written or the write failed with `PermissionError`; an uncaught write error
  leaves the span open (`TimerAsWritten.RaisedWriteKeepsSpanOnReset`).

## Model

| member | source | states |
|---|---|---|
| `Records.MakeRecord` | pomodoro.py:104-115 | A row ends at `now`. It starts at the open span's start, or at `now` when none is open (then zero time). Time spent is end minus start. It is non-negative when the span did not start after `now`. |
| `Records.Split` | pomodoro.py:66 | The label's split is floor division by 60: `minutes*60 + seconds == t`, `0 <= seconds < 60`, and minutes are non-negative exactly when `t` is. |
| `TimerModel.Initial` | pomodoro.py:15-21 | The constructed timer is paused and satisfies the invariant. It has 1500 s, 300/900 s breaks, 4 cycles, count 0, no span and no rows. |
| `TimerModel.LogTask` | pomodoro.py:104-124 | Appends exactly the row `MakeRecord` gives when the write succeeds and nothing otherwise. It closes the span exactly on `completed`/`reset`, even when the write failed. No other field changes. |
| `TimerModel.UpdateTimer` | pomodoro.py:65-79 | A paused tick changes nothing, log included. A running tick without underflow takes exactly one second and changes nothing else. An underflow writes one `completed` row and closes the span. It picks the long break and count 0 exactly when the count reaches `cycles`, otherwise the short break and count + 1. The invariant is kept. |
| `TimerModel.StartTimer` | pomodoro.py:86-95 | Flips `running`. Sets the span start to the first clock reading `openedAt`, and only when no span is open, so an open span is never overwritten. Writes `started` iff the new state is running and `paused` iff not, ending at the second reading `now`. Countdown, count and settings are unchanged. The invariant is kept. |
| `TimerModel.ResetTimer` | pomodoro.py:97-102 | Sets 1500 s and count 0, closes the span, and writes one `reset` row from the old span. `running` and the settings are unchanged. The result satisfies the invariant. |
| `TimerModel.StartTwice` | pomodoro.py:86-95 | Two toggles restore `running` and keep the span the first one opened. They write one row per successful write: `started` then `paused` from a paused timer, `paused` then `started` from a running one. |
| `TimerModel.ResetTwice` | pomodoro.py:97-102 | A second reset gives the first reset's state plus one zero-length `reset` row. |
| `TimerRuns.RunAppend` | pomodoro.py:65-79 | Ticking through `a + b` equals ticking through `a` then `b`, and the underflow counts add up. |
| `TimerRuns.CountDown` | pomodoro.py:68-70 | While seconds remain, `n` ticks take exactly `n` seconds. They make no underflow, no row and no other change. |
| `TimerRuns.RunKeepsValid` | pomodoro.py:68-78 | Any run of ticks whose writes succeed or are caught keeps the invariant (`0 <= workTime`, `0 <= cycleCount < cycles`) and never changes the break lengths or `cycles`. |
| `TimerRuns.RunLog` | pomodoro.py:68-78 | Ticking keeps the old log as a prefix. It adds only `completed` rows: at most one per underflow, and exactly one per underflow when every write succeeds. |
| `TimerRuns.CycleCountModulo` | pomodoro.py:72-78 | After any run, the cycle count is the old count plus the number of underflows, modulo `cycles`. |
| `TimerRuns.FinishPeriod` | pomodoro.py:68-78 | A running countdown of `w` seconds underflows on tick `w + 1`, exactly once. That tick writes the single `completed` row over the open span and closes it. It loads the long break iff the count reaches `cycles`, else the short break. |
| `TimerRuns.LongBreakEveryCycles` | pomodoro.py:72-78 | After any run whose last tick underflows, the new period is the long break (count 0) when the underflows bring the count to a multiple of `cycles`, and the short break otherwise. |
| `TimerRuns.ReplayKeepsValid` | pomodoro.py:65-102 | No interleaving of ticks, toggles and resets whose writes succeed or are caught breaks the invariant (`0 <= workTime`, `0 <= cycleCount < cycles`) or changes the settings. The history only grows. |
| `TimerRuns.ReplayElapsedNonNegative` | pomodoro.py:104-115 | With a clock that never goes backwards (including between a toggle's two readings), every row any interleaving writes has `start <= end` and non-negative time spent. |
| `TimerRuns.FirstPomodoro` | pomodoro.py:65-95 | From a new timer, Start (span opened at `openedAt`) then 1501 ticks give exactly two rows: `started` from `openedAt` to the Start call's second reading, and `completed` from `openedAt` to the last tick. The timer is then in a 300 s short break with count 1 and no span. |
| `TimerAsWritten.LogTaskAsWritten` | pomodoro.py:116-124 | Ends by exception exactly when the write raises an uncaught error, with the state unchanged. Otherwise it ends as `TimerModel.LogTask` with `writeOk` true iff the row was written. |
| `TimerAsWritten.CaughtWritesAgree` | pomodoro.py:65-124 | When the write succeeds or raises `PermissionError`, `update_timer`, `start_timer` and `reset_timer` as written return exactly the `TimerModel` functions' states. |
| `TimerAsWritten.RaisedWriteStopsTick` | pomodoro.py:68-79 | An uncaught write error at an underflow ends `update_timer` by exception with `work_time` at −1, the count raised by one (possibly equal to `cycles`), the span open and no row. The invariant is broken and the tick is not re-armed. |
| `TimerAsWritten.RaisedWriteFromStart` | pomodoro.py:65-95 | From a new timer after Start and 1500 ticks, an uncaught error on the first `completed` write (the 1501st tick) leaves −1 seconds, count 1 and the Start span open. |
| `TimerAsWritten.RaisedWriteKeepsSpanOnReset` | pomodoro.py:97-102 | An uncaught write error in `reset_timer` leaves 1500 s and count 0, but the span stays open and no row is written. |
| `TimerAsWritten.RaisedWriteOnToggle` | pomodoro.py:86-95 | An uncaught write error in `start_timer` leaves `state` flipped and the span opened, with no row. |
| `PomodoroApp.PomodoroTimer.constructor` | pomodoro.py:15-21 | The fields start as `TimerModel.Initial` gives them. |
| `PomodoroApp.PomodoroTimer.LogTask` | pomodoro.py:104-124 | The in-place update reaches `TimerModel.LogTask` of the old state. |
| `PomodoroApp.PomodoroTimer.UpdateTimer` | pomodoro.py:65-79 | It returns the minutes/seconds split of the countdown before the decrement, with the seconds in 0..59. It reaches `TimerModel.UpdateTimer` of the old state and keeps the invariant. |
| `PomodoroApp.PomodoroTimer.StartTimer` | pomodoro.py:86-95 | The in-place toggle, with the clock read as `openedAt` for the span and `now` for the row, reaches `TimerModel.StartTimer` of the old state and keeps the invariant. |
| `PomodoroApp.PomodoroTimer.ResetTimer` | pomodoro.py:97-102 | The in-place reset reaches `TimerModel.ResetTimer` of the old state and keeps the invariant. |

## Findings

| source | as written | input that shows it | evidently intended | confidence | as-written member | corrected member |
|---|---|---|---|---|---|---|
| pomodoro.py:116-121 | Only `PermissionError` is caught around the history write. Any other write error escapes `log_task` and the method that called it. At an underflow, `update_timer` then stops after `cycle_count += 1`: `work_time` stays at −1, the span stays open, and `master.after` is never reached, so the countdown stops for good. | A running timer at 0 seconds ticks while the disk is full (`OSError`), or while the task label holds a character the file's default encoding cannot write (`UnicodeEncodeError`). | A failed write is reported, and timing goes on: the next period is loaded and the span closed, as for `PermissionError`. | not executed; medium | `TimerAsWritten.RaisedWriteStopsTick` | `TimerModel.UpdateTimer` |

## Left out

- Tk widgets, `StringVar`s, button texts and colours, and the window set-up in pomodoro.py:11-45: these are display only. The label's value is returned by `UpdateTimer` as minutes and seconds instead of being formatted.
- The `master.after(1000, …)` rescheduling (pomodoro.py:79, 84): one tick is one call. `TimerRuns.Run` stands for the driver calling it repeatedly.
- `winsound.Beep` (pomodoro.py:71): a sound, assumed to return and to have no effect on state. If it raised (no sound device), `update_timer` would end there with `work_time` at −1, the count not raised and no re-arm; that is not modelled.
- `update_clock` and `time.strftime` (pomodoro.py:81-84): wall-clock display only.
- `load_tasks` and `save_task` (pomodoro.py:53-63): file I/O for the task list; `save_task` is never called.
- Creating the history file with its header row, and the `open`/`csv.writer` calls (pomodoro.py:48-51, 117-119): the append is a sequence append, guarded by `writeOk`.
- The message printed when the write raises `PermissionError` (pomodoro.py:121): only its effect, no row written, is modelled.
- `datetime` values and `timedelta` arithmetic: timestamps are integers, and time spent is their difference. A clock that never goes backwards is a precondition of `TimerRuns.ReplayElapsedNonNegative` rather than a fact about `datetime.now()`.
- The module-level `root`/`mainloop` start-up (pomodoro.py:126-128).
- `self.minutes` and `self.seconds` are returned by `UpdateTimer` rather than kept as fields, since nothing else reads them.
- TimerModel.LogTask: `writeOk = false` covers every failed write, but the code catches only `PermissionError`. Any other write error escapes and ends the method early; only `TimerAsWritten` models that.
- TimerModel.UpdateTimer: assumes a failed `completed` write is caught; the early end at −1 seconds when it is not is in `TimerAsWritten.RaisedWriteStopsTick`.
- TimerModel.ResetTimer: assumes a failed `reset` write is caught; when it is not, the span stays open (`TimerAsWritten.RaisedWriteKeepsSpanOnReset`).
- TimerModel.StartTimer: assumes a failed write is caught; when it is not, no row is written but the toggle and the span stay (`TimerAsWritten.RaisedWriteOnToggle`).
- TimerRuns.RunKeepsValid: holds only for writes that succeed or are caught. An uncaught write error breaks the invariant (`TimerAsWritten.RaisedWriteStopsTick`), and the ticks after it never happen.
- TimerRuns.ReplayKeepsValid: holds only for writes that succeed or are caught, for the same reason.
