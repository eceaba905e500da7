/** The timer's methods when the history write can fail in a way log_task
    does not catch. log_task catches only PermissionError; any other error
    from opening or writing the file (a full disk, a task label the file's
    encoding cannot hold) leaves log_task, and the method that called it,
    at the point of the write. TimerModel treats every failed write as the
    caught kind; the lemmas here show where the code as written differs. */
module TimerAsWritten {
  import opened Records
  import opened TimerModel
  import opened TimerRuns

  /** How the append to the history file ends. */
  datatype Outcome = Written | Denied | Raised

  /** How a method ends: it returns with the new state, or an exception
      leaves it with the fields as they were when the write was tried. */
  datatype Ending = Returned(timer: Timer) | Aborted(timer: Timer)

  function AsInput(task: string, now: int, outcome: Outcome): (i: Input)
    ensures i.task == task && i.now == now && (i.writeOk <==> outcome == Written)
  {
    Input(task, now, outcome == Written)
  }

  /** log_task with the three outcomes of the write. */
  function LogTaskAsWritten(t: Timer, status: Status, task: string, now: int, outcome: Outcome): (r: Ending)
    ensures r.Aborted? <==> outcome == Raised
    ensures r.Aborted? ==> r.timer == t
    ensures r.Returned? ==> r.timer == LogTask(t, status, AsInput(task, now, outcome))
  {
    match outcome
    case Raised => Aborted(t)
    case Written => Returned(LogTask(t, status, Input(task, now, true)))
    case Denied => Returned(LogTask(t, status, Input(task, now, false)))
  }

  /** update_timer as written: an exception from the `completed` write
      leaves it after `cycle_count += 1`, before the next period is loaded
      and before `master.after` re-arms the tick. */
  function UpdateTimerAsWritten(t: Timer, task: string, now: int, outcome: Outcome): (r: Ending)
  {
    if !t.running then Returned(t)
    else
      var counted := t.(workTime := t.workTime - 1);
      if counted.workTime >= 0 then Returned(counted)
      else
        match LogTaskAsWritten(counted.(cycleCount := counted.cycleCount + 1), Completed, task, now, outcome)
        case Aborted(s) => Aborted(s)
        case Returned(logged) =>
          if logged.cycleCount == logged.cycles then Returned(logged.(workTime := logged.longBreak, cycleCount := 0))
          else Returned(logged.(workTime := logged.shortBreak))
  }

  /** start_timer as written: an exception from the write leaves the span
      opened and `state` flipped, with no row. */
  function StartTimerAsWritten(t: Timer, openedAt: int, task: string, now: int, outcome: Outcome): (r: Ending)
  {
    var withSpan := if t.taskStart.None? then t.(taskStart := Some(openedAt)) else t;
    var toggled := withSpan.(running := !withSpan.running);
    LogTaskAsWritten(toggled, if toggled.running then Started else Paused, task, now, outcome)
  }

  /** reset_timer as written: an exception from the write skips the final
      `task_start_time = None`. */
  function ResetTimerAsWritten(t: Timer, task: string, now: int, outcome: Outcome): (r: Ending)
  {
    var restored := t.(workTime := 25 * 60, cycleCount := 0);
    match LogTaskAsWritten(restored, Reset, task, now, outcome)
    case Aborted(s) => Aborted(s)
    case Returned(logged) => Returned(logged.(taskStart := None))
  }

  /** When the write succeeds or fails with PermissionError, the methods
      as written end exactly as TimerModel's functions say. */
  lemma CaughtWritesAgree(t: Timer, openedAt: int, task: string, now: int, outcome: Outcome)
    requires outcome != Raised
    ensures UpdateTimerAsWritten(t, task, now, outcome) == Returned(UpdateTimer(t, AsInput(task, now, outcome)))
    ensures StartTimerAsWritten(t, openedAt, task, now, outcome) == Returned(StartTimer(t, openedAt, AsInput(task, now, outcome)))
    ensures ResetTimerAsWritten(t, task, now, outcome) == Returned(ResetTimer(t, AsInput(task, now, outcome)))
  {
  }

  /** An uncaught error on the `completed` write of an underflow stops the
      timer half-way: the countdown is left at -1, the counter can equal
      `cycles`, the span stays open, no row is written, and the method ends
      by exception, so the tick is never rescheduled. */
  lemma RaisedWriteStopsTick(t: Timer, task: string, now: int)
    requires Valid(t) && Elapses(t)
    ensures var r := UpdateTimerAsWritten(t, task, now, Raised);
      r.Aborted? && r.timer.workTime == -1 && !Valid(r.timer) &&
      r.timer.taskStart == t.taskStart && r.timer.log == t.log &&
      r.timer.cycleCount == t.cycleCount + 1 &&
      (t.cycleCount + 1 == t.cycles ==> r.timer.cycleCount == r.timer.cycles)
  {
  }

  /** The same from the constructed state: Start, 1500 ticks, and the
      1501st tick's write raising leaves -1 seconds on the clock. */
  lemma RaisedWriteFromStart(openedAt: int, start: Input, ticks: seq<Input>, task: string, now: int)
    requires |ticks| == WorkSeconds
    ensures var r := UpdateTimerAsWritten(Run(StartTimer(Initial(), openedAt, start), ticks), task, now, Raised);
      r.Aborted? && r.timer.workTime == -1 && r.timer.cycleCount == 1 && r.timer.taskStart == Some(openedAt)
  {
    var s := StartTimer(Initial(), openedAt, start);
    CountDown(s, ticks);
    RaisedWriteStopsTick(Run(s, ticks), task, now);
  }

  /** An uncaught error on the `reset` write leaves the span open, so the
      next row is measured from the old span's start. */
  lemma RaisedWriteKeepsSpanOnReset(t: Timer, task: string, now: int)
    ensures var r := ResetTimerAsWritten(t, task, now, Raised);
      r.Aborted? && r.timer.taskStart == t.taskStart && r.timer.log == t.log &&
      r.timer.workTime == WorkSeconds && r.timer.cycleCount == 0
  {
  }

  /** An uncaught error on a toggle's write leaves `state` flipped and the
      span opened, with no row. */
  lemma RaisedWriteOnToggle(t: Timer, openedAt: int, task: string, now: int)
    ensures var r := StartTimerAsWritten(t, openedAt, task, now, Raised);
      r.Aborted? && r.timer.running == !t.running && r.timer.log == t.log &&
      r.timer.taskStart == (if t.taskStart.None? then Some(openedAt) else t.taskStart)
  {
  }
}
