/** The PomodoroTimer object: its fields, and the four methods that update
    them in place. Each method is proved to take the object from a state to
    the state TimerModel's function of the same name gives. */
module PomodoroApp {
  import opened Records
  import TimerModel

  class PomodoroTimer {
    var running: bool        // `state`: whether ticks count down
    var workTime: int        // remaining seconds of the current period
    var shortBreak: int
    var longBreak: int
    var cycles: int
    var cycleCount: int
    var taskStart: Option<int>   // start of the open logging span
    ghost var log: seq<Record>   // rows of the history file, oldest first

    /** The fields as a TimerModel value. */
    ghost function State(): (t: TimerModel.Timer)
      reads this
    {
      TimerModel.Timer(running, workTime, shortBreak, longBreak, cycles, cycleCount, taskStart, log)
    }

    ghost predicate Valid()
      reads this
    {
      TimerModel.Valid(State())
    }

    /** A paused timer with 25 minutes on the clock, no span and no rows. */
    constructor ()
      ensures Valid() && State() == TimerModel.Initial()
    {
      running := false;
      workTime := 25 * 60;
      shortBreak := 5 * 60;
      longBreak := 15 * 60;
      cycles := 4;
      cycleCount := 0;
      taskStart := None;
      log := [];
    }

    /** log_task: one row (if the write succeeds), then the span is closed
        on `completed` and `reset`. */
    method LogTask(status: Status, task: string, now: int, writeOk: bool)
      modifies this
      ensures State() == TimerModel.LogTask(old(State()), status, TimerModel.Input(task, now, writeOk))
    {
      var start := if taskStart.Some? then taskStart.value else now;
      var end := now;
      var timeSpent := end - start;
      if writeOk {
        log := log + [Record(task, start, end, status, timeSpent)];
      }
      if status == Completed || status == Reset {
        taskStart := None;
      }
    }

    /** update_timer: returns the label's minutes and seconds, taken before
        the decrement, then ticks. */
    method UpdateTimer(task: string, now: int, writeOk: bool) returns (minutes: int, seconds: int)
      requires Valid()
      modifies this
      ensures Valid()
      ensures State() == TimerModel.UpdateTimer(old(State()), TimerModel.Input(task, now, writeOk))
      ensures minutes * 60 + seconds == old(workTime) && 0 <= seconds < 60 && 0 <= minutes
    {
      var readout := Split(workTime);
      minutes, seconds := readout.minutes, readout.seconds;
      if running {
        workTime := workTime - 1;
        if workTime < 0 {
          cycleCount := cycleCount + 1;
          LogTask(Completed, task, now, writeOk);
          if cycleCount == cycles {
            workTime := longBreak;
            cycleCount := 0;
          } else {
            workTime := shortBreak;
          }
        }
      }
    }

    /** start_timer: opens a span if none is open (reading the clock as
        `openedAt`), toggles, logs (reading it again as `now`). */
    method StartTimer(task: string, openedAt: int, now: int, writeOk: bool)
      requires Valid()
      modifies this
      ensures Valid()
      ensures State() == TimerModel.StartTimer(old(State()), openedAt, TimerModel.Input(task, now, writeOk))
    {
      if taskStart.None? {
        taskStart := Some(openedAt);
      }
      running := !running;
      if running {
        LogTask(Started, task, now, writeOk);
      } else {
        LogTask(Paused, task, now, writeOk);
      }
    }

    /** reset_timer: 25 minutes, zero cycles, a `reset` row, no span. */
    method ResetTimer(task: string, now: int, writeOk: bool)
      requires Valid()
      modifies this
      ensures Valid()
      ensures State() == TimerModel.ResetTimer(old(State()), TimerModel.Input(task, now, writeOk))
    {
      workTime := 25 * 60;
      cycleCount := 0;
      LogTask(Reset, task, now, writeOk);
      taskStart := None;
    }
  }
}
