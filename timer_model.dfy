/** The timer's state as a value, and one function per operation of the
    timer giving the state after it. The class in PomodoroApp is proved to
    move between exactly these states; the lemmas here and in TimerRuns are
    stated about them. */
module TimerModel {
  import opened Records

  /** The countdown `reset_timer` restores: 25 minutes. */
  const WorkSeconds: int := 25 * 60

  /** What the caller supplies to one operation: the label in the task box,
      the wall clock, and whether the history file accepted the write. */
  datatype Input = Input(task: string, now: int, writeOk: bool)

  /** The timer's fields. `workTime` is the remaining countdown in seconds
      (of whichever period is running); `log` is the history file's rows. */
  datatype Timer = Timer(
    running: bool,
    workTime: int,
    shortBreak: int,
    longBreak: int,
    cycles: int,
    cycleCount: int,
    taskStart: Option<int>,
    log: seq<Record>)

  /** The state the constructor builds. */
  function Initial(): (t: Timer)
    ensures Valid(t) && !t.running && t.taskStart.None? && t.log == []
    ensures t.workTime == WorkSeconds && t.cycleCount == 0
    ensures t.shortBreak == 300 && t.longBreak == 900 && t.cycles == 4
  {
    Timer(false, 25 * 60, 5 * 60, 15 * 60, 4, 0, None, [])
  }

  /** Break lengths are non-negative, there is at least one cycle, the
      countdown is non-negative and the cycle counter is below `cycles`. */
  predicate Valid(t: Timer)
  {
    0 <= t.shortBreak && 0 <= t.longBreak && 1 <= t.cycles &&
    0 <= t.workTime && 0 <= t.cycleCount < t.cycles
  }

  /** The durations and the cycle limit are never written after construction. */
  predicate SameSettings(t: Timer, u: Timer)
  {
    t.shortBreak == u.shortBreak && t.longBreak == u.longBreak && t.cycles == u.cycles
  }

  /** A tick of a running timer whose countdown is below 1 underflows. */
  predicate Elapses(t: Timer)
  {
    t.running && t.workTime - 1 < 0
  }

  /** log_task: appends one row when the write succeeds, and closes the
      span on `completed` and `reset` whether or not it did. */
  function LogTask(t: Timer, status: Status, input: Input): (r: Timer)
    ensures r.log == t.log + (if input.writeOk then [MakeRecord(input.task, t.taskStart, input.now, status)] else [])
    ensures r.taskStart == (if ClosesSpan(status) then None else t.taskStart)
    ensures r.(log := t.log, taskStart := t.taskStart) == t
  {
    var written := if input.writeOk then t.log + [MakeRecord(input.task, t.taskStart, input.now, status)] else t.log;
    var closed := if ClosesSpan(status) then None else t.taskStart;
    t.(log := written, taskStart := closed)
  }

  /** update_timer, one tick. */
  function UpdateTimer(t: Timer, input: Input): (r: Timer)
    // a paused timer is left exactly as it was, log included
    ensures !t.running ==> r == t
    // a running timer that does not underflow loses exactly one second and nothing else
    ensures t.running && !Elapses(t) ==> r == t.(workTime := t.workTime - 1)
    // an underflow writes one `completed` row, closes the span, keeps running
    ensures Elapses(t) ==>
      r.log == t.log + (if input.writeOk then [MakeRecord(input.task, t.taskStart, input.now, Completed)] else []) &&
      r.taskStart.None? && r.running && SameSettings(t, r)
    // ... and picks the long break exactly when the counter reaches `cycles`
    ensures Elapses(t) && t.cycleCount + 1 == t.cycles ==> r.workTime == t.longBreak && r.cycleCount == 0
    ensures Elapses(t) && t.cycleCount + 1 != t.cycles ==> r.workTime == t.shortBreak && r.cycleCount == t.cycleCount + 1
    ensures Valid(t) ==> Valid(r)
  {
    if !t.running then t
    else
      var counted := t.(workTime := t.workTime - 1);
      if counted.workTime >= 0 then counted
      else
        var logged := LogTask(counted.(cycleCount := counted.cycleCount + 1), Completed, input);
        if logged.cycleCount == logged.cycles then logged.(workTime := logged.longBreak, cycleCount := 0)
        else logged.(workTime := logged.shortBreak)
  }

  /** start_timer: opens a span if none is open (even when the toggle is a
      pause), flips `running`, and logs `started` or `paused`. The clock is
      read twice: `openedAt` when the span is opened, `input.now` when the
      row is written. */
  function StartTimer(t: Timer, openedAt: int, input: Input): (r: Timer)
    ensures r.running == !t.running
    ensures r.taskStart == (if t.taskStart.None? then Some(openedAt) else t.taskStart)
    ensures r.log == t.log + (if input.writeOk then [MakeRecord(input.task, r.taskStart, input.now, if r.running then Started else Paused)] else [])
    ensures r.workTime == t.workTime && r.cycleCount == t.cycleCount && SameSettings(t, r)
    ensures Valid(t) ==> Valid(r)
  {
    var withSpan := if t.taskStart.None? then t.(taskStart := Some(openedAt)) else t;
    var toggled := withSpan.(running := !withSpan.running);
    LogTask(toggled, if toggled.running then Started else Paused, input)
  }

  /** reset_timer: restores 25 minutes and a zero cycle count, logs `reset`
      and closes the span; `running` is left as it was. */
  function ResetTimer(t: Timer, input: Input): (r: Timer)
    ensures r.workTime == WorkSeconds && r.cycleCount == 0 && r.taskStart.None?
    ensures r.running == t.running && SameSettings(t, r)
    ensures r.log == t.log + (if input.writeOk then [MakeRecord(input.task, t.taskStart, input.now, Reset)] else [])
    ensures 0 <= t.shortBreak && 0 <= t.longBreak && 1 <= t.cycles ==> Valid(r)
  {
    var restored := t.(workTime := 25 * 60, cycleCount := 0);
    LogTask(restored, Reset, input)
  }

  /** Toggling twice restores `running`; the span opened by the first
      toggle (if none was open) stays open, and the rows come in the order
      of the states: `started` then `paused` from a paused timer, `paused`
      then `started` from a running one. */
  lemma StartTwice(t: Timer, openedA: int, a: Input, openedB: int, b: Input)
    ensures var u := StartTimer(StartTimer(t, openedA, a), openedB, b);
      u.running == t.running &&
      u.taskStart == (if t.taskStart.None? then Some(openedA) else t.taskStart) &&
      u.workTime == t.workTime && u.cycleCount == t.cycleCount && SameSettings(t, u) &&
      |u.log| == |t.log| + (if a.writeOk then 1 else 0) + (if b.writeOk then 1 else 0) &&
      (a.writeOk && b.writeOk ==>
        u.log[|t.log|].status == (if t.running then Paused else Started) &&
        u.log[|t.log| + 1].status == (if t.running then Started else Paused))
  {
  }

  /** Resetting twice leaves the state of the first reset, plus one more
      `reset` row, which spans no time because the first reset closed the span. */
  lemma ResetTwice(t: Timer, a: Input, b: Input)
    ensures var once := ResetTimer(t, a);
      ResetTimer(once, b) ==
        once.(log := once.log + (if b.writeOk then [Record(b.task, b.now, b.now, Reset, 0)] else []))
  {
  }
}
