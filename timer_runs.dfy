/** What holds over many calls: the driver calling update_timer once a
    second, and any interleaving of ticks with the Start/Pause and Reset
    buttons. */
module TimerRuns {
  import opened Records
  import opened TimerModel

  /** The timer after the driver has ticked once per input, in order. */
  function Run(t: Timer, ticks: seq<Input>): (r: Timer)
    decreases |ticks|
  {
    if ticks == [] then t else Run(UpdateTimer(t, ticks[0]), ticks[1..])
  }

  /** How many of those ticks underflowed (each one ends a period). */
  function Underflows(t: Timer, ticks: seq<Input>): (n: nat)
    decreases |ticks|
  {
    if ticks == [] then 0
    else (if Elapses(t) then 1 else 0) + Underflows(UpdateTimer(t, ticks[0]), ticks[1..])
  }

  predicate AllWritten(ticks: seq<Input>)
  {
    forall i :: 0 <= i < |ticks| ==> ticks[i].writeOk
  }

  /** Ticking over a concatenation is ticking over each part in turn. */
  lemma {:induction false} RunAppend(t: Timer, a: seq<Input>, b: seq<Input>)
    ensures Run(t, a + b) == Run(Run(t, a), b)
    ensures Underflows(t, a + b) == Underflows(t, a) + Underflows(Run(t, a), b)
    decreases |a|
  {
    if a != [] {
      assert (a + b)[0] == a[0];
      assert (a + b)[1..] == a[1..] + b;
      RunAppend(UpdateTimer(t, a[0]), a[1..], b);
    } else {
      assert a + b == b;
    }
  }

  /** While the countdown has seconds left, each tick takes exactly one and
      changes nothing else: no row, no cycle, no span change. */
  lemma {:induction false} CountDown(t: Timer, ticks: seq<Input>)
    requires t.running && |ticks| <= t.workTime
    ensures Run(t, ticks) == t.(workTime := t.workTime - |ticks|)
    ensures Underflows(t, ticks) == 0
    decreases |ticks|
  {
    if ticks != [] {
      CountDown(UpdateTimer(t, ticks[0]), ticks[1..]);
    }
  }

  /** Ticking keeps the invariant and never changes the settings. */
  lemma {:induction false} RunKeepsValid(t: Timer, ticks: seq<Input>)
    requires Valid(t)
    ensures Valid(Run(t, ticks)) && SameSettings(t, Run(t, ticks))
    decreases |ticks|
  {
    if ticks != [] {
      RunKeepsValid(UpdateTimer(t, ticks[0]), ticks[1..]);
    }
  }

  /** Ticking never rewrites or drops a history row, and adds only
      `completed` rows: at most one per underflow, and exactly one per
      underflow when every write succeeds. */
  lemma {:induction false} RunLog(t: Timer, ticks: seq<Input>)
    ensures var u := Run(t, ticks);
      t.log <= u.log &&
      |u.log| <= |t.log| + Underflows(t, ticks) &&
      (AllWritten(ticks) ==> |u.log| == |t.log| + Underflows(t, ticks)) &&
      (forall k :: |t.log| <= k < |u.log| ==> u.log[k].status == Completed)
    decreases |ticks|
  {
    if ticks != [] {
      RunLog(UpdateTimer(t, ticks[0]), ticks[1..]);
      assert AllWritten(ticks) ==> AllWritten(ticks[1..]) && ticks[0].writeOk;
    }
  }

  /** The cycle counter counts underflows modulo `cycles`. Breaks count too:
      update_timer has no notion of which period just ended. */
  lemma {:induction false} CycleCountModulo(t: Timer, ticks: seq<Input>)
    requires Valid(t)
    ensures Run(t, ticks).cycleCount == (t.cycleCount + Underflows(t, ticks)) % t.cycles
    decreases |ticks|
  {
    var c, n := t.cycleCount, t.cycles;
    if ticks == [] {
      ModUnique(c, n, 0, c);
    } else {
      var next := UpdateTimer(t, ticks[0]);
      var rest := Underflows(next, ticks[1..]);
      CycleCountModulo(next, ticks[1..]);
      assert Run(t, ticks).cycleCount == (next.cycleCount + rest) % n;
      if !Elapses(t) {
        assert Underflows(t, ticks) == rest && next.cycleCount == c;
      } else if c + 1 == n {
        assert Underflows(t, ticks) == 1 + rest && next.cycleCount == 0;
        assert c + Underflows(t, ticks) == n + rest;
        ShiftModulo(rest, n);
      } else {
        assert Underflows(t, ticks) == 1 + rest && next.cycleCount == c + 1;
      }
    }
  }

  /** Adding `n` does not change a remainder modulo `n`. */
  lemma ShiftModulo(k: nat, n: int)
    requires 1 <= n
    ensures (n + k) % n == k % n
  {
    assert k == (k / n) * n + k % n;
    assert n + k == (k / n + 1) * n + k % n;
    ModUnique(n + k, n, k / n + 1, k % n);
  }

  /** Quotient and remainder are unique. */
  lemma ModUnique(x: int, n: int, q: int, r: int)
    requires 1 <= n && x == q * n + r && 0 <= r < n
    ensures x % n == r
  {
    var q', r' := x / n, x % n;
    assert x == q' * n + r';
    if q > q' {
      assert q * n - q' * n == (q - q') * n;
      MulAtLeast(q - q', n);
      assert false;
    } else if q < q' {
      assert q' * n - q * n == (q' - q) * n;
      MulAtLeast(q' - q, n);
      assert false;
    }
  }

  lemma MulAtLeast(a: int, n: int)
    requires 1 <= a && 1 <= n
    ensures n <= a * n
  {
  }

  /** A single tick. */
  lemma RunOne(t: Timer, tick: Input)
    ensures Run(t, [tick]) == UpdateTimer(t, tick)
    ensures Underflows(t, [tick]) == if Elapses(t) then 1 else 0
  {
    assert [tick][1..] == [];
  }

  /** Splits off the last tick of a non-empty run. */
  lemma RunLast(t: Timer, ticks: seq<Input>)
    requires ticks != []
    ensures Run(t, ticks) == UpdateTimer(Run(t, ticks[..|ticks| - 1]), ticks[|ticks| - 1])
    ensures Underflows(t, ticks) ==
      Underflows(t, ticks[..|ticks| - 1]) + (if Elapses(Run(t, ticks[..|ticks| - 1])) then 1 else 0)
  {
    var prefix, last := ticks[..|ticks| - 1], ticks[|ticks| - 1];
    assert ticks == prefix + [last];
    RunAppend(t, prefix, [last]);
    RunOne(Run(t, prefix), last);
  }

  /** A running countdown of w seconds ends on tick w + 1 (not before):
      that tick writes the `completed` row, closes the span, and starts the
      long break when it brings the counter to `cycles`, the short break
      otherwise. */
  lemma FinishPeriod(t: Timer, ticks: seq<Input>)
    requires Valid(t) && t.running && |ticks| == t.workTime + 1
    ensures var u, last := Run(t, ticks), ticks[|ticks| - 1];
      Underflows(t, ticks) == 1 && u.running && u.taskStart.None? &&
      u.cycleCount == (t.cycleCount + 1) % t.cycles &&
      u.workTime == (if t.cycleCount + 1 == t.cycles then t.longBreak else t.shortBreak) &&
      u.log == t.log + (if last.writeOk then [MakeRecord(last.task, t.taskStart, last.now, Completed)] else [])
  {
    var prefix := ticks[..|ticks| - 1];
    CountDown(t, prefix);
    RunLast(t, ticks);
    if t.cycleCount + 1 == t.cycles {
      ModUnique(t.cycles, t.cycles, 1, 0);
    } else {
      ModUnique(t.cycleCount + 1, t.cycles, 0, t.cycleCount + 1);
    }
  }

  /** Whatever ticks came before, the period that an underflow starts is
      the long break exactly when the underflows counted from `t` bring the
      counter to a multiple of `cycles`, and the short break otherwise. */
  lemma LongBreakEveryCycles(t: Timer, ticks: seq<Input>)
    requires Valid(t) && ticks != []
    requires Elapses(Run(t, ticks[..|ticks| - 1]))
    ensures var u := Run(t, ticks);
      ((t.cycleCount + Underflows(t, ticks)) % t.cycles == 0 ==> u.workTime == t.longBreak && u.cycleCount == 0) &&
      ((t.cycleCount + Underflows(t, ticks)) % t.cycles != 0 ==> u.workTime == t.shortBreak)
  {
    var prefix, last := ticks[..|ticks| - 1], ticks[|ticks| - 1];
    var before, u := Run(t, prefix), Run(t, ticks);
    RunLast(t, ticks);
    RunKeepsValid(t, prefix);
    NextPeriod(before, last);
    assert u == UpdateTimer(before, last) && SameSettings(t, before);
    CycleCountModulo(t, ticks);
  }

  /** After an underflow the counter is 0 exactly in the long break. */
  lemma NextPeriod(t: Timer, tick: Input)
    requires Valid(t) && Elapses(t)
    ensures var u := UpdateTimer(t, tick);
      (u.cycleCount == 0 ==> u.workTime == t.longBreak) &&
      (u.cycleCount != 0 ==> u.workTime == t.shortBreak)
  {
  }

  /** One user or driver action. A toggle reads the clock twice: at
      `openedAt` for a span it opens, at `input.now` for its row. */
  datatype Event = Tick(input: Input) | Toggle(openedAt: int, input: Input) | ResetPressed(input: Input)

  function Step(t: Timer, e: Event): (r: Timer)
  {
    match e
    case Tick(i) => UpdateTimer(t, i)
    case Toggle(o, i) => StartTimer(t, o, i)
    case ResetPressed(i) => ResetTimer(t, i)
  }

  /** The timer after a sequence of actions, in order. */
  function Replay(t: Timer, events: seq<Event>): (r: Timer)
    decreases |events|
  {
    if events == [] then t else Replay(Step(t, events[0]), events[1..])
  }

  /** The clock readings of one action are in order and none is before `from`. */
  predicate ReadsFrom(from: int, e: Event)
  {
    match e
    case Toggle(o, i) => from <= o <= i.now
    case _ => from <= e.input.now
  }

  /** The wall clock never goes backwards: each action happens no earlier
      than `from` and no earlier than the one before it. */
  predicate NonDecreasing(from: int, events: seq<Event>)
    decreases |events|
  {
    events == [] || (ReadsFrom(from, events[0]) && NonDecreasing(events[0].input.now, events[1..]))
  }

  /** An open span did not start after `now`. */
  predicate SpanNotAfter(t: Timer, now: int)
  {
    t.taskStart.Some? ==> t.taskStart.value <= now
  }

  /** No interleaving of ticks, toggles and resets breaks the invariant or
      changes the settings, and the history only grows. */
  lemma {:induction false} ReplayKeepsValid(t: Timer, events: seq<Event>)
    requires Valid(t)
    ensures var u := Replay(t, events);
      Valid(u) && SameSettings(t, u) && t.log <= u.log
    decreases |events|
  {
    if events != [] {
      ReplayKeepsValid(Step(t, events[0]), events[1..]);
    }
  }

  /** With a clock that never goes backwards, every row written spans a
      non-negative time: its end is not before its start. */
  lemma {:induction false} ReplayElapsedNonNegative(t: Timer, from: int, events: seq<Event>)
    requires SpanNotAfter(t, from) && NonDecreasing(from, events)
    ensures var u := Replay(t, events);
      t.log <= u.log &&
      forall k :: |t.log| <= k < |u.log| ==> u.log[k].start <= u.log[k].end && 0 <= u.log[k].timeSpent
    decreases |events|
  {
    if events != [] {
      var now := events[0].input.now;
      var next := Step(t, events[0]);
      assert SpanNotAfter(next, now);
      ReplayElapsedNonNegative(next, now, events[1..]);
    }
  }

  /** The first period from a fresh timer: press Start (opening the span
      at `openedAt`), then 1501 ticks. The 1501st tick ends the 25 minutes,
      writes `completed` over the span opened by Start, and starts a
      5-minute short break. */
  lemma FirstPomodoro(openedAt: int, start: Input, ticks: seq<Input>)
    requires start.writeOk && AllWritten(ticks) && |ticks| == WorkSeconds + 1
    ensures var u := Run(StartTimer(Initial(), openedAt, start), ticks);
      var done := ticks[|ticks| - 1];
      u.running && u.workTime == 300 && u.cycleCount == 1 && u.taskStart.None? &&
      u.log == [Record(start.task, openedAt, start.now, Started, start.now - openedAt),
                Record(done.task, openedAt, done.now, Completed, done.now - openedAt)]
  {
    var started := StartTimer(Initial(), openedAt, start);
    FinishPeriod(started, ticks);
    assert ticks[|ticks| - 1].writeOk;
  }
}
