/** Values the timer reports: the lifecycle record written to the history
    file, and the minutes/seconds split shown on the countdown label. */
module Records {

  datatype Option<T> = None | Some(value: T)

  /** The four lifecycle statuses written to the history. */
  datatype Status = Started | Paused | Completed | Reset

  /** One history row: task label, span start, span end, status and time
      spent. Timestamps are whole seconds on the caller's clock. */
  datatype Record = Record(task: string, start: int, end: int, status: Status, timeSpent: int)

  /** The statuses after which the open span is closed. */
  predicate ClosesSpan(status: Status)
  {
    status == Completed || status == Reset
  }

  /** The row written for `status` at time `now`: it ends now, starts at the
      open span's start (or now when no span is open), and its time spent
      is the difference. */
  function MakeRecord(task: string, spanStart: Option<int>, now: int, status: Status): (r: Record)
    ensures r.task == task && r.status == status && r.end == now
    ensures spanStart.Some? ==> r.start == spanStart.value
    ensures spanStart.None? ==> r.start == now && r.timeSpent == 0
    ensures r.start + r.timeSpent == r.end
    ensures (spanStart.Some? ==> spanStart.value <= now) ==> r.start <= r.end && 0 <= r.timeSpent
  {
    var start := if spanStart.Some? then spanStart.value else now;
    Record(task, start, now, status, now - start)
  }

  /** Minutes and seconds of the countdown label. */
  datatype Readout = Readout(minutes: int, seconds: int)

  /** Python's divmod(t, 60): floor division. With the positive divisor 60,
      Dafny's Euclidean division coincides with it, negative t included. */
  function Split(t: int): (r: Readout)
    ensures r.minutes * 60 + r.seconds == t
    ensures 0 <= r.seconds < 60
    ensures 0 <= t <==> 0 <= r.minutes
  {
    Readout(t / 60, t % 60)
  }
}
