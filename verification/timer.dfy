/** The one-second countdown updater shared by both live-assessment views:
    `prev <= 1` submits and yields 0, otherwise the time drops by one. */
module Timer {

  /** What a tick does to the remaining time, and whether it forces submission. */
  datatype TickOutcome = TickOutcome(next: int, submits: bool)

  function Step(prev: int): (r: TickOutcome)
    ensures r.next >= 0
    ensures r.submits <==> prev <= 1
    ensures r.submits ==> r.next == 0
    ensures !r.submits ==> r.next == prev - 1
  {
    if prev <= 1 then TickOutcome(0, true) else TickOutcome(prev - 1, false)
  }
}
