/** The interval records that predicted_schedule fills in and moves (ospy/scheduler.py). */
module Intervals {

  /** Instants and durations are whole microseconds. */
  const SECOND: nat := 1000000

  /** interval['blocked']: False, or what blocks the run. */
  datatype Block = Free | Blocked(reason: string)

  /** A candidate run of one station. The scheduler only changes start, end and blocked. */
  class Interval {
    const uid: string
    const station: nat
    const program: int
    const manual: bool
    const fixed: bool
    const ignoreRain: bool
    const adjustment: real
    const cutOff: real
    const usage: real
    const originalStart: int
    var start: int
    var end: int
    var blocked: Block

    constructor (uid: string, station: nat, program: int, manual: bool, fixed: bool, ignoreRain: bool,
                 adjustment: real, cutOff: real, usage: real, originalStart: int, start: int, end: int, blocked: Block)
      ensures this.uid == uid && this.station == station && this.program == program && this.manual == manual
      ensures this.fixed == fixed && this.ignoreRain == ignoreRain && this.adjustment == adjustment
      ensures this.cutOff == cutOff && this.usage == usage && this.originalStart == originalStart
      ensures this.start == start && this.end == end && this.blocked == blocked
    {
      this.uid, this.station, this.program, this.manual := uid, station, program, manual;
      this.fixed, this.ignoreRain, this.adjustment, this.cutOff := fixed, ignoreRain, adjustment, cutOff;
      this.usage, this.originalStart := usage, originalStart;
      this.start, this.end, this.blocked := start, end, blocked;
    }

    /** Move the run, keeping its duration. */
    method Shift(delta: int)
      modifies this`start, this`end
      ensures start == old(start) + delta && end == old(end) + delta
    {
      start := start + delta;
      end := end + delta;
    }
  }

}
