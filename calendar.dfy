/**
 * Timestamps are integer milliseconds. A calendar day is the timestamp floor-divided
 * by the length of a day: this is what `setHours(0, 0, 0, 0)` does when time zones and
 * daylight-saving shifts are set aside.
 */
module Calendar {
  const MsPerDay: int := 1000 * 60 * 60 * 24

  /** The day number of a timestamp. Dafny's `/` floors for a positive divisor. */
  function DayOf(t: int): (r: int)
    ensures r * MsPerDay <= t < r * MsPerDay + MsPerDay
  {
    t / MsPerDay
  }

  /** The timestamp of 00:00 on the day of `t`. */
  function DayStart(t: int): (r: int)
    ensures r % MsPerDay == 0
    ensures r <= t < r + MsPerDay
    ensures DayOf(r) == DayOf(t)
  {
    DayOf(t) * MsPerDay
  }

  /** Truncating to the day never reverses the order of two timestamps. */
  lemma DayOfMonotone(s: int, t: int)
    requires s <= t
    ensures DayOf(s) <= DayOf(t)
  {
  }
}
