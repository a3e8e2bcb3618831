/**
 * Instants are millisecond timestamps, as `Date.prototype.getTime`
 * returns them. A calendar day is the whole number of days since the
 * epoch (floor division), which stands for `toDateString()` equality,
 * and the start of a day is what `setHours(0, 0, 0, 0)` yields.
 */
module Dates {

  const MsPerDay: int := 86_400_000

  /** The calendar day an instant falls on. */
  function DayOf(t: int): int {
    t / MsPerDay
  }

  /** Midnight at the start of the day that `now` falls on. */
  function StartOfDay(now: int): (s: int)
    ensures s <= now < s + MsPerDay
    ensures DayOf(s) == DayOf(now)
    ensures s % MsPerDay == 0
  {
    DayOf(now) * MsPerDay
  }

  /** An instant is at or after the start of today exactly when its
      calendar day is today or later: comparing with the start of day
      is a comparison at day granularity. */
  lemma {:induction false} AtOrAfterStartOfDay(t: int, now: int)
    ensures t >= StartOfDay(now) <==> DayOf(t) >= DayOf(now)
  {
  }

  /** Two instants share a calendar day exactly when they share a start of day. */
  lemma {:induction false} SameDayIffSameStart(t: int, u: int)
    ensures DayOf(t) == DayOf(u) <==> StartOfDay(t) == StartOfDay(u)
  {
  }
}
