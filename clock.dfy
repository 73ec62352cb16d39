/**
 * Calendar arithmetic on timestamps. A timestamp is a whole number of
 * seconds of local time counted from 1970-01-01 00:00, a Thursday; the
 * day, the time of day and the weekday are those Python's naive
 * `datetime` reports for it (floor division, so times before 1970 count
 * backwards correctly).
 */
module Clock {

  const SecondsPerDay: int := 86400
  const MinutesPerDay: int := 1440

  /** Days since 1970-01-01. */
  function Day(t: int): int {
    t / SecondsPerDay
  }

  function SecondOfDay(t: int): (r: int)
    ensures 0 <= r < SecondsPerDay
  {
    t % SecondsPerDay
  }

  /** Midnight of the day holding t. */
  function DayStart(t: int): int {
    t - SecondOfDay(t)
  }

  /** `dt.hour * 60 + dt.minute`. */
  function MinuteOfDay(t: int): (r: int)
    ensures 0 <= r < MinutesPerDay
  {
    SecondOfDay(t) / 60
  }

  /** Python's `dt.weekday()`: Monday is 0, Sunday is 6. */
  function Weekday(t: int): (r: int)
    ensures 0 <= r < 7
  {
    (Day(t) + 3) % 7
  }

  /** `dt.weekday() >= 5`: Saturday or Sunday. */
  predicate IsWeekend(t: int) {
    Weekday(t) >= 5
  }

  /** `dt.replace(hour=h, minute=m, second=0)`, with minutes = h * 60 + m. */
  function AtMinute(t: int, minutes: int): int
    requires 0 <= minutes < MinutesPerDay
  {
    DayStart(t) + minutes * 60
  }

  lemma DayOf(q: int, x: int)
    requires 0 <= x < SecondsPerDay
    ensures Day(SecondsPerDay * q + x) == q
    ensures SecondOfDay(SecondsPerDay * q + x) == x
  {
  }

  /** A time set with `AtMinute` lies on the same day, at that minute. */
  lemma AtMinuteSameDay(t: int, minutes: int, extra: int)
    requires 0 <= minutes < MinutesPerDay && 0 <= extra < 60
    ensures DayStart(AtMinute(t, minutes) + extra) == DayStart(t)
    ensures Day(AtMinute(t, minutes) + extra) == Day(t)
    ensures MinuteOfDay(AtMinute(t, minutes) + extra) == minutes
    ensures Weekday(AtMinute(t, minutes) + extra) == Weekday(t)
  {
    DayOf(Day(t), minutes * 60 + extra);
  }

  /** Adding one day moves midnight by one day and the weekday by one. */
  lemma NextDay(t: int)
    ensures DayStart(t + SecondsPerDay) == DayStart(t) + SecondsPerDay
    ensures Day(t + SecondsPerDay) == Day(t) + 1
  {
    DayOf(Day(t) + 1, SecondOfDay(t));
  }
}
