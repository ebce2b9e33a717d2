/**
 * Instants, durations and the comparison and weekday helpers of DateTimeExtensions.
 *
 * An instant is the number of 100-nanosecond ticks of the local clock since
 * DateTimeOffset.MinValue (0001-01-01 00:00, a Monday). The offset is fixed, so
 * comparing clock readings is comparing instants.
 */
module DateTimeExtensions {

  type Instant = int
  /** A TimeSpan, in ticks. */
  type Duration = int

  /** DateTimeOffset.MinValue, which is also `default(DateTimeOffset)`. */
  const MinValue: Instant := 0

  const TicksPerMinute: int := 600_000_000
  const TicksPerHour: int := 60 * TicksPerMinute
  const TicksPerDay: int := 24 * TicksPerHour

  /** DayOfWeek: Sunday = 0, Monday = 1, ..., Saturday = 6. */
  type Weekday = d: int | 0 <= d < 7

  const Sunday: Weekday := 0
  const Monday: Weekday := 1

  predicate IsBefore(a: Instant, b: Instant) { a < b }
  predicate IsBeforeOrSame(a: Instant, b: Instant) { a <= b }
  predicate IsAfter(a: Instant, b: Instant) { a > b }
  predicate IsAfterOrSame(a: Instant, b: Instant) { a >= b }

  /** The four comparisons are one total order seen from both sides. */
  lemma ComparisonsAreDual(a: Instant, b: Instant)
    ensures IsBefore(a, b) <==> IsAfter(b, a)
    ensures IsBeforeOrSame(a, b) <==> !IsAfter(a, b)
    ensures IsAfterOrSame(a, b) <==> !IsBefore(a, b)
    ensures IsBeforeOrSame(a, b) <==> IsBefore(a, b) || a == b
    ensures !(IsBefore(a, b) && IsBefore(b, a))
  {
  }

  function DayNumber(t: Instant): int {
    t / TicksPerDay
  }

  function TimeOfDay(t: Instant): (d: Duration)
    ensures 0 <= d < TicksPerDay
  {
    t % TicksPerDay
  }

  /** Day 0 of the clock is a Monday. */
  function DayOfWeek(t: Instant): Weekday {
    (DayNumber(t) + 1) % 7
  }

  /** A zero (default) time of day means "keep the time of day of now". */
  function TargetTimeOfDay(now: Instant, timeOfDay: Duration): Duration {
    if timeOfDay == 0 then TimeOfDay(now) else timeOfDay
  }

  /** How many days `Next` moves forward from the day of `now`. */
  function DaysToAdd(now: Instant, day: Weekday, timeOfDay: Duration): (n: int)
    ensures 0 <= n <= 7
    ensures (DayOfWeek(now) + n) % 7 == day
    ensures DayOfWeek(now) == day ==> (n == 0 <==> TimeOfDay(now) <= TargetTimeOfDay(now, timeOfDay))
    ensures DayOfWeek(now) != day ==> 1 <= n <= 6
  {
    var today := DayOfWeek(now);
    if today == day then
      (if TimeOfDay(now) <= TargetTimeOfDay(now, timeOfDay) then 0 else 7)
    else if day <= today then day + 7 - today
    else day - today
  }

  /**
   * The next `day` at `timeOfDay` (today counts when that time has not passed yet). For a time
   * of day within one day it lands on that weekday and time of day, within a week from now.
   */
  function Next(now: Instant, day: Weekday, timeOfDay: Duration): (r: Instant)
    ensures 0 <= timeOfDay < TicksPerDay ==>
              && DayOfWeek(r) == day
              && TimeOfDay(r) == TargetTimeOfDay(now, timeOfDay)
              && now <= r < now + 7 * TicksPerDay
  {
    var n := DaysToAdd(now, day, timeOfDay);
    var r := now + n * TicksPerDay - TimeOfDay(now) + TargetTimeOfDay(now, timeOfDay);
    if 0 <= timeOfDay < TicksPerDay then
      assert now == DayNumber(now) * TicksPerDay + TimeOfDay(now);
      assert r == (DayNumber(now) + n) * TicksPerDay + TargetTimeOfDay(now, timeOfDay);
      LaterDay(now, n, TargetTimeOfDay(now, timeOfDay));
      r
    else r
  }

  /** The clock reading of day `d` at time of day `tod`. */
  lemma ClockReading(d: int, tod: Duration)
    requires 0 <= tod < TicksPerDay
    ensures DayNumber(d * TicksPerDay + tod) == d
    ensures TimeOfDay(d * TicksPerDay + tod) == tod
  {
  }

  /**
   * For a time of day within one day, Next lands on `day` at the chosen time of day,
   * not before now and less than a week after it, and no earlier instant qualifies.
   */
  lemma {:induction false} NextIsEarliestMatch(now: Instant, day: Weekday, timeOfDay: Duration)
    requires 0 <= timeOfDay < TicksPerDay
    ensures DayOfWeek(Next(now, day, timeOfDay)) == day
    ensures TimeOfDay(Next(now, day, timeOfDay)) == TargetTimeOfDay(now, timeOfDay)
    ensures now <= Next(now, day, timeOfDay) < now + 7 * TicksPerDay
    ensures forall t: Instant :: now <= t && DayOfWeek(t) == day && TimeOfDay(t) == TargetTimeOfDay(now, timeOfDay)
              ==> Next(now, day, timeOfDay) <= t
  {
    var n := DaysToAdd(now, day, timeOfDay);
    var tod := TargetTimeOfDay(now, timeOfDay);
    var r := Next(now, day, timeOfDay);
    assert now == DayNumber(now) * TicksPerDay + TimeOfDay(now);
    assert r == (DayNumber(now) + n) * TicksPerDay + tod;
    assert n == 7 ==> tod < TimeOfDay(now);
    forall t: Instant | now <= t && DayOfWeek(t) == day && TimeOfDay(t) == tod
      ensures r <= t
    {
      MatchNotBefore(now, n, tod, t);
    }
  }

  /**
   * An instant at or after now, at time of day `tod` and on the weekday `n` days after now's,
   * is no earlier than that day at `tod`, when `n` skips a full week only past `tod`.
   */
  lemma MatchNotBefore(now: Instant, n: int, tod: Duration, t: Instant)
    requires 0 <= tod < TicksPerDay && 0 <= n <= 7 && (n == 7 ==> tod < TimeOfDay(now))
    requires now <= t && TimeOfDay(t) == tod && (DayNumber(t) + 1) % 7 == (DayNumber(now) + n + 1) % 7
    ensures (DayNumber(now) + n) * TicksPerDay + tod <= t
  {
    var dt := DayNumber(t);
    var d := DayNumber(now) + n;
    assert t == dt * TicksPerDay + tod;
    assert now == DayNumber(now) * TicksPerDay + TimeOfDay(now);
    SameWeekdayIsWeekApart(dt, d);
  }

  /** Two day numbers with the same weekday are equal or at least a week apart. */
  lemma SameWeekdayIsWeekApart(a: int, b: int)
    requires (a + 1) % 7 == (b + 1) % 7
    ensures a == b || a + 7 <= b || b + 7 <= a
  {
  }

  /** On the target weekday, at or before the target time, Next is today (now itself when the times match). */
  lemma NextLaterToday(now: Instant, day: Weekday, timeOfDay: Duration)
    requires DayOfWeek(now) == day && TimeOfDay(now) <= TargetTimeOfDay(now, timeOfDay)
    ensures Next(now, day, timeOfDay) == now - TimeOfDay(now) + TargetTimeOfDay(now, timeOfDay)
    ensures TimeOfDay(now) == TargetTimeOfDay(now, timeOfDay) ==> Next(now, day, timeOfDay) == now
  {
  }

  /** On the target weekday, past the target time, Next is exactly one week later. */
  lemma NextNextWeek(now: Instant, day: Weekday, timeOfDay: Duration)
    requires DayOfWeek(now) == day && TimeOfDay(now) > TargetTimeOfDay(now, timeOfDay)
    ensures Next(now, day, timeOfDay) == now + 7 * TicksPerDay - TimeOfDay(now) + TargetTimeOfDay(now, timeOfDay)
  {
  }

  /**
   * A time of day of a full 24 hours runs into the following day: Next then lands on the
   * weekday after `day`, at midnight.
   */
  lemma {:induction false} NextWithFullDay(now: Instant, day: Weekday)
    ensures DayOfWeek(Next(now, day, TicksPerDay)) == (day + 1) % 7
    ensures TimeOfDay(Next(now, day, TicksPerDay)) == 0
  {
    var n := DaysToAdd(now, day, TicksPerDay);
    assert now == DayNumber(now) * TicksPerDay + TimeOfDay(now);
    assert Next(now, day, TicksPerDay) == (DayNumber(now) + n + 1) * TicksPerDay + 0;
    LaterDay(now, n + 1, 0);
  }

  /** The instant `n` days after the day of `now`, at time of day `tod`: its weekday is `n` on from now's. */
  lemma LaterDay(now: Instant, n: int, tod: Duration)
    requires 0 <= tod < TicksPerDay
    ensures DayOfWeek((DayNumber(now) + n) * TicksPerDay + tod) == (DayOfWeek(now) + n) % 7
    ensures TimeOfDay((DayNumber(now) + n) * TicksPerDay + tod) == tod
  {
    ClockReading(DayNumber(now) + n, tod);
  }
}
