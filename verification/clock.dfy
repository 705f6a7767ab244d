/** Wall-clock arithmetic on epoch-millisecond instants.

    An instant is a whole number of milliseconds since 1 January 1970, 00:00
    (the value `System.currentTimeMillis()` and `Calendar.getTimeInMillis()`
    report), read in UTC without daylight-saving shifts. The
    calendar fields the alarm code reads (weekday, hour, minute, second,
    millisecond) are floor divisions of that number, and the calendar
    operations it performs (`add(HOUR_OF_DAY, n)`, `add(MINUTE, n)`,
    `set(SECOND, 0)`, `set(MILLISECOND, 0)`) are plain additions and a
    truncation to the minute.
 */
module Clock {

  const MsPerSecond: int := 1000
  const MsPerMinute: int := 60000
  const MsPerHour: int := 3600000
  const MsPerDay: int := 86400000
  const MinutesPerHour: int := 60
  const MinutesPerDay: int := 1440
  const DaysPerWeek: int := 7

  /** 1 January 1970 was a Thursday; weekdays count from Sunday = 0. */
  const EpochWeekday: int := 4

  /** Weekday index as the alarm uses it: 0 = Sunday ... 6 = Saturday
      (`Calendar.DAY_OF_WEEK - 1`). */
  type Weekday = d: int | 0 <= d < 7
  type Hour = h: int | 0 <= h < 24
  type Minute = m: int | 0 <= m < 60

  /** Whole minutes elapsed since the epoch. */
  function MinuteIndex(t: int): int
  {
    t / MsPerMinute
  }

  /** Whole days elapsed since the epoch. */
  function DayIndex(t: int): int
  {
    MinuteIndex(t) / MinutesPerDay
  }

  /** Minutes elapsed since midnight of t's day, 0 .. 1439. */
  function MinuteOfDay(t: int): int
  {
    MinuteIndex(t) % MinutesPerDay
  }

  /** `HOUR_OF_DAY` */
  function HourOf(t: int): Hour
  {
    MinuteOfDay(t) / MinutesPerHour
  }

  /** `MINUTE` */
  function MinuteOf(t: int): Minute
  {
    MinuteOfDay(t) % MinutesPerHour
  }

  /** `SECOND` */
  function SecondOf(t: int): int
  {
    t % MsPerMinute / MsPerSecond
  }

  /** `MILLISECOND` */
  function MilliOf(t: int): int
  {
    t % MsPerSecond
  }

  /** `DAY_OF_WEEK - 1` */
  function WeekdayOf(t: int): Weekday
  {
    (DayIndex(t) + EpochWeekday) % DaysPerWeek
  }

  /** The minute of the day at which a clock reads hour:minute. */
  function ClockMinute(hour: Hour, minute: Minute): (x: int)
    ensures 0 <= x < MinutesPerDay
    ensures x / MinutesPerHour == hour && x % MinutesPerHour == minute
  {
    MinutesPerHour * hour + minute
  }

  /** An instant whose second and millisecond fields are both zero. */
  predicate OnMinute(t: int)
  {
    SecondOf(t) == 0 && MilliOf(t) == 0
  }

  /** `add(HOUR_OF_DAY, n)` with no daylight-saving shift in between. */
  function AddHours(t: int, n: int): int
  {
    t + n * MsPerHour
  }

  /** `add(MINUTE, n)` */
  function AddMinutes(t: int, n: int): int
  {
    t + n * MsPerMinute
  }

  /** `set(SECOND, 0)` followed by `set(MILLISECOND, 0)`: the start of t's minute. */
  function ClearSeconds(t: int): (r: int)
    ensures OnMinute(r)
    ensures r <= t < r + MsPerMinute
    ensures MinuteIndex(r) == MinuteIndex(t)
  {
    var r := t - t % MsPerMinute;
    AtMinute(MinuteIndex(t));
    r
  }

  /** Quotient and remainder are determined by any decomposition with a
      remainder in range. */
  lemma DivModUnique(n: int, d: int, q: int, r: int)
    requires 0 < d && 0 <= r < d && n == d * q + r
    ensures n / d == q && n % d == r
  {
    var q' := n / d;
    var e := n % d;
    assert n == d * q' + e;
    if q' < q {
      MultipleAtLeast(d, q - q');
    } else if q < q' {
      MultipleAtLeast(d, q' - q);
    }
  }

  /** A positive multiple of d is at least d. */
  lemma MultipleAtLeast(d: int, x: int)
    requires 0 < d && 1 <= x
    ensures d * x >= d
  {
  }

  /** Being on a minute boundary is exactly being a whole multiple of a minute. */
  lemma OnMinuteIsMinuteMultiple(t: int)
    ensures OnMinute(t) <==> t % MsPerMinute == 0
  {
    var x := t % MsPerMinute;
    DivModUnique(t, MsPerSecond, 60 * MinuteIndex(t) + x / MsPerSecond, x % MsPerSecond);
  }

  /** The fields of the instant that starts minute number n. */
  lemma AtMinute(n: int)
    ensures MinuteIndex(MsPerMinute * n) == n
    ensures (MsPerMinute * n) % MsPerMinute == 0
    ensures OnMinute(MsPerMinute * n)
  {
    DivModUnique(MsPerMinute * n, MsPerMinute, n, 0);
    OnMinuteIsMinuteMultiple(MsPerMinute * n);
  }

  /** The fields of the instant at minute x of day number day. */
  lemma AtDayMinute(day: int, x: int)
    requires 0 <= x < MinutesPerDay
    ensures MinuteIndex(MsPerMinute * (MinutesPerDay * day + x)) == MinutesPerDay * day + x
    ensures DayIndex(MsPerMinute * (MinutesPerDay * day + x)) == day
    ensures MinuteOfDay(MsPerMinute * (MinutesPerDay * day + x)) == x
    ensures WeekdayOf(MsPerMinute * (MinutesPerDay * day + x)) == (day + EpochWeekday) % DaysPerWeek
    ensures OnMinute(MsPerMinute * (MinutesPerDay * day + x))
  {
    var n := MinutesPerDay * day + x;
    AtMinute(n);
    DivModUnique(n, MinutesPerDay, day, x);
  }

  /** Every instant lies in minute x of day number DayIndex(t). */
  lemma Decompose(t: int)
    ensures MinuteIndex(t) == MinutesPerDay * DayIndex(t) + MinuteOfDay(t)
    ensures 0 <= MinuteOfDay(t) < MinutesPerDay
    ensures MsPerMinute * MinuteIndex(t) <= t < MsPerMinute * MinuteIndex(t) + MsPerMinute
  {
  }

  /** The hour and minute fields read hour:minute exactly when the minute of
      the day is ClockMinute(hour, minute). */
  lemma ClockFields(t: int, hour: Hour, minute: Minute)
    ensures HourOf(t) == hour && MinuteOf(t) == minute <==> MinuteOfDay(t) == ClockMinute(hour, minute)
  {
    var x := MinuteOfDay(t);
    assert x == MinutesPerHour * (x / MinutesPerHour) + x % MinutesPerHour;
  }

  /** Advancing k days from day `day` advances its weekday by k, modulo 7. */
  lemma WeekdayShift(day: int, k: int)
    ensures ((day + EpochWeekday) % DaysPerWeek + k) % DaysPerWeek == (day + k + EpochWeekday) % DaysPerWeek
  {
    var a := day + EpochWeekday;
    var b := a % DaysPerWeek + k;
    DivModUnique(a + k, DaysPerWeek, a / DaysPerWeek + b / DaysPerWeek, b % DaysPerWeek);
  }

  /** Adding whole minutes to an instant and then truncating to the minute is
      the same as truncating first: the seconds and milliseconds are unaffected. */
  lemma ClearSecondsShift(t: int, n: int)
    ensures ClearSeconds(t + MsPerMinute * n) == ClearSeconds(t) + MsPerMinute * n
  {
    DivModUnique(t + MsPerMinute * n, MsPerMinute, MinuteIndex(t) + n, t % MsPerMinute);
  }
}
