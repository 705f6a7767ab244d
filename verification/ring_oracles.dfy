/** The ring-time test suite's own formulas for the expected ring time.

    Each test reads now's hour hC and minute mC (and for the recurring tests
    its weekday), picks a number of days, hours and minutes by comparing the
    ring time (h, m) with (hC, mC), adds them to now with the calendar's
    `add`, clears the seconds and milliseconds, and expects `ringsAt()` to
    return that instant. Here each formula is written out as the test spells
    it, and proved equal to RingsAt for every clock time and every now.

    Two weekday numberings meet here: the calendar's `DAY_OF_WEEK`, 1 (Sunday)
    .. 7 (Saturday), which some tests use directly, and the alarm's weekday
    index, one less.
 */
module RingOracles {
  import opened Clock
  import opened Recurrence
  import opened RingTime

  /** `Calendar.SATURDAY` */
  const CalendarSaturday: int := 7

  /** How far the test advances now: whole days, hours and minutes. */
  datatype Quantities = Quantities(days: int, hours: int, minutes: int)

  /** The test's expected instant: `add(HOUR_OF_DAY, 24 * days)`,
      `add(HOUR_OF_DAY, hours)`, `add(MINUTE, minutes)`, then seconds and
      milliseconds set to zero. */
  function Expected(now: int, q: Quantities): (r: int)
    ensures OnMinute(r)
    ensures r == ClearSeconds(now) + MsPerMinute * TotalMinutes(q)
  {
    var total := TotalMinutes(q);
    assert AddMinutes(AddHours(AddHours(now, 24 * q.days), q.hours), q.minutes) == now + MsPerMinute * total;
    ClearSecondsShift(now, total);
    ClearSeconds(AddMinutes(AddHours(AddHours(now, 24 * q.days), q.hours), q.minutes))
  }

  /** The quantities without recurrence (and with every day recurring):
      they add delta minutes when (h, m) is later than (hC, mC), and
      delta + 1440 otherwise. */
  function NoRecurrenceQuantities(h: Hour, m: Minute, hC: Hour, mC: Minute): (q: Quantities)
    ensures var delta := ClockMinute(h, m) - ClockMinute(hC, mC);
            TotalMinutes(q) == if h > hC || (h == hC && m > mC) then delta else delta + MinutesPerDay
  {
    if h <= hC then
      if m <= mC then Quantities(0, 23 - hC + h, 60 - mC + m)
      else Quantities(0, if h < hC then 24 - hC + h else 0, m - mC)
    else
      if m <= mC then Quantities(0, h - hC - 1, 60 - mC + m)
      else Quantities(0, h - hC, m - mC)
  }

  /** The quantities with one recurring calendar day D, now on calendar day
      dayC: DaysUntil days plus delta minutes. */
  function RecurringDayQuantities(h: Hour, m: Minute, hC: Hour, mC: Minute, D: int, dayC: int): (q: Quantities)
    ensures 1 <= D <= CalendarSaturday && 1 <= dayC <= CalendarSaturday ==>
              var delta := ClockMinute(h, m) - ClockMinute(hC, mC);
              TotalMinutes(q) == MinutesPerDay * DaysUntil(dayC - 1, D - 1, delta) + delta
  {
    // days when (h, m) has passed today: the hours and minutes already
    // count to the next day
    var passedDays := if D < dayC then CalendarSaturday - dayC + D - 1
                      else if D == dayC then 6
                      else D - dayC - 1;
    var upcomingDays := if D < dayC then CalendarSaturday - dayC + D
                        else if D == dayC then 0
                        else D - dayC;
    // upcomingDays is the weekday distance DaysUntil starts from
    assert 1 <= D <= CalendarSaturday && 1 <= dayC <= CalendarSaturday ==>
             (D - 1 - (dayC - 1)) % DaysPerWeek == upcomingDays;
    if h <= hC then
      if m <= mC then Quantities(passedDays, 23 - hC + h, 60 - mC + m)
      else if h < hC then Quantities(passedDays, 24 - hC + h, m - mC)
      else Quantities(upcomingDays, 0, m - mC)
    else
      if m <= mC then Quantities(upcomingDays, h - hC - 1, 60 - mC + m)
      else Quantities(upcomingDays, h - hC, m - mC)
  }

  /** The quantities when the only recurring day is today: delta minutes
      while (h, m) is still ahead, a full week plus delta once it has come. */
  function CurrentDayQuantities(h: Hour, m: Minute, hC: Hour, mC: Minute): (q: Quantities)
    ensures var delta := ClockMinute(h, m) - ClockMinute(hC, mC);
            TotalMinutes(q) == if delta > 0 then delta else DaysPerWeek * MinutesPerDay + delta
  {
    if h <= hC then
      if m <= mC then Quantities(6, 23 - hC + h, 60 - mC + m)
      else if h < hC then Quantities(6, 24 - hC + h, m - mC)
      else Quantities(0, 0, m - mC)
    else
      if m <= mC then Quantities(0, h - hC - 1, 60 - mC + m)
      else Quantities(0, h - hC, m - mC)
  }

  /** The quantities when the only recurring weekday d comes after today's
      weekday dC in the same week (weekday indices): DaysUntil days plus
      delta minutes. */
  function LaterDayQuantities(h: Hour, m: Minute, hC: Hour, mC: Minute, d: int, dC: int): (q: Quantities)
    ensures 0 <= dC < d < DaysPerWeek ==>
              var delta := ClockMinute(h, m) - ClockMinute(hC, mC);
              TotalMinutes(q) == MinutesPerDay * DaysUntil(dC, d, delta) + delta
  {
    if h <= hC then
      if m <= mC then Quantities(d - dC - 1, 23 - hC + h, 60 - mC + m)
      else if h < hC then Quantities(d - dC - 1, 24 - hC + h, m - mC)
      else Quantities(d - dC, 0, m - mC)
    else
      if m <= mC then Quantities(d - dC, h - hC - 1, 60 - mC + m)
      else Quantities(d - dC, h - hC, m - mC)
  }

  /** The quantities when the only recurring calendar day D comes before
      today's calendar day dayC, so the ring wraps through Saturday:
      DaysUntil days plus delta minutes. */
  function EarlierDayQuantities(h: Hour, m: Minute, hC: Hour, mC: Minute, D: int, dayC: int): (q: Quantities)
    ensures 1 <= D < dayC <= CalendarSaturday ==>
              var delta := ClockMinute(h, m) - ClockMinute(hC, mC);
              TotalMinutes(q) == MinutesPerDay * DaysUntil(dayC - 1, D - 1, delta) + delta
  {
    if h <= hC then
      if m <= mC then Quantities(CalendarSaturday - dayC + D - 1, 23 - hC + h, 60 - mC + m)
      else if h < hC then Quantities(CalendarSaturday - dayC + D - 1, 24 - hC + h, m - mC)
      else Quantities(CalendarSaturday - dayC + D, 0, m - mC)
    else
      if m <= mC then Quantities(CalendarSaturday - dayC + D, h - hC - 1, 60 - mC + m)
      else Quantities(CalendarSaturday - dayC + D, h - hC, m - mC)
  }

  /** The alarm the single-day tests build: hour h, minute m, only weekday d. */
  function SingleDayAlarm(h: Hour, m: Minute, d: Weekday): (s: Schedule)
    ensures s.hour == h && s.minute == m
    ensures OnlyDay(s, d)
  {
    SetRecurring(Build(h, m), d, true).value
  }

  /** The minutes a test's quantities add up to. */
  function TotalMinutes(q: Quantities): int
  {
    MinutesPerDay * q.days + MinutesPerHour * q.hours + q.minutes
  }

  /** Now's minute of the day in terms of the fields the test reads. */
  lemma CurrentMinute(now: int)
    ensures MinuteOfDay(now) == ClockMinute(HourOf(now), MinuteOf(now))
  {
    ClockFields(now, HourOf(now), MinuteOf(now));
  }

  /** The no-recurrence test's formula is the ring time. */
  lemma NoRecurrenceOracleAgrees(h: Hour, m: Minute, now: int)
    ensures Expected(now, NoRecurrenceQuantities(h, m, HourOf(now), MinuteOf(now))) == RingsAt(Build(h, m), now)
  {
    NoRecurrenceOffset(Build(h, m), now);
    CurrentMinute(now);
  }

  /** The every-day test's formula (the same as without recurrence) is the
      ring time of an alarm with all seven weekdays marked. */
  lemma EveryDayOracleAgrees(s: Schedule, now: int)
    requires forall d :: 0 <= d < DaysPerWeek ==> IsRecurring(s, d) == Ok(true)
    ensures Expected(now, NoRecurrenceQuantities(s.hour, s.minute, HourOf(now), MinuteOf(now))) == RingsAt(s, now)
  {
    NoRecurrenceOracleAgrees(s.hour, s.minute, now);
    EveryDayIsNoRecurrence(s, Build(s.hour, s.minute), now);
  }

  /** The one-recurring-day test's formula is the ring time, for every
      calendar day D = 1 .. 7. */
  lemma RecurringDayOracleAgrees(h: Hour, m: Minute, D: int, now: int)
    requires 1 <= D <= CalendarSaturday
    ensures Expected(now, RecurringDayQuantities(h, m, HourOf(now), MinuteOf(now), D, WeekdayOf(now) + 1))
            == RingsAt(SingleDayAlarm(h, m, D - 1), now)
  {
    var s := SingleDayAlarm(h, m, D - 1);
    var q := RecurringDayQuantities(h, m, HourOf(now), MinuteOf(now), D, WeekdayOf(now) + 1);
    var delta := ClockMinute(h, m) - ClockMinute(HourOf(now), MinuteOf(now));
    CurrentMinute(now);
    SingleDayOffset(s, now, D - 1);
    assert TotalMinutes(q) == MinutesPerDay * DaysUntil(WeekdayOf(now), D - 1, delta) + delta;
    assert RingOffset(s, now) == TotalMinutes(q);
  }

  /** The test with today as the recurring day is the ring time. */
  lemma CurrentDayOracleAgrees(h: Hour, m: Minute, now: int)
    ensures Expected(now, CurrentDayQuantities(h, m, HourOf(now), MinuteOf(now)))
            == RingsAt(SingleDayAlarm(h, m, WeekdayOf(now)), now)
  {
    var s := SingleDayAlarm(h, m, WeekdayOf(now));
    var q := CurrentDayQuantities(h, m, HourOf(now), MinuteOf(now));
    var delta := ClockMinute(h, m) - ClockMinute(HourOf(now), MinuteOf(now));
    CurrentMinute(now);
    SingleDayOffset(s, now, WeekdayOf(now));
    assert RingOffset(s, now) == MinutesPerDay * DaysUntil(WeekdayOf(now), WeekdayOf(now), delta) + delta;
    assert RingOffset(s, now) == TotalMinutes(q);
  }

  /** The test with a recurring weekday after today is the ring time. */
  lemma LaterDayOracleAgrees(h: Hour, m: Minute, d: Weekday, now: int)
    requires WeekdayOf(now) < d
    ensures Expected(now, LaterDayQuantities(h, m, HourOf(now), MinuteOf(now), d, WeekdayOf(now)))
            == RingsAt(SingleDayAlarm(h, m, d), now)
  {
    var s := SingleDayAlarm(h, m, d);
    var q := LaterDayQuantities(h, m, HourOf(now), MinuteOf(now), d, WeekdayOf(now));
    var delta := ClockMinute(h, m) - ClockMinute(HourOf(now), MinuteOf(now));
    CurrentMinute(now);
    SingleDayOffset(s, now, d);
    assert RingOffset(s, now) == MinutesPerDay * DaysUntil(WeekdayOf(now), d, delta) + delta;
    assert RingOffset(s, now) == TotalMinutes(q);
  }

  /** The test with a recurring calendar day before today's is the ring time. */
  lemma EarlierDayOracleAgrees(h: Hour, m: Minute, D: int, now: int)
    requires 1 <= D < WeekdayOf(now) + 1
    ensures Expected(now, EarlierDayQuantities(h, m, HourOf(now), MinuteOf(now), D, WeekdayOf(now) + 1))
            == RingsAt(SingleDayAlarm(h, m, D - 1), now)
  {
    var s := SingleDayAlarm(h, m, D - 1);
    var q := EarlierDayQuantities(h, m, HourOf(now), MinuteOf(now), D, WeekdayOf(now) + 1);
    var delta := ClockMinute(h, m) - ClockMinute(HourOf(now), MinuteOf(now));
    CurrentMinute(now);
    SingleDayOffset(s, now, D - 1);
    assert RingOffset(s, now) == MinutesPerDay * DaysUntil(WeekdayOf(now), D - 1, delta) + delta;
    assert RingOffset(s, now) == TotalMinutes(q);
  }
}
