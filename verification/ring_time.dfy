/** The next instant at which an alarm rings.

    An alarm rings on a minute boundary (second and millisecond zero) whose
    clock reads the schedule's hour:minute, on a weekday it may ring on:
    any day when no weekday is marked, otherwise a marked one. `ringsAt()`
    returns the earliest such instant strictly after now; when the clock
    time equals now's hour and minute, today's ring counts as passed.

    The computation works in minutes from the start of now's minute. With
    delta the schedule's minute of the day minus now's, the ring lies
    1440 * k + delta minutes ahead, for the least day offset k (0 .. 7) whose
    weekday may ring and for which that quantity is positive.
 */
module RingTime {
  import opened Clock
  import opened Recurrence

  /** The alarm may ring on weekday wd. */
  predicate RingsOnDay(s: Schedule, wd: Weekday)
  {
    !HasRecurrence(s) || s.recurring[wd]
  }

  /** The alarm rings at instant t. */
  ghost predicate RingsOn(s: Schedule, t: int)
  {
    && OnMinute(t)
    && HourOf(t) == s.hour && MinuteOf(t) == s.minute
    && RingsOnDay(s, WeekdayOf(t))
  }

  /** r is the earliest instant strictly after now at which the alarm rings. */
  ghost predicate IsNextRing(s: Schedule, now: int, r: int)
  {
    && now < r
    && RingsOn(s, r)
    && forall t :: now < t < r ==> !RingsOn(s, t)
  }

  /** Exactly one weekday, d, is marked. */
  ghost predicate OnlyDay(s: Schedule, d: Weekday)
  {
    forall wd :: 0 <= wd < DaysPerWeek ==> IsRecurring(s, wd) == Ok(wd == d)
  }

  /** The clock time of the schedule is strictly later in the day than now's
      hour and minute. */
  predicate LaterToday(s: Schedule, now: int)
  {
    s.hour > HourOf(now) || (s.hour == HourOf(now) && s.minute > MinuteOf(now))
  }

  /** Ringing k days after today, delta minutes of the day after now's
      minute, is on a weekday the alarm may ring on and strictly after now's
      minute. */
  predicate Lands(s: Schedule, today: Weekday, delta: int, k: int)
  {
    && 0 <= k
    && RingsOnDay(s, (today + k) % DaysPerWeek)
    && MinutesPerDay * k + delta > 0
  }

  /** The first day offset from k on at which the alarm lands, or 7 when
      none of the offsets k .. 6 does. */
  function FirstRingDay(s: Schedule, today: Weekday, delta: int, k: nat): (r: nat)
    requires k <= DaysPerWeek
    ensures k <= r <= DaysPerWeek
    ensures r < DaysPerWeek ==> Lands(s, today, delta, r)
    ensures forall j :: k <= j < r ==> !Lands(s, today, delta, j)
    decreases DaysPerWeek - k
  {
    if k == DaysPerWeek || Lands(s, today, delta, k) then k
    else FirstRingDay(s, today, delta, k + 1)
  }

  /** Searching from today always lands within a week: the offset found is
      on a ringing weekday, strictly after now, and at most 7 days ahead. */
  lemma FirstRingDayLands(s: Schedule, today: Weekday, delta: int)
    requires -MinutesPerDay < delta < MinutesPerDay
    ensures Lands(s, today, delta, FirstRingDay(s, today, delta, 0))
    ensures MinutesPerDay * FirstRingDay(s, today, delta, 0) + delta <= DaysPerWeek * MinutesPerDay
  {
    var k := FirstRingDay(s, today, delta, 0);
    if k == DaysPerWeek {
      FullWeekOnlyForToday(s, today, delta);
      var d :| 0 <= d < DaysPerWeek && IsRecurring(s, d) == Ok(true);
      assert RingsOnDay(s, d);
    }
  }

  /** The search runs a full week only when none of the next six days may
      ring: then today is the sole ringing weekday and its time has passed. */
  lemma FullWeekOnlyForToday(s: Schedule, today: Weekday, delta: int)
    requires -MinutesPerDay < delta < MinutesPerDay
    ensures FirstRingDay(s, today, delta, 0) == DaysPerWeek ==>
              && delta <= 0
              && HasRecurrence(s)
              && forall wd: Weekday :: RingsOnDay(s, wd) ==> wd == today
  {
    if FirstRingDay(s, today, delta, 0) == DaysPerWeek {
      // tomorrow is one of the skipped offsets, so not every day may ring
      assert !Lands(s, today, delta, 1);
      assert !RingsOnDay(s, (today + 1) % DaysPerWeek);
      forall wd: Weekday | RingsOnDay(s, wd)
        ensures wd == today
      {
        var j := (wd - today) % DaysPerWeek;
        WeekdayStep(today, wd, j);
        assert !Lands(s, today, delta, j);
      }
      var d :| 0 <= d < DaysPerWeek && s.recurring[d];
      assert RingsOnDay(s, d);
      assert !Lands(s, today, delta, 0);
    }
  }

  /** The number of minutes from the start of now's minute to the next ring. */
  function RingOffset(s: Schedule, now: int): (r: int)
    ensures 0 < r <= DaysPerWeek * MinutesPerDay
  {
    var delta := ClockMinute(s.hour, s.minute) - MinuteOfDay(now);
    FirstRingDayLands(s, WeekdayOf(now), delta);
    MinutesPerDay * FirstRingDay(s, WeekdayOf(now), delta, 0) + delta
  }

  /** `ringsAt()`: the start of now's minute advanced by the ring offset. */
  function RingsAt(s: Schedule, now: int): (r: int)
    ensures IsNextRing(s, now, r)
  {
    var r := ClearSeconds(now) + MsPerMinute * RingOffset(s, now);
    RingOffsetIsNext(s, now);
    r
  }

  /** The offset computation finds the earliest ringing instant after now. */
  lemma RingOffsetIsNext(s: Schedule, now: int)
    ensures IsNextRing(s, now, ClearSeconds(now) + MsPerMinute * RingOffset(s, now))
  {
    var n := MinuteIndex(now);
    var day := DayIndex(now);
    var cur := MinuteOfDay(now);
    var target := ClockMinute(s.hour, s.minute);
    var today := WeekdayOf(now);
    var delta := target - cur;
    var k := FirstRingDay(s, today, delta, 0);
    FirstRingDayLands(s, today, delta);
    Decompose(now);
    var ring := MinutesPerDay * (day + k) + target;
    var r := ClearSeconds(now) + MsPerMinute * RingOffset(s, now);
    assert ClearSeconds(now) == MsPerMinute * n;
    assert r == MsPerMinute * ring;
    AtDayMinute(day + k, target);
    WeekdayShift(day, k);
    ClockFields(r, s.hour, s.minute);
    assert RingsOn(s, r);
    forall t | now < t < r
      ensures !RingsOn(s, t)
    {
      var j := DayIndex(t) - day;
      Decompose(t);
      ClockFields(t, s.hour, s.minute);
      OnMinuteIsMinuteMultiple(t);
      WeekdayShift(day, j);
      assert RingsOn(s, t) ==> 0 <= j < k && Lands(s, today, delta, j);
    }
  }

  /** There is only one earliest ringing instant. */
  lemma NextRingUnique(s: Schedule, now: int, r1: int, r2: int)
    requires IsNextRing(s, now, r1) && IsNextRing(s, now, r2)
    ensures r1 == r2
  {
  }

  /** The next ring depends only on the clock time and on which weekdays may
      ring, not on how the recurrence flags spell that out. */
  lemma RingsAtDependsOnRingingDays(s1: Schedule, s2: Schedule, now: int)
    requires s1.hour == s2.hour && s1.minute == s2.minute
    requires forall wd: Weekday :: RingsOnDay(s1, wd) == RingsOnDay(s2, wd)
    ensures RingsAt(s1, now) == RingsAt(s2, now)
  {
    var r1 := RingsAt(s1, now);
    var r2 := RingsAt(s2, now);
    assert RingsOn(s1, r2) == RingsOn(s2, r2);
    assert RingsOn(s1, r1) == RingsOn(s2, r1);
  }

  /** Marking all seven weekdays rings exactly when marking none does. */
  lemma EveryDayIsNoRecurrence(every: Schedule, none: Schedule, now: int)
    requires every.hour == none.hour && every.minute == none.minute
    requires forall d :: 0 <= d < DaysPerWeek ==> IsRecurring(every, d) == Ok(true)
    requires !HasRecurrence(none)
    ensures RingsAt(every, now) == RingsAt(none, now)
  {
    forall wd: Weekday
      ensures RingsOnDay(every, wd) == RingsOnDay(none, wd)
    {
      assert IsRecurring(every, wd) == Ok(true);
    }
    RingsAtDependsOnRingingDays(every, none, now);
  }

  /** Without recurrence the alarm rings today when its clock time is still
      ahead, and otherwise (including an exact match with now's minute)
      tomorrow: the offset is delta or delta + 1440, between 1 and 1440. */
  lemma NoRecurrenceOffset(s: Schedule, now: int)
    requires !HasRecurrence(s)
    ensures var delta := ClockMinute(s.hour, s.minute) - MinuteOfDay(now);
            RingOffset(s, now) == if LaterToday(s, now) then delta else delta + MinutesPerDay
    ensures 0 < RingOffset(s, now) <= MinutesPerDay
  {
    var today := WeekdayOf(now);
    var delta := ClockMinute(s.hour, s.minute) - MinuteOfDay(now);
    ClockFields(now, HourOf(now), MinuteOf(now));
    assert LaterToday(s, now) <==> delta > 0;
    assert FirstRingDay(s, today, delta, 0) == if delta > 0 then 0 else FirstRingDay(s, today, delta, 1);
    assert FirstRingDay(s, today, delta, 1) == 1 by {
      assert Lands(s, today, delta, 1);
    }
  }

  /** An alarm without recurrence set for now's exact hour and minute rings
      24 hours after the start of now's minute, not now. */
  lemma ExactMatchRollsOver(s: Schedule, now: int)
    requires !HasRecurrence(s)
    requires s.hour == HourOf(now) && s.minute == MinuteOf(now)
    ensures RingsAt(s, now) == ClearSeconds(now) + MsPerDay
  {
    NoRecurrenceOffset(s, now);
    ClockFields(now, s.hour, s.minute);
  }

  /** The day offset to the single ringing weekday d: its distance from
      today, modulo 7, except that today itself counts as a week away once
      its clock time has passed. */
  function DaysUntil(today: Weekday, d: Weekday, delta: int): (k: int)
    ensures 0 <= k <= DaysPerWeek
    ensures (today + k) % DaysPerWeek == d
    ensures k == 0 ==> d == today && delta > 0
    ensures k == DaysPerWeek ==> d == today && delta <= 0
  {
    var k := (d - today) % DaysPerWeek;
    if k == 0 && delta <= 0 then DaysPerWeek else k
  }

  /** Whether k days after today is weekday d, for k within one week. */
  lemma WeekdayStep(today: Weekday, d: Weekday, j: int)
    requires 0 <= j < DaysPerWeek
    ensures (today + j) % DaysPerWeek == d <==> j == (d - today) % DaysPerWeek
  {
  }

  /** With only weekday d marked, the ring lies 1440 * DaysUntil + delta
      minutes after the start of now's minute. */
  lemma SingleDayOffset(s: Schedule, now: int, d: Weekday)
    requires OnlyDay(s, d)
    ensures var delta := ClockMinute(s.hour, s.minute) - MinuteOfDay(now);
            RingOffset(s, now) == MinutesPerDay * DaysUntil(WeekdayOf(now), d, delta) + delta
  {
    var today := WeekdayOf(now);
    var delta := ClockMinute(s.hour, s.minute) - MinuteOfDay(now);
    var want := DaysUntil(today, d, delta);
    assert IsRecurring(s, d) == Ok(true);
    assert HasRecurrence(s);
    forall wd: Weekday
      ensures RingsOnDay(s, wd) <==> wd == d
    {
      assert IsRecurring(s, wd) == Ok(wd == d);
    }
    assert Lands(s, today, delta, want);
    forall j | 0 <= j < want
      ensures !Lands(s, today, delta, j)
    {
      WeekdayStep(today, d, j);
    }
    var k := FirstRingDay(s, today, delta, 0);
    FirstRingDayLands(s, today, delta);
    assert !Lands(s, today, delta, k) || !(k < want);
    assert k == want;
  }

  /** With today as the only ringing weekday and its clock time passed (or
      equal to now's), the alarm rings one week after today's hour:minute. */
  lemma TodayOnlyPassedRingsNextWeek(s: Schedule, now: int)
    requires OnlyDay(s, WeekdayOf(now))
    requires !LaterToday(s, now)
    ensures RingsAt(s, now) ==
            ClearSeconds(now) + MsPerMinute * (ClockMinute(s.hour, s.minute) - MinuteOfDay(now)) + DaysPerWeek * MsPerDay
  {
    SingleDayOffset(s, now, WeekdayOf(now));
    ClockFields(now, HourOf(now), MinuteOf(now));
  }

  /** The ring time ignores now's seconds and milliseconds: it is computed
      from the start of now's minute. */
  lemma RingsAtIgnoresSeconds(s: Schedule, now: int)
    ensures RingsAt(s, now) == RingsAt(s, ClearSeconds(now))
  {
    var c := ClearSeconds(now);
    AtMinute(MinuteIndex(now));
    assert c == MsPerMinute * MinuteIndex(now);
    assert MinuteIndex(c) == MinuteIndex(now);
    assert ClearSeconds(c) == c;
  }
}
