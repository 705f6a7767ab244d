# Alarm ring time and snooze, in Dafny

A model of the scheduling core of the ClockPlus alarm: when an alarm rings
next, which weekdays it recurs on, and how a snooze deadline behaves. The
production `Alarm` and `DaysOfWeek` classes are not part of this model; the
behaviour modelled is the one fixed by the hand-written expectations in
`AlarmTest.java`. Each of the test's formulas is written out in Dafny and
proved equal to an independent definition of the ring time.

- `Clock` (clock.dfy): instants are epoch milliseconds. The calendar fields
  (weekday 0 = Sunday .. 6 = Saturday, hour, minute, second, millisecond) are
  floor divisions of the instant, read in UTC. 1 January 1970 is a Thursday. The calendar
  steps the tests perform (`add(HOUR_OF_DAY, n)`, `add(MINUTE, n)`, clearing
  seconds and milliseconds) are additions and a truncation to the minute.
- `Recurrence` (recurrence.dfy): a `Schedule` is an hour, a minute and seven
  recurrence flags. `SetRecurring` and `IsRecurring` refuse a weekday outside
  0 .. 6 with `Err(InvalidDay(day))`, which models `IllegalArgumentException`.
  The caller keeps its unchanged schedule. The test's loops over the weekdays
  are methods with loop invariants.
- `RingTime` (ring_time.dfy): `RingsAt(s, now)` is the start of now's minute
  plus `RingOffset(s, now)` minutes. That offset is `1440 * k + delta`, where
  `delta` is the schedule's minute of the day minus now's. `k` is the first
  day offset, from 0 to 7, whose weekday may ring and whose offset is
  positive. The independent definition is `IsNextRing`: the earliest instant
  strictly after now that is on a minute boundary, reads the schedule's
  hour:minute, and falls on a weekday the alarm may ring on. With no weekday
  marked, every weekday may ring. `RingsAt` is proved to meet it.
- `RingOracles` (ring_oracles.dfy): the six ring-time tests' formulas
  (five distinct ones: the every-day test repeats the no-recurrence one). Each
  is a piecewise choice of days, hours and minutes, applied with the
  calendar steps. Each is proved equal to `RingsAt` for every clock time,
  every weekday and every now.
- `Snoozing` (snoozing.dfy): the snooze deadline. `snooze(n)` sets it to now
  plus n minutes, keeping the milliseconds. The alarm is snoozed while now is
  strictly before the deadline. `SnoozingUntil` reports 0 once the deadline
  has passed.

"Now" is always an explicit parameter. The source reads the system clock
instead.

## Model

| member | source | states |
|---|---|---|
| Clock.ClearSeconds | app/src/test/java/com/philliphsu/clock2/AlarmTest.java:85-86 | clearing seconds and milliseconds yields an instant on a minute boundary in the same minute, at most one minute earlier |
| Recurrence.Build | app/src/test/java/com/philliphsu/clock2/AlarmTest.java:58 | a newly built alarm has the requested hour and minute, no weekday marked, and no recurrence |
| Recurrence.SetRecurring | app/src/test/java/com/philliphsu/clock2/AlarmTest.java:29-47 | fails exactly for days outside 0..6, with InvalidDay(day); otherwise IsRecurring reads back the written flag, and the clock time and every other weekday keep their values |
| Recurrence.HasRecurrence | app/src/test/java/com/philliphsu/clock2/AlarmTest.java:33-40 | true exactly when some weekday in 0..6 reads back as recurring |
| Recurrence.IsRecurring | app/src/test/java/com/philliphsu/clock2/AlarmTest.java:29-39 | fails exactly for days outside 0..6, with InvalidDay(day); the flag read back after a write is stated by SetRecurring |
| Recurrence.MarkEvenDays | app/src/test/java/com/philliphsu/clock2/AlarmTest.java:29-33 | after marking day i with i % 2 == 0 for Sunday..Saturday, each day reads back its parity flag and the alarm has recurrence |
| Recurrence.ClearAllDays | app/src/test/java/com/philliphsu/clock2/AlarmTest.java:36-40 | after unmarking every day, no day is recurring and hasRecurrence is false |
| Recurrence.MarkAllDays | app/src/test/java/com/philliphsu/clock2/AlarmTest.java:189-191 | after marking days 0..6, every day reads back as recurring and the clock time is unchanged |
| Recurrence.InvalidDaysRejected | app/src/test/java/com/philliphsu/clock2/AlarmTest.java:42-47 | days below 0 or above 6 (7 and -3 in the test) are refused by both the setter and the query |
| Recurrence.MarkingGivesRecurrence | app/src/test/java/com/philliphsu/clock2/AlarmTest.java:33-40 | marking any single day gives recurrence; with every day unmarked there is none |
| RingTime.FirstRingDay | app/src/test/java/com/philliphsu/clock2/AlarmTest.java:116-122 | the day offset found is the least one from k on whose weekday may ring with a positive offset (or 7 when none below 7 does) |
| RingTime.FirstRingDayLands | app/src/test/java/com/philliphsu/clock2/AlarmTest.java:116-122 | searching from today always lands on a weekday the alarm rings on, with a positive offset, at most 7 days ahead |
| RingTime.FullWeekOnlyForToday | app/src/test/java/com/philliphsu/clock2/AlarmTest.java:244-254 | the search reaches offset 7 only when today is the sole weekday the alarm rings on and its time has passed or equals now's |
| RingTime.RingOffset | app/src/test/java/com/philliphsu/clock2/AlarmTest.java:166-168 | the ring lies between 1 minute and 7 days after the start of now's minute |
| RingTime.RingsAt | app/src/test/java/com/philliphsu/clock2/AlarmTest.java:166-171 | ringsAt() is the earliest instant strictly after now with zero seconds and milliseconds, the schedule's hour and minute, and a weekday the alarm rings on |
| RingTime.RingOffsetIsNext | app/src/test/java/com/philliphsu/clock2/AlarmTest.java:112-171 | the day-offset search lands on that earliest ringing instant, and no ringing instant lies between now and it |
| RingTime.NextRingUnique | app/src/test/java/com/philliphsu/clock2/AlarmTest.java:171 | the earliest ringing instant after now is unique, so any two correct results agree |
| RingTime.RingsAtDependsOnRingingDays | app/src/test/java/com/philliphsu/clock2/AlarmTest.java:180-182 | two schedules with the same clock time and the same ringing weekdays ring at the same instant |
| RingTime.EveryDayIsNoRecurrence | app/src/test/java/com/philliphsu/clock2/AlarmTest.java:180-225 | with all seven weekdays marked, ringsAt equals the no-recurrence result for every clock time and every now |
| RingTime.NoRecurrenceOffset | app/src/test/java/com/philliphsu/clock2/AlarmTest.java:64-82 | without recurrence the offset is delta when (h, m) is strictly later than now's (hour, minute), otherwise delta + 1440, always within 1..1440 |
| RingTime.ExactMatchRollsOver | app/src/test/java/com/philliphsu/clock2/AlarmTest.java:64-67 | an alarm set for now's exact hour and minute rings 24 hours after the start of now's minute, not now |
| RingTime.DaysUntil | app/src/test/java/com/philliphsu/clock2/AlarmTest.java:116-122 | the day offset to a single ringing weekday lies in 0..7 and always lands on that weekday; it is 0 only when d is today and its time is still ahead, and 7 only when d is today and its time has passed or equals now's |
| RingTime.SingleDayOffset | app/src/test/java/com/philliphsu/clock2/AlarmTest.java:112-164 | with only weekday d marked, the offset is 1440 * ((d - today) mod 7) + delta, with 7 days in place of 0 when d is today and its time has passed or equals now's |
| RingTime.TodayOnlyPassedRingsNextWeek | app/src/test/java/com/philliphsu/clock2/AlarmTest.java:244-254 | with today the only ringing weekday and its time passed or equal to now's, the alarm rings at today's hour:minute plus exactly 7 days |
| RingTime.RingsAtIgnoresSeconds | app/src/test/java/com/philliphsu/clock2/AlarmTest.java:83-86 | the ring time depends on now only through now's minute: seconds and milliseconds of now do not change it |
| RingOracles.SingleDayAlarm | app/src/test/java/com/philliphsu/clock2/AlarmTest.java:105-106 | building an alarm and marking one weekday yields that clock time with exactly that weekday recurring |
| RingOracles.Expected | app/src/test/java/com/philliphsu/clock2/AlarmTest.java:83-86 | the test's add-days, add-hours, add-minutes and clear-seconds steps give an instant on a minute boundary: the start of now's minute plus 1440 * days + 60 * hours + minutes minutes |
| RingOracles.NoRecurrenceQuantities | app/src/test/java/com/philliphsu/clock2/AlarmTest.java:64-82 | the no-recurrence formula's quantities total delta minutes when (h, m) is later than (hC, mC), and delta + 1440 otherwise |
| RingOracles.RecurringDayQuantities | app/src/test/java/com/philliphsu/clock2/AlarmTest.java:112-164 | for calendar days D and dayC in 1..7, the recurring-day formula's quantities total 1440 * DaysUntil + delta minutes |
| RingOracles.CurrentDayQuantities | app/src/test/java/com/philliphsu/clock2/AlarmTest.java:244-264 | the current-day formula's quantities total delta minutes while (h, m) is still ahead of (hC, mC), and a full week plus delta otherwise |
| RingOracles.LaterDayQuantities | app/src/test/java/com/philliphsu/clock2/AlarmTest.java:299-324 | for a weekday d after today's dC, the formula's quantities total 1440 * DaysUntil + delta minutes |
| RingOracles.EarlierDayQuantities | app/src/test/java/com/philliphsu/clock2/AlarmTest.java:358-383 | for a calendar day D before today's dayC, the wrap-through-Saturday formula's quantities total 1440 * DaysUntil + delta minutes |
| RingOracles.NoRecurrenceOracleAgrees | app/src/test/java/com/philliphsu/clock2/AlarmTest.java:51-92 | the no-recurrence test's expected instant equals ringsAt for every hour, minute and now |
| RingOracles.EveryDayOracleAgrees | app/src/test/java/com/philliphsu/clock2/AlarmTest.java:179-225 | the every-day test's expected instant equals ringsAt of an alarm with all seven weekdays marked |
| RingOracles.RecurringDayOracleAgrees | app/src/test/java/com/philliphsu/clock2/AlarmTest.java:94-177 | the recurring-day test's expected instant equals ringsAt for every calendar day 1..7 marked alone |
| RingOracles.CurrentDayOracleAgrees | app/src/test/java/com/philliphsu/clock2/AlarmTest.java:227-276 | the current-day test's expected instant equals ringsAt when today is the only recurring weekday |
| RingOracles.LaterDayOracleAgrees | app/src/test/java/com/philliphsu/clock2/AlarmTest.java:278-337 | the later-day test's expected instant equals ringsAt for every weekday after today marked alone |
| RingOracles.EarlierDayOracleAgrees | app/src/test/java/com/philliphsu/clock2/AlarmTest.java:339-396 | the earlier-day test's expected instant equals ringsAt for every calendar day before today marked alone |
| Snoozing.Snooze | app/src/test/java/com/philliphsu/clock2/AlarmTest.java:403-404 | the deadline is now plus n minutes and keeps now's seconds and milliseconds, unlike a ring time |
| Snoozing.IsSnoozed | app/src/test/java/com/philliphsu/clock2/AlarmTest.java:417-426 | an alarm can only be snoozed once a deadline is stored (non-zero); the exact window is stated by SnoozedUntilDeadline |
| Snoozing.SnoozingUntil | app/src/test/java/com/philliphsu/clock2/AlarmTest.java:426-428 | the reported deadline is non-zero exactly while snoozed, and then it is the stored deadline, later than now |
| Snoozing.SnoozeReportsDeadline | app/src/test/java/com/philliphsu/clock2/AlarmTest.java:399-408 | right after snooze(n) with n > 0, snoozingUntil is exactly now + n minutes |
| Snoozing.SnoozedUntilDeadline | app/src/test/java/com/philliphsu/clock2/AlarmTest.java:412-429 | after snooze(n), the alarm is snoozed exactly at readings before the deadline; from the deadline on it is not, and snoozingUntil reports 0 |
| Snoozing.ExpiryIsFinal | app/src/test/java/com/philliphsu/clock2/AlarmTest.java:420-428 | once a snooze has expired it stays expired, with deadline 0, at every later reading |
| Snoozing.UnsetIsNotSnoozed | app/src/test/java/com/philliphsu/clock2/AlarmTest.java:402-403 | an alarm that was never snoozed is not snoozed and reports deadline 0 at every clock reading |

## Left out

- Time zones and daylight saving: `add(HOUR_OF_DAY, n)` is modelled as exactly n hours of milliseconds, and the calendar fields are read in UTC, where 1 January 1970 is a Thursday. Any other fixed whole-minute zone offset shifts now and the ring time by the same amount.
- Clock sampling: `System.currentTimeMillis()` and `new GregorianCalendar()` become an explicit `now` parameter. The busy-wait loop, `Thread.sleep(20)` and the 10 ms tolerance of the snooze tests are timing artefacts. With one clock reading, the deadline is exact.
- The recurring-day, current-day, later-day and earlier-day tests (`AlarmTest.java` lines 97, 230, 281 and 342) each read the current weekday once, before their loops, but re-read the hour and minute on every pass. A run that crosses midnight mixes two days. The model reads all fields from the same `now`.
- The fluent `Alarm.builder()` mechanics: only a builder given an hour and a minute is modelled. The defaults of `Alarm.builder().build()` when no time is given are not part of this model. Hour and minute are in range by type (0..23, 0..59), and no validation error for them is modelled.
- Printing to `System.out` and the JUnit test runner.
- Querying a day outside 0..6 is not exercised by the test. The model refuses it with the same `InvalidDay` error as the setter rather than returning false.
- Clock readings before 1970: snooze clock readings are non-negative (`nat`). Before 1970 the unset value 0 would lie in the future; that case is not modelled.
- A general description of the ring time might say "at or after now". The test's expectations say "strictly after the start of now's minute": a ring time equal to now's hour and minute rolls over. The model follows the test.
