/** The snooze deadline of an alarm.

    Snoozing stores an absolute deadline, now plus the requested minutes,
    at full millisecond precision (it is not rounded to a minute like a ring
    time). The alarm is snoozed while the clock reads strictly less than the
    deadline. The stored value 0 means "never snoozed", and once the deadline
    has passed the deadline is reported as 0 again: nothing clears it, the
    query derives it from the clock reading.

    Clock readings are `System.currentTimeMillis()` values, passed in
    explicitly and never negative.
 */
module Snoozing {
  import opened Clock

  /** The deadline in epoch milliseconds; 0 when unset. */
  datatype SnoozeState = SnoozeState(until: int)

  /** The state of a newly built alarm. */
  const Unset := SnoozeState(0)

  /** `snooze(minutes)` at clock reading now: replaces any earlier deadline. */
  function Snooze(now: nat, minutes: int): (s: SnoozeState)
    ensures s.until == AddMinutes(now, minutes)
    ensures SecondOf(s.until) == SecondOf(now) && MilliOf(s.until) == MilliOf(now)
  {
    var s := SnoozeState(now + minutes * MsPerMinute);
    DivModUnique(s.until, MsPerMinute, MinuteIndex(now) + minutes, now % MsPerMinute);
    DivModUnique(s.until, MsPerSecond, 60 * (MinuteIndex(now) + minutes) + now % MsPerMinute / MsPerSecond, MilliOf(now));
    DivModUnique(now, MsPerSecond, 60 * MinuteIndex(now) + now % MsPerMinute / MsPerSecond, MilliOf(now));
    s
  }

  /** `isSnoozed()` at clock reading now. */
  predicate IsSnoozed(s: SnoozeState, now: nat)
    ensures IsSnoozed(s, now) ==> s.until > 0
  {
    now < s.until
  }

  /** `snoozingUntil()` at clock reading now: the deadline while it lies
      ahead, 0 once it has passed. */
  function SnoozingUntil(s: SnoozeState, now: nat): (r: int)
    ensures r != 0 <==> IsSnoozed(s, now)
    ensures r != 0 ==> r == s.until && now < r
  {
    if IsSnoozed(s, now) then s.until else 0
  }

  /** Right after `snooze(minutes)`, the reported deadline is exactly the
      clock reading plus that many minutes (the test allows 10 ms of drift
      between two clock samples; with one reading there is none). */
  lemma SnoozeReportsDeadline(now: nat, minutes: int)
    requires minutes > 0
    ensures SnoozingUntil(Snooze(now, minutes), now) == now + minutes * MsPerMinute
  {
  }

  /** After `snooze(minutes)` at start, the alarm is snoozed at every clock
      reading from start up to but excluding the deadline, and not snoozed,
      with a deadline reported as 0, at every reading from the deadline on. */
  lemma SnoozedUntilDeadline(start: nat, minutes: int, now: nat)
    requires start <= now
    ensures IsSnoozed(Snooze(start, minutes), now) <==> now < start + minutes * MsPerMinute
    ensures now >= start + minutes * MsPerMinute ==> SnoozingUntil(Snooze(start, minutes), now) == 0
  {
  }

  /** Once a snooze has expired it stays expired as the clock moves on. */
  lemma ExpiryIsFinal(s: SnoozeState, now: nat, later: nat)
    requires now <= later && !IsSnoozed(s, now)
    ensures !IsSnoozed(s, later) && SnoozingUntil(s, later) == 0
  {
  }

  /** A newly built alarm is not snoozed and reports no deadline. */
  lemma UnsetIsNotSnoozed(now: nat)
    ensures !IsSnoozed(Unset, now) && SnoozingUntil(Unset, now) == 0
  {
  }
}
