/** The alarm's schedule: a clock time fixed when the alarm is built, and a
    set of recurring weekdays that can be changed afterwards.

    The recurrence set is kept as seven flags, one per weekday index
    0 (Sunday) .. 6 (Saturday). Marking or querying a day outside that range
    is refused with an invalid-argument error and changes nothing.
 */
module Recurrence {
  import opened Clock

  /** `IllegalArgumentException` for a weekday index outside 0 .. 6. */
  datatype Error = InvalidDay(day: int)

  datatype Result<T> = Ok(value: T) | Err(error: Error)

  /** One flag per weekday, indexed by Weekday. */
  type WeekFlags = s: seq<bool> | |s| == DaysPerWeek
    witness [false, false, false, false, false, false, false]

  datatype Schedule = Schedule(hour: Hour, minute: Minute, recurring: WeekFlags)

  /** `Alarm.builder().hour(hour).minutes(minute).build()`: no day recurs yet. */
  function Build(hour: Hour, minute: Minute): (s: Schedule)
    ensures s.hour == hour && s.minute == minute
    ensures forall d :: 0 <= d < DaysPerWeek ==> IsRecurring(s, d) == Ok(false)
    ensures !HasRecurrence(s)
  {
    Schedule(hour, minute, [false, false, false, false, false, false, false])
  }

  /** `setRecurring(day, recurring)`: marks or unmarks one weekday. The
      clock time and every other weekday are left as they were. */
  function SetRecurring(s: Schedule, day: int, recurring: bool): (r: Result<Schedule>)
    ensures r.Err? <==> !(0 <= day < DaysPerWeek)
    ensures r.Err? ==> r.error == InvalidDay(day)
    ensures r.Ok? ==> r.value.hour == s.hour && r.value.minute == s.minute
    ensures r.Ok? ==> IsRecurring(r.value, day) == Ok(recurring)
    ensures r.Ok? ==> forall d :: 0 <= d < DaysPerWeek && d != day ==>
                        IsRecurring(r.value, d) == IsRecurring(s, d)
  {
    if 0 <= day < DaysPerWeek then
      Ok(Schedule(s.hour, s.minute, s.recurring[day := recurring]))
    else
      Err(InvalidDay(day))
  }

  /** `isRecurring(day)`: whether the weekday is marked; a day outside
      0 .. 6 is refused like in SetRecurring. */
  function IsRecurring(s: Schedule, day: int): (r: Result<bool>)
    ensures r.Err? <==> !(0 <= day < DaysPerWeek)
    ensures r.Err? ==> r.error == InvalidDay(day)
  {
    if 0 <= day < DaysPerWeek then Ok(s.recurring[day]) else Err(InvalidDay(day))
  }

  /** `hasRecurrence()`: at least one weekday is marked. */
  function HasRecurrence(s: Schedule): (r: bool)
    ensures r <==> exists d :: 0 <= d < DaysPerWeek && IsRecurring(s, d) == Ok(true)
  {
    var r := true in s.recurring;
    assert r ==> exists d :: 0 <= d < DaysPerWeek && IsRecurring(s, d) == Ok(true) by {
      if r {
        var d :| 0 <= d < DaysPerWeek && s.recurring[d];
        assert IsRecurring(s, d) == Ok(true);
      }
    }
    r
  }

  /** The first loop of the recurrence test: marks the even weekdays
      (Sunday, Tuesday, Thursday, Saturday) and unmarks the odd ones, one
      SetRecurring call per day from Sunday to Saturday. */
  method MarkEvenDays(s: Schedule) returns (r: Schedule)
    ensures r.hour == s.hour && r.minute == s.minute
    ensures forall d :: 0 <= d < DaysPerWeek ==> IsRecurring(r, d) == Ok(d % 2 == 0)
    ensures HasRecurrence(r)
  {
    r := s;
    var i := 0;
    while i < DaysPerWeek
      invariant 0 <= i <= DaysPerWeek
      invariant r.hour == s.hour && r.minute == s.minute
      invariant forall d :: 0 <= d < i ==> IsRecurring(r, d) == Ok(d % 2 == 0)
    {
      var next := SetRecurring(r, i, i % 2 == 0);
      r := next.value;
      i := i + 1;
    }
    assert IsRecurring(r, 0) == Ok(true);
  }

  /** The second loop of the recurrence test: unmarks every weekday. */
  method ClearAllDays(s: Schedule) returns (r: Schedule)
    ensures r.hour == s.hour && r.minute == s.minute
    ensures forall d :: 0 <= d < DaysPerWeek ==> IsRecurring(r, d) == Ok(false)
    ensures !HasRecurrence(r)
  {
    r := s;
    var i := 0;
    while i < DaysPerWeek
      invariant 0 <= i <= DaysPerWeek
      invariant r.hour == s.hour && r.minute == s.minute
      invariant forall d :: 0 <= d < i ==> IsRecurring(r, d) == Ok(false)
    {
      var next := SetRecurring(r, i, false);
      r := next.value;
      i := i + 1;
    }
  }

  /** The loop of the every-day ring-time test: marks every weekday. */
  method MarkAllDays(s: Schedule) returns (r: Schedule)
    ensures r.hour == s.hour && r.minute == s.minute
    ensures forall d :: 0 <= d < DaysPerWeek ==> IsRecurring(r, d) == Ok(true)
  {
    r := s;
    var i := 0;
    while i < DaysPerWeek
      invariant 0 <= i <= DaysPerWeek
      invariant r.hour == s.hour && r.minute == s.minute
      invariant forall d :: 0 <= d < i ==> IsRecurring(r, d) == Ok(true)
    {
      var next := SetRecurring(r, i, true);
      r := next.value;
      i := i + 1;
    }
  }

  /** Days outside 0 .. 6 (the test tries 7 and -3) are refused by both the
      setter and the query; the schedule the caller holds stays as it was. */
  lemma InvalidDaysRejected(s: Schedule, day: int, recurring: bool)
    requires day < 0 || DaysPerWeek <= day
    ensures SetRecurring(s, day, recurring) == Err(InvalidDay(day))
    ensures IsRecurring(s, day) == Err(InvalidDay(day))
  {
  }

  /** Marking any single day gives recurrence, and with every day unmarked
      there is none. */
  lemma MarkingGivesRecurrence(s: Schedule, day: int)
    requires 0 <= day < DaysPerWeek
    ensures HasRecurrence(SetRecurring(s, day, true).value)
    ensures (forall d :: 0 <= d < DaysPerWeek ==> IsRecurring(s, d) == Ok(false)) ==> !HasRecurrence(s)
  {
  }
}
