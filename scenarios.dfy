/** Worked cases of the schedule: day 0 is a Monday. */
module Scenarios {
  import opened Wrappers
  import opened Clock
  import opened Alarms
  import opened Schedule

  function Daily(hour: int, minute: int): (a: Alarm)
    requires ValidClockTime(hour, minute)
    ensures a.WellFormed() && a.OneTime() && a.enabled
  {
    Alarm(Index(1), hour, minute, "Wake", [], "Default", true)
  }

  function Mondays(hour: int, minute: int): (a: Alarm)
    requires ValidClockTime(hour, minute)
    ensures a.WellFormed() && !a.OneTime() && a.enabled
  {
    Alarm(Index(2), hour, minute, "Gym", [Mon], "Default", true)
  }

  /** A one-time 08:00 alarm seen at 09:00 is next due at 08:00 tomorrow. */
  lemma OneTimeRollsToTomorrow()
    ensures NextAlarm([Daily(8, 0)], At(0, 9, 0)) == Some((At(1, 8, 0), Daily(8, 0)))
  {
    AtFields(0, 9, 0);
  }

  /** A Monday 08:00 alarm seen on Monday at 07:00 is due the same
      morning; seen at 09:00 it is due the next Monday. */
  lemma MondayTodayOrNextWeek()
    ensures NextAlarm([Mondays(8, 0)], At(0, 7, 0)) == Some((At(0, 8, 0), Mondays(8, 0)))
    ensures NextAlarm([Mondays(8, 0)], At(0, 9, 0)) == Some((At(7, 8, 0), Mondays(8, 0)))
  {
    AtFields(0, 7, 0);
    AtFields(0, 9, 0);
  }

  /** One second before 08:00 the countdown points at 08:00, and at
      08:00:00 exactly the alarm fires. */
  lemma EndToEnd()
    ensures NextAlarm([Daily(8, 0)], At(0, 8, 0) - 1) == Some((At(0, 8, 0), Daily(8, 0)))
    ensures ShouldFire(Daily(8, 0), At(0, 8, 0))
  {
    AtFields(0, 8, 0);
    DueIsAnnouncedAlone(Daily(8, 0), At(0, 8, 0));
  }
}
