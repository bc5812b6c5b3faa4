/** The next-occurrence computation behind the countdown line: for each
    enabled alarm the instants at which it will next ring, and the earliest
    of them over the whole alarm list. */
module Schedule {
  import opened Wrappers
  import opened Clock
  import opened Alarms

  /** An upcoming occurrence: when, and which alarm. */
  type Entry = (Instant, Alarm)

  predicate AllWellFormed(alarms: seq<Alarm>) {
    forall a :: a in alarms ==> a.WellFormed()
  }

  /** The alarm's time on the day of `now`. */
  function TodayAt(a: Alarm, now: Instant): Instant
    requires a.WellFormed()
  {
    At(DayNumber(now), a.hour, a.minute)
  }

  /** A one-time alarm's next occurrence: today if still ahead, else tomorrow. */
  function OneTimeCandidate(a: Alarm, now: Instant): Instant
    requires a.WellFormed()
  {
    var at := TodayAt(a, now);
    if at > now then at else at + DayLength
  }

  /** How many days from the weekday of `now` to the weekday `d`. */
  function DaysAhead(d: Day, now: Instant): (r: int)
    ensures 0 <= r < 7
  {
    (DayIndex(d) - Weekday(now)) % 7
  }

  /** A recurring alarm's next occurrence on the weekday `d`: `DaysAhead`
      days on, or a full week on when `d` is today and today's time has
      passed. */
  function WeeklyCandidate(a: Alarm, now: Instant, d: Day): Instant
    requires a.WellFormed()
  {
    var at := TodayAt(a, now);
    var ahead := DaysAhead(d, now);
    if ahead == 0 then (if at > now then at else at + WeekLength)
    else at + ahead * DayLength
  }

  /** The pairs the inner loop of `get_next_alarm` appends for one alarm. */
  function Entries(a: Alarm, now: Instant): (r: seq<Entry>)
    requires a.WellFormed()
    ensures forall k :: 0 <= k < |r| ==> r[k].1 == a
    ensures r == [] <==> !a.enabled
  {
    if !a.enabled then []
    else if a.OneTime() then [(OneTimeCandidate(a, now), a)]
    else seq(|a.days|, k requires 0 <= k < |a.days| => (WeeklyCandidate(a, now, a.days[k]), a))
  }

  /** The `upcoming_alarms` list, in the order `get_next_alarm` builds it. */
  function Upcoming(alarms: seq<Alarm>, now: Instant): seq<Entry>
    requires AllWellFormed(alarms)
  {
    if alarms == [] then []
    else Upcoming(alarms[..|alarms| - 1], now) + Entries(alarms[|alarms| - 1], now)
  }

  /** The position `min(..., key=instant)` picks: a least instant, and the
      first such one. */
  function FirstEarliest(u: seq<Entry>): (k: nat)
    requires |u| > 0
    ensures k < |u|
    ensures forall j :: 0 <= j < |u| ==> u[k].0 <= u[j].0
    ensures forall j :: 0 <= j < k ==> u[k].0 < u[j].0
  {
    if |u| == 1 then 0
    else
      var best := FirstEarliest(u[..|u| - 1]);
      if u[|u| - 1].0 < u[best].0 then |u| - 1 else best
  }

  /** `get_next_alarm`: the earliest upcoming occurrence, if any. */
  function NextAlarm(alarms: seq<Alarm>, now: Instant): Option<Entry>
    requires AllWellFormed(alarms)
  {
    if alarms == [] then None
    else
      var u := Upcoming(alarms, now);
      if u == [] then None else Some(u[FirstEarliest(u)])
  }

  // ---------------------------------------------------------------------
  // Day arithmetic behind the candidates

  /** Adding `ahead` days to a day moves its weekday by `ahead`. */
  lemma WeekdayShift(n: int, ahead: int, d: int)
    requires 0 <= d < 7 && ahead == (d - n % 7) % 7
    ensures (n + ahead) % 7 == d
  {
    var q := n / 7;
    assert n == 7 * q + n % 7;
    if d >= n % 7 {
      assert ahead == d - n % 7;
      assert n + ahead == 7 * q + d;
    } else {
      assert ahead == d - n % 7 + 7;
      assert n + ahead == 7 * (q + 1) + d;
    }
  }

  /** A later day with weekday `d` is at least `ahead` days on. */
  lemma WeekdayGap(n: int, m: int, ahead: int, d: int)
    requires 0 <= d < 7 && ahead == (d - n % 7) % 7
    requires n <= m && m % 7 == d
    ensures ahead <= m - n && (m - n) % 7 == ahead
  {
    WeekdayShift(n, ahead, d);
    var p, q := m / 7, (n + ahead) / 7;
    assert m == 7 * p + d;
    assert n + ahead == 7 * q + d;
    assert m - n == 7 * (p - q) + ahead;
    assert p - q >= 0;
  }

  /** An instant strictly after `now` is on `now`'s day or later. */
  lemma LaterDay(now: Instant, t: Instant)
    requires now < t
    ensures DayNumber(now) <= DayNumber(t)
  {
  }

  /** Two instants at the same time of day are a whole number of days apart. */
  lemma SameTimeOfDay(t: Instant, u: Instant)
    requires SecondOfDay(t) == SecondOfDay(u)
    ensures t - u == (DayNumber(t) - DayNumber(u)) * DayLength
  {
  }

  // ---------------------------------------------------------------------
  // One alarm

  /** A one-time alarm's candidate is the first instant after `now` at
      which it is scheduled, and it is at most a day away. */
  lemma {:induction false} OneTimeCandidateIsNext(a: Alarm, now: Instant)
    requires a.WellFormed() && a.OneTime()
    ensures ScheduledAt(a, OneTimeCandidate(a, now))
    ensures now < OneTimeCandidate(a, now) <= now + DayLength
    ensures forall t :: now < t && ScheduledAt(a, t) ==> OneTimeCandidate(a, now) <= t
  {
    var n := DayNumber(now);
    var at := TodayAt(a, now);
    var c := OneTimeCandidate(a, now);
    AtFields(n, a.hour, a.minute);
    AtFields(n + 1, a.hour, a.minute);
    assert at + DayLength == At(n + 1, a.hour, a.minute);
    forall t | now < t && ScheduledAt(a, t)
      ensures c <= t
    {
      ClockTimeMatch(t, a.hour, a.minute);
      LaterDay(now, t);
      SameTimeOfDay(t, at);
    }
  }

  /** A recurring alarm's candidate for the weekday `d` falls on `d`, at
      the alarm's time, strictly after `now` and at most a week after it,
      and it is the first such instant. */
  lemma {:induction false} WeeklyCandidateIsNext(a: Alarm, now: Instant, d: Day)
    requires a.WellFormed() && d in a.days
    ensures ScheduledAt(a, WeeklyCandidate(a, now, d))
    ensures Weekday(WeeklyCandidate(a, now, d)) == DayIndex(d)
    ensures now < WeeklyCandidate(a, now, d) <= now + WeekLength
    ensures forall t :: now < t && Weekday(t) == DayIndex(d) && ScheduledAt(a, t) ==>
              WeeklyCandidate(a, now, d) <= t
  {
    var n := DayNumber(now);
    var at := TodayAt(a, now);
    var ahead := DaysAhead(d, now);
    var c := WeeklyCandidate(a, now, d);
    var shift := if ahead == 0 && at <= now then 7 else ahead;
    AtFields(n, a.hour, a.minute);
    AtFields(n + shift, a.hour, a.minute);
    assert c == At(n + shift, a.hour, a.minute);
    WeekdayShift(n, ahead, DayIndex(d));
    assert Weekday(c) == DayIndex(d) by {
      assert (n + shift) % 7 == (n + ahead) % 7;
    }
    assert DayTag(Weekday(c)) == d;
    forall t | now < t && Weekday(t) == DayIndex(d) && ScheduledAt(a, t)
      ensures c <= t
    {
      ClockTimeMatch(t, a.hour, a.minute);
      LaterDay(now, t);
      WeekdayGap(n, DayNumber(t), ahead, DayIndex(d));
      SameTimeOfDay(t, at);
    }
  }

  /** Every pair listed for an alarm names a time at which the alarm is
      due, strictly after `now` and no more than a week after it (a day,
      for a one-time alarm). */
  lemma EntriesAreDue(a: Alarm, now: Instant, k: int)
    requires a.WellFormed() && 0 <= k < |Entries(a, now)|
    ensures Entries(a, now)[k].1 == a && ShouldFire(a, Entries(a, now)[k].0)
    ensures now < Entries(a, now)[k].0 <= now + WeekLength
    ensures a.OneTime() ==> Entries(a, now)[k].0 <= now + DayLength
  {
    if a.OneTime() {
      OneTimeCandidateIsNext(a, now);
    } else {
      WeeklyCandidateIsNext(a, now, a.days[k]);
    }
  }

  /** No occurrence of an enabled alarm after `now` comes before all of
      the pairs listed for it. */
  lemma EntriesCoverNext(a: Alarm, now: Instant, t: Instant)
    requires a.WellFormed() && now < t && ShouldFire(a, t)
    ensures exists k :: 0 <= k < |Entries(a, now)| && Entries(a, now)[k].0 <= t
  {
    if a.OneTime() {
      OneTimeCandidateIsNext(a, now);
      assert Entries(a, now)[0].0 <= t;
    } else {
      var d := DayTag(Weekday(t));
      var k :| 0 <= k < |a.days| && a.days[k] == d;
      WeeklyCandidateIsNext(a, now, d);
      assert Entries(a, now)[k].0 <= t;
    }
  }

  // ---------------------------------------------------------------------
  // The whole list

  /** Each pair of the upcoming list belongs to an alarm of the list and
      is one of that alarm's own pairs. */
  lemma {:induction false} UpcomingFrom(alarms: seq<Alarm>, now: Instant, k: int)
    requires AllWellFormed(alarms) && 0 <= k < |Upcoming(alarms, now)|
    ensures Upcoming(alarms, now)[k].1 in alarms
    ensures Upcoming(alarms, now)[k] in Entries(Upcoming(alarms, now)[k].1, now)
  {
    var init := alarms[..|alarms| - 1];
    var last := alarms[|alarms| - 1];
    var head := Upcoming(init, now);
    if k < |head| {
      UpcomingFrom(init, now, k);
      assert Upcoming(alarms, now)[k] == head[k];
    } else {
      assert Upcoming(alarms, now)[k] == Entries(last, now)[k - |head|];
    }
  }

  /** The upcoming list after the first `i` alarms is a prefix of the
      whole list, and the next alarm's pairs follow it directly. */
  lemma {:induction false} UpcomingPrefix(alarms: seq<Alarm>, now: Instant, i: int)
    requires AllWellFormed(alarms) && 0 <= i < |alarms|
    ensures Upcoming(alarms[..i + 1], now) == Upcoming(alarms[..i], now) + Entries(alarms[i], now)
    ensures Upcoming(alarms[..i + 1], now) <= Upcoming(alarms, now)
  {
    assert alarms[..i + 1][..i] == alarms[..i];
    if i + 1 < |alarms| {
      var init := alarms[..|alarms| - 1];
      assert init[..i + 1] == alarms[..i + 1] && init[..i] == alarms[..i];
      UpcomingPrefix(init, now, i);
    } else {
      assert alarms[..i + 1] == alarms;
    }
  }

  /** Every pair listed for an alarm of the list is in the upcoming list,
      behind the pairs of the alarms before it. */
  lemma UpcomingHas(alarms: seq<Alarm>, now: Instant, i: int, k: int)
    requires AllWellFormed(alarms) && 0 <= i < |alarms| && 0 <= k < |Entries(alarms[i], now)|
    ensures |Upcoming(alarms[..i], now)| + k < |Upcoming(alarms, now)|
    ensures Upcoming(alarms, now)[|Upcoming(alarms[..i], now)| + k] == Entries(alarms[i], now)[k]
  {
    UpcomingPrefix(alarms, now, i);
  }

  /** The pair at position `k` of the upcoming list comes from the alarm
      at position `i`, and all pairs of earlier alarms come before it. */
  lemma {:induction false} UpcomingOwner(alarms: seq<Alarm>, now: Instant, k: int) returns (i: int)
    requires AllWellFormed(alarms) && 0 <= k < |Upcoming(alarms, now)|
    ensures 0 <= i < |alarms|
    ensures Upcoming(alarms[..i + 1], now) == Upcoming(alarms[..i], now) + Entries(alarms[i], now)
    ensures |Upcoming(alarms[..i], now)| <= k < |Upcoming(alarms[..i + 1], now)|
    ensures Upcoming(alarms, now)[k] == Entries(alarms[i], now)[k - |Upcoming(alarms[..i], now)|]
  {
    var init := alarms[..|alarms| - 1];
    var whole := Upcoming(alarms, now);
    assert whole == Upcoming(init, now) + Entries(alarms[|alarms| - 1], now);
    if k < |Upcoming(init, now)| {
      i := UpcomingOwner(init, now, k);
      assert init[..i] == alarms[..i] && init[..i + 1] == alarms[..i + 1];
      assert whole[k] == Upcoming(init, now)[k];
    } else {
      i := |alarms| - 1;
      assert alarms[..i] == init;
      assert alarms[..i + 1] == alarms;
    }
  }

  /** The upcoming list is empty exactly when no alarm is enabled. */
  lemma UpcomingEmpty(alarms: seq<Alarm>, now: Instant)
    requires AllWellFormed(alarms)
    ensures Upcoming(alarms, now) == [] <==> forall a :: a in alarms ==> !a.enabled
  {
    if Upcoming(alarms, now) == [] {
      forall a | a in alarms
        ensures !a.enabled
      {
        var i :| 0 <= i < |alarms| && alarms[i] == a;
        if a.enabled {
          UpcomingHas(alarms, now, i, 0);
        }
      }
    } else {
      UpcomingFrom(alarms, now, 0);
    }
  }

  // ---------------------------------------------------------------------
  // Properties of get_next_alarm

  /** Nothing is upcoming exactly when no alarm is enabled, an empty list
      included. */
  lemma NextAlarmNone(alarms: seq<Alarm>, now: Instant)
    requires AllWellFormed(alarms)
    ensures NextAlarm(alarms, now) == None <==> forall a :: a in alarms ==> !a.enabled
  {
    UpcomingEmpty(alarms, now);
  }

  /** The result names an enabled alarm of the list and an instant, strictly
      after `now` and at most a week later, at which that alarm is due. */
  lemma NextAlarmIsDue(alarms: seq<Alarm>, now: Instant)
    requires AllWellFormed(alarms) && NextAlarm(alarms, now).Some?
    ensures NextAlarm(alarms, now).value.1 in alarms
    ensures ShouldFire(NextAlarm(alarms, now).value.1, NextAlarm(alarms, now).value.0)
    ensures now < NextAlarm(alarms, now).value.0 <= now + WeekLength
  {
    var u := Upcoming(alarms, now);
    var k := FirstEarliest(u);
    UpcomingFrom(alarms, now, k);
    var a := u[k].1;
    var j :| 0 <= j < |Entries(a, now)| && Entries(a, now)[j] == u[k];
    EntriesAreDue(a, now, j);
  }

  /** No alarm of the list is due after `now` and before the result. */
  lemma NextAlarmIsEarliest(alarms: seq<Alarm>, now: Instant, a: Alarm, t: Instant)
    requires AllWellFormed(alarms) && a in alarms && now < t && ShouldFire(a, t)
    ensures NextAlarm(alarms, now).Some? && NextAlarm(alarms, now).value.0 <= t
  {
    var i :| 0 <= i < |alarms| && alarms[i] == a;
    EntriesCoverNext(a, now, t);
    var k :| 0 <= k < |Entries(a, now)| && Entries(a, now)[k].0 <= t;
    UpcomingHas(alarms, now, i, k);
  }

  /** Ties go to the alarm met first: the result comes from the alarm at
      some position `i`, and every pair of the alarms before `i` is strictly
      later than the result. */
  lemma NextAlarmFirstWins(alarms: seq<Alarm>, now: Instant) returns (i: int)
    requires AllWellFormed(alarms) && NextAlarm(alarms, now).Some?
    ensures 0 <= i < |alarms| && NextAlarm(alarms, now).value in Entries(alarms[i], now)
    ensures forall j, k :: 0 <= j < i && 0 <= k < |Entries(alarms[j], now)| ==>
              NextAlarm(alarms, now).value.0 < Entries(alarms[j], now)[k].0
  {
    var u := Upcoming(alarms, now);
    var best := FirstEarliest(u);
    i := UpcomingOwner(alarms, now, best);
    forall j, k | 0 <= j < i && 0 <= k < |Entries(alarms[j], now)|
      ensures u[best].0 < Entries(alarms[j], now)[k].0
    {
      UpcomingHas(alarms, now, j, k);
      UpcomingPrefix(alarms, now, j);
      PrefixLength(alarms, now, j + 1, i);
    }
  }

  /** Upcoming lists of longer prefixes are at least as long. */
  lemma {:induction false} PrefixLength(alarms: seq<Alarm>, now: Instant, j: int, i: int)
    requires AllWellFormed(alarms) && 0 <= j <= i <= |alarms|
    ensures |Upcoming(alarms[..j], now)| <= |Upcoming(alarms[..i], now)|
    decreases i - j
  {
    if j < i {
      UpcomingPrefix(alarms, now, i - 1);
      assert alarms[..i - 1 + 1] == alarms[..i];
      PrefixLength(alarms, now, j, i - 1);
    }
  }

  /** The instant any alarm of the list rings at is the one the countdown
      announced a second earlier. */
  lemma DueIsAnnounced(alarms: seq<Alarm>, a: Alarm, t: Instant)
    requires AllWellFormed(alarms) && a in alarms && ShouldFire(a, t)
    ensures NextAlarm(alarms, t - 1).Some? && NextAlarm(alarms, t - 1).value.0 == t
  {
    NextAlarmIsEarliest(alarms, t - 1, a, t);
    NextAlarmIsDue(alarms, t - 1);
  }

  /** For a list holding only that alarm, the announcement also names it. */
  lemma DueIsAnnouncedAlone(a: Alarm, t: Instant)
    requires a.WellFormed() && ShouldFire(a, t)
    ensures NextAlarm([a], t - 1) == Some((t, a))
  {
    DueIsAnnounced([a], a, t);
    NextAlarmIsDue([a], t - 1);
  }

  /** A snoozed copy of an enabled alarm is next due at the start of the
      minute five minutes from now, that is between four and five minutes
      ahead. */
  lemma SnoozeIsNext(a: Alarm, now: Instant, stamp: int)
    requires a.enabled
    ensures var s := SnoozeCopy(a, now, stamp);
            var due := MinuteStart(now + SnoozeDelay);
            && now + SnoozeDelay - MinuteLength < due <= now + SnoozeDelay
            && Entries(s, now) == [(due, s)]
  {
    var s := SnoozeCopy(a, now, stamp);
    var due := MinuteStart(now + SnoozeDelay);
    OneTimeCandidateIsNext(s, now);
    var c := OneTimeCandidate(s, now);
    assert c <= due;
    ClockTimeMatch(c, s.hour, s.minute);
    ClockTimeMatch(due, s.hour, s.minute);
    SameTimeOfDay(due, c);
  }
}
