/** Alarm records, weekday tags and the per-tick fire condition. */
module Alarms {
  import opened Clock

  /** The weekday tags an alarm can repeat on, as `strftime("%a")` spells
      them in the English locale. */
  datatype Day = Mon | Tue | Wed | Thu | Fri | Sat | Sun

  /** The weekday checkboxes, in the order the entry form lists them. */
  const Week: seq<Day> := [Mon, Tue, Wed, Thu, Fri, Sat, Sun]

  /** The `days_map` lookup: Monday is 0, as `datetime.weekday()` counts. */
  function DayIndex(d: Day): (r: int)
    ensures 0 <= r < 7 && Week[r] == d
  {
    match d
    case Mon => 0
    case Tue => 1
    case Wed => 2
    case Thu => 3
    case Fri => 4
    case Sat => 5
    case Sun => 6
  }

  /** The tag `strftime("%a")` prints for the weekday numbered `i`. */
  function DayTag(i: int): (d: Day)
    requires 0 <= i < 7
    ensures DayIndex(d) == i
  {
    Week[i]
  }

  function DayName(d: Day): (s: string)
    ensures |s| == 3
  {
    match d
    case Mon => "Mon"
    case Tue => "Tue"
    case Wed => "Wed"
    case Thu => "Thu"
    case Fri => "Fri"
    case Sat => "Sat"
    case Sun => "Sun"
  }

  /** The checked tags among `days`, in the order of `days`. */
  function Checked(days: seq<Day>, selected: set<Day>): (r: seq<Day>)
    ensures |r| <= |days|
    ensures forall d :: d in r <==> d in days && d in selected
    ensures (forall i, j :: 0 <= i < j < |days| ==> DayIndex(days[i]) < DayIndex(days[j])) ==>
              forall i, j :: 0 <= i < j < |r| ==> DayIndex(r[i]) < DayIndex(r[j])
  {
    if days == [] then []
    else
      var rest := Checked(days[..|days| - 1], selected);
      var last := days[|days| - 1];
      assert forall d :: d in days <==> d in days[..|days| - 1] || d == last;
      if last in selected then
        assert forall i :: 0 <= i < |rest| ==> rest[i] in days[..|days| - 1];
        rest + [last]
      else rest
  }

  /** The `days` list `add_alarm` builds from the checkboxes: exactly the
      checked tags, each once, Monday first. */
  function SelectedDays(selected: set<Day>): (r: seq<Day>)
    ensures forall d :: d in r <==> d in selected
    ensures forall i, j :: 0 <= i < j < |r| ==> DayIndex(r[i]) < DayIndex(r[j])
  {
    assert forall d: Day :: d in Week by {
      forall d: Day ensures d in Week { assert Week[DayIndex(d)] == d; }
    }
    Checked(Week, selected)
  }

  /** Alarm identifiers: `len(self.alarms)` at creation time, or the
      `snooze_<id>_<unix seconds>` string a snooze derives. */
  datatype Id = Index(n: nat) | Snoozed(of: Id, stamp: int)

  datatype Alarm = Alarm(
    id: Id,
    hour: int,
    minute: int,
    caption: string,  // the record's `label` field (`label` is a Dafny keyword)
    days: seq<Day>,
    ringtone: string,
    enabled: bool)
  {
    /** Hour and minute form a wall-clock time, as the entry form yields. */
    predicate WellFormed() {
      ValidClockTime(hour, minute)
    }

    predicate OneTime() {
      |days| == 0
    }
  }

  /** The alarm's time of day and weekday match the instant `t`. */
  predicate ScheduledAt(a: Alarm, t: Instant) {
    && Hour(t) == a.hour
    && Minute(t) == a.minute
    && Second(t) == 0
    && (a.OneTime() || DayTag(Weekday(t)) in a.days)
  }

  /** The test `check_alarms` applies to each alarm on a tick, apart from
      the ringing-set check. */
  predicate ShouldFire(a: Alarm, now: Instant) {
    a.enabled && ScheduledAt(a, now)
  }

  /** An alarm is due exactly at `hour:minute:00` of each day it covers:
      at that instant, and at no other instant of such a day. */
  lemma ShouldFireOncePerDay(a: Alarm, day: int, t: Instant)
    requires a.WellFormed() && a.enabled
    requires a.OneTime() || DayTag(day % 7) in a.days
    requires DayNumber(t) == day
    ensures ShouldFire(a, t) <==> t == At(day, a.hour, a.minute)
  {
    AtFields(day, a.hour, a.minute);
    ClockTimeMatch(t, a.hour, a.minute);
  }

  /** A disabled alarm never fires, whatever the time. */
  lemma DisabledNeverFires(a: Alarm, now: Instant)
    requires !a.enabled
    ensures !ShouldFire(a, now)
  {
  }

  const SnoozeDelay: int := 5 * MinuteLength
  const SnoozePrefix: string := "Snooze: "

  /** The record `snooze_alarm` appends: a one-time copy at the wall-clock
      hour and minute five minutes after `now`. */
  function SnoozeCopy(a: Alarm, now: Instant, stamp: int): (r: Alarm)
    ensures r.WellFormed() && r.OneTime() && r.id != a.id
    ensures r.caption == SnoozePrefix + a.caption
    ensures r.ringtone == a.ringtone && r.enabled == a.enabled
    ensures ScheduledAt(r, MinuteStart(now + SnoozeDelay))
  {
    var due := now + SnoozeDelay;
    MinuteStartFields(due);
    Alarm(Snoozed(a.id, stamp), Hour(due), Minute(due), SnoozePrefix + a.caption, [], a.ringtone, a.enabled)
  }
}
