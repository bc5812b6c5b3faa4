/** The alarm bookkeeping of the application: the ordered alarm list, the
    set of alarms currently ringing, and the operations the user interface
    and the once-a-second checker perform on them. */
module App {
  import opened Wrappers
  import opened Clock
  import opened Alarms
  import opened Display
  import opened Schedule

  // ---------------------------------------------------------------------
  // The alarm list as a value

  /** The position of the first record carrying `id`, if any. */
  function FirstWithId(alarms: seq<Alarm>, id: Id): (r: Option<nat>)
    ensures r.None? <==> forall j :: 0 <= j < |alarms| ==> alarms[j].id != id
    ensures r.Some? ==> r.value < |alarms| && alarms[r.value].id == id &&
                        forall j :: 0 <= j < r.value ==> alarms[j].id != id
  {
    if alarms == [] then None
    else if alarms[0].id == id then Some(0)
    else match FirstWithId(alarms[1..], id)
      case None => None
      case Some(k) => Some(k + 1)
  }

  /** The list after `toggle_alarm`: the first record carrying `id` gets
      the new `enabled` flag. */
  function Toggled(alarms: seq<Alarm>, id: Id, enabled: bool): seq<Alarm> {
    match FirstWithId(alarms, id)
    case None => alarms
    case Some(k) => alarms[k := alarms[k].(enabled := enabled)]
  }

  /** Toggling keeps the length and order of the list and every field but
      `enabled`, and changes that flag only on the first record carrying
      `id`. */
  lemma ToggledChangesOnlyFlag(alarms: seq<Alarm>, id: Id, enabled: bool)
    ensures |Toggled(alarms, id, enabled)| == |alarms|
    ensures forall j :: 0 <= j < |alarms| ==>
              Toggled(alarms, id, enabled)[j].(enabled := alarms[j].enabled) == alarms[j]
    ensures forall j :: 0 <= j < |alarms| ==>
              Toggled(alarms, id, enabled)[j].enabled ==
                if FirstWithId(alarms, id) == Some(j) then enabled else alarms[j].enabled
  {
  }

  /** Setting the flag back to its former value restores the list, so
      disabling an alarm and enabling it again undoes the change. */
  lemma ToggleBack(alarms: seq<Alarm>, id: Id, enabled: bool, k: nat)
    requires FirstWithId(alarms, id) == Some(k)
    ensures Toggled(Toggled(alarms, id, enabled), id, alarms[k].enabled) == alarms
  {
    var once := Toggled(alarms, id, enabled);
    assert forall j :: 0 <= j < |once| ==> once[j].id == alarms[j].id;
    assert FirstWithId(once, id) == Some(k) by {
      var r := FirstWithId(once, id);
      assert r.Some?;
      assert r.value <= k && k <= r.value;
    }
  }

  /** The list `delete_alarm` keeps: the records whose id differs, in
      their original order. */
  function Removed(alarms: seq<Alarm>, id: Id): (r: seq<Alarm>)
    ensures |r| <= |alarms|
    ensures forall a :: a in r <==> a in alarms && a.id != id
  {
    if alarms == [] then []
    else
      var last := alarms[|alarms| - 1];
      var kept := Removed(alarms[..|alarms| - 1], id);
      assert forall a :: a in alarms <==> a in alarms[..|alarms| - 1] || a == last;
      if last.id == id then kept else kept + [last]
  }

  /** Removing from a joined list removes from each part in turn, so the
      kept records stay in their original order. */
  lemma {:induction false} RemovedSplits(front: seq<Alarm>, back: seq<Alarm>, id: Id)
    ensures Removed(front + back, id) == Removed(front, id) + Removed(back, id)
    decreases |back|
  {
    if back == [] {
      assert front + back == front;
    } else {
      var init := back[..|back| - 1];
      var last := back[|back| - 1];
      assert (front + back)[..|front + back| - 1] == front + init;
      assert (front + back)[|front + back| - 1] == last;
      RemovedSplits(front, init, id);
      assert Removed(front + back, id) ==
        Removed(front + init, id) + (if last.id == id then [] else [last]);
    }
  }

  /** The list is left as it is exactly when no record carries `id`. */
  lemma {:induction false} RemovedNothing(alarms: seq<Alarm>, id: Id)
    ensures Removed(alarms, id) == alarms <==> forall a :: a in alarms ==> a.id != id
  {
    if alarms != [] {
      var init := alarms[..|alarms| - 1];
      assert alarms == init + [alarms[|alarms| - 1]];
      RemovedNothing(init, id);
    }
  }

  /** Deleting twice is the same as deleting once. */
  lemma RemovedIdempotent(alarms: seq<Alarm>, id: Id)
    ensures Removed(Removed(alarms, id), id) == Removed(alarms, id)
  {
    RemovedNothing(Removed(alarms, id), id);
  }

  /** The id `add_alarm` gives a new record: the current list length.  It
      is fresh as long as every numbered id in the list is below the
      length, as it is before any deletion. */
  function NewId(alarms: seq<Alarm>): (id: Id)
    ensures id.Index?
    ensures (forall a :: a in alarms && a.id.Index? ==> a.id.n < |alarms|) ==>
              forall a :: a in alarms ==> a.id != id
  {
    Index(|alarms|)
  }

  /** Ids are not unique: after the first of two alarms is deleted, the
      next alarm added gets the id of the one that is left, and deleting
      either then deletes both. */
  lemma IdReuseAfterDelete(first: Alarm, second: Alarm, added: Alarm)
    requires first.id == Index(0) && second.id == Index(1)
    requires added.id == NewId(Removed([first, second], Index(0)))
    ensures added.id == second.id
    ensures Removed(Removed([first, second], Index(0)) + [added], added.id) == []
  {
    assert Removed([first, second], Index(0)) == [second] by {
      assert [first, second][..1] == [first];
      assert [first] [..0] == [];
    }
    assert ([second] + [added])[..1] == [second];
    assert [second][..0] == [];
  }

  // ---------------------------------------------------------------------
  // One tick of the checker

  function IdsOf(alarms: seq<Alarm>): set<Id> {
    set a | a in alarms :: a.id
  }

  /** The position of the first record carrying `id` that passes the fire
      test at `now`, if any. */
  function FirstDue(alarms: seq<Alarm>, id: Id, now: Instant): (r: Option<nat>)
    ensures r.None? <==> forall j :: 0 <= j < |alarms| ==> !(alarms[j].id == id && ShouldFire(alarms[j], now))
    ensures r.Some? ==> r.value < |alarms| && alarms[r.value].id == id && ShouldFire(alarms[r.value], now) &&
                        forall j :: 0 <= j < r.value ==> !(alarms[j].id == id && ShouldFire(alarms[j], now))
  {
    if alarms == [] then None
    else
      var last := alarms[|alarms| - 1];
      match FirstDue(alarms[..|alarms| - 1], id, now)
      case Some(p) => Some(p)
      case None => if last.id == id && ShouldFire(last, now) then Some(|alarms| - 1) else None
  }

  /** A record due first in a prefix is due first in the whole list. */
  lemma FirstDueKept(alarms: seq<Alarm>, id: Id, now: Instant)
    requires alarms != [] && FirstDue(alarms[..|alarms| - 1], id, now).Some?
    ensures FirstDue(alarms, id, now) == FirstDue(alarms[..|alarms| - 1], id, now)
  {
  }

  /** The alarms a tick of `check_alarms` triggers, in list order, and the
      ringing set afterwards.  Each trigger adds its id to the set, so a
      later record with an id already ringing is passed over. */
  function FireScan(alarms: seq<Alarm>, ringing: set<Id>, now: Instant): (r: (seq<Alarm>, set<Id>))
    ensures r.1 == ringing + IdsOf(r.0)
    ensures forall a :: a in r.0 ==> a in alarms && ShouldFire(a, now) && a.id !in ringing
    ensures forall i, j :: 0 <= i < j < |r.0| ==> r.0[i].id != r.0[j].id
    ensures forall a :: a in alarms && ShouldFire(a, now) ==> a.id in r.1
  {
    if alarms == [] then ([], ringing)
    else
      var init := alarms[..|alarms| - 1];
      var a := alarms[|alarms| - 1];
      var (fired, ringing') := FireScan(init, ringing, now);
      assert forall b :: b in alarms <==> b in init || b == a;
      if ShouldFire(a, now) && a.id !in ringing' then
        assert forall i :: 0 <= i < |fired| ==> fired[i].id in ringing';
        (fired + [a], ringing' + {a.id})
      else (fired, ringing')
  }

  /** Of the records sharing an id, a tick triggers the first one due, and
      it triggers them in list order. */
  lemma {:induction false} FireScanFirstDue(alarms: seq<Alarm>, ringing: set<Id>, now: Instant)
    ensures forall k :: 0 <= k < |FireScan(alarms, ringing, now).0| ==>
              FirstDue(alarms, FireScan(alarms, ringing, now).0[k].id, now).Some? &&
              alarms[FirstDue(alarms, FireScan(alarms, ringing, now).0[k].id, now).value] ==
                FireScan(alarms, ringing, now).0[k]
    ensures forall i, j :: 0 <= i < j < |FireScan(alarms, ringing, now).0| ==>
              FirstDue(alarms, FireScan(alarms, ringing, now).0[i].id, now).value <
                FirstDue(alarms, FireScan(alarms, ringing, now).0[j].id, now).value
  {
    if alarms != [] {
      var init := alarms[..|alarms| - 1];
      var a := alarms[|alarms| - 1];
      var (fired, ringing') := FireScan(init, ringing, now);
      FireScanFirstDue(init, ringing, now);
      forall k | 0 <= k < |fired|
        ensures FirstDue(alarms, fired[k].id, now) == FirstDue(init, fired[k].id, now)
      {
        FirstDueKept(alarms, fired[k].id, now);
      }
      if ShouldFire(a, now) && a.id !in ringing' {
        assert FirstDue(init, a.id, now).None?;
        assert FirstDue(alarms, a.id, now) == Some(|alarms| - 1);
        assert FireScan(alarms, ringing, now).0 == fired + [a];
      }
    }
  }

  /** Of two records sharing an id and both due, a tick with nothing
      ringing triggers the first and only the first. */
  lemma SharedIdFirstWins(a: Alarm, b: Alarm, now: Instant)
    requires a.id == b.id && ShouldFire(a, now) && ShouldFire(b, now)
    ensures FireScan([a, b], {}, now).0 == [a]
  {
    var fired := FireScan([a, b], {}, now).0;
    FireScanFirstDue([a, b], {}, now);
    assert FirstDue([a, b], a.id, now) == Some(0);
    assert a.id in IdsOf(fired);
    assert |fired| > 0;
    assert fired[0] in [a, b];
    assert fired[0] == a;
  }

  /** Outside second 0 of a minute a tick triggers nothing and leaves the
      ringing set as it was. */
  lemma {:induction false} QuietOffTheMinute(alarms: seq<Alarm>, ringing: set<Id>, now: Instant)
    requires Second(now) != 0
    ensures FireScan(alarms, ringing, now) == ([], ringing)
  {
    if alarms != [] {
      QuietOffTheMinute(alarms[..|alarms| - 1], ringing, now);
    }
  }

  /** A record whose id is already ringing is never triggered again until
      it is stopped or snoozed. */
  lemma RingingIsNotRetriggered(alarms: seq<Alarm>, ringing: set<Id>, now: Instant, a: Alarm)
    requires a.id in ringing
    ensures a !in FireScan(alarms, ringing, now).0
  {
  }

  /** The countdown shown right after the next alarm is computed is never
      blank and is at most a week. */
  lemma CountdownWithinWeek(alarms: seq<Alarm>, now: Instant)
    requires AllWellFormed(alarms) && NextAlarm(alarms, now).Some?
    ensures CountdownOf(NextAlarm(alarms, now).value.0, now) != Blank
    ensures CountdownOf(NextAlarm(alarms, now).value.0, now).TotalMinutes() <= 7 * 24 * 60
  {
    NextAlarmIsDue(alarms, now);
  }

  /** The body of the outer loop of `get_next_alarm` for one alarm:
      append its upcoming occurrences, one per repeat day. */
  method AppendOccurrences(upcoming: seq<Entry>, a: Alarm, now: Instant) returns (r: seq<Entry>)
    requires a.WellFormed()
    ensures r == upcoming + Entries(a, now)
  {
    r := upcoming;
    if !a.enabled {
      return;
    }
    var at := At(DayNumber(now), a.hour, a.minute);
    if |a.days| > 0 {
      var j := 0;
      while j < |a.days|
        invariant 0 <= j <= |a.days|
        invariant r == upcoming + Entries(a, now)[..j]
      {
        var ahead := (DayIndex(a.days[j]) - Weekday(now)) % 7;
        if ahead == 0 {
          if at > now {
            r := r + [(at, a)];
          } else {
            r := r + [(at + WeekLength, a)];
          }
        } else {
          r := r + [(at + ahead * DayLength, a)];
        }
        assert Entries(a, now)[..j + 1] == Entries(a, now)[..j] + [Entries(a, now)[j]];
        j := j + 1;
      }
      assert Entries(a, now)[..j] == Entries(a, now);
    } else if at > now {
      r := r + [(at, a)];
    } else {
      r := r + [(at + DayLength, a)];
    }
  }

  /** `min(upcoming, key=instant)`: scan keeping the first least entry. */
  method EarliestIndex(upcoming: seq<Entry>) returns (best: nat)
    requires |upcoming| > 0
    ensures best == FirstEarliest(upcoming)
    ensures best < |upcoming| && forall j :: 0 <= j < |upcoming| ==> upcoming[best].0 <= upcoming[j].0
  {
    best := 0;
    var k := 1;
    while k < |upcoming|
      invariant 1 <= k <= |upcoming|
      invariant best == FirstEarliest(upcoming[..k])
    {
      assert upcoming[..k + 1][..k] == upcoming[..k];
      if upcoming[k].0 < upcoming[best].0 {
        best := k;
      }
      k := k + 1;
    }
    assert upcoming[..k] == upcoming;
  }

  // ---------------------------------------------------------------------
  // The application state

  class AlarmApp {
    /** `self.alarms`, in insertion order. */
    var alarms: seq<Alarm>
    /** The keys of `self.running_alarms`: ids triggered and not yet
        stopped or snoozed. */
    var running: set<Id>

    ghost predicate Valid()
      reads this
    {
      AllWellFormed(alarms)
    }

    /** A fresh application holding the alarms loaded at start-up and
        nothing ringing. */
    constructor (loaded: seq<Alarm>)
      requires AllWellFormed(loaded)
      ensures Valid() && alarms == loaded && running == {}
    {
      alarms := loaded;
      running := {};
    }

    /** `add_alarm` with the picked hour, minute and period, the label
        entry, the checked weekdays and the chosen ringtone. */
    method AddAlarm(hour: int, minute: int, period: string, labelEntry: string,
                    selected: set<Day>, ringtone: string) returns (a: Alarm)
      requires Valid() && 1 <= hour <= 12 && ValidClockTime(0, minute)
      modifies this`alarms
      ensures Valid() && alarms == old(alarms) + [a]
      ensures a.id == NewId(old(alarms)) && a.enabled && a.ringtone == ringtone
      ensures a.hour == To24Hour(hour, period) && a.minute == minute
      ensures a.caption == if labelEntry == "" then DefaultLabel(a.hour, minute) else labelEntry
      ensures a.days == SelectedDays(selected)
    {
      var h := hour;
      if period == "PM" && h != 12 {
        h := h + 12;
      } else if period == "AM" && h == 12 {
        h := 0;
      }
      var caption := if labelEntry == "" then DefaultLabel(h, minute) else labelEntry;
      a := Alarm(NewId(alarms), h, minute, caption, SelectedDays(selected), ringtone, true);
      alarms := alarms + [a];
    }

    /** `toggle_alarm`: set the flag of the first record carrying `id`. */
    method ToggleAlarm(id: Id, enabled: bool)
      requires Valid()
      modifies this`alarms
      ensures Valid() && alarms == Toggled(old(alarms), id, enabled)
    {
      var i := 0;
      while i < |alarms|
        invariant 0 <= i <= |alarms| && alarms == old(alarms)
        invariant forall j :: 0 <= j < i ==> alarms[j].id != id
      {
        if alarms[i].id == id {
          assert FirstWithId(alarms, id) == Some(i);
          alarms := alarms[i := alarms[i].(enabled := enabled)];
          assert forall j :: 0 <= j < |alarms| ==> alarms[j].WellFormed() by {
            assert forall j :: 0 <= j < |alarms| ==> old(alarms)[j] in old(alarms);
          }
          return;
        }
        i := i + 1;
      }
    }

    /** `delete_alarm`: once the user confirms, drop every record carrying
        `id`.  The ringing set is left alone. */
    method DeleteAlarm(id: Id, confirmed: bool)
      requires Valid()
      modifies this`alarms
      ensures Valid()
      ensures alarms == if confirmed then Removed(old(alarms), id) else old(alarms)
    {
      if confirmed {
        alarms := Removed(alarms, id);
      }
    }

    /** `trigger_alarm`: mark the alarm as ringing. */
    method TriggerAlarm(a: Alarm)
      modifies this`running
      ensures running == old(running) + {a.id}
    {
      running := running + {a.id};
    }

    /** `stop_alarm`: the alarm no longer rings; nothing happens if it was
        not ringing. */
    method StopAlarm(id: Id)
      modifies this`running
      ensures running == old(running) - {id}
      ensures id !in old(running) ==> running == old(running)
    {
      if id in running {
        running := running - {id};
      }
    }

    /** `snooze_alarm` at `now`, with `stamp` the Unix time in seconds
        that names the copy: stop ringing and append the copy. */
    method SnoozeAlarm(a: Alarm, now: Instant, stamp: int)
      requires Valid()
      modifies this
      ensures Valid()
      ensures running == old(running) - {a.id}
      ensures alarms == old(alarms) + [SnoozeCopy(a, now, stamp)]
    {
      if a.id in running {
        running := running - {a.id};
      }
      alarms := alarms + [SnoozeCopy(a, now, stamp)];
    }

    /** One pass of the `check_alarms` loop at `now`: the alarms triggered,
        in list order. */
    method CheckAlarms(now: Instant) returns (fired: seq<Alarm>)
      modifies this`running
      ensures (fired, running) == FireScan(alarms, old(running), now)
    {
      fired := [];
      var i := 0;
      while i < |alarms|
        invariant 0 <= i <= |alarms|
        invariant (fired, running) == FireScan(alarms[..i], old(running), now)
      {
        var a := alarms[i];
        assert alarms[..i + 1][..i] == alarms[..i];
        if a.enabled && Hour(now) == a.hour && Minute(now) == a.minute && Second(now) == 0 {
          if |a.days| == 0 || DayTag(Weekday(now)) in a.days {
            if a.id !in running {
              TriggerAlarm(a);
              fired := fired + [a];
            }
          }
        }
        i := i + 1;
      }
      assert alarms[..i] == alarms;
    }

    /** `get_next_alarm` at `now`: collect the upcoming occurrences, then
        take the first earliest. */
    method GetNextAlarm(now: Instant) returns (next: Option<Entry>)
      requires Valid()
      ensures next == NextAlarm(alarms, now)
    {
      if |alarms| == 0 {
        return None;
      }
      var upcoming: seq<Entry> := [];
      var i := 0;
      while i < |alarms|
        invariant 0 <= i <= |alarms|
        invariant upcoming == Upcoming(alarms[..i], now)
      {
        assert alarms[..i + 1][..i] == alarms[..i];
        assert alarms[i] in alarms;
        upcoming := AppendOccurrences(upcoming, alarms[i], now);
        i := i + 1;
      }
      assert alarms[..i] == alarms;
      if upcoming == [] {
        return None;
      }
      var best := EarliestIndex(upcoming);
      next := Some(upcoming[best]);
    }

    /** `update_countdown`: the next alarm is computed at `nowNext` and the
        time left is measured at the later reading `now`; the countdown
        shows the next alarm's label with the breakdown. */
    method UpdateCountdown(nowNext: Instant, now: Instant) returns (shown: Countdown, caption: string)
      requires Valid()
      ensures NextAlarm(alarms, nowNext).None? ==> shown == Blank
      ensures NextAlarm(alarms, nowNext).Some? ==>
                shown == CountdownOf(NextAlarm(alarms, nowNext).value.0, now) &&
                caption == NextAlarm(alarms, nowNext).value.1.caption
    {
      var next := GetNextAlarm(nowNext);
      shown, caption := Blank, "";
      if next.Some? {
        var (target, a) := next.value;
        shown, caption := CountdownOf(target, now), a.caption;
      }
    }
  }
}
