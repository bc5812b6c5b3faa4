# Ring Ring alarm clock: a Dafny model of the alarm bookkeeping

Ring Ring is a desktop alarm clock. Its `AlarmApp` class keeps an ordered
list of alarm records (`id`, `hour`, `minute`, `label`, `days`,
`ringtone`, `enabled`) and a set of ids that are currently ringing. A
background loop looks at the wall clock once a second and triggers every
alarm that is due. A second loop shows a countdown to the next alarm. The
user adds, toggles, deletes, stops and snoozes alarms.

This project models that bookkeeping and proves its properties:

- `clock.dfy` (module `Clock`): wall-clock arithmetic. An instant is a
  whole number of seconds since local midnight at the start of a Monday.
  Weekday, hour, minute and second are read off it with floor division.
- `alarms.dfy` (module `Alarms`): weekday tags, ids, the alarm record, the
  fire condition of a tick and the record that a snooze creates.
- `display.dfy` (module `Display`): conversions between the 12-hour entry
  form and the stored 24-hour hour, two-digit fields, card texts and
  their truncation, and the countdown breakdown.
- `schedule.dfy` (module `Schedule`): the next-occurrence computation of
  `get_next_alarm`, specified as functions, with lemmas. The result is due
  strictly after now and within a week. It is the earliest due instant of
  any enabled alarm, and ties go to the alarm met first.
- `app.dfy` (module `App`): the alarm list and the ringing set as fields
  of the class `AlarmApp`. Its methods are the operations of the
  application. They are proved against the list functions `Toggled`,
  `Removed` and `FireScan`, and against `NextAlarm`.
- `scenarios.dfy` (module `Scenarios`): worked cases of the schedule.
- `wrappers.dfy` (module `Wrappers`): the `Option` type.

"Now" is always a parameter. So are the Unix time that names a snoozed
copy and the answer to the delete confirmation.

Some behaviour of the code is modelled as written:

- Ids are not unique. `add_alarm` uses the list length as the id, so after
  a deletion a new alarm can get the id of an alarm still in the list.
  `toggle_alarm` then changes only the first record with that id, and
  `delete_alarm` removes every record with it (`IdReuseAfterDelete`).
  On a tick, of the due records sharing an id only the first one rings
  (`FireScanFirstDue`, `SharedIdFirstWins`).
- Deleting a ringing alarm leaves its id in the ringing set.
- A one-time alarm is never disabled after it fires. It fires again every
  day at the same time.
- A snoozed copy stores the hour and minute of now plus five minutes. It
  therefore rings at the start of that minute, between four and five
  minutes after the snooze (`SnoozeIsNext`).
- The countdown shows days only when more than 24 whole hours are left.
  With between 24 and 25 hours left it shows "24h Ym".

## Model

| member | source | states |
|---|---|---|
| Clock.Weekday | main.py:712 | `now.weekday()`: a number in 0..6 that grows by one a day and wraps after Sunday, Monday 0; `DayTag` turns it into the `%a` tag the tick compares, and `WeeklyCandidateIsNext` relies on it |
| Clock.Hour | main.py:512 | `.hour` of an instant is in 0..23; `ClockFields` and `ClockTimeMatch` give how hour, minute and second make up the time of day |
| Clock.Minute | main.py:512 | `.minute` of an instant is in 0..59; `ClockFields` and `ClockTimeMatch` state its meaning |
| Clock.Second | main.py:512 | `.second` of an instant is in 0..59; `ClockFields` and `ClockTimeMatch` state its meaning |
| Clock.At | main.py:708 | `now.replace(hour=..., minute=..., second=0)` on a given day; `AtFields` shows it lands on that day, hour and minute at second 0 |
| Clock.MinuteStart | main.py:599-603 | the start of the minute containing an instant, at most 59 seconds earlier; `MinuteStartFields` shows it keeps the day, hour and minute |
| Alarms.ScheduledAt | main.py:512-513 | the time and day part of the fire test: now's hour and minute are the alarm's, its second is 0, and the alarm is one-time or covers now's weekday; `ShouldFireOncePerDay` states where it holds |
| Alarms.ShouldFire | main.py:509-513 | the whole fire test apart from the ringing check; `ShouldFireOncePerDay` and `DisabledNeverFires` state its properties |
| Alarms.DayIndex | main.py:711 | the `days_map` lookup gives each tag a distinct weekday number 0..6 in week order (Monday 0) |
| Alarms.DayTag | main.py:506 | the tag of weekday number `i` is the one `DayIndex` numbers `i`, so the tick's tag and the schedule's weekday number agree |
| Alarms.DayName | main.py:455 | each tag's text is three characters long |
| Alarms.Checked | main.py:358 | filtering the checkboxes keeps exactly the checked tags, in checkbox order, and keeps an increasing order increasing |
| Alarms.SelectedDays | main.py:358 | the `days` list built from the checkboxes holds exactly the checked tags, each once, Monday first |
| Alarms.ShouldFireOncePerDay | main.py:509-513 | on each day an enabled alarm covers, the fire condition holds at `hour:minute:00` and at no other instant |
| Alarms.DisabledNeverFires | main.py:509-510 | a disabled alarm never passes the fire condition |
| Alarms.SnoozeCopy | main.py:599-605 | the snooze copy is a well-formed one-time record with a new id, label "Snooze: " + label, the same ringtone and enabled flag, and is due at the start of the minute five minutes after now |
| Display.To24Hour | main.py:352-355 | for hours 1..12 with AM or PM the stored hour is in 0..23, and is below 12 exactly for AM |
| Display.DisplayHour | main.py:422-430 | for stored hours 0..23 the shown hour is in 1..12 with AM or PM, and PM exactly from 12 on |
| Display.DisplayThenEnter | main.py:422-430 | showing a stored hour and entering what is shown gives the stored hour back |
| Display.EnterThenDisplay | main.py:352-355 | entering a 12-hour time and showing it gives back the entry; 12 AM is stored as 0 and 12 PM as 12 |
| Display.DigitChar | main.py:357 | the digit character of `d` is a decimal digit whose value is `d` |
| Display.Pad2 | main.py:357 | the two-digit format of a number below 100 is two decimal digits |
| Display.Pad2RoundTrip | main.py:348-349 | parsing a two-digit field with `int` gives back the number formatted |
| Display.HourChoices | main.py:194 | the hour picker offers twelve values |
| Display.MinuteChoices | main.py:202 | the minute picker offers twelve values |
| Display.ChoicesParse | main.py:193-202 | every offered hour parses to 1..12 and every offered minute to a multiple of five in 0..55 |
| Display.ClockText | main.py:357 | the `HH:MM` text of a stored time; `ClockTextRoundTrip` shows both fields parse back |
| Display.DecimalValue | main.py:348-349 | `int` of a string of decimal digits; `Pad2RoundTrip` and `ChoicesParse` show what it gives on the formatted fields and picker values |
| Display.ClockTextRoundTrip | main.py:357 | the `HH:MM` text has five characters and its two fields parse back to the hour and minute |
| Display.DefaultLabel | main.py:357 | the label used when the entry is empty starts with "Alarm ", and its two fields behind it, split by a colon, parse back to the stored hour and minute |
| Display.CardTimeText | main.py:432 | the card time is five characters, a colon in the middle; the first field parses to the shown hour in 1..12 and the second to the minute |
| Display.PopupTimeText | main.py:568 | the popup headline is eight characters; entering its hour field with its period gives back the stored hour, and its minute field parses to the minute |
| Display.Truncate | main.py:447-449 | a shortened text is at most the limit long, equals the original exactly when that fits, and otherwise keeps the first limit-3 characters followed by "..." |
| Display.TruncateIdempotent | main.py:447-449 | shortening an already shortened text changes nothing |
| Display.LabelText | main.py:447-449 | the card label is at most 25 characters and is the label itself when that fits |
| Display.JoinDays | main.py:455 | joining the tags gives the empty text exactly for no tags, and otherwise five characters per tag less two |
| Display.JoinDaysLayout | main.py:455 | the joined text holds each tag's name at its place in order, with ", " between neighbours |
| Display.DaysText | main.py:454-460 | the repeat line is at most 30 characters; it reads "One-time alarm" for a one-time alarm, "Repeats: " and the joined tags in full for one to four tags, and with more tags the first 27 characters of that followed by "..." |
| Display.RingtoneText | main.py:463-465 | the ringtone line is at most 25 characters and ends with the ringtone name when that fits |
| Display.CountdownOf | main.py:748-759 | blank exactly when the target is not in the future; otherwise the breakdown is the time left floored to the minute, with days exactly from 25 hours on, hours and minutes from one hour up to 25 hours, minutes only below an hour, and every field in range |
| Schedule.TodayAt | main.py:708 | the alarm's time on now's day, at second 0; `AtFields` gives its day, hour and minute |
| Schedule.OneTimeCandidate | main.py:728-734 | a one-time alarm's next time: today if still ahead, else tomorrow; `OneTimeCandidateIsNext` shows it is the first due instant after now |
| Schedule.WeeklyCandidate | main.py:710-727 | a recurring alarm's next time on one tag; `WeeklyCandidateIsNext` shows it is the first instant after now on that weekday at the alarm's time |
| Schedule.DaysAhead | main.py:716 | the days from now's weekday to a tag's weekday are in 0..6 |
| Schedule.Entries | main.py:703-734 | an alarm contributes pairs naming itself, and none exactly when it is disabled |
| Schedule.FirstEarliest | main.py:736-737 | the position `min` picks holds a least instant and no earlier position holds that instant |
| Schedule.OneTimeCandidateIsNext | main.py:728-734 | a one-time alarm's candidate is the first instant after now at which it is due, and at most a day away |
| Schedule.WeeklyCandidateIsNext | main.py:710-727 | a recurring alarm's candidate for a tag falls on that weekday at the alarm's time with second 0, strictly after now and at most a week later, and is the first such instant; so it is today only when today's time is still ahead, and otherwise a week on |
| Schedule.EntriesAreDue | main.py:703-734 | every pair listed for an alarm names an instant at which that alarm fires, strictly after now, within a week, within a day for a one-time alarm |
| Schedule.EntriesCoverNext | main.py:703-734 | every instant after now at which an alarm fires is matched or beaten by one of its pairs |
| Schedule.Upcoming | main.py:701-734 | the `upcoming_alarms` list in build order; `UpcomingFrom`, `UpcomingPrefix`, `UpcomingHas`, `UpcomingOwner` and `UpcomingEmpty` state what it holds and where |
| Schedule.UpcomingFrom | main.py:703-734 | every collected pair belongs to an alarm of the list and is one of that alarm's pairs |
| Schedule.UpcomingPrefix | main.py:703-734 | the pairs of the first alarms are a prefix of the collected list, followed directly by the next alarm's pairs |
| Schedule.UpcomingHas | main.py:703-734 | every pair of every alarm of the list is collected, behind the pairs of the alarms before it |
| Schedule.UpcomingOwner | main.py:703-734 | each collected pair comes from one alarm, positioned after all pairs of the alarms before it |
| Schedule.PrefixLength | main.py:703-734 | longer prefixes of the list collect at least as many pairs |
| Schedule.UpcomingEmpty | main.py:703-735 | nothing is collected exactly when no alarm is enabled |
| Schedule.NextAlarm | main.py:695-738 | `get_next_alarm`; `NextAlarmNone`, `NextAlarmIsDue`, `NextAlarmIsEarliest` and `NextAlarmFirstWins` pin down its result |
| Schedule.NextAlarmNone | main.py:697-738 | `get_next_alarm` returns nothing exactly when no alarm is enabled, the empty list included |
| Schedule.NextAlarmIsDue | main.py:703-737 | the result names an enabled alarm of the list and an instant strictly after now, at most a week later, at which it fires |
| Schedule.NextAlarmIsEarliest | main.py:736-737 | no alarm of the list fires after now and before the result |
| Schedule.NextAlarmFirstWins | main.py:736-737 | the result comes from some alarm, and every pair of the alarms before it is strictly later, so ties go to the alarm met first |
| Schedule.DueIsAnnounced | main.py:695-738 | for any list, the instant one of its alarms fires at is exactly the instant the next-alarm computation gave one second earlier |
| Schedule.DueIsAnnouncedAlone | main.py:695-738 | for a list holding only that alarm, the computation one second earlier gives that instant and that alarm |
| Schedule.SnoozeIsNext | main.py:599-605 | the snoozed copy of an enabled alarm is next due at the start of the minute five minutes from now, between four and five minutes ahead |
| App.FirstWithId | main.py:489-492 | the position found is the first record carrying the id, and none is found exactly when no record carries it |
| App.Toggled | main.py:488-492 | the list after `toggle_alarm`; `ToggledChangesOnlyFlag` and `ToggleBack` state what changes |
| App.ToggledChangesOnlyFlag | main.py:488-492 | toggling keeps the length, the order and every field but `enabled`, and sets that flag only on the first record carrying the id |
| App.ToggleBack | main.py:488-492 | setting the flag back to its former value restores the list |
| App.Removed | main.py:498 | deleting keeps exactly the records whose id differs |
| App.RemovedSplits | main.py:498 | deleting from a joined list deletes from each part in turn, so the kept records stay in their original order |
| App.RemovedNothing | main.py:498 | the list is unchanged exactly when no record carries the id |
| App.RemovedIdempotent | main.py:498 | deleting twice is the same as deleting once |
| App.NewId | main.py:362 | a new record gets a numbered id, and no record already carries it while every numbered id in the list is below the list length, as before any deletion |
| App.IdReuseAfterDelete | main.py:362 | after deleting the first of two alarms, the next one added gets the id of the one left, and deleting that id removes both |
| App.FirstDue | main.py:508-514 | the position found is the first record carrying the id that passes the fire test, and none is found exactly when no such record exists |
| App.FireScan | main.py:508-515 | a tick triggers only alarms of the list that pass the fire condition and are not ringing, never two with one id, rings every passing alarm's id afterwards, and adds to the ringing set exactly the triggered ids |
| App.FireScanFirstDue | main.py:508-515 | each triggered record is the first record due with its id, and the triggered records follow list order |
| App.SharedIdFirstWins | main.py:508-515 | of two due records sharing an id, a tick with nothing ringing triggers the first and only the first |
| App.QuietOffTheMinute | main.py:512 | outside second 0 a tick triggers nothing and leaves the ringing set alone |
| App.RingingIsNotRetriggered | main.py:514 | an alarm whose id is ringing is not triggered again |
| App.CountdownWithinWeek | main.py:742-759 | the countdown to the next alarm is never blank when computed at the same instant, and is at most a week |
| App.AppendOccurrences | main.py:703-734 | one pass of the outer loop appends exactly the alarm's pairs to the collected list |
| App.EarliestIndex | main.py:736-737 | the scan returns the position `min` picks: a least instant, the first one |
| App.AlarmApp.constructor | main.py:71-72 | a new application holds the loaded alarms and nothing is ringing |
| App.AlarmApp.AddAlarm | main.py:347-372 | appends exactly one enabled record with id the old length, the converted hour, the minute, the entered or default label, the checked days and the ringtone |
| App.AlarmApp.ToggleAlarm | main.py:488-492 | the list becomes `Toggled` of the old list |
| App.AlarmApp.DeleteAlarm | main.py:496-498 | on confirmation the list becomes `Removed` of the old list; otherwise it is unchanged; the ringing set is untouched |
| App.AlarmApp.TriggerAlarm | main.py:519-520 | the ringing set gains the alarm's id and nothing else changes |
| App.AlarmApp.StopAlarm | main.py:587-590 | the ringing set loses the id, and is unchanged if the id was not ringing |
| App.AlarmApp.SnoozeAlarm | main.py:593-607 | the id stops ringing and exactly the snooze copy is appended; the other records are unchanged |
| App.AlarmApp.CheckAlarms | main.py:503-515 | one pass triggers, in list order, the alarms `FireScan` selects and leaves the ringing set as `FireScan` says |
| App.AlarmApp.GetNextAlarm | main.py:695-738 | the loops compute `NextAlarm` of the current list |
| App.AlarmApp.UpdateCountdown | main.py:740-768 | the countdown is blank with no next alarm, and otherwise the breakdown to the next alarm's instant measured at the later reading, with that alarm's label |
| Scenarios.OneTimeRollsToTomorrow | main.py:728-734 | a one-time 08:00 alarm seen at 09:00 is next due at 08:00 the next day |
| Scenarios.MondayTodayOrNextWeek | main.py:710-727 | a Monday 08:00 alarm seen Monday 07:00 is due that morning, and seen at 09:00 the next Monday |
| Scenarios.EndToEnd | main.py:509-513 | one second before 08:00 the next alarm is 08:00, and at 08:00:00 it fires |

## Left out

- The user interface: window and card layout, dialogs, popups, the theme switch and the volume slider. Dialog answers that the logic depends on, such as the delete confirmation, are parameters.
- Sound playback with pygame and winsound, ringtone browsing and copying, and the ringtone list. These are foreign library calls and file I/O.
- The threads and sleep loops. `CheckAlarms` models one pass of the checking loop and `UpdateCountdown` one refresh. Races between these loops and user actions are not modelled.
- JSON persistence of alarms and settings, the tray icon, the browser link and quitting. These are I/O and OS integration. The constructor takes the loaded alarms as a parameter.
- The `created` timestamp of a record. It is written once and never read.
- The float volume setting.
- Sub-second precision. Instants are whole seconds. This does not change the fire test or which occurrence is next, because alarm times are whole seconds. The countdown is measured in whole seconds, so when the true time left has a fractional part, the countdown can be one minute longer than the code's, and at an hour boundary this carries into the hours or days field (with 3599.5 seconds left the code shows 59 minutes, the model 1 hour 0 minutes).
- Daylight-saving changes. Days are 86400 seconds long, as naive `datetime` arithmetic assumes.
- Weekday tags follow the English locale of `strftime("%a")`. Tags outside the seven known ones can only come from an edited alarm file. They are not modelled, since `days` is a list of the `Day` type.
- Sharing of alarm records. The toggle and delete callbacks and the popup capture the record object. `SnoozeAlarm` takes the record's current value as a parameter, so a later change to the shared object is not seen.
- App.AlarmApp.AddAlarm: requires an hour in 1..12 and a minute in 0..59. The pickers offer only such values (`ChoicesParse`). Text typed into the pickers instead can make `int` raise, or store an hour or minute out of range, which later makes `now.replace` raise. That path is not modelled.
- Schedule.NextAlarm and the lemmas about it: require every record, disabled ones included, to have a valid hour and minute. The code raises only on an enabled record with an invalid time (`now.replace`), and skips a disabled one before reading its time, so a disabled record with, say, hour 25 is handled by the code but outside the model. Such records arise only from typed picker text or an edited alarm file, which the `AddAlarm` line above already leaves out.
- Display.CountdownOf: gives the days, hours and minutes, not the formatted text with the label.
