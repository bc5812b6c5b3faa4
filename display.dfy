/** The small conversions between what the user picks or sees and what an
    alarm record stores: 12-hour and 24-hour clock hours, two-digit
    fields, shortened card texts and the countdown breakdown. */
module Display {
  import opened Clock
  import opened Alarms

  /** `add_alarm`: the hour picked on a 12-hour clock as a 24-hour hour.
      Any period text other than "AM" or "PM" leaves the hour as picked. */
  function To24Hour(hour: int, period: string): (r: int)
    ensures 1 <= hour <= 12 && (period == "AM" || period == "PM") ==>
              0 <= r < 24 && (r < 12 <==> period == "AM")
  {
    if period == "PM" && hour != 12 then hour + 12
    else if period == "AM" && hour == 12 then 0
    else hour
  }

  /** The hour and period an alarm card and the ringing popup show for a
      stored 24-hour hour. */
  function DisplayHour(hour: int): (r: (int, string))
    ensures 0 <= hour < 24 ==>
              1 <= r.0 <= 12 && (r.1 == "AM" || r.1 == "PM") && (r.1 == "PM" <==> hour >= 12)
  {
    if hour == 0 then (12, "AM")
    else if hour > 12 then (hour - 12, "PM")
    else if hour == 12 then (12, "PM")
    else (hour, "AM")
  }

  /** Showing a stored hour and entering what is shown gives the hour back. */
  lemma DisplayThenEnter(hour: int)
    requires 0 <= hour < 24
    ensures To24Hour(DisplayHour(hour).0, DisplayHour(hour).1) == hour
  {
  }

  /** Entering a 12-hour time and showing it gives back what was entered;
      in particular 12 AM is stored as 0 and 12 PM as 12. */
  lemma EnterThenDisplay(hour: int, period: string)
    requires 1 <= hour <= 12 && (period == "AM" || period == "PM")
    ensures DisplayHour(To24Hour(hour, period)) == (hour, period)
    ensures To24Hour(12, "AM") == 0 && To24Hour(12, "PM") == 12
  {
  }

  /** The digit character of `d`. */
  function DigitChar(d: int): (c: char)
    requires 0 <= d < 10
    ensures '0' <= c <= '9' && c as int - '0' as int == d
  {
    ('0' as int + d) as char
  }

  predicate IsDigits(s: string) {
    forall i :: 0 <= i < |s| ==> '0' <= s[i] <= '9'
  }

  /** `int(s)` on a string of decimal digits. */
  function DecimalValue(s: string): (n: nat)
    requires IsDigits(s)
  {
    if s == [] then 0
    else DecimalValue(s[..|s| - 1]) * 10 + (s[|s| - 1] as int - '0' as int)
  }

  /** The `{n:02d}` format of a number below 100. */
  function Pad2(n: int): (s: string)
    requires 0 <= n < 100
    ensures |s| == 2 && IsDigits(s)
  {
    [DigitChar(n / 10), DigitChar(n % 10)]
  }

  /** Parsing a two-digit field gives back the number formatted. */
  lemma Pad2RoundTrip(n: int)
    requires 0 <= n < 100
    ensures DecimalValue(Pad2(n)) == n
  {
    var s := Pad2(n);
    assert s[..1][..0] == [];
    assert DecimalValue(s[..1]) == n / 10;
    assert s[..|s| - 1] == s[..1];
  }

  /** The values the hour picker offers. */
  function HourChoices(): (r: seq<string>)
    ensures |r| == 12
  {
    seq(12, i requires 0 <= i < 12 => Pad2(i + 1))
  }

  /** The values the minute picker offers. */
  function MinuteChoices(): (r: seq<string>)
    ensures |r| == 12
  {
    seq(12, i requires 0 <= i < 12 => Pad2(5 * i))
  }

  /** Every offered hour parses to 1..12 and every offered minute to a
      multiple of five in 0..55. */
  lemma ChoicesParse()
    ensures forall i :: 0 <= i < 12 ==> DecimalValue(HourChoices()[i]) == i + 1
    ensures forall i :: 0 <= i < 12 ==> DecimalValue(MinuteChoices()[i]) == 5 * i
  {
    forall i | 0 <= i < 12
      ensures DecimalValue(HourChoices()[i]) == i + 1
      ensures DecimalValue(MinuteChoices()[i]) == 5 * i
    {
      Pad2RoundTrip(i + 1);
      Pad2RoundTrip(5 * i);
    }
  }

  /** `HH:MM` of a stored time. */
  function ClockText(hour: int, minute: int): (s: string)
    requires ValidClockTime(hour, minute)
  {
    Pad2(hour) + ":" + Pad2(minute)
  }

  /** Parsing the two fields of a clock text gives back the time. */
  lemma ClockTextRoundTrip(hour: int, minute: int)
    requires ValidClockTime(hour, minute)
    ensures |ClockText(hour, minute)| == 5 && ClockText(hour, minute)[2] == ':'
    ensures DecimalValue(ClockText(hour, minute)[..2]) == hour
    ensures DecimalValue(ClockText(hour, minute)[3..]) == minute
  {
    var s := ClockText(hour, minute);
    assert s[..2] == Pad2(hour) && s[3..] == Pad2(minute);
    Pad2RoundTrip(hour);
    Pad2RoundTrip(minute);
  }

  /** The label `add_alarm` stores when the label entry is left empty. */
  function DefaultLabel(hour: int, minute: int): (s: string)
    requires ValidClockTime(hour, minute)
    ensures |s| == 11 && s[..6] == "Alarm " && s[8] == ':'
    ensures IsDigits(s[6..8]) && IsDigits(s[9..])
    ensures DecimalValue(s[6..8]) == hour && DecimalValue(s[9..]) == minute
  {
    ClockTextRoundTrip(hour, minute);
    var s := "Alarm " + ClockText(hour, minute);
    assert s[6..8] == ClockText(hour, minute)[..2];
    assert s[9..] == ClockText(hour, minute)[3..];
    s
  }

  /** The `HH:MM` time on an alarm card, on the 12-hour clock. */
  function CardTimeText(hour: int, minute: int): (s: string)
    requires ValidClockTime(hour, minute)
    ensures |s| == 5 && s[2] == ':' && IsDigits(s[..2]) && IsDigits(s[3..])
    ensures 1 <= DecimalValue(s[..2]) <= 12 && DecimalValue(s[..2]) == DisplayHour(hour).0
    ensures DecimalValue(s[3..]) == minute
  {
    var h := DisplayHour(hour).0;
    Pad2RoundTrip(h);
    Pad2RoundTrip(minute);
    var s := Pad2(h) + ":" + Pad2(minute);
    assert s[..2] == Pad2(h) && s[3..] == Pad2(minute);
    s
  }

  /** The `HH:MM AM` headline of the ringing popup: the card time, then
      the period, which together give back the stored hour. */
  function PopupTimeText(hour: int, minute: int): (s: string)
    requires ValidClockTime(hour, minute)
    ensures |s| == 8 && s[2] == ':' && s[5] == ' '
    ensures IsDigits(s[..2]) && IsDigits(s[3..5])
    ensures To24Hour(DecimalValue(s[..2]), s[6..]) == hour
    ensures DecimalValue(s[3..5]) == minute
  {
    var card := CardTimeText(hour, minute);
    DisplayThenEnter(hour);
    var s := card + " " + DisplayHour(hour).1;
    assert s[..2] == card[..2] && s[3..5] == card[3..] && s[6..] == DisplayHour(hour).1;
    s
  }

  const Ellipsis: string := "..."

  /** A card text cut to at most `limit` characters: longer texts keep
      their first `limit - 3` characters followed by "...". */
  function Truncate(s: string, limit: nat): (r: string)
    requires limit >= |Ellipsis|
    ensures |r| <= limit
    ensures r == s <==> |s| <= limit
    ensures |s| > limit ==> |r| == limit && r[..limit - 3] == s[..limit - 3] && r[limit - 3..] == Ellipsis
  {
    if |s| > limit then s[..limit - 3] + Ellipsis else s
  }

  /** Truncating a truncated text changes nothing. */
  lemma TruncateIdempotent(s: string, limit: nat)
    requires limit >= |Ellipsis|
    ensures Truncate(Truncate(s, limit), limit) == Truncate(s, limit)
  {
  }

  /** The label line of an alarm card. */
  function LabelText(caption: string): (r: string)
    ensures |r| <= 25 && (|caption| <= 25 ==> r == caption)
  {
    Truncate(caption, 25)
  }

  /** `", ".join` of the day tags. */
  function JoinDays(days: seq<Day>): (s: string)
    ensures days == [] <==> s == []
    ensures days != [] ==> |s| == 5 * |days| - 2
  {
    if days == [] then ""
    else if |days| == 1 then DayName(days[0])
    else JoinDays(days[..|days| - 1]) + ", " + DayName(days[|days| - 1])
  }

  /** The joined text is the tags' names in order, each three characters
      long, with ", " between neighbours. */
  lemma {:induction false} JoinDaysLayout(days: seq<Day>)
    ensures forall i :: 0 <= i < |days| ==> JoinDays(days)[5 * i..5 * i + 3] == DayName(days[i])
    ensures forall i :: 0 <= i < |days| - 1 ==> JoinDays(days)[5 * i + 3..5 * i + 5] == ", "
  {
    if |days| > 1 {
      var init := days[..|days| - 1];
      var front := JoinDays(init);
      var s := JoinDays(days);
      JoinDaysLayout(init);
      assert s == front + ", " + DayName(days[|days| - 1]);
      forall i | 0 <= i < |days|
        ensures s[5 * i..5 * i + 3] == DayName(days[i])
      {
        if i < |days| - 1 {
          assert s[5 * i..5 * i + 3] == front[5 * i..5 * i + 3];
          assert init[i] == days[i];
        } else {
          assert s[5 * i..5 * i + 3] == s[|front| + 2..];
        }
      }
      forall i | 0 <= i < |days| - 1
        ensures s[5 * i + 3..5 * i + 5] == ", "
      {
        if i < |days| - 2 {
          assert s[5 * i + 3..5 * i + 5] == front[5 * i + 3..5 * i + 5];
        } else {
          assert s[5 * i + 3..5 * i + 5] == s[|front|..|front| + 2];
        }
      }
    }
  }

  /** The repeat line of an alarm card: up to four tags are shown whole
      behind "Repeats: ", and with more the line is cut to 30 characters
      ending in "...". */
  function DaysText(days: seq<Day>): (r: string)
    ensures |r| <= 30
    ensures days == [] ==> r == "One-time alarm"
    ensures 0 < |days| <= 4 ==> r == "Repeats: " + JoinDays(days)
    ensures |days| > 4 ==> |r| == 30 && r[..27] == ("Repeats: " + JoinDays(days))[..27] && r[27..] == Ellipsis
  {
    if days != [] then Truncate("Repeats: " + JoinDays(days), 30)
    else "One-time alarm"
  }

  /** The ringtone line of an alarm card, behind a note symbol. */
  function RingtoneText(ringtone: string): (r: string)
    ensures |r| <= 25 && (|ringtone| <= 23 ==> |r| >= 2 && r[2..] == ringtone)
  {
    Truncate("\U{1F3B5} " + ringtone, 25)
  }

  /** What the countdown line shows: nothing, or the time left as days,
      hours and minutes, as hours and minutes, or as minutes only. */
  datatype Countdown =
    | Blank
    | DaysHoursMinutes(days: nat, hours: nat, minutes: nat)
    | HoursMinutes(hours: nat, minutes: nat)
    | MinutesOnly(minutes: nat)
  {
    /** The whole minutes the breakdown stands for. */
    function TotalMinutes(): nat {
      match this
      case Blank => 0
      case DaysHoursMinutes(d, h, m) => d * 1440 + h * 60 + m
      case HoursMinutes(h, m) => h * 60 + m
      case MinutesOnly(m) => m
    }
  }

  /** `update_countdown`: the breakdown of the time from `now` to `target`.
      Days appear only once more than 24 whole hours are left. */
  function CountdownOf(target: Instant, now: Instant): (c: Countdown)
    ensures c == Blank <==> target <= now
    ensures c != Blank ==>
              c.TotalMinutes() * MinuteLength <= target - now < c.TotalMinutes() * MinuteLength + MinuteLength
    ensures c.DaysHoursMinutes? <==> target - now >= 25 * HourLength
    ensures c.HoursMinutes? <==> HourLength <= target - now < 25 * HourLength
    ensures c.DaysHoursMinutes? ==> c.days >= 1 && c.hours < 24 && c.minutes < 60
    ensures c.HoursMinutes? ==> 1 <= c.hours <= 24 && c.minutes < 60
    ensures c.MinutesOnly? ==> c.minutes < 60
  {
    var left := target - now;
    if left > 0 then
      var hours := left / HourLength;
      var minutes := left % HourLength / MinuteLength;
      if hours > 24 then DaysHoursMinutes(hours / 24, hours % 24, minutes)
      else if hours > 0 then HoursMinutes(hours, minutes)
      else MinutesOnly(minutes)
    else Blank
  }
}
