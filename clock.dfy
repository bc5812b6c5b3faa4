/** Wall-clock arithmetic on local, naive instants.

    An instant is a whole number of seconds counted from local midnight at
    the start of some Monday.  Day lengths are fixed (no daylight saving),
    which is how naive `datetime` values behave under `replace` and
    `timedelta` arithmetic. */
module Clock {

  type Instant = int

  const MinuteLength: int := 60
  const HourLength: int := 3600
  const DayLength: int := 86400
  const WeekLength: int := 7 * DayLength

  /** Days since the epoch Monday (floor division). */
  function DayNumber(t: Instant): int {
    t / DayLength
  }

  function SecondOfDay(t: Instant): (r: int)
    ensures 0 <= r < DayLength
    ensures t == DayNumber(t) * DayLength + r
  {
    t % DayLength
  }

  /** `datetime.weekday()`: Monday is 0, Sunday is 6. */
  function Weekday(t: Instant): (r: int)
    ensures 0 <= r < 7
  {
    DayNumber(t) % 7
  }

  function Hour(t: Instant): (r: int)
    ensures 0 <= r < 24
  {
    SecondOfDay(t) / HourLength
  }

  function Minute(t: Instant): (r: int)
    ensures 0 <= r < 60
  {
    SecondOfDay(t) % HourLength / MinuteLength
  }

  function Second(t: Instant): (r: int)
    ensures 0 <= r < 60
  {
    SecondOfDay(t) % MinuteLength
  }

  predicate ValidClockTime(hour: int, minute: int) {
    0 <= hour < 24 && 0 <= minute < 60
  }

  /** Seconds after midnight of `hour:minute:00`. */
  function ClockTime(hour: int, minute: int): (r: int)
    requires ValidClockTime(hour, minute)
    ensures 0 <= r < DayLength && r % MinuteLength == 0
  {
    hour * HourLength + minute * MinuteLength
  }

  /** `hour:minute:00` on day number `day`: what `now.replace(hour=...,
      minute=..., second=0, microsecond=0)` gives when `day` is now's day. */
  function At(day: int, hour: int, minute: int): Instant
    requires ValidClockTime(hour, minute)
  {
    day * DayLength + ClockTime(hour, minute)
  }

  /** The clock fields of an instant add back up to its second of the day. */
  lemma ClockFields(t: Instant)
    ensures SecondOfDay(t) == ClockTime(Hour(t), Minute(t)) + Second(t)
  {
  }

  /** Reading the hour, minute and second of an instant is the same as
      comparing its second of the day with a clock time. */
  lemma ClockTimeMatch(t: Instant, hour: int, minute: int)
    requires ValidClockTime(hour, minute)
    ensures (Hour(t) == hour && Minute(t) == minute && Second(t) == 0)
            <==> SecondOfDay(t) == ClockTime(hour, minute)
  {
    ClockFields(t);
    var s := SecondOfDay(t);
    if s == ClockTime(hour, minute) {
      assert s / HourLength == hour;
      assert s % HourLength == minute * MinuteLength;
    }
  }

  /** Splitting an instant into day and second of day is unique. */
  lemma {:induction false} Split(day: int, offset: int)
    requires 0 <= offset < DayLength
    ensures DayNumber(day * DayLength + offset) == day
    ensures SecondOfDay(day * DayLength + offset) == offset
  {
    var t := day * DayLength + offset;
    var q, r := DayNumber(t), SecondOfDay(t);
    assert (q - day) * DayLength == offset - r;
  }

  /** `At` lands on the requested day, hour and minute, at second 0. */
  lemma AtFields(day: int, hour: int, minute: int)
    requires ValidClockTime(hour, minute)
    ensures DayNumber(At(day, hour, minute)) == day
    ensures SecondOfDay(At(day, hour, minute)) == ClockTime(hour, minute)
    ensures Hour(At(day, hour, minute)) == hour
    ensures Minute(At(day, hour, minute)) == minute
    ensures Second(At(day, hour, minute)) == 0
  {
    Split(day, ClockTime(hour, minute));
    ClockTimeMatch(At(day, hour, minute), hour, minute);
  }

  /** The start of the minute that contains `t`. */
  function MinuteStart(t: Instant): (r: Instant)
    ensures r <= t < r + MinuteLength
  {
    t - Second(t)
  }

  /** The start of a minute keeps the day, hour and minute, at second 0. */
  lemma MinuteStartFields(t: Instant)
    ensures DayNumber(MinuteStart(t)) == DayNumber(t)
    ensures Hour(MinuteStart(t)) == Hour(t) && Minute(MinuteStart(t)) == Minute(t)
    ensures Second(MinuteStart(t)) == 0
  {
    ClockFields(t);
    var offset := ClockTime(Hour(t), Minute(t));
    assert MinuteStart(t) == DayNumber(t) * DayLength + offset;
    Split(DayNumber(t), offset);
    ClockTimeMatch(MinuteStart(t), Hour(t), Minute(t));
  }
}
