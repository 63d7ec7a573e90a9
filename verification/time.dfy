/** Timestamps are integer milliseconds since the Unix epoch (UTC, timezone-naive),
    which is what `pd.to_datetime(ms, unit="ms")` produces from the feed's points. */
module Time {

  const MsPerMinute: int := 60_000
  const MsPerHour: int := 3_600_000
  const MsPerDay: int := 86_400_000

  /** Hour-of-day (0..23) of a timestamp, as `Timestamp.hour` reports it.
      Dafny's `/` and `%` with a positive divisor round toward negative
      infinity, so instants before 1970 get the calendar hour too. */
  function HourOfDay(ts: int): (h: int)
    ensures 0 <= h < 24
  {
    (ts / MsPerHour) % 24
  }

  /** Every instant is `HourOfDay` whole hours, and less than an hour more,
      into some day. */
  lemma HourOfDayDecomposes(ts: int)
    ensures exists day :: ts == day * MsPerDay + HourOfDay(ts) * MsPerHour + ts % MsPerHour
  {
    var h := HourOfDay(ts);
    assert ts == (ts / MsPerHour) * MsPerHour + ts % MsPerHour;
    assert ts / MsPerHour == ((ts / MsPerHour) / 24) * 24 + h;
    assert ts == ((ts / MsPerHour) / 24) * MsPerDay + h * MsPerHour + ts % MsPerHour;
  }

  /** The converse of `HourOfDay`'s decomposition: an instant `h` hours and
      `rest` milliseconds into some day is in hour `h` of that day. */
  lemma HourOfDayAt(day: int, h: int, rest: int)
    requires 0 <= h < 24 && 0 <= rest < MsPerHour
    ensures HourOfDay(day * MsPerDay + h * MsPerHour + rest) == h
  {
    var ts := day * MsPerDay + h * MsPerHour + rest;
    assert ts == (day * 24 + h) * MsPerHour + rest;
    assert ts / MsPerHour == day * 24 + h;
    assert (day * 24 + h) % 24 == h;
  }

  /** Whole minutes of an elapsed time, as `td.total_seconds() // 60`:
      the largest whole number of minutes not exceeding the span (negative
      spans round down too). */
  function WholeMinutes(span: int): (m: int)
    ensures m * MsPerMinute <= span < (m + 1) * MsPerMinute
  {
    span / MsPerMinute
  }

  /** Whole days of an elapsed time, as `timedelta.days`, which is also a
      floor for negative spans. */
  function WholeDays(span: int): (d: int)
    ensures d * MsPerDay <= span < (d + 1) * MsPerDay
  {
    span / MsPerDay
  }
}
