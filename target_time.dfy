/** `parseTargetTime`, `setTargetDate` and `setTargetHours`: the target
    instant is a fresh `Date` of the current instant whose UTC calendar day is
    replaced by the parsed date and whose UTC time of day is then replaced by
    `offset:00:00.000`. The current instant is a parameter. */
module TargetTime {
  import opened Common
  import opened EcmaDate
  import DateParse
  import Timezone

  /** The resolved target instant and whether the timezone fell back to GMT. */
  datatype Target = Target(instant: TimeValue, usedFallback: bool)

  /** `setTargetDate(dateString)`: `new Date()` with `setUTCFullYear(year,
      monthIndex, day)` applied; a string without a match throws. The result
      lies on the parsed calendar day but keeps the current time of day: it
      is not UTC midnight. */
  function SetTargetDate(now: int, dateString: string): (r: Result<TimeValue, ConfigError>)
    ensures r.Err? <==> DateParse.ParseTargetDate(dateString).None?
    ensures r.Err? ==> r.error == MalformedDate(dateString)
    ensures r.Ok? ==>
              var p := DateParse.ParseTargetDate(dateString).value;
              r.value.Time? && Day(r.value.ms) == MakeDay(p[0], p[1], p[2])
              && TimeWithinDay(r.value.ms) == TimeWithinDay(now)
  {
    match DateParse.ParseTargetDate(dateString)
    case None => Err(MalformedDate(dateString))
    case Some(parts) =>
      ParsedDayInRange(parts[0], parts[1], parts[2]);
      Ok(SetUTCFullYear(Time(now), parts[0], parts[1], parts[2]))
  }

  /** `setTargetHours(timestamp, timezone)`: `new Date(timestamp)` with
      `setUTCHours(offset, 0, 0, 0)` applied: UTC midnight of the timestamp's
      calendar day plus `offset` hours, whatever its time of day was. */
  function SetTargetHours(timestamp: TimeValue, timezone: Option<string>, table: map<string, int>)
    : (r: Result<Target, ConfigError>)
    ensures r.Err? <==> timezone.None?
    ensures r.Err? ==> r.error == MissingTimezone
    ensures r.Ok? ==>
              var tz := Timezone.ParseTimezone(timezone, table).value;
              r.value.usedFallback == tz.usedFallback
              && (timestamp.NaN? ==> r.value.instant.NaN?)
              && (timestamp.Time? ==>
                    r.value.instant == TimeClip(Day(timestamp.ms) * MsPerDay + tz.offset * MsPerHour))
  {
    match Timezone.ParseTimezone(timezone, table)
    case Err(e) => Err(e)
    case Ok(tz) => Ok(Target(SetUTCHours(timestamp, tz.offset, 0, 0, 0), tz.usedFallback))
  }

  /** `parseTargetTime(countdown)`: a missing or empty `data-date` throws
      before anything is parsed; then the date, then the timezone. A date
      with a `DDDD-DD-DD` substring and any timezone attribute, known or not,
      resolves, to UTC midnight of the parsed (year, month - 1, day),
      normalised by MakeDay, plus `offset` hours: minutes, seconds and
      milliseconds are 0 and nothing of the current time of day survives. */
  function ParseTargetTime(date: Option<string>, timezone: Option<string>,
                           table: map<string, int>, now: int): (r: Result<Target, ConfigError>)
    ensures (date.None? || date.value == "") <==> r == Err(MissingDate)
    ensures date.Some? && date.value != "" ==>
              (r == Err(MalformedDate(date.value)) <==> DateParse.ParseTargetDate(date.value).None?)
    ensures r == Err(MissingTimezone) <==>
              date.Some? && DateParse.ParseTargetDate(date.value).Some? && timezone.None?
    ensures r.Ok? <==>
              date.Some? && DateParse.ParseTargetDate(date.value).Some? && timezone.Some?
    ensures r.Ok? ==>
              var p := DateParse.ParseTargetDate(date.value).value;
              var tz := Timezone.ParseTimezone(timezone, table).value;
              r.value == Target(TimeClip(MakeDate(MakeDay(p[0], p[1], p[2]), MakeTime(tz.offset, 0, 0, 0))),
                                tz.usedFallback)
  {
    if date.None? || date.value == "" then Err(MissingDate)
    else
      match SetTargetDate(now, date.value)
      case Err(e) => Err(e)
      case Ok(timestamp) => SetTargetHours(timestamp, timezone, table)
  }

  /** Any day MakeDay can produce from a parsed date (year 0..9999, month
      index -1..98, day 0..99) lies whole within the range of valid time
      values, so TimeClip never fires on it. */
  lemma ParsedDayInRange(year: int, month: int, date: int)
    requires 0 <= year <= 9999 && -1 <= month <= 98 && 0 <= date <= 99
    ensures -MaxTime <= MakeDate(MakeDay(year, month, date), 0)
    ensures MakeDate(MakeDay(year, month, date), MsPerDay) <= MaxTime
  {
    var ym := year + month / 12;
    assert -1 <= ym <= 10007;
    assert -800000 <= DayFromYear(ym) <= 3000000;
  }

  /** The target does not depend on the instant the widget was started at. */
  lemma IndependentOfNow(date: Option<string>, timezone: Option<string>,
                         table: map<string, int>, now1: int, now2: int)
    ensures ParseTargetTime(date, timezone, table, now1) == ParseTargetTime(date, timezone, table, now2)
  {
  }

  /** 2025, 1, 1 formats as "2025-01-01". */
  lemma FormatNewYear2025()
    ensures DateParse.FormatDate(2025, 1, 1) == "2025-01-01"
  {
    assert DateParse.Digits(2025, 4) == "2025" by {
      assert DateParse.Digits(2, 1) == "2";
      assert DateParse.Digits(20, 2) == "20";
      assert DateParse.Digits(202, 3) == "202";
    }
    assert DateParse.Digits(1, 2) == "01" by {
      assert DateParse.Digits(0, 1) == "0";
    }
  }

  /** "2025-01-01" parses to year 2025, month index 0, day 1. */
  lemma ParseNewYear2025()
    ensures DateParse.ParseTargetDate("2025-01-01") == Some([2025, 0, 1])
  {
    FormatNewYear2025();
    DateParse.ParseFormatted(2025, 1, 1, []);
    assert DateParse.FormatDate(2025, 1, 1) + [] == "2025-01-01";
  }

  /** A date string that parses to 2025-01-01 (such as "2025-01-01"), with a
      timezone the table does not know, gives midnight UTC of 1 January 2025
      (day 20089), reached with a GMT warning. */
  lemma NewYear2025(date: string, timezone: string, table: map<string, int>, now: int)
    requires DateParse.ParseTargetDate(date) == Some([2025, 0, 1])
    requires !Timezone.Truthy(table, Timezone.ToLowerAscii(timezone))
    ensures ParseTargetTime(Some(date), Some(timezone), table, now)
            == Ok(Target(Time(20089 * MsPerDay), true))
  {
    assert MakeDay(2025, 0, 1) == 20089 by {
      KnownDays();
    }
    assert MakeDate(20089, MakeTime(0, 0, 0, 0)) == 20089 * MsPerDay;
  }
}
