/** The parts of the ECMAScript `Date` object the widget relies on: the time
    value abstract operations of section 21.4.1 of ECMA-262 (Day, TimeWithinDay,
    DayFromYear, DaysInYear, MakeTime, MakeDay, MakeDate, TimeClip) and the two
    setters the widget calls, `setUTCFullYear` (section 21.4.4.29) and
    `setUTCHours` (section 21.4.4.30). Time values are integral milliseconds
    since 1970-01-01T00:00:00Z; every division below has a positive divisor,
    so Dafny's `/` and `%` are the standard's `floor` and `modulo`. */
module EcmaDate {

  const MsPerSecond: int := 1000
  const MsPerMinute: int := 60000
  const MsPerHour: int := 3600000
  const MsPerDay: int := 86400000
  /** Largest magnitude of a valid time value: 10^8 days. */
  const MaxTime: int := 8640000000000000

  /** The internal slot of a `Date`: a valid time value or NaN (an invalid date). */
  datatype TimeValue = Time(ms: int) | NaN

  function Day(t: int): int { t / MsPerDay }

  function TimeWithinDay(t: int): int { t % MsPerDay }

  /** Number of days in year `y` of the proleptic Gregorian calendar. The
      leap-year rule agrees with DayFromYear's closed form: year `y + 1`
      starts exactly DaysInYear(y) days after year `y`. */
  function DaysInYear(y: int): (n: int)
    ensures n == 365 || n == 366
    ensures n == DayFromYear(y + 1) - DayFromYear(y)
  {
    FloorStep(y - 1969, 4);
    FloorStep(y - 1901, 100);
    FloorStep(y - 1601, 400);
    assert (y - 1968) % 4 == y % 4 by { ModShift(y, 4, 492); }
    assert (y - 1900) % 100 == y % 100 by { ModShift(y, 100, 19); }
    assert (y - 1600) % 400 == y % 400 by { ModShift(y, 400, 4); }
    if y % 4 != 0 then 365
    else if y % 100 != 0 then 366
    else if y % 400 != 0 then 365
    else 366
  }

  /** Day number of the first day of year `y`. */
  function DayFromYear(y: int): int {
    365 * (y - 1970) + (y - 1969) / 4 - (y - 1901) / 100 + (y - 1601) / 400
  }

  /** Zero-based month `mn` of year `y` has this many days. */
  function MonthLength(y: int, mn: int): (n: int)
    requires 0 <= mn < 12
    ensures 28 <= n <= 31
  {
    if mn == 1 then (if DaysInYear(y) == 366 then 29 else 28)
    else if mn == 3 || mn == 5 || mn == 8 || mn == 10 then 30
    else 31
  }

  /** Day within year `y` of the first day of zero-based month `mn`: the lower
      bounds of the table that defines MonthFromTime. */
  function DaysBeforeMonth(y: int, mn: int): int
    requires 0 <= mn < 12
  {
    var leap := if DaysInYear(y) == 366 then 1 else 0;
    [0, 31, 59, 90, 120, 151, 181, 212, 243, 273, 304, 334][mn]
      + (if mn >= 2 then leap else 0)
  }

  /** MakeDay(year, month, date): the day number of day `date` of month
      `month` (zero-based) of `year`, where a month outside 0..11 carries
      whole years into the year and a date outside the month's range
      spills into the neighbouring months. */
  function MakeDay(year: int, month: int, date: int): int {
    var ym := year + month / 12;
    var mn := month % 12;
    DayFromYear(ym) + DaysBeforeMonth(ym, mn) + date - 1
  }

  function MakeTime(hour: int, min: int, sec: int, ms: int): int {
    hour * MsPerHour + min * MsPerMinute + sec * MsPerSecond + ms
  }

  function MakeDate(day: int, time: int): int {
    day * MsPerDay + time
  }

  /** TimeClip: a time value more than 10^8 days away from the epoch is NaN. */
  function TimeClip(t: int): (r: TimeValue)
    ensures r.Time? <==> -MaxTime <= t <= MaxTime
    ensures r.Time? ==> r.ms == t
  {
    if t < -MaxTime || t > MaxTime then NaN else Time(t)
  }

  /** `date.setUTCFullYear(year, month, date)`: replaces the calendar day of
      the date (a NaN date counts as the epoch) and keeps its time of day; the
      result is NaN exactly when that instant is out of range. */
  function SetUTCFullYear(t: TimeValue, year: int, month: int, date: int): (r: TimeValue)
    ensures var base := if t.NaN? then 0 else t.ms;
      r.Time? <==> -MaxTime <= MakeDate(MakeDay(year, month, date), TimeWithinDay(base)) <= MaxTime
    ensures var base := if t.NaN? then 0 else t.ms;
      r.Time? ==> Day(r.ms) == MakeDay(year, month, date)
                  && TimeWithinDay(r.ms) == TimeWithinDay(base)
  {
    var base := if t.NaN? then 0 else t.ms;
    var d := MakeDate(MakeDay(year, month, date), TimeWithinDay(base));
    DayOfMakeDate(MakeDay(year, month, date), TimeWithinDay(base));
    TimeClip(d)
  }

  /** `date.setUTCHours(hour, min, sec, ms)`: counts the given time from the
      start of the date's calendar day; a NaN date stays NaN. A time outside
      one day moves to an earlier or later day: `setUTCHours(-5, 0, 0, 0)`
      is 19:00 of the day before. */
  function SetUTCHours(t: TimeValue, hour: int, min: int, sec: int, ms: int): (r: TimeValue)
    ensures t.NaN? ==> r.NaN?
    ensures t.Time? ==>
      (r.Time? <==> -MaxTime <= MakeDate(Day(t.ms), MakeTime(hour, min, sec, ms)) <= MaxTime)
    ensures t.Time? && r.Time? ==>
      var time := MakeTime(hour, min, sec, ms);
      Day(r.ms) == Day(t.ms) + time / MsPerDay && TimeWithinDay(r.ms) == time % MsPerDay
    ensures t.Time? && 0 <= MakeTime(hour, min, sec, ms) < MsPerDay && r.Time? ==>
      Day(r.ms) == Day(t.ms) && TimeWithinDay(r.ms) == MakeTime(hour, min, sec, ms)
  {
    if t.NaN? then NaN
    else
      var time := MakeTime(hour, min, sec, ms);
      DayOfMakeDate(Day(t.ms), time);
      TimeClip(MakeDate(Day(t.ms), time))
  }

  /** Day and TimeWithinDay take MakeDate apart again; whole days in the time
      carry into the day. */
  lemma DayOfMakeDate(day: int, time: int)
    ensures Day(MakeDate(day, time)) == day + time / MsPerDay
    ensures TimeWithinDay(MakeDate(day, time)) == time % MsPerDay
  {
    var q, r := time / MsPerDay, time % MsPerDay;
    assert MakeDate(day, time) == (day + q) * MsPerDay + r;
    DivUnique(MakeDate(day, time), MsPerDay, day + q, r);
  }

  /** The widget's case: 5 hours before midnight is 19:00 of the day before. */
  lemma NegativeHourExample(day: int)
    requires -MaxTime <= MakeDate(day, 0) - 5 * MsPerHour && MakeDate(day, 0) <= MaxTime
    ensures var r := SetUTCHours(Time(MakeDate(day, 0)), -5, 0, 0, 0);
            r.Time? && Day(r.ms) == day - 1 && TimeWithinDay(r.ms) == 19 * MsPerHour
  {
    DayOfMakeDate(day, 0);
    DivUnique(-5 * MsPerHour, MsPerDay, -1, 19 * MsPerHour);
  }

  /** `floor((a + 1) / k)` exceeds `floor(a / k)` exactly when `k` divides `a + 1`. */
  lemma FloorStep(a: int, k: int)
    requires k > 0
    ensures (a + 1) / k == a / k + (if (a + 1) % k == 0 then 1 else 0)
  {
    var q, r := a / k, a % k;
    if r == k - 1 {
      assert a + 1 == (q + 1) * k;
      DivExact(a + 1, k, q + 1);
    } else {
      assert a + 1 == q * k + (r + 1);
      DivUnique(a + 1, k, q, r + 1);
    }
  }

  lemma DivExact(x: int, k: int, q: int)
    requires k > 0 && x == q * k
    ensures x / k == q && x % k == 0
  {
    DivUnique(x, k, q, 0);
  }

  lemma DivUnique(x: int, k: int, q: int, r: int)
    requires k > 0 && 0 <= r < k && x == q * k + r
    ensures x / k == q && x % k == r
  {
    var q', r' := x / k, x % k;
    assert (q' - q) * k == r - r';
    if q' > q {
      MulAtLeastOnce(q' - q, k);
      assert false;
    } else if q' < q {
      MulAtLeastOnce(q - q', k);
      assert false;
    }
  }

  lemma MulAtLeastOnce(a: int, k: int)
    requires a >= 1 && k > 0
    ensures a * k >= k
  {
  }

  lemma ModShift(y: int, k: int, c: int)
    requires k > 0
    ensures (y - c * k) % k == y % k
  {
    var q, r := y / k, y % k;
    assert y - c * k == (q - c) * k + r;
    DivUnique(y - c * k, k, q - c, r);
  }

  /** The months of a year, laid end to end, fill the year exactly. */
  lemma MonthsFillYear(y: int, mn: int)
    requires 0 <= mn < 12
    ensures DaysBeforeMonth(y, mn) + MonthLength(y, mn)
            == if mn == 11 then DaysInYear(y) else DaysBeforeMonth(y, mn + 1)
  {
  }

  /** MakeDay(year, month, 1) is the first day of month `month % 12` of year
      `year + month / 12`: it lies within that year, at the offset of that
      month, and the month ends within the year. This is the day MakeDay is
      required to find. */
  lemma FirstOfMonthInYear(year: int, month: int)
    ensures var ym, mn := year + month / 12, month % 12;
      var first := MakeDay(year, month, 1);
      DayFromYear(ym) <= first
      && first - DayFromYear(ym) == DaysBeforeMonth(ym, mn)
      && first + MonthLength(ym, mn) <= DayFromYear(ym + 1)
  {
    var ym, mn := year + month / 12, month % 12;
    assert DayFromYear(ym + 1) == DayFromYear(ym) + DaysInYear(ym);
    MonthsFillYear(ym, mn);
    if mn < 11 {
      MonthsFillYear(ym, mn + 1);
    }
    assert DaysBeforeMonth(ym, mn) + MonthLength(ym, mn) <= DaysInYear(ym) by {
      if mn < 11 {
        DaysBeforeMonthBelowYear(ym, mn + 1);
      }
    }
  }

  lemma DaysBeforeMonthBelowYear(y: int, mn: int)
    requires 0 <= mn < 12
    ensures DaysBeforeMonth(y, mn) < DaysInYear(y)
  {
  }

  /** Consecutive months are adjacent: the first day of month m + 1 follows the
      last day of month m, across a year boundary too (December to January). */
  lemma {:induction false} NextMonth(year: int, month: int)
    ensures MakeDay(year, month + 1, 1)
            == MakeDay(year, month, 1) + MonthLength(year + month / 12, month % 12)
  {
    var ym, mn := year + month / 12, month % 12;
    MonthsFillYear(ym, mn);
    if mn == 11 {
      assert (month + 1) / 12 == month / 12 + 1 && (month + 1) % 12 == 0 by {
        FloorStep(month, 12);
      }
      assert DayFromYear(ym + 1) == DayFromYear(ym) + DaysInYear(ym);
    } else {
      assert (month + 1) / 12 == month / 12 && (month + 1) % 12 == mn + 1 by {
        FloorStep(month, 12);
      }
    }
  }

  /** Twelve months carry into one year. */
  lemma MonthCarry(year: int, month: int, date: int)
    ensures MakeDay(year, month + 12, date) == MakeDay(year + 1, month, date)
  {
    assert (month + 12) / 12 == month / 12 + 1 && (month + 12) % 12 == month % 12 by {
      DivUnique(month + 12, 12, month / 12 + 1, month % 12);
    }
  }

  /** The epoch is day 0, and 2025-01-01 is day 20089. */
  lemma KnownDays()
    ensures MakeDay(1970, 0, 1) == 0
    ensures MakeDay(2025, 0, 1) == 20089
  {
    assert DayFromYear(1970) == 0;
    assert DayFromYear(2025) == 20075 + 14 - 1 + 1;
    assert DaysBeforeMonth(1970, 0) == 0 && DaysBeforeMonth(2025, 0) == 0;
  }

  /** Out-of-range fields are normalised, not rejected: 30 February 2025 is
      2 March 2025, month index 12 of 2025 is January 2026, and month index
      -1 of 2024 is December 2023. */
  lemma NormalisationExamples()
    ensures MakeDay(2025, 1, 30) == MakeDay(2025, 2, 2)
    ensures MakeDay(2025, 12, 1) == MakeDay(2026, 0, 1)
    ensures MakeDay(2024, -1, 15) == MakeDay(2023, 11, 15)
  {
  }
}
