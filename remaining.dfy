/** `getTimeRemaining(endtime)`: the distance from the current instant to the
    target, split into days, hours, minutes and seconds by JavaScript's `%`
    (truncating: the remainder takes the sign of the dividend) followed by
    `Math.floor`. Times are integral milliseconds, so `(t / 1000) % 60` is the
    exact rational `TruncRem(t, 60000) / 1000` and its floor is Dafny's `/`
    with a positive divisor. */
module Remaining {
  import opened Common
  import opened EcmaDate

  /** JavaScript's `a % b` for a positive `b`: `a` minus the multiple of `b`
      nearest to zero, so it has the sign of `a`. */
  function TruncRem(a: int, b: int): (r: int)
    requires b > 0
    ensures a >= 0 ==> 0 <= r < b
    ensures a < 0 ==> -b < r <= 0
    ensures (a - r) % b == 0
  {
    if a >= 0 then
      DivExact(a - a % b, b, a / b);
      a % b
    else
      DivExact(a + (-a) % b, b, -((-a) / b));
      -((-a) % b)
  }

  /** `Math.floor((t / 1000) % 60)`: a whole number of seconds with the sign
      of `t`, at most 59 ahead of the target and at least -60 after it. */
  function Seconds(t: int): (s: int)
    ensures t >= 0 ==> 0 <= s < 60
    ensures t < 0 ==> -60 <= s <= 0
  {
    TruncRem(t, MsPerMinute) / MsPerSecond
  }

  /** `Math.floor((t / 1000 / 60) % 60)` */
  function Minutes(t: int): (m: int)
    ensures t >= 0 ==> 0 <= m < 60
    ensures t < 0 ==> -60 <= m <= 0
  {
    TruncRem(t, MsPerHour) / MsPerMinute
  }

  /** `Math.floor((t / (1000 * 60 * 60)) % 24)` */
  function Hours(t: int): (h: int)
    ensures t >= 0 ==> 0 <= h < 24
    ensures t < 0 ==> -24 <= h <= 0
  {
    TruncRem(t, MsPerDay) / MsPerHour
  }

  /** `Math.floor(t / (1000 * 60 * 60 * 24))`: the number of whole days,
      rounded toward minus infinity. */
  function Days(t: int): (d: int)
    ensures d * MsPerDay <= t < (d + 1) * MsPerDay
  {
    t / MsPerDay
  }

  /** The object `getTimeRemaining` returns. */
  datatype RemainingTime = RemainingTime(total: JsValue, days: JsValue, hours: JsValue,
                                         minutes: JsValue, seconds: JsValue)

  function AllNaN(): RemainingTime {
    RemainingTime(JsValue.NaN, JsValue.NaN, JsValue.NaN, JsValue.NaN, JsValue.NaN)
  }

  /** `getTimeRemaining(endtime)` at the instant `now`: an invalid target
      makes every field NaN; otherwise `total` is the distance in
      milliseconds, and ahead of the target the other four fields spell out
      its whole seconds in days, hours, minutes and seconds, each within its
      clock range, while after it they are all at most 0. */
  function GetTimeRemaining(endtime: TimeValue, now: int): (r: RemainingTime)
    ensures endtime.NaN? <==> r == AllNaN()
    ensures endtime.Time? ==>
              r.total == Num(endtime.ms - now)
              && r.days.Num? && r.hours.Num? && r.minutes.Num? && r.seconds.Num?
    ensures endtime.Time? && endtime.ms >= now ==>
              r.days.n * 86400 + r.hours.n * 3600 + r.minutes.n * 60 + r.seconds.n
                == (endtime.ms - now) / 1000
              && r.days.n >= 0 && 0 <= r.hours.n < 24 && 0 <= r.minutes.n < 60 && 0 <= r.seconds.n < 60
    ensures endtime.Time? && endtime.ms < now ==>
              r.days.n < 0 && r.days.n * MsPerDay <= endtime.ms - now < (r.days.n + 1) * MsPerDay
              && -24 <= r.hours.n <= 0 && -60 <= r.minutes.n <= 0 && -60 <= r.seconds.n <= 0
  {
    match endtime
    case NaN => AllNaN()
    case Time(e) =>
      var t := e - now;
      assert t >= 0 ==> Days(t) * 86400 + Hours(t) * 3600 + Minutes(t) * 60 + Seconds(t) == t / 1000 by {
        if t >= 0 {
          DecomposeAhead(t);
        }
      }
      assert t < 0 ==> Days(t) < 0 by {
        if t < 0 {
          DecomposeOverdue(t);
        }
      }
      RemainingTime(Num(t), Num(Days(t)), Num(Hours(t)), Num(Minutes(t)), Num(Seconds(t)))
  }

  /** `timeRemaining[key]`: the property of that name, `undefined` for any
      other key. */
  function Get(r: RemainingTime, key: string): (v: JsValue)
    ensures key == "total" ==> v == r.total
    ensures key == "days" ==> v == r.days
    ensures key == "hours" ==> v == r.hours
    ensures key == "minutes" ==> v == r.minutes
    ensures key == "seconds" ==> v == r.seconds
    ensures key !in {"total", "days", "hours", "minutes", "seconds"} ==> v == Undefined
  {
    if key == "total" then r.total
    else if key == "days" then r.days
    else if key == "hours" then r.hours
    else if key == "minutes" then r.minutes
    else if key == "seconds" then r.seconds
    else Undefined
  }

  /** Before the target (t >= 0) the four fields are an exact mixed-radix
      decomposition of the whole seconds remaining, each in its clock range. */
  lemma DecomposeAhead(t: int)
    requires t >= 0
    ensures Days(t) * 86400 + Hours(t) * 3600 + Minutes(t) * 60 + Seconds(t) == t / 1000
    ensures Days(t) >= 0
    ensures 0 <= Hours(t) < 24 && 0 <= Minutes(t) < 60 && 0 <= Seconds(t) < 60
  {
    var d := t / MsPerDay;
    var r1 := t % MsPerDay;
    var h := r1 / MsPerHour;
    var r2 := r1 % MsPerHour;
    var m := r2 / MsPerMinute;
    var r3 := r2 % MsPerMinute;
    var s := r3 / MsPerSecond;
    var r4 := r3 % MsPerSecond;
    assert t == (d * 24 + h) * MsPerHour + r2;
    DivUnique(t, MsPerHour, d * 24 + h, r2);
    assert t == ((d * 24 + h) * 60 + m) * MsPerMinute + r3;
    DivUnique(t, MsPerMinute, (d * 24 + h) * 60 + m, r3);
    assert t == (((d * 24 + h) * 60 + m) * 60 + s) * MsPerSecond + r4;
    DivUnique(t, MsPerSecond, ((d * 24 + h) * 60 + m) * 60 + s, r4);
  }

  /** After the target (t < 0) every field is at most 0: seconds and minutes
      lie in [-60, 0], hours in [-24, 0], and days is rounded toward minus
      infinity, so it is already -1 one millisecond after the target. */
  lemma DecomposeOverdue(t: int)
    requires t < 0
    ensures Days(t) < 0 && Days(t) * MsPerDay <= t < (Days(t) + 1) * MsPerDay
    ensures -24 <= Hours(t) <= 0 && -60 <= Minutes(t) <= 0 && -60 <= Seconds(t) <= 0
    ensures Seconds(t) == 0 <==> t % MsPerMinute == 0
  {
    var u := -t;
    if t % MsPerMinute == 0 {
      DivUnique(u, MsPerMinute, -(t / MsPerMinute), 0);
    } else {
      assert u % MsPerMinute != 0 by {
        if u % MsPerMinute == 0 {
          DivUnique(t, MsPerMinute, -(u / MsPerMinute), 0);
        }
      }
    }
  }

  /** Before the target a field is 0 whenever less than one of its units
      remains of the next larger unit, in contrast to the overdue case. */
  lemma SecondsZeroAhead(t: int)
    requires t >= 0
    ensures Seconds(t) == 0 <==> t % MsPerMinute < MsPerSecond
  {
  }

  /** The fixed examples: 1 day 1 hour 1 minute 1 second, zero, and one
      second past the target. */
  lemma Examples()
    ensures var r := GetTimeRemaining(Time(90061000), 0);
            r.days == r.hours == r.minutes == r.seconds == Num(1)
    ensures var r := GetTimeRemaining(Time(5), 5);
            r.days == r.hours == r.minutes == r.seconds == Num(0)
    ensures var r := GetTimeRemaining(Time(0), 1000);
            r.days == r.hours == r.minutes == r.seconds == Num(-1)
  {
  }
}
