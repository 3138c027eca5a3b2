/** `initCountdown`, `createCountdownChildElements`, `populateCountdown` and
    `updateCountdown`: the widget owns one display unit per token of its
    language, in token order, and every tick overwrites each unit's value and
    switches its label. The repeating timer is left to the host: one call of
    `Tick` is one firing of the interval. */
module Countdown {
  import opened Common
  import opened TokenRenderer
  import opened EcmaDate
  import Remaining
  import TargetTime
  import DateParse
  import Timezone

  /** The data attributes of the host element: `data-date`, `data-timezone`
      and `data-lang`. */
  datatype Host = Host(date: Option<string>, timezone: Option<string>, lang: Option<string>)

  /** `data-lang` after `createCountdownChildElements`: missing or empty
      becomes "en". */
  function EffectiveLanguage(lang: Option<string>): (l: string)
    ensures lang.Some? && lang.value != "" ==> l == lang.value
    ensures lang.None? || lang.value == "" ==> l == "en"
    ensures l != ""
  {
    if lang.None? || lang.value == "" then "en" else lang.value
  }

  /** The units `createCountdownChildElements` builds: one per token, in
      token order, each showing 0 under its plural label, carrying both forms
      of its token, and satisfying the label invariant. */
  function InitialUnits(tokens: seq<Token>): (us: seq<Unit>)
    ensures |us| == |tokens|
    ensures forall i :: 0 <= i < |tokens| ==>
              us[i].value == Num(0) && us[i].caption == tokens[i].plural
              && us[i].token == tokens[i].plural && us[i].singular == tokens[i].singular
              && Consistent(us[i])
  {
    seq(|tokens|, i requires 0 <= i < |tokens| => InitialUnit(tokens[i]))
  }

  class Widget {
    /** `countdown.dataset.lang` once defaulted. */
    var lang: string
    /** The display units in document order. */
    var units: array<Unit>
    /** The target instant, fixed when the countdown starts. */
    var target: TimeValue
    /** Whether the interval has been set up. */
    var started: bool
    /** The token table entry the units were built from. */
    ghost var tokens: seq<Token>

    /** Each unit keeps the forms of its token, and its label is one of them,
        singular exactly when the value shown is 1 (when the forms differ). */
    ghost predicate Valid()
      reads this, units
    {
      units.Length == |tokens|
      && forall i :: 0 <= i < units.Length ==>
           units[i].token == tokens[i].plural && units[i].singular == tokens[i].singular
           && Consistent(units[i])
    }

    /** `createCountdownChildElements`: one unit per token, in token order,
        showing 0 and the plural label. */
    constructor (lang: string, tokens: seq<Token>)
      ensures Valid() && fresh(units) && !started
      ensures this.lang == lang && this.tokens == tokens
      ensures units[..] == InitialUnits(tokens)
    {
      this.lang := lang;
      this.tokens := tokens;
      units := new Unit[|tokens|](i requires 0 <= i < |tokens| => InitialUnit(tokens[i]));
      target := TimeValue.NaN;
      started := false;
    }

    /** `populateCountdown`: keeps the target and starts the interval. */
    method Start(t: TimeValue)
      requires Valid()
      modifies this`target, this`started
      ensures Valid() && started && target == t
      ensures lang == old(lang) && units == old(units)
    {
      target := t;
      started := true;
    }

    /** `updateCountdown` at the instant `now`: every unit shows the field of
        the remaining time named by its token and its label is switched. */
    method Tick(now: int)
      requires Valid() && started
      modifies units
      ensures Valid()
      ensures forall i :: 0 <= i < units.Length ==>
                units[i] == Render(old(units[i]),
                                   Remaining.Get(Remaining.GetTimeRemaining(target, now), old(units[i]).token))
      ensures forall i :: 0 <= i < units.Length ==>
                units[i].value == Remaining.Get(Remaining.GetTimeRemaining(target, now), units[i].token)
                && (units[i].value == Num(1) ==> units[i].caption == units[i].singular)
    {
      var remaining := Remaining.GetTimeRemaining(target, now);
      var i := 0;
      while i < units.Length
        invariant 0 <= i <= units.Length
        invariant forall k :: 0 <= k < i ==>
                    units[k] == Render(old(units[k]), Remaining.Get(remaining, old(units[k]).token))
        invariant forall k :: i <= k < units.Length ==> units[k] == old(units[k])
      {
        var u := units[i];
        var value := Remaining.Get(remaining, u.token);
        var caption := u.caption;
        if value == Num(1) {
          caption := u.singular;
        } else if value != Num(1) && caption == u.singular {
          caption := u.token;
        }
        units[i] := Unit(u.token, u.singular, value, caption);
        i := i + 1;
      }
      forall k | 0 <= k < units.Length
        ensures Consistent(units[k])
      {
        RenderConsistent(old(units[k]), Remaining.Get(remaining, old(units[k]).token));
      }
    }
  }

  /** `initCountdown(countdown)`: no host throws; an unknown language throws
      before any unit exists; otherwise the units are built and only then is
      the target resolved, so a bad date leaves the units in place without
      starting the countdown. */
  method InitCountdown(host: Option<Host>, tokenStrings: map<string, seq<Token>>,
                       timezones: map<string, int>, now: int)
    returns (w: Widget?, r: Result<TargetTime.Target, ConfigError>)
    ensures host.None? ==> w == null && r == Err(NoCountdown)
    ensures host.Some? && EffectiveLanguage(host.value.lang) !in tokenStrings ==>
              w == null && r == Err(UnknownLanguage(EffectiveLanguage(host.value.lang)))
    ensures host.Some? && EffectiveLanguage(host.value.lang) in tokenStrings ==>
              var h := host.value;
              var lang := EffectiveLanguage(h.lang);
              w != null && fresh(w) && fresh(w.units) && w.Valid()
              && w.lang == lang && w.tokens == tokenStrings[lang]
              && w.units[..] == InitialUnits(tokenStrings[lang])
              && r == TargetTime.ParseTargetTime(h.date, h.timezone, timezones, now)
              && w.started == r.Ok? && (r.Ok? ==> w.target == r.value.instant)
  {
    if host.None? {
      return null, Err(NoCountdown);
    }
    var h := host.value;
    var lang := EffectiveLanguage(h.lang);
    if lang !in tokenStrings {
      return null, Err(UnknownLanguage(lang));
    }
    w := new Widget(lang, tokenStrings[lang]);
    r := TargetTime.ParseTargetTime(h.date, h.timezone, timezones, now);
    if r.Ok? {
      w.Start(r.value.instant);
    }
  }

  /** Two days before a target of 2025-01-01 with an unknown timezone the
      display reads 2 days, 0 hours, 0 minutes, 0 seconds, and a plural "days"
      label stays plural. */
  lemma TwoDaysBeforeNewYear(date: string, timezone: string, table: map<string, int>, start: int)
    requires DateParse.ParseTargetDate(date) == Some([2025, 0, 1])
    requires !Timezone.Truthy(table, Timezone.ToLowerAscii(timezone))
    ensures var target := TargetTime.ParseTargetTime(Some(date), Some(timezone), table, start).value.instant;
            var rt := Remaining.GetTimeRemaining(target, 20087 * MsPerDay);
            Remaining.Get(rt, "days") == Num(2) && Remaining.Get(rt, "hours") == Num(0)
            && Remaining.Get(rt, "minutes") == Num(0) && Remaining.Get(rt, "seconds") == Num(0)
            && Render(InitialUnit(Token("day", "days")), Remaining.Get(rt, "days")).caption == "days"
  {
    TargetTime.NewYear2025(date, timezone, table, start);
    Remaining.DecomposeAhead(2 * MsPerDay);
  }
}
