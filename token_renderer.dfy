/** The display of one unit (days, hours, minutes or seconds) and the label
    switch applied to it on every tick. A unit is the number span, which
    carries `data-token` (the plural label) and `data-token-singular`, and the
    label span that follows it. */
module TokenRenderer {
  import opened Common

  /** One entry of a language's token table. */
  datatype Token = Token(singular: string, plural: string)

  /** `token` is `data-token` (the plural form, also the key looked up in the
      remaining time), `singular` is `data-token-singular`, `value` is the
      number span's content and `caption` the label span's content. */
  datatype Unit = Unit(token: string, singular: string, value: JsValue, caption: string)

  /** The unit built for a token at initialisation: value 0, plural caption. */
  function InitialUnit(t: Token): Unit {
    Unit(t.plural, t.singular, Num(0), t.plural)
  }

  /** One unit's share of a tick: the value is overwritten; the caption becomes
      singular on 1 and goes back to plural only when it shows the singular. */
  function Render(u: Unit, value: JsValue): Unit {
    var caption :=
      if value == Num(1) then u.singular
      else if value != Num(1) && u.caption == u.singular then u.token
      else u.caption;
    Unit(u.token, u.singular, value, caption)
  }

  /** The caption shows one of the unit's two forms. */
  predicate LabelWellFormed(u: Unit) {
    u.caption == u.singular || u.caption == u.token
  }

  /** When the two forms differ, the singular shows exactly when the value is 1. */
  predicate LabelAgrees(u: Unit) {
    u.singular != u.token ==> (u.caption == u.singular <==> u.value == Num(1))
  }

  predicate Consistent(u: Unit) {
    LabelWellFormed(u) && LabelAgrees(u)
  }

  /** A freshly built unit is consistent. */
  lemma InitialConsistent(t: Token)
    ensures Consistent(InitialUnit(t))
  {
  }

  /** From any caption showing one of the two forms, a render leaves the caption
      determined by the new value alone: singular for 1, plural otherwise. The
      previous value and caption no longer matter. */
  lemma RenderLabel(u: Unit, value: JsValue)
    requires LabelWellFormed(u)
    ensures Render(u, value).caption == if value == Num(1) then u.singular else u.token
  {
  }

  /** Rendering shows the value, keeps the unit's two forms and makes it
      consistent. */
  lemma RenderConsistent(u: Unit, value: JsValue)
    requires LabelWellFormed(u)
    ensures var r := Render(u, value);
            r.value == value && r.token == u.token && r.singular == u.singular && Consistent(r)
  {
    RenderLabel(u, value);
  }

  /** Rendering the same value twice changes nothing the second time, and a
      caption that already matches its value is left as it is. */
  lemma RenderIdempotent(u: Unit, value: JsValue)
    ensures Render(Render(u, value), value) == Render(u, value)
    ensures Consistent(u) && u.value == value ==> Render(u, value) == u
  {
  }

  /** The labels shown after rendering each value of `values` in turn. */
  function Labels(u: Unit, values: seq<JsValue>): (ls: seq<string>)
    ensures |ls| == |values|
    decreases |values|
  {
    if values == [] then []
    else
      var next := Render(u, values[0]);
      [next.caption] + Labels(next, values[1..])
  }

  /** Over any sequence of ticks, the caption after each tick depends only on
      that tick's value. */
  lemma {:induction false} LabelsFollowValues(u: Unit, values: seq<JsValue>)
    requires LabelWellFormed(u)
    ensures forall k :: 0 <= k < |values| ==>
              Labels(u, values)[k] == if values[k] == Num(1) then u.singular else u.token
    decreases |values|
  {
    if values != [] {
      var next := Render(u, values[0]);
      RenderLabel(u, values[0]);
      LabelsFollowValues(next, values[1..]);
      forall k | 0 <= k < |values|
        ensures Labels(u, values)[k] == if values[k] == Num(1) then u.singular else u.token
      {
        if k > 0 {
          assert Labels(u, values)[k] == Labels(next, values[1..])[k - 1];
          assert values[1..][k - 1] == values[k];
        }
      }
    }
  }

  /** The values 2, 1, 1, 2, 0 against a plural caption give: plural
      (unchanged), singular, singular (unchanged), plural, plural (unchanged). */
  lemma LabelSequenceExample(t: Token)
    requires t.singular != t.plural
    ensures Labels(InitialUnit(t), [Num(2), Num(1), Num(1), Num(2), Num(0)])
            == [t.plural, t.singular, t.singular, t.plural, t.plural]
  {
    var vs := [Num(2), Num(1), Num(1), Num(2), Num(0)];
    LabelsFollowValues(InitialUnit(t), vs);
  }
}
