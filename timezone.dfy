/** `parseTimezone`: the hour offset used for the target's UTC hour, looked
    up by lower-cased name in the timezone table. The table stores offsets
    with the opposite sign, so a found entry is negated. */
module Timezone {
  import opened Common

  function LowerChar(c: char): char {
    if 'A' <= c <= 'Z' then (c as int + 32) as char else c
  }

  /** `String.prototype.toLowerCase` on the ASCII letters. */
  function ToLowerAscii(s: string): (r: string)
    ensures |r| == |s|
    ensures forall i :: 0 <= i < |s| ==> r[i] == LowerChar(s[i])
  {
    if s == [] then [] else [LowerChar(s[0])] + ToLowerAscii(s[1..])
  }

  /** Lower-casing a lower-cased name changes nothing. */
  lemma LowerIdempotent(s: string)
    ensures ToLowerAscii(ToLowerAscii(s)) == ToLowerAscii(s)
  {
  }

  /** An offset and whether the GMT fallback (with its console warning) was used. */
  datatype TzResolution = TzResolution(offset: int, usedFallback: bool)

  /** A table entry is truthy when it is present and not 0. */
  predicate Truthy(table: map<string, int>, key: string) {
    key in table && table[key] != 0
  }

  /** `parseTimezone(timezone)`: an absent attribute is `undefined`, and
      calling `toLowerCase` on it throws. */
  function ParseTimezone(name: Option<string>, table: map<string, int>): (r: Result<TzResolution, ConfigError>)
    ensures name.None? <==> r == Err(MissingTimezone)
    ensures r.Ok? <==> name.Some?
    ensures r.Ok? ==> (r.value.usedFallback <==> r.value.offset == 0)
    ensures r.Ok? && !r.value.usedFallback ==>
              var key := ToLowerAscii(name.value);
              key in table && r.value.offset == -table[key]
    ensures name.Some? && r.Ok? && r.value.usedFallback ==>
              !Truthy(table, ToLowerAscii(name.value))
  {
    match name
    case None => Err(MissingTimezone)
    case Some(tz) =>
      var key := ToLowerAscii(tz);
      if Truthy(table, key) then Ok(TzResolution(-table[key], false))
      else Ok(TzResolution(0, true))
  }

  /** The lookup ignores the case of ASCII letters: names that lower-case
      alike resolve alike. */
  lemma CaseInsensitive(a: string, b: string, table: map<string, int>)
    requires ToLowerAscii(a) == ToLowerAscii(b)
    ensures ParseTimezone(Some(a), table) == ParseTimezone(Some(b), table)
  {
  }

  /** A name the table does not know resolves to GMT with the warning. */
  lemma MissingKeyWarns(name: string, table: map<string, int>)
    requires ToLowerAscii(name) !in table
    ensures ParseTimezone(Some(name), table) == Ok(TzResolution(0, true))
  {
  }

  /** An entry stored as 0 is indistinguishable from a missing one: both
      give offset 0 and warn, so an explicit GMT entry also warns. */
  lemma ZeroEntryWarns(name: string, table: map<string, int>)
    requires ToLowerAscii(name) in table && table[ToLowerAscii(name)] == 0
    ensures ParseTimezone(Some(name), table) == Ok(TzResolution(0, true))
  {
  }
}
