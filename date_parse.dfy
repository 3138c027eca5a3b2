/** Parsing of the `data-date` attribute: the unanchored regular expression
    `(\d{4})-(\d{2})-(\d{2})`, `parseInt` of each captured group, and the
    `reduce` that turns the match array into `[year, month - 1, day]`. */
module DateParse {
  import opened Common

  /** Width of a `DDDD-DD-DD` match. */
  const MatchWidth: nat := 10

  /** `\d` without the `u` flag: an ASCII decimal digit. */
  predicate IsDigit(c: char) { '0' <= c <= '9' }

  predicate AllDigits(s: string) {
    forall i :: 0 <= i < |s| ==> IsDigit(s[i])
  }

  /** The pattern matches the ten characters starting at `i`. */
  predicate MatchesAt(s: string, i: int) {
    0 <= i && i + MatchWidth <= |s|
    && AllDigits(s[i..i + 4]) && s[i + 4] == '-'
    && AllDigits(s[i + 5..i + 7]) && s[i + 7] == '-'
    && AllDigits(s[i + 8..i + 10])
  }

  /** Leftmost match at or after `from`: the pattern has a fixed width and no
      alternatives, so the match found first is the one at the smallest index. */
  function FirstMatch(s: string, from: nat): (r: Option<nat>)
    ensures r.Some? ==> from <= r.value && MatchesAt(s, r.value)
    ensures r.Some? ==> forall j :: from <= j < r.value ==> !MatchesAt(s, j)
    ensures r.None? ==> forall j :: from <= j ==> !MatchesAt(s, j)
    decreases |s| - from
  {
    if from + MatchWidth > |s| then None
    else if MatchesAt(s, from) then Some(from)
    else FirstMatch(s, from + 1)
  }

  function DigitValue(c: char): nat
    requires IsDigit(c)
  {
    c as int - '0' as int
  }

  /** `parseInt` of a string of decimal digits (leading zeros allowed). */
  function ParseDigits(ds: string): (n: nat)
    requires AllDigits(ds)
  {
    if |ds| == 0 then 0
    else ParseDigits(ds[..|ds| - 1]) * 10 + DigitValue(ds[|ds| - 1])
  }

  /** A `parseInt` of `w` digits is below 10^w. */
  lemma {:induction false} ParseDigitsBound(ds: string)
    requires AllDigits(ds)
    ensures ParseDigits(ds) < Pow10(|ds|)
  {
    if |ds| > 0 {
      ParseDigitsBound(ds[..|ds| - 1]);
    }
  }

  function Pow10(w: nat): (p: nat)
    ensures p >= 1
  {
    if w == 0 then 1 else 10 * Pow10(w - 1)
  }

  /** The match array of `String.prototype.match`: the whole match, then the
      three groups. */
  function MatchArray(s: string, i: nat): (m: seq<string>)
    requires MatchesAt(s, i)
    ensures |m| == 4 && forall k :: 0 <= k < 4 ==> AllDigits(m[k]) || k == 0
  {
    [s[i..i + 10], s[i..i + 4], s[i + 5..i + 7], s[i + 8..i + 10]]
  }

  /** The `reduce` callback folded over the match array from `index` on:
      groups 1 and 3 are pushed as parsed, group 2 is pushed minus one, and
      every other index (the whole match) is skipped. */
  function ReduceGroups(m: seq<string>, index: nat, acc: seq<int>): seq<int>
    requires index <= |m|
    requires forall k :: 1 <= k <= 3 && k < |m| ==> AllDigits(m[k])
    decreases |m| - index
  {
    if index == |m| then acc
    else
      var acc' :=
        if index == 1 || index == 3 then acc + [ParseDigits(m[index])]
        else if index == 2 then acc + [ParseDigits(m[index]) - 1]
        else acc;
      ReduceGroups(m, index + 1, acc')
  }

  /** The year, month and day digits of the match at `i`. */
  function YearAt(s: string, i: nat): nat requires MatchesAt(s, i) { ParseDigits(s[i..i + 4]) }
  function MonthAt(s: string, i: nat): nat requires MatchesAt(s, i) { ParseDigits(s[i + 5..i + 7]) }
  function DayAt(s: string, i: nat): nat requires MatchesAt(s, i) { ParseDigits(s[i + 8..i + 10]) }

  /** The fold over a match array yields exactly `[year, month - 1, day]`: the
      whole match at index 0 contributes nothing and only the month moves. */
  lemma ReduceMatchArray(s: string, i: nat)
    requires MatchesAt(s, i)
    ensures ReduceGroups(MatchArray(s, i), 0, [])
            == [YearAt(s, i), MonthAt(s, i) - 1, DayAt(s, i)]
  {
    var m := MatchArray(s, i);
    assert m[1] == s[i..i + 4] && m[2] == s[i + 5..i + 7] && m[3] == s[i + 8..i + 10];
    var y: int, mo: int, d: int := YearAt(s, i), MonthAt(s, i), DayAt(s, i);
    var none: seq<int> := [];
    assert ReduceGroups(m, 0, none) == ReduceGroups(m, 1, none);
    assert none + [y] == [y];
    assert ReduceGroups(m, 1, none) == ReduceGroups(m, 2, [y]);
    assert [y] + [mo - 1] == [y, mo - 1];
    assert ReduceGroups(m, 2, [y]) == ReduceGroups(m, 3, [y, mo - 1]);
    assert [y, mo - 1] + [d] == [y, mo - 1, d];
    assert ReduceGroups(m, 3, [y, mo - 1]) == ReduceGroups(m, 4, [y, mo - 1, d]);
  }

  /** `parseTargetDate`: `None` when the string holds no `DDDD-DD-DD`
      substring (the `reduce` on `null` throws); otherwise the three numbers
      taken from the first such substring, wherever it stands. */
  function ParseTargetDate(s: string): (r: Option<seq<int>>)
    ensures r.Some? <==> exists i :: MatchesAt(s, i)
    ensures r.Some? ==>
              exists i :: MatchesAt(s, i)
                && (forall j :: 0 <= j < i ==> !MatchesAt(s, j))
                && r.value == [YearAt(s, i), MonthAt(s, i) - 1, DayAt(s, i)]
    ensures r.Some? ==>
              |r.value| == 3 && 0 <= r.value[0] <= 9999
              && -1 <= r.value[1] <= 98 && 0 <= r.value[2] <= 99
  {
    match FirstMatch(s, 0)
    case None => None
    case Some(i) =>
      ReduceMatchArray(s, i);
      ParseDigitsBound(s[i..i + 4]);
      ParseDigitsBound(s[i + 5..i + 7]);
      ParseDigitsBound(s[i + 8..i + 10]);
      assert Pow10(4) == 10000 && Pow10(2) == 100;
      Some(ReduceGroups(MatchArray(s, i), 0, []))
  }

  // ---- Formatting, the inverse of parsing ----

  function DigitChar(d: nat): (c: char)
    requires d < 10
    ensures IsDigit(c) && DigitValue(c) == d
  {
    ('0' as int + d) as char
  }

  /** The last `w` decimal digits of `n`, zero-padded. */
  function Digits(n: nat, w: nat): (ds: string)
    ensures |ds| == w && AllDigits(ds)
  {
    if w == 0 then [] else Digits(n / 10, w - 1) + [DigitChar(n % 10)]
  }

  /** Parsing the zero-padded digits of a number that fits gives it back. */
  lemma {:induction false} ParseDigitsOfDigits(n: nat, w: nat)
    requires n < Pow10(w)
    ensures ParseDigits(Digits(n, w)) == n
  {
    if w > 0 {
      var ds := Digits(n, w);
      assert ds[..w - 1] == Digits(n / 10, w - 1);
      ParseDigitsOfDigits(n / 10, w - 1);
    }
  }

  /** `YYYY-MM-DD` for a year, month and day given as numbers. */
  function FormatDate(year: nat, month: nat, day: nat): (s: string)
    ensures |s| == MatchWidth
  {
    Digits(year, 4) + "-" + Digits(month, 2) + "-" + Digits(day, 2)
  }

  /** Every well-formed date string parses back to its year, its month minus
      one and its day; junk after the date does not matter. */
  lemma {:induction false} ParseFormatted(year: nat, month: nat, day: nat, rest: string)
    requires year <= 9999 && month <= 99 && day <= 99
    ensures ParseTargetDate(FormatDate(year, month, day) + rest)
            == Some([year as int, month as int - 1, day as int])
  {
    var s := FormatDate(year, month, day) + rest;
    assert s[0..4] == Digits(year, 4);
    assert s[5..7] == Digits(month, 2);
    assert s[8..10] == Digits(day, 2);
    assert s[4] == '-' && s[7] == '-';
    assert MatchesAt(s, 0);
    ParseDigitsOfDigits(year, 4);
    ParseDigitsOfDigits(month, 2);
    ParseDigitsOfDigits(day, 2);
  }

  /** A string without digits never parses, e.g. the attribute `"soon"`. */
  lemma NoDigitsNoDate(s: string)
    requires forall k :: 0 <= k < |s| ==> !IsDigit(s[k])
    ensures ParseTargetDate(s).None?
  {
  }
}
