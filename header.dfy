/** The header's date chip: the selected date shown day first, and the
    Today / Tomorrow / Yesterday label. The current day is a parameter. */
module Header {
  import opened Wrappers
  import opened Strings
  import opened Civil
  import opened DateFormat

  /** What a missing array element prints as in a template literal. */
  const Undefined: string := "undefined"

  /** The `k`-th name of `const [y, m, d] = parts`: `undefined` past the end. */
  function Part(parts: seq<string>, k: nat): (r: string)
    ensures k < |parts| ==> r == parts[k]
    ensures k >= |parts| ==> r == Undefined
  {
    if k < |parts| then parts[k] else Undefined
  }

  /** `formatDDMMYYYY`: "" for an empty value, otherwise the first three
      dash-separated fields printed in reverse order, separated by spaces. */
  function FormatDDMMYYYY(s: string): string
  {
    if s == "" then ""
    else
      var parts := Split(s, '-');
      Part(parts, 2) + " " + Part(parts, 1) + " " + Part(parts, 0)
  }

  /** Three dash-free fields joined by dashes split back into those fields. */
  lemma SplitDashed(y: string, m: string, d: string)
    requires '-' !in y && '-' !in m && '-' !in d
    ensures Split(Dashed(y, m, d), '-') == [y, m, d]
  {
    SplitNoSeparator(d, '-');
    SplitAtSeparator(m, d, '-');
    assert m + ['-'] + d == m + ("-" + d);
    SplitAtSeparator(y, m + ("-" + d), '-');
    assert y + ['-'] + (m + ("-" + d)) == Dashed(y, m, d);
  }

  /** A dashed date is shown with its fields reversed. */
  lemma FormatDashed(y: string, m: string, d: string)
    requires '-' !in y && '-' !in m && '-' !in d
    ensures FormatDDMMYYYY(Dashed(y, m, d)) == d + " " + m + " " + y
  {
    SplitDashed(y, m, d);
    assert |Dashed(y, m, d)| >= 2;
  }

  /** A digit string contains no dash. */
  lemma DigitsHaveNoDash(s: string)
    requires forall i :: 0 <= i < |s| ==> IsDigit(s[i])
    ensures '-' !in s
  {
  }

  /** A formatted date with a four-digit year is shown as `DD MM YYYY`. */
  lemma FormatFmt(n: int)
    requires HasFourDigitYear(n)
    ensures FormatDDMMYYYY(Fmt(n))
         == FixedDigits(DayOfMonth(n), 2) + " " + FixedDigits(MonthIndex(n) + 1, 2)
            + " " + FixedDigits(FullYear(n), 4)
  {
    var y, m, d := FixedDigits(FullYear(n), 4), FixedDigits(MonthIndex(n) + 1, 2), FixedDigits(DayOfMonth(n), 2);
    IsoDateFixed(FullYear(n), MonthIndex(n) + 1, DayOfMonth(n));
    DigitsHaveNoDash(y);
    DigitsHaveNoDash(m);
    DigitsHaveNoDash(d);
    FormatDashed(y, m, d);
  }

  /** A non-empty value without a dash lacks the month and the day. */
  lemma FormatWithoutDash(s: string)
    requires s != "" && '-' !in s
    ensures FormatDDMMYYYY(s) == "undefined undefined " + s
  {
    SplitNoSeparator(s, '-');
  }

  /** `Number(part)` for a dash-free field: "" is 0, a digit string its
      value, anything else NaN (`None`). */
  function JsNumber(s: string): (r: Option<int>)
    ensures r.Some? <==> forall i :: 0 <= i < |s| ==> IsDigit(s[i])
    ensures s == "" ==> r == Some(0)
    ensures r.Some? ==> r.value >= 0 && FixedDigits(r.value, |s|) == s
  {
    if forall i :: 0 <= i < |s| ==> IsDigit(s[i]) then
      DigitsValueFixed(s);
      Some(DigitsValue(s))
    else None
  }

  /** `new Date(y, m - 1, d)` from `split("-").map(Number)`: an invalid date
      (`None`) when a field is missing or not a number; out-of-range months
      and days roll over. */
  function SelectedDay(s: string): Option<int>
  {
    DayOfParts(Split(s, '-'))
  }

  /** `new Date(y, m - 1, d)` from the numbers of the first three fields. */
  function DayOfParts(parts: seq<string>): Option<int>
  {
    if |parts| < 3 then None
    else
      var y, m, d := JsNumber(parts[0]), JsNumber(parts[1]), JsNumber(parts[2]);
      if y.None? || m.None? || d.None? then None
      else Some(MakeDay(y.value, m.value - 1, d.value))
  }

  /** The day a formatted date with a four-digit year names is that day. */
  lemma SelectedDayOfFmt(n: int)
    requires HasFourDigitYear(n)
    ensures SelectedDay(Fmt(n)) == Some(n)
  {
    var c := CivilFromDays(n);
    FmtOfCivil(n);
    IsoDateFixed(c.year, c.month, c.day);
    SelectedDayOfFields(c.year, c.month, c.day);
    MakeDayOfValid(c);
  }

  /** Three fixed-width numerals joined by dashes name the day they spell. */
  lemma SelectedDayOfFields(y: nat, m: nat, d: nat)
    requires y < 10000 && m < 100 && d < 100
    ensures SelectedDay(Dashed(FixedDigits(y, 4), FixedDigits(m, 2), FixedDigits(d, 2)))
         == Some(MakeDay(y, m - 1, d))
  {
    var ys, ms, ds := FixedDigits(y, 4), FixedDigits(m, 2), FixedDigits(d, 2);
    DigitsHaveNoDash(ys);
    DigitsHaveNoDash(ms);
    DigitsHaveNoDash(ds);
    SplitDashed(ys, ms, ds);
    DayOfFixedParts(y, m, d);
  }

  lemma DayOfFixedParts(y: nat, m: nat, d: nat)
    requires y < 10000 && m < 100 && d < 100
    ensures DayOfParts([FixedDigits(y, 4), FixedDigits(m, 2), FixedDigits(d, 2)]) == Some(MakeDay(y, m - 1, d))
  {
    assert Pow10(2) == 100 && Pow10(4) == 10000;
    JsNumberFixed(y, 4);
    JsNumberFixed(m, 2);
    JsNumberFixed(d, 2);
  }

  /** A fixed-width numeral reads back as its value. */
  lemma JsNumberFixed(v: nat, w: nat)
    requires v < Pow10(w)
    ensures JsNumber(FixedDigits(v, w)) == Some(v)
  {
    FixedDigitsValue(v, w);
  }

  /** `t`: today's year, month and day rebuilt with `new Date`, which is
      today again. */
  function Midnight(today: int): (t: int)
    ensures t == today
  {
    var c := CivilFromDays(today);
    MakeDayOfValid(c);
    MakeDay(FullYear(today), MonthIndex(today), DayOfMonth(today))
  }

  /** `getDateLabel`: the label for a day difference of 0, 1 or -1, none
      for any other difference or an invalid date. */
  function DateLabel(s: string, today: int): (r: Option<string>)
    ensures r == Some("Today") <==> SelectedDay(s) == Some(today)
    ensures r == Some("Tomorrow") <==> SelectedDay(s) == Some(today + 1)
    ensures r == Some("Yesterday") <==> SelectedDay(s) == Some(today - 1)
    ensures r.None? <==> SelectedDay(s).None? || !(today - 1 <= SelectedDay(s).value <= today + 1)
  {
    LabelOfDay(SelectedDay(s), today)
  }

  /** The label of a parsed day, or none for an invalid date. */
  function LabelOfDay(sel: Option<int>, today: int): (r: Option<string>)
    ensures r == Some("Today") <==> sel == Some(today)
    ensures r == Some("Tomorrow") <==> sel == Some(today + 1)
    ensures r == Some("Yesterday") <==> sel == Some(today - 1)
    ensures r.None? <==> sel.None? || !(today - 1 <= sel.value <= today + 1)
  {
    if sel.None? then None
    else LabelOfDiff(sel.value - Midnight(today))
  }

  /** The label for a difference of `diff` days from today. */
  function LabelOfDiff(diff: int): (r: Option<string>)
    ensures r == Some("Today") <==> diff == 0
    ensures r == Some("Tomorrow") <==> diff == 1
    ensures r == Some("Yesterday") <==> diff == -1
    ensures r.None? <==> !(-1 <= diff <= 1)
  {
    if diff == 0 then Some("Today")
    else if diff == 1 then Some("Tomorrow")
    else if diff == -1 then Some("Yesterday")
    else None
  }

  /** The chip of a formatted date with a four-digit year is labelled by
      how many days it lies from today. */
  lemma LabelOfFmt(n: int, today: int)
    requires HasFourDigitYear(n)
    ensures DateLabel(Fmt(n), today)
         == if n == today then Some("Today")
            else if n == today + 1 then Some("Tomorrow")
            else if n == today - 1 then Some("Yesterday")
            else None
  {
    SelectedDayOfFmt(n);
  }
}
