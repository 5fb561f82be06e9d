/** `YYYY-MM-DD` date strings: the zero-padded formatting the frontend uses
    for its date keys and range parameters, the date-only parsing of
    `new Date("YYYY-MM-DD")`, and `normalizeDateKey`.

    The central facts: for years with four digits, formatted dates have a
    fixed width, so comparing them as strings agrees with calendar order,
    and formatting and parsing undo each other. */
module DateFormat {
  import opened Wrappers
  import opened Strings
  import opened Civil

  /** `pad(n)`: `String(n).padStart(2, "0")`. */
  function Pad2(n: int): string
  {
    PadStart(NumberToString(n), 2, '0')
  }

  /** `${y}-${pad(m)}-${pad(d)}`. */
  function IsoDate(y: int, m: int, d: int): string
  {
    NumberToString(y) + "-" + Pad2(m) + "-" + Pad2(d)
  }

  /** `fmt(dateObj)` / `formatDateYYYYMMDD(dateObj)`: the local civil date of a
      `Date` as `Y-MM-DD`. */
  function Fmt(n: int): string
  {
    IsoDate(FullYear(n), MonthIndex(n) + 1, DayOfMonth(n))
  }

  /** Four-digit years, for which formatted dates are exactly ten characters. */
  predicate HasFourDigitYear(n: int)
  {
    1000 <= FullYear(n) <= 9999
  }

  /** Two-character padding of a number below 100 is its two-digit numeral. */
  lemma Pad2Fixed(n: int)
    requires 0 <= n <= 99
    ensures Pad2(n) == FixedDigits(n, 2)
  {
    assert Pow10(1) == 10 && Pow10(2) == 100;
    if n >= 10 {
      DigitsHaveWidth(n, 2);
    } else {
      assert FixedDigits(n, 2) == FixedDigits(0, 1) + [DigitChar(n)];
    }
  }

  /** The two day literals of the month window, as `pad` writes them. */
  lemma Pad2Literals()
    ensures Pad2(1) == "01" && Pad2(31) == "31"
  {
    assert NumberToString(1) == [DigitChar(1)];
    var one := Pad2(1);
    assert |one| == 2 && one[1..] == [DigitChar(1)] && one[0] == '0';
    assert one == "01";
    assert Digits(31) == Digits(3) + [DigitChar(1)];
    assert NumberToString(31) == [DigitChar(3), DigitChar(1)];
  }

  /** A four-digit year is printed as its four-digit numeral. */
  lemma YearFixed(y: int)
    requires 1000 <= y <= 9999
    ensures NumberToString(y) == FixedDigits(y, 4)
  {
    assert Pow10(3) == 1000 && Pow10(4) == 10000;
    DigitsHaveWidth(y, 4);
  }

  /** The left-nested concatenation of the template literal, regrouped. */
  lemma DashedRegroup(y: string, m: string, d: string)
    ensures y + "-" + m + "-" + d == Dashed(y, m, d)
  {
  }

  /** The fixed-width shape of `IsoDate` for a four-digit year. */
  lemma IsoDateFixed(y: int, m: int, d: int)
    requires 1000 <= y <= 9999 && 0 <= m <= 99 && 0 <= d <= 99
    ensures IsoDate(y, m, d) == Dashed(FixedDigits(y, 4), FixedDigits(m, 2), FixedDigits(d, 2))
  {
    YearFixed(y);
    Pad2Fixed(m);
    Pad2Fixed(d);
    DashedRegroup(NumberToString(y), Pad2(m), Pad2(d));
  }

  /** Lexicographic order on (year, month, day) triples. */
  predicate TripleLess(y1: int, m1: int, d1: int, y2: int, m2: int, d2: int)
  {
    y1 < y2 || (y1 == y2 && (m1 < m2 || (m1 == m2 && d1 < d2)))
  }

  /** Three fields joined by dashes. */
  function Dashed(y: string, m: string, d: string): string
  {
    y + ("-" + (m + ("-" + d)))
  }

  /** Where the fields of a `YYYY-MM-DD` string sit. */
  lemma DashedParts(y: string, m: string, d: string)
    requires |y| == 4 && |m| == 2 && |d| == 2
    ensures var s := Dashed(y, m, d);
      |s| == 10 && s[4] == '-' && s[7] == '-' && s[..4] == y && s[5..7] == m && s[8..] == d
  {
  }

  /** Dashed strings whose year and month fields have equal widths compare
      field by field. */
  lemma DashedOrder(y1: string, m1: string, d1: string, y2: string, m2: string, d2: string)
    requires |y1| == |y2| && |m1| == |m2|
    ensures Less(Dashed(y1, m1, d1), Dashed(y2, m2, d2))
        <==> Less(y1, y2) || (y1 == y2 && (Less(m1, m2) || (m1 == m2 && Less(d1, d2))))
  {
    LessConcat("-", d1, "-", d2);
    LessConcat(m1, "-" + d1, m2, "-" + d2);
    LessConcat("-", m1 + ("-" + d1), "-", m2 + ("-" + d2));
    LessConcat(y1, "-" + (m1 + ("-" + d1)), y2, "-" + (m2 + ("-" + d2)));
  }

  /** Comparing two `IsoDate` strings with four-digit years compares the
      (year, month, day) triples; equal strings mean equal triples. */
  lemma IsoDateOrder(y1: int, m1: int, d1: int, y2: int, m2: int, d2: int)
    requires 1000 <= y1 <= 9999 && 0 <= m1 <= 99 && 0 <= d1 <= 99
    requires 1000 <= y2 <= 9999 && 0 <= m2 <= 99 && 0 <= d2 <= 99
    ensures Less(IsoDate(y1, m1, d1), IsoDate(y2, m2, d2)) <==> TripleLess(y1, m1, d1, y2, m2, d2)
    ensures IsoDate(y1, m1, d1) == IsoDate(y2, m2, d2) <==> (y1 == y2 && m1 == m2 && d1 == d2)
  {
    IsoDateFixed(y1, m1, d1);
    IsoDateFixed(y2, m2, d2);
    FixedDashedOrder(y1, m1, d1, y2, m2, d2);
  }

  /** `IsoDateOrder` on the fixed-width numerals. */
  lemma FixedDashedOrder(y1: nat, m1: nat, d1: nat, y2: nat, m2: nat, d2: nat)
    requires y1 <= 9999 && m1 <= 99 && d1 <= 99
    requires y2 <= 9999 && m2 <= 99 && d2 <= 99
    ensures var s1, s2 := Dashed(FixedDigits(y1, 4), FixedDigits(m1, 2), FixedDigits(d1, 2)),
                          Dashed(FixedDigits(y2, 4), FixedDigits(m2, 2), FixedDigits(d2, 2));
      (Less(s1, s2) <==> TripleLess(y1, m1, d1, y2, m2, d2))
      && (s1 == s2 <==> (y1 == y2 && m1 == m2 && d1 == d2))
  {
    var Y1, M1, D1 := FixedDigits(y1, 4), FixedDigits(m1, 2), FixedDigits(d1, 2);
    var Y2, M2, D2 := FixedDigits(y2, 4), FixedDigits(m2, 2), FixedDigits(d2, 2);
    assert Pow10(2) == 100 && Pow10(4) == 10000;
    FixedDigitsOrder(y1, y2, 4);
    FixedDigitsOrder(m1, m2, 2);
    FixedDigitsOrder(d1, d2, 2);
    DashedOrder(Y1, M1, D1, Y2, M2, D2);
    DashedOrder(Y2, M2, D2, Y1, M1, D1);
    var s1, s2 := Dashed(Y1, M1, D1), Dashed(Y2, M2, D2);
    LessIrreflexive(s1);
    if s1 == s2 {
      DashedParts(Y1, M1, D1);
      DashedParts(Y2, M2, D2);
    }
  }

  /** For valid dates with four-digit years, `IsoDate` strings compare as
      the day numbers do. */
  lemma IsoDateOfDatesOrder(da: Date, db: Date)
    requires IsValid(da) && IsValid(db)
    requires 1000 <= da.year <= 9999 && 1000 <= db.year <= 9999
    ensures Less(IsoDate(da.year, da.month, da.day), IsoDate(db.year, db.month, db.day))
        <==> DaysFromCivil(da) < DaysFromCivil(db)
    ensures IsoDate(da.year, da.month, da.day) == IsoDate(db.year, db.month, db.day)
        <==> DaysFromCivil(da) == DaysFromCivil(db)
  {
    IsoDateOrder(da.year, da.month, da.day, db.year, db.month, db.day);
    DaysFromCivilOrder(da, db);
    DaysFromCivilOrder(db, da);
  }

  /** `fmt` of a day prints the fields of its civil date. */
  lemma FmtOfCivil(n: int)
    ensures var d := CivilFromDays(n);
      Fmt(n) == IsoDate(d.year, d.month, d.day) && DaysFromCivil(d) == n
  {
  }

  /** For four-digit years, `fmt` strings compare exactly as the dates do. */
  lemma FmtOrder(a: int, b: int)
    requires HasFourDigitYear(a) && HasFourDigitYear(b)
    ensures Less(Fmt(a), Fmt(b)) <==> a < b
    ensures Fmt(a) == Fmt(b) <==> a == b
    ensures LessEq(Fmt(a), Fmt(b)) <==> a <= b
  {
    FmtOfCivil(a);
    FmtOfCivil(b);
    IsoDateOfDatesOrder(CivilFromDays(a), CivilFromDays(b));
  }

  /** `new Date("YYYY-MM-DD")`: a date-only ISO 8601 string with a four-digit
      year, read as that calendar day. Anything else, including calendar-invalid
      days, is an invalid date (`None`). */
  function ParseIsoDate(s: string): (r: Option<int>)
  {
    if |s| == 10 && s[4] == '-' && s[7] == '-'
       && (forall i :: 0 <= i < 10 && i != 4 && i != 7 ==> IsDigit(s[i]))
    then
      var d := Date(DigitsValue(s[..4]), DigitsValue(s[5..7]), DigitsValue(s[8..]));
      if IsValid(d) then Some(DaysFromCivil(d)) else None
    else None
  }

  /** A formatted date has the fixed `YYYY-MM-DD` shape. */
  lemma FmtShape(n: int)
    requires HasFourDigitYear(n)
    ensures |Fmt(n)| == 10 && Fmt(n)[4] == '-' && Fmt(n)[7] == '-'
    ensures Fmt(n)[..4] == FixedDigits(FullYear(n), 4)
    ensures Fmt(n)[5..7] == FixedDigits(MonthIndex(n) + 1, 2)
    ensures Fmt(n)[8..] == FixedDigits(DayOfMonth(n), 2)
  {
    var y, m, d := FullYear(n), MonthIndex(n) + 1, DayOfMonth(n);
    IsoDateFixed(y, m, d);
    DashedParts(FixedDigits(y, 4), FixedDigits(m, 2), FixedDigits(d, 2));
  }

  /** A ten-character string with dashes at 4 and 7 is its three fields joined. */
  lemma DashedSplit(s: string)
    requires |s| == 10 && s[4] == '-' && s[7] == '-'
    ensures s == Dashed(s[..4], s[5..7], s[8..])
  {
  }

  /** Parsing three digit fields of widths 4, 2 and 2 reads their values. */
  lemma ParseDashed(y: string, m: string, d: string)
    requires |y| == 4 && |m| == 2 && |d| == 2
    requires forall i :: 0 <= i < |y| ==> IsDigit(y[i])
    requires forall i :: 0 <= i < |m| ==> IsDigit(m[i])
    requires forall i :: 0 <= i < |d| ==> IsDigit(d[i])
    ensures var date := Date(DigitsValue(y), DigitsValue(m), DigitsValue(d));
      ParseIsoDate(Dashed(y, m, d)) == if IsValid(date) then Some(DaysFromCivil(date)) else None
  {
    var s := Dashed(y, m, d);
    DashedParts(y, m, d);
    assert forall i :: 0 <= i < 4 ==> s[i] == y[i];
    assert forall i :: 5 <= i < 7 ==> s[i] == m[i - 5];
    assert forall i :: 8 <= i < 10 ==> s[i] == d[i - 8];
  }

  /** Parsing a formatted date gives the date back. */
  lemma ParseFmt(n: int)
    requires HasFourDigitYear(n)
    ensures ParseIsoDate(Fmt(n)) == Some(n)
  {
    var date := CivilFromDays(n);
    var y, m, d := date.year, date.month, date.day;
    IsoDateFixed(y, m, d);
    assert Pow10(2) == 100 && Pow10(4) == 10000;
    FixedDigitsValue(y, 4);
    FixedDigitsValue(m, 2);
    FixedDigitsValue(d, 2);
    ParseDashed(FixedDigits(y, 4), FixedDigits(m, 2), FixedDigits(d, 2));
  }

  /** Formatting a parsed date with a four-digit year gives the string back. */
  lemma FmtParse(s: string, n: int)
    requires ParseIsoDate(s) == Some(n) && 1000 <= FullYear(n)
    ensures Fmt(n) == s
  {
    var y, m, d := s[..4], s[5..7], s[8..];
    ParsedFields(s, n);
    GettersOfValid(Date(DigitsValue(y), DigitsValue(m), DigitsValue(d)));
    IsoDateOfDigits(y, m, d);
  }

  /** What a successful parse knows about the three fields. */
  lemma ParsedFields(s: string, n: int)
    requires ParseIsoDate(s) == Some(n)
    ensures |s| == 10 && s == Dashed(s[..4], s[5..7], s[8..])
    ensures forall i :: 0 <= i < 4 ==> IsDigit(s[..4][i])
    ensures forall i :: 0 <= i < 2 ==> IsDigit(s[5..7][i]) && IsDigit(s[8..][i])
    ensures var date := Date(DigitsValue(s[..4]), DigitsValue(s[5..7]), DigitsValue(s[8..]));
      IsValid(date) && DaysFromCivil(date) == n
  {
    DashedSplit(s);
    assert forall i :: 0 <= i < 4 ==> s[..4][i] == s[i];
    assert forall i :: 0 <= i < 2 ==> s[5..7][i] == s[5 + i] && s[8..][i] == s[8 + i];
  }

  /** Digit fields of widths 4, 2 and 2, the year without a leading zero,
      are printed back as they were. */
  lemma IsoDateOfDigits(y: string, m: string, d: string)
    requires |y| == 4 && |m| == 2 && |d| == 2
    requires forall i :: 0 <= i < |y| ==> IsDigit(y[i])
    requires forall i :: 0 <= i < |m| ==> IsDigit(m[i])
    requires forall i :: 0 <= i < |d| ==> IsDigit(d[i])
    requires 1000 <= DigitsValue(y)
    ensures IsoDate(DigitsValue(y), DigitsValue(m), DigitsValue(d)) == Dashed(y, m, d)
  {
    assert Pow10(2) == 100 && Pow10(4) == 10000;
    IsoDateFixed(DigitsValue(y), DigitsValue(m), DigitsValue(d));
    DigitsValueFixed(y);
    DigitsValueFixed(m);
    DigitsValueFixed(d);
  }

  /** `normalizeDateKey(value)` for a string value: "" for a falsy (empty)
      value, otherwise its first ten characters (`slice(0, 10)`). */
  function NormalizeDateKey(value: string): (key: string)
    ensures |key| <= 10 && |key| <= |value| && key == value[..|key|]
    ensures key == "" <==> value == ""
    ensures |value| >= 10 ==> |key| == 10
  {
    if value == "" then "" else value[..if |value| < 10 then |value| else 10]
  }

  /** A formatted date is its own date key. */
  lemma NormalizeFmt(n: int)
    requires HasFourDigitYear(n)
    ensures NormalizeDateKey(Fmt(n)) == Fmt(n)
  {
    FmtShape(n);
  }

  /** A longer timestamp keyed by its leading date. */
  lemma NormalizeTimestamp(n: int, rest: string)
    requires HasFourDigitYear(n)
    ensures NormalizeDateKey(Fmt(n) + rest) == Fmt(n)
  {
    FmtShape(n);
    assert (Fmt(n) + rest)[..10] == Fmt(n);
  }
}
