/** Naive proleptic-Gregorian civil dates, and the parts of JavaScript's `Date`
    that the calendar uses.

    A `Date` object is modelled by its day number: the count of days since
    1 January of year 0 (negative before it). Times of day, milliseconds and
    time zones are not modelled, so `getFullYear`, `getMonth`, `getDate` and
    `getDay` read the civil date of the day number, and `setDate`, `setMonth`
    and `new Date(y, m, d)` all go through `MakeDay`, which carries an
    out-of-range month or day into the neighbouring months and years. */
module Civil {

  /** A civil date; `month` is 1-based, as in `YYYY-MM-DD`. */
  datatype Date = Date(year: int, month: int, day: int)

  predicate IsLeapYear(y: int)
  {
    y % 4 == 0 && (y % 100 != 0 || y % 400 == 0)
  }

  function DaysInYear(y: int): int
  {
    if IsLeapYear(y) then 366 else 365
  }

  function DaysInMonth(y: int, m: int): (n: int)
    requires 1 <= m <= 12
    ensures 28 <= n <= 31
  {
    if m == 2 then (if IsLeapYear(y) then 29 else 28)
    else if m == 4 || m == 6 || m == 9 || m == 11 then 30
    else 31
  }

  /** A date that exists in the calendar. */
  predicate IsValid(d: Date)
  {
    1 <= d.month <= 12 && 1 <= d.day <= DaysInMonth(d.year, d.month)
  }

  /** Days from 1 January of year 0 to 1 January of year `y`. The three
      divisions count the leap years in between (rounding up). */
  function DaysBeforeYear(y: int): int
  {
    365 * y + (y + 3) / 4 - (y + 99) / 100 + (y + 399) / 400
  }

  /** Days from 1 January to the first day of month `m` in year `y`. */
  function DaysBeforeMonth(y: int, m: int): int
    requires 1 <= m <= 12
  {
    (if m == 1 then 0 else if m == 2 then 31 else if m == 3 then 59
     else if m == 4 then 90 else if m == 5 then 120 else if m == 6 then 151
     else if m == 7 then 181 else if m == 8 then 212 else if m == 9 then 243
     else if m == 10 then 273 else if m == 11 then 304 else 334)
    + (if m > 2 && IsLeapYear(y) then 1 else 0)
  }

  /** The day number of a date (days-from-civil). */
  function DaysFromCivil(d: Date): int
    requires 1 <= d.month <= 12
  {
    DaysBeforeYear(d.year) + DaysBeforeMonth(d.year, d.month) + d.day - 1
  }

  /** Consecutive years are exactly one year length apart. */
  lemma DaysBeforeNextYear(y: int)
    ensures DaysBeforeYear(y + 1) == DaysBeforeYear(y) + DaysInYear(y)
  {
    LeapCountStep4(y);
    LeapCountStep100(y);
    LeapCountStep400(y);
    MultiplesNest(y);
  }

  /** A multiple of 400 is one of 100, and a multiple of 100 one of 4. */
  lemma MultiplesNest(y: int)
    ensures y % 400 == 0 ==> y % 100 == 0
    ensures y % 100 == 0 ==> y % 4 == 0
  {
    if y % 400 == 0 {
      assert y == 400 * (y / 400);
      FourHundredsAreHundreds(y / 400);
    }
    if y % 100 == 0 {
      assert y == 100 * (y / 100);
      HundredsAreFours(y / 100);
    }
  }

  lemma FourHundredsAreHundreds(q: int)
    ensures (400 * q) % 100 == 0
  {
  }

  lemma HundredsAreFours(q: int)
    ensures (100 * q) % 4 == 0
  {
  }

  /** Each rounded-up count of multiples grows by one exactly at a multiple. */
  lemma LeapCountStep4(y: int)
    ensures (y + 4) / 4 == (y + 3) / 4 + (if y % 4 == 0 then 1 else 0)
  {
  }

  lemma LeapCountStep100(y: int)
    ensures (y + 100) / 100 == (y + 99) / 100 + (if y % 100 == 0 then 1 else 0)
  {
  }

  lemma LeapCountStep400(y: int)
    ensures (y + 400) / 400 == (y + 399) / 400 + (if y % 400 == 0 then 1 else 0)
  {
  }

  /** `DaysBeforeYear` stays within two days of 365.2425 days per year. */
  lemma DaysBeforeYearBounds(y: int)
    ensures 146097 * y - 396 <= 400 * DaysBeforeYear(y) <= 146097 * y + 699
  {
    var q4, q100, q400 := (y + 3) / 4, (y + 99) / 100, (y + 399) / 400;
    assert y <= 4 * q4 <= y + 3;
    assert y <= 100 * q100 <= y + 99;
    assert y <= 400 * q400 <= y + 399;
    assert 400 * DaysBeforeYear(y) == 146000 * y + 100 * (4 * q4) - 4 * (100 * q100) + 400 * q400;
  }

  /** A later year starts no earlier than the end of an earlier one. */
  lemma DaysBeforeYearMonotone(a: int, b: int)
    ensures a < b ==> DaysBeforeYear(a + 1) <= DaysBeforeYear(b)
  {
    if a < b {
      var k := b - a - 1;
      var c := a + 1;
      assert c <= 4 * ((c + 3) / 4) <= c + 3 && b <= 4 * ((b + 3) / 4) <= b + 3;
      assert c <= 100 * ((c + 99) / 100) <= c + 99 && b <= 100 * ((b + 99) / 100) <= b + 99;
      assert c <= 400 * ((c + 399) / 400) <= c + 399 && b <= 400 * ((b + 399) / 400) <= b + 399;
      assert (c + 3) / 4 <= (b + 3) / 4;
      assert (c + 399) / 400 <= (b + 399) / 400;
      assert (b + 99) / 100 - (c + 99) / 100 <= k;
    }
  }

  /** The year containing day number `n`. */
  function YearOf(n: int): (y: int)
    ensures DaysBeforeYear(y) <= n < DaysBeforeYear(y + 1)
  {
    var y0 := (400 * n) / 146097;
    YearEstimate(n, y0);
    if n < DaysBeforeYear(y0) then y0 - 1
    else if n < DaysBeforeYear(y0 + 1) then y0
    else y0 + 1
  }

  /** The estimate `400 n / 146097` is at most one year off. */
  lemma YearEstimate(n: int, y0: int)
    requires y0 == (400 * n) / 146097
    ensures DaysBeforeYear(y0 - 1) <= n < DaysBeforeYear(y0 + 2)
  {
    assert 146097 * y0 <= 400 * n < 146097 * y0 + 146097;
    DaysBeforeYearBounds(y0 - 1);
    DaysBeforeYearBounds(y0 + 2);
  }

  /** The month containing day `r` (0-based) of year `y`. */
  function MonthOfDayInYear(y: int, r: int): (m: int)
    requires 0 <= r < DaysInYear(y)
    ensures 1 <= m <= 12
    ensures DaysBeforeMonth(y, m) <= r < DaysBeforeMonth(y, m) + DaysInMonth(y, m)
  {
    if r < DaysBeforeMonth(y, 2) then 1
    else if r < DaysBeforeMonth(y, 3) then 2
    else if r < DaysBeforeMonth(y, 4) then 3
    else if r < DaysBeforeMonth(y, 5) then 4
    else if r < DaysBeforeMonth(y, 6) then 5
    else if r < DaysBeforeMonth(y, 7) then 6
    else if r < DaysBeforeMonth(y, 8) then 7
    else if r < DaysBeforeMonth(y, 9) then 8
    else if r < DaysBeforeMonth(y, 10) then 9
    else if r < DaysBeforeMonth(y, 11) then 10
    else if r < DaysBeforeMonth(y, 12) then 11
    else 12
  }

  /** The civil date of a day number: the one valid date with that day
      number. `CivilFromDaysExists` finds it with the civil-from-days
      algorithm, and `DaysFromCivilUnique` shows there is no other. */
  function CivilFromDays(n: int): (d: Date)
    ensures IsValid(d) && DaysFromCivil(d) == n
  {
    CivilFromDaysExists(n);
    DaysFromCivilUnique();
    var d :| IsValid(d) && DaysFromCivil(d) == n;
    d
  }

  /** civil-from-days: the year holding `n`, then the month holding the
      remaining days, then the day within that month. */
  lemma CivilFromDaysExists(n: int)
    ensures exists d :: IsValid(d) && DaysFromCivil(d) == n
  {
    var y := YearOf(n);
    DaysBeforeNextYear(y);
    var r := n - DaysBeforeYear(y);
    var m := MonthOfDayInYear(y, r);
    var d := Date(y, m, r - DaysBeforeMonth(y, m) + 1);
    assert IsValid(d) && DaysFromCivil(d) == n;
  }

  /** No two valid dates share a day number. */
  lemma DaysFromCivilUnique()
    ensures forall a: Date, b: Date :: IsValid(a) && IsValid(b) && DaysFromCivil(a) == DaysFromCivil(b) ==> a == b
  {
    forall a: Date, b: Date | IsValid(a) && IsValid(b) && DaysFromCivil(a) == DaysFromCivil(b)
      ensures a == b
    {
      DaysFromCivilInjective(a, b);
    }
  }

  /** A valid date's day number falls inside its own year. */
  lemma DaysFromCivilInYear(d: Date)
    requires IsValid(d)
    ensures DaysBeforeYear(d.year) <= DaysFromCivil(d) < DaysBeforeYear(d.year + 1)
  {
    DaysBeforeNextYear(d.year);
  }

  /** civil-from-days undoes days-from-civil on every valid date. */
  lemma CivilRoundTrip(d: Date)
    requires IsValid(d)
    ensures CivilFromDays(DaysFromCivil(d)) == d
  {
    DaysFromCivilInjective(CivilFromDays(DaysFromCivil(d)), d);
  }

  /** days-from-civil is one-to-one on valid dates. */
  lemma DaysFromCivilInjective(a: Date, b: Date)
    requires IsValid(a) && IsValid(b) && DaysFromCivil(a) == DaysFromCivil(b)
    ensures a == b
  {
    DaysFromCivilOrder(a, b);
    DaysFromCivilOrder(b, a);
  }

  /** Calendar order of dates: by year, then month, then day. */
  predicate DateBefore(a: Date, b: Date)
  {
    a.year < b.year
    || (a.year == b.year && (a.month < b.month || (a.month == b.month && a.day < b.day)))
  }

  /** Day numbers run in calendar order. */
  lemma DaysFromCivilOrder(a: Date, b: Date)
    requires IsValid(a) && IsValid(b)
    ensures DateBefore(a, b) <==> DaysFromCivil(a) < DaysFromCivil(b)
  {
    DaysFromCivilInYear(a);
    DaysFromCivilInYear(b);
    DaysBeforeYearMonotone(a.year, b.year);
    DaysBeforeYearMonotone(b.year, a.year);
  }

  // ---------------------------------------------------------------------------
  // JavaScript Date operations on day numbers

  /** `getDay()`: 0 is Sunday. Day 0, 1 January of year 0, was a Saturday. */
  function Weekday(n: int): (w: int)
    ensures 0 <= w < 7
  {
    (n + 6) % 7
  }

  /** `getFullYear()`. */
  function FullYear(n: int): int
  {
    CivilFromDays(n).year
  }

  /** `getMonth()`: 0 for January. */
  function MonthIndex(n: int): (mi: int)
    ensures 0 <= mi < 12
  {
    CivilFromDays(n).month - 1
  }

  /** `getDate()`: the day of the month. */
  function DayOfMonth(n: int): (d: int)
    ensures 1 <= d <= 31
  {
    CivilFromDays(n).day
  }

  /** `new Date(y, monthIndex, day)` (MakeDay): the month index is carried into
      the year and the day counts from the first of that month, so any
      out-of-range value rolls over into neighbouring months. */
  function MakeDay(y: int, monthIndex: int, day: int): int
  {
    DaysFromCivil(Date(y + monthIndex / 12, monthIndex % 12 + 1, 1)) + day - 1
  }

  /** `d.setDate(day)` on a copy of `n`. */
  function SetDate(n: int, day: int): int
  {
    MakeDay(FullYear(n), MonthIndex(n), day)
  }

  /** `d.setMonth(monthIndex)` on a copy of `n`, keeping the day of the month. */
  function SetMonth(n: int, monthIndex: int): int
  {
    MakeDay(FullYear(n), monthIndex, DayOfMonth(n))
  }

  /** `new Date(y, m - 1, d)` of a valid date is that date. */
  lemma MakeDayOfValid(d: Date)
    requires IsValid(d)
    ensures MakeDay(d.year, d.month - 1, d.day) == DaysFromCivil(d)
  {
    assert (d.month - 1) / 12 == 0 && (d.month - 1) % 12 == d.month - 1;
  }

  /** `setDate(getDate() + k)` moves exactly `k` days, across month and year ends. */
  lemma SetDateShift(n: int, k: int)
    ensures SetDate(n, DayOfMonth(n) + k) == n + k
  {
    var d := CivilFromDays(n);
    assert SetDate(n, DayOfMonth(n) + k) == MakeDay(d.year, d.month - 1, d.day + k);
    MakeDayShiftValid(d, k);
  }

  /** `new Date(y, m - 1, d + k)` of a valid date is `k` days after it. */
  lemma MakeDayShiftValid(d: Date, k: int)
    requires IsValid(d)
    ensures MakeDay(d.year, d.month - 1, d.day + k) == DaysFromCivil(d) + k
  {
    assert (d.month - 1) / 12 == 0 && (d.month - 1) % 12 == d.month - 1;
  }

  /** The day `Weekday(n)` days before `n` is a Sunday. */
  lemma SundayOnOrBefore(n: int)
    ensures Weekday(n - Weekday(n)) == 0
  {
  }

  /** The civil date of a day number, as the three getters read it. */
  lemma GettersOfValid(d: Date)
    requires IsValid(d)
    ensures FullYear(DaysFromCivil(d)) == d.year
    ensures MonthIndex(DaysFromCivil(d)) == d.month - 1
    ensures DayOfMonth(DaysFromCivil(d)) == d.day
  {
    CivilRoundTrip(d);
  }

  /** `start.setDate(d.getDate() - d.getDay())`: the Sunday on or before `n`. */
  function WeekStart(n: int): int
  {
    SetDate(n, DayOfMonth(n) - Weekday(n))
  }

  lemma WeekStartShift(n: int)
    ensures WeekStart(n) == n - Weekday(n)
  {
    SetDateBack(n, Weekday(n));
  }

  /** `setDate(getDate() - w)` moves back exactly `w` days. */
  lemma SetDateBack(n: int, w: int)
    ensures SetDate(n, DayOfMonth(n) - w) == n - w
  {
    SetDateShift(n, -w);
  }

  /** The week start is a Sunday at most six days before `n`. */
  lemma WeekStartSunday(n: int)
    ensures WeekStart(n) == n - Weekday(n)
    ensures Weekday(WeekStart(n)) == 0 && WeekStart(n) <= n <= WeekStart(n) + 6
  {
    WeekStartShift(n);
    SundayOnOrBefore(n);
  }

  /** `new Date(d.getFullYear(), d.getMonth(), 1)`. */
  function FirstOfMonth(n: int): int
  {
    MakeDay(FullYear(n), MonthIndex(n), 1)
  }

  /** The first of the month of `n`: same year and month, day 1, and `n`
      lies in the month that starts there. */
  lemma FirstOfMonthProps(n: int)
    ensures FullYear(FirstOfMonth(n)) == FullYear(n)
    ensures MonthIndex(FirstOfMonth(n)) == MonthIndex(n)
    ensures DayOfMonth(FirstOfMonth(n)) == 1
    ensures FirstOfMonth(n) == n - DayOfMonth(n) + 1
  {
    var d := CivilFromDays(n);
    var f := Date(d.year, d.month, 1);
    MakeDayOfValid(f);
    assert FirstOfMonth(n) == DaysFromCivil(f);
    GettersOfValid(f);
  }
}
