/** The proleptic Gregorian calendar over day numbers, standing in for the
    local-time `Date` objects of the habit engine. A day is an integer; day 0
    is 1970-01-01, a Thursday. Time of day and time zones are not modelled:
    every `Date` the engine builds or compares denotes one local calendar day. */
module Calendar {

  type Day = int

  predicate IsLeapYear(y: int) {
    y % 4 == 0 && (y % 100 != 0 || y % 400 == 0)
  }

  function YearLength(y: int): int {
    if IsLeapYear(y) then 366 else 365
  }

  /** Days in month `m` (1 = January) of year `y`. */
  function MonthLength(y: int, m: int): (r: int)
    requires 1 <= m <= 12
    ensures 28 <= r <= 31
  {
    if m == 2 then (if IsLeapYear(y) then 29 else 28)
    else if m == 4 || m == 6 || m == 9 || m == 11 then 30
    else 31
  }

  /** Days from January 1 to the first of month `m` in year `y`. */
  function DaysBeforeMonth(y: int, m: int): int
    requires 1 <= m <= 12
  {
    var common :=
      if m == 1 then 0 else if m == 2 then 31 else if m == 3 then 59
      else if m == 4 then 90 else if m == 5 then 120 else if m == 6 then 151
      else if m == 7 then 181 else if m == 8 then 212 else if m == 9 then 243
      else if m == 10 then 273 else if m == 11 then 304 else 334;
    common + (if m > 2 && IsLeapYear(y) then 1 else 0)
  }

  lemma DaysBeforeMonthStep(y: int, m: int)
    requires 1 <= m <= 12
    ensures m < 12 ==> DaysBeforeMonth(y, m + 1) == DaysBeforeMonth(y, m) + MonthLength(y, m)
    ensures m == 12 ==> DaysBeforeMonth(y, m) + MonthLength(y, m) == YearLength(y)
  {
  }

  lemma DaysBeforeMonthMonotone(y: int, m1: int, m2: int)
    requires 1 <= m1 < m2 <= 12
    ensures DaysBeforeMonth(y, m1) + MonthLength(y, m1) <= DaysBeforeMonth(y, m2)
    decreases m2 - m1
  {
    DaysBeforeMonthStep(y, m1);
    if m1 + 1 < m2 {
      DaysBeforeMonthMonotone(y, m1 + 1, m2);
    }
  }

  /** Days from 0000-01-01 to January 1 of year `y`: 365 per year plus one
      per leap year before `y` (counted with floor division, so also for
      negative years). */
  function DaysToYear(y: int): int {
    365 * y + (y + 3) / 4 - (y + 99) / 100 + (y + 399) / 400
  }

  /** Days from 0000-01-01 to 1970-01-01. */
  const EpochDays: int := 719528

  /** The day number of January 1 of year `y`. */
  function YearStart(y: int): Day {
    DaysToYear(y) - EpochDays
  }

  /** Each leap-year term of DaysToYear grows by one exactly at a multiple of its period. */
  lemma CountStep(y: int)
    ensures (y + 4) / 4 == (y + 3) / 4 + (if y % 4 == 0 then 1 else 0)
    ensures (y + 100) / 100 == (y + 99) / 100 + (if y % 100 == 0 then 1 else 0)
    ensures (y + 400) / 400 == (y + 399) / 400 + (if y % 400 == 0 then 1 else 0)
  {
    var q4, r4 := y / 4, y % 4;
    assert y == 4 * q4 + r4 && 0 <= r4 < 4;
    assert (y + 4) / 4 == q4 + 1;
    if r4 == 0 { assert (y + 3) / 4 == q4; } else { assert (y + 3) / 4 == q4 + 1; }
    var q100, r100 := y / 100, y % 100;
    assert y == 100 * q100 + r100 && 0 <= r100 < 100;
    assert (y + 100) / 100 == q100 + 1;
    if r100 == 0 { assert (y + 99) / 100 == q100; } else { assert (y + 99) / 100 == q100 + 1; }
    var q400, r400 := y / 400, y % 400;
    assert y == 400 * q400 + r400 && 0 <= r400 < 400;
    assert (y + 400) / 400 == q400 + 1;
    if r400 == 0 { assert (y + 399) / 400 == q400; } else { assert (y + 399) / 400 == q400 + 1; }
  }

  /** A multiple of 400 is a multiple of 100, and a multiple of 100 one of 4. */
  lemma LeapPeriods(y: int)
    ensures y % 400 == 0 ==> y % 100 == 0
    ensures y % 100 == 0 ==> y % 4 == 0
  {
    var q400, q100 := y / 400, y / 100;
    assert y == 400 * q400 + y % 400;
    assert y == 100 * q100 + y % 100;
    if y % 400 == 0 {
      assert y == 100 * (4 * q400) + 0;
      assert y / 100 == 4 * q400;
    }
    if y % 100 == 0 {
      assert y == 4 * (25 * q100) + 0;
      assert y / 4 == 25 * q100;
    }
  }

  lemma YearStartStep(y: int)
    ensures YearStart(y + 1) == YearStart(y) + YearLength(y)
  {
    CountStep(y);
    LeapPeriods(y);
    var a, b, c := (y + 3) / 4, (y + 99) / 100, (y + 399) / 400;
    var a', b', c' := (y + 4) / 4, (y + 100) / 100, (y + 400) / 400;
    assert DaysToYear(y) == 365 * y + a - b + c;
    assert DaysToYear(y + 1) == 365 * y + 365 + a' - b' + c';
  }

  /** 400 * DaysToYear(y) stays within a few hundred days of 146097 * y
      (146097 days make 400 Gregorian years). */
  lemma DaysToYearBounds(y: int)
    ensures 146097 * y - 396 <= 400 * DaysToYear(y) <= 146097 * y + 699
  {
  }

  lemma YearStartMonotone(y1: int, y2: int)
    requires y1 < y2
    ensures YearStart(y1 + 1) <= YearStart(y2)
  {
    if y1 + 1 < y2 {
      DaysToYearBounds(y1 + 1);
      DaysToYearBounds(y2);
    }
  }

  /** The year that day `n` falls in. */
  function YearOf(n: Day): (y: int)
    ensures YearStart(y) <= n < YearStart(y + 1)
  {
    var z := n + EpochDays;
    var y0 := (400 * z) / 146097;
    DaysToYearBounds(y0 - 1);
    DaysToYearBounds(y0);
    DaysToYearBounds(y0 + 1);
    DaysToYearBounds(y0 + 2);
    if DaysToYear(y0) > z then y0 - 1
    else if DaysToYear(y0 + 1) <= z then y0 + 1
    else y0
  }

  /** The month (1..12) holding day `doy` (0-based) of year `y`. */
  function MonthOf(y: int, doy: int): (m: int)
    requires 0 <= doy < YearLength(y)
    ensures 1 <= m <= 12
    ensures DaysBeforeMonth(y, m) <= doy < DaysBeforeMonth(y, m) + MonthLength(y, m)
  {
    if doy < DaysBeforeMonth(y, 2) then 1
    else if doy < DaysBeforeMonth(y, 3) then 2
    else if doy < DaysBeforeMonth(y, 4) then 3
    else if doy < DaysBeforeMonth(y, 5) then 4
    else if doy < DaysBeforeMonth(y, 6) then 5
    else if doy < DaysBeforeMonth(y, 7) then 6
    else if doy < DaysBeforeMonth(y, 8) then 7
    else if doy < DaysBeforeMonth(y, 9) then 8
    else if doy < DaysBeforeMonth(y, 10) then 9
    else if doy < DaysBeforeMonth(y, 11) then 10
    else if doy < DaysBeforeMonth(y, 12) then 11
    else 12
  }

  /** A calendar date: year, month 1..12, day of month. What `getFullYear()`,
      `getMonth() + 1` and `getDate()` read off a `Date`. */
  datatype Civil = Civil(year: int, month: int, day: int)

  predicate ValidCivil(c: Civil) {
    1 <= c.month <= 12 && 1 <= c.day <= MonthLength(c.year, c.month)
  }

  /** The bounds every valid date keeps, whatever its year. */
  lemma ValidCivilBounds(c: Civil)
    requires ValidCivil(c)
    ensures 1 <= c.month <= 12 && 1 <= c.day <= 31
  {
  }

  function DaysFromCivil(c: Civil): Day
    requires ValidCivil(c)
  {
    YearStart(c.year) + DaysBeforeMonth(c.year, c.month) + c.day - 1
  }

  /** The calendar date of day `n` worked out: its year, then the month
      holding its day of the year. */
  function ComputeCivil(n: Day): (c: Civil)
    ensures ValidCivil(c)
    ensures DaysFromCivil(c) == n
  {
    var y := YearOf(n);
    YearStartStep(y);
    var doy := n - YearStart(y);
    var m := MonthOf(y, doy);
    Civil(y, m, doy - DaysBeforeMonth(y, m) + 1)
  }

  /** Two valid dates with one day number are the same date. */
  lemma DaysFromCivilInjective(c1: Civil, c2: Civil)
    requires ValidCivil(c1) && ValidCivil(c2) && DaysFromCivil(c1) == DaysFromCivil(c2)
    ensures c1 == c2
  {
    if CivilBefore(c1, c2) {
      DaysFromCivilMonotone(c1, c2);
    } else if CivilBefore(c2, c1) {
      DaysFromCivilMonotone(c2, c1);
    }
  }

  lemma DatesUnique()
    ensures forall c1: Civil, c2: Civil ::
      ValidCivil(c1) && ValidCivil(c2) && DaysFromCivil(c1) == DaysFromCivil(c2) ==> c1 == c2
  {
    forall c1: Civil, c2: Civil | ValidCivil(c1) && ValidCivil(c2) && DaysFromCivil(c1) == DaysFromCivil(c2)
      ensures c1 == c2
    {
      DaysFromCivilInjective(c1, c2);
    }
  }

  /** The calendar date of day `n`: the one valid date whose day number is
      `n`; the contract is one half of the round trip. */
  function CivilFromDays(n: Day): (c: Civil)
    ensures ValidCivil(c)
    ensures 1 <= c.month <= 12 && 1 <= c.day <= 31
    ensures DaysFromCivil(c) == n
  {
    assert ValidCivil(ComputeCivil(n)) && DaysFromCivil(ComputeCivil(n)) == n;
    DatesUnique();
    var c: Civil :| ValidCivil(c) && DaysFromCivil(c) == n;
    c
  }

  /** Distinct days have distinct calendar dates. */
  lemma CivilFromDaysInjective(n1: Day, n2: Day)
    requires CivilFromDays(n1) == CivilFromDays(n2)
    ensures n1 == n2
  {
    assert n1 == DaysFromCivil(CivilFromDays(n1));
  }

  /** Calendar dates in chronological (year, month, day) order. */
  predicate CivilBefore(a: Civil, b: Civil) {
    a.year < b.year
    || (a.year == b.year && a.month < b.month)
    || (a.year == b.year && a.month == b.month && a.day < b.day)
  }

  /** A month lies within its year. */
  lemma MonthWithinYear(y: int, m: int)
    requires 1 <= m <= 12
    ensures 0 <= DaysBeforeMonth(y, m)
    ensures DaysBeforeMonth(y, m) + MonthLength(y, m) <= YearLength(y)
  {
    DaysBeforeMonthStep(y, 12);
    if m < 12 {
      DaysBeforeMonthMonotone(y, m, 12);
    }
  }

  /** A date in an earlier year has a smaller day number. */
  lemma DaysFromCivilYearsMonotone(a: Civil, b: Civil)
    requires ValidCivil(a) && ValidCivil(b) && a.year < b.year
    ensures DaysFromCivil(a) < DaysFromCivil(b)
  {
    MonthWithinYear(a.year, a.month);
    MonthWithinYear(b.year, b.month);
    YearStartStep(a.year);
    YearStartMonotone(a.year, b.year);
    var sa, sb := YearStart(a.year), YearStart(b.year);
    assert DaysFromCivil(a) < sa + YearLength(a.year) <= sb <= DaysFromCivil(b);
  }

  /** A later calendar date has a larger day number. */
  lemma DaysFromCivilMonotone(a: Civil, b: Civil)
    requires ValidCivil(a) && ValidCivil(b) && CivilBefore(a, b)
    ensures DaysFromCivil(a) < DaysFromCivil(b)
  {
    if a.year < b.year {
      DaysFromCivilYearsMonotone(a, b);
    } else if a.month < b.month {
      DaysBeforeMonthMonotone(a.year, a.month, b.month);
    }
  }

  /** The other half of the round trip: every valid date is the date of its day number. */
  lemma CivilRoundTrip(c: Civil)
    requires ValidCivil(c)
    ensures CivilFromDays(DaysFromCivil(c)) == c
  {
    DaysFromCivilInjective(CivilFromDays(DaysFromCivil(c)), c);
  }

  /** Day numbers and calendar dates are in the same order. */
  lemma CivilOrder(n1: Day, n2: Day)
    ensures n1 < n2 <==> CivilBefore(CivilFromDays(n1), CivilFromDays(n2))
  {
    var c1, c2 := CivilFromDays(n1), CivilFromDays(n2);
    if CivilBefore(c1, c2) {
      DaysFromCivilMonotone(c1, c2);
    }
    if n1 < n2 && !CivilBefore(c1, c2) {
      if c1 != c2 {
        assert CivilBefore(c2, c1);
        DaysFromCivilMonotone(c2, c1);
      }
    }
  }

  /** `getDay()`: 0 = Sunday .. 6 = Saturday. Day 0 was a Thursday. */
  function Weekday(n: Day): (w: int)
    ensures 0 <= w <= 6
  {
    (n + 4) % 7
  }

  lemma WeekdayShift(n: Day, k: int)
    ensures Weekday(n + k) == (Weekday(n) + k) % 7
  {
  }

  /** The first day of the Sunday-to-Saturday week holding `n`: what
      `setDate(getDate() - getDay())` reaches. */
  function StartOfWeek(n: Day): (s: Day)
    ensures Weekday(s) == 0
    ensures n - 6 <= s <= n
  {
    n - Weekday(n)
  }

  /** The year the `Date` constructor uses for a year argument: `new Date(y, m, d)`
      reads a year from 0 to 99 as 1900 + y. */
  function JsConstructorYear(y: int): int {
    if 0 <= y <= 99 then 1900 + y else y
  }

  /** The day denoted by `new Date(year, monthIndex, date)`: a month index
      outside 0..11 moves into neighbouring years and a date outside the
      month moves into neighbouring months, as the constructor's MakeDay
      does. */
  function MakeDay(year: int, monthIndex: int, date: int): Day {
    var y := JsConstructorYear(year) + monthIndex / 12;
    var m := monthIndex % 12 + 1;
    DaysFromCivil(Civil(y, m, 1)) + date - 1
  }

  /** Within the month it names, `new Date(year, monthIndex, date)` is exactly that date. */
  lemma MakeDayInMonth(year: int, monthIndex: int, date: int)
    requires 1 <= date <= MonthLength(JsConstructorYear(year) + monthIndex / 12, monthIndex % 12 + 1)
    ensures MakeDay(year, monthIndex, date)
         == DaysFromCivil(Civil(JsConstructorYear(year) + monthIndex / 12, monthIndex % 12 + 1, date))
    ensures CivilFromDays(MakeDay(year, monthIndex, date))
         == Civil(JsConstructorYear(year) + monthIndex / 12, monthIndex % 12 + 1, date)
  {
    var y, m := JsConstructorYear(year) + monthIndex / 12, monthIndex % 12 + 1;
    MonthDayOffset(y, m, date);
    CivilRoundTrip(Civil(y, m, date));
  }

  /** Date `date` of a month is `date - 1` days after its first. */
  lemma MonthDayOffset(y: int, m: int, date: int)
    requires ValidCivil(Civil(y, m, date))
    ensures DaysFromCivil(Civil(y, m, 1)) + date - 1 == DaysFromCivil(Civil(y, m, date))
  {
  }

  /** The day after the last of a month is the first of the next month. */
  lemma MonthEndNext(y: int, m: int)
    requires 1 <= m <= 12
    ensures m < 12 ==> DaysFromCivil(Civil(y, m, MonthLength(y, m))) + 1 == DaysFromCivil(Civil(y, m + 1, 1))
    ensures m == 12 ==> DaysFromCivil(Civil(y, m, MonthLength(y, m))) + 1 == DaysFromCivil(Civil(y + 1, 1, 1))
  {
    DaysBeforeMonthStep(y, m);
    if m == 12 {
      YearStartStep(y);
    }
  }

  /** Date 0 of the month after `monthIndex` is the last day of month `monthIndex`. */
  lemma MakeDayZero(year: int, monthIndex: int)
    ensures
      var y := JsConstructorYear(year) + monthIndex / 12;
      var m := monthIndex % 12 + 1;
      MakeDay(year, monthIndex + 1, 0) == DaysFromCivil(Civil(y, m, MonthLength(y, m)))
      && CivilFromDays(MakeDay(year, monthIndex + 1, 0)) == Civil(y, m, MonthLength(y, m))
  {
    var q, r := monthIndex / 12, monthIndex % 12;
    assert monthIndex == 12 * q + r && 0 <= r < 12;
    var y := JsConstructorYear(year) + q;
    MonthEndNext(y, r + 1);
    if r == 11 {
      assert (monthIndex + 1) / 12 == q + 1 && (monthIndex + 1) % 12 == 0;
      assert MakeDay(year, monthIndex + 1, 0) == DaysFromCivil(Civil(y + 1, 1, 1)) - 1;
    } else {
      assert (monthIndex + 1) / 12 == q && (monthIndex + 1) % 12 == r + 1;
      assert MakeDay(year, monthIndex + 1, 0) == DaysFromCivil(Civil(y, r + 2, 1)) - 1;
    }
    CivilRoundTrip(Civil(y, r + 1, MonthLength(y, r + 1)));
  }
}
