/** The calendar and streak helpers of the habit engine. "Today" is a
    parameter: where the engine reads the clock, the model takes the day
    number of the local calendar day instead. */
module Utils {
  import opened Wrappers
  import opened Seqs
  import opened JsText
  import opened Calendar
  import opened Types

  // ---------------------------------------------------------------------
  // Date keys
  // ---------------------------------------------------------------------

  /** `String(n).padStart(2, '0')`. */
  function TwoDigits(n: nat): string {
    PadStart(NatToString(n), 2, '0')
  }

  lemma TwoDigitsValue(n: nat)
    requires n < 100
    ensures |TwoDigits(n)| == 2 && AllDigits(TwoDigits(n))
    ensures DigitsValue(TwoDigits(n)) == n
  {
    var s := NatToString(n);
    NatToStringLength(n);
    var t := TwoDigits(n);
    if |s| == 1 {
      assert t == ['0'] + s;
      assert t[1..] == s;
      assert DigitsValue(t) == DigitValue('0') * Pow10(1) + DigitsValue(s);
    }
  }

  /** The key of a calendar date: the year as `String` writes it, then the
      month and the day of month, each padded to two digits, joined by dashes. */
  function DateKey(year: int, month: nat, day: nat): string {
    IntToString(year) + "-" + TwoDigits(month) + "-" + TwoDigits(day)
  }

  /** The pieces of `a-b-c` with two-character `b` and `c`, read from its end. */
  lemma JoinedParts(a: string, b: string, c: string)
    requires |b| == 2 && |c| == 2
    ensures
      var k := a + "-" + b + "-" + c;
      |k| == |a| + 6
      && k[..|k| - 6] == a
      && k[|k| - 6] == '-' && k[|k| - 3] == '-'
      && k[|k| - 5..|k| - 3] == b
      && k[|k| - 2..] == c
  {
  }

  /** Reading `k` back from its end gives the date: the last two characters
      are the day of month, the two before the second-to-last dash the
      month, and everything before that dash the year. */
  predicate ReadsAsDate(k: string, year: int, month: nat, day: nat) {
    |k| >= 7
    && k[..|k| - 6] == IntToString(year)
    && k[|k| - 6] == '-' && k[|k| - 3] == '-'
    && AllDigits(k[|k| - 5..|k| - 3]) && DigitsValue(k[|k| - 5..|k| - 3]) == month
    && AllDigits(k[|k| - 2..]) && DigitsValue(k[|k| - 2..]) == day
  }

  /** A key reads back as its date. */
  lemma DateKeyShape(year: int, month: nat, day: nat)
    requires month < 100 && day < 100
    ensures ReadsAsDate(DateKey(year, month, day), year, month, day)
  {
    TwoDigitsValue(month);
    TwoDigitsValue(day);
    assert |IntToString(year)| >= 1 by { NatToStringLength(0); }
    JoinedParts(IntToString(year), TwoDigits(month), TwoDigits(day));
  }

  lemma DateKeyInjective(y1: int, m1: nat, d1: nat, y2: int, m2: nat, d2: nat)
    requires m1 < 100 && d1 < 100 && m2 < 100 && d2 < 100
    requires DateKey(y1, m1, d1) == DateKey(y2, m2, d2)
    ensures y1 == y2 && m1 == m2 && d1 == d2
  {
    var a1, b1, c1 := IntToString(y1), TwoDigits(m1), TwoDigits(d1);
    var a2, b2, c2 := IntToString(y2), TwoDigits(m2), TwoDigits(d2);
    TwoDigitsValue(m1);
    TwoDigitsValue(d1);
    TwoDigitsValue(m2);
    TwoDigitsValue(d2);
    JoinedParts(a1, b1, c1);
    JoinedParts(a2, b2, c2);
    assert a1 == a2 && b1 == b2 && c1 == c2;
    IntToStringInjective(y1, y2);
  }

  /** The part of a key after the year: "-MM-DD". */
  function MonthDaySuffix(month: nat, day: nat): string {
    "-" + (TwoDigits(month) + ("-" + TwoDigits(day)))
  }

  lemma DateKeySplit(year: int, month: nat, day: nat)
    ensures DateKey(year, month, day) == IntToString(year) + MonthDaySuffix(month, day)
  {
  }

  /** "-MM-DD" suffixes compare as (month, day) pairs. */
  lemma MonthDaySuffixOrder(m1: nat, d1: nat, m2: nat, d2: nat)
    requires m1 < 100 && d1 < 100 && m2 < 100 && d2 < 100
    ensures LexLess(MonthDaySuffix(m1, d1), MonthDaySuffix(m2, d2)) <==>
      m1 < m2 || (m1 == m2 && d1 < d2)
  {
    TwoDigitsValue(m1);
    TwoDigitsValue(m2);
    TwoDigitsValue(d1);
    TwoDigitsValue(d2);
    var b1, b2 := TwoDigits(m1), TwoDigits(m2);
    var e1, e2 := TwoDigits(d1), TwoDigits(d2);
    LexLessDigits(b1, b2);
    LexLessDigits(e1, e2);
    LexLessIrreflexive("-");
    LexLessConcat("-", b1 + ("-" + e1), "-", b2 + ("-" + e2));
    LexLessConcat(b1, "-" + e1, b2, "-" + e2);
    LexLessConcat("-", e1, "-", e2);
    assert b1 == b2 <==> m1 == m2;
  }

  /** For years 1000..9999 the string order of keys is the chronological
      order of the dates. */
  lemma DateKeyOrder(y1: int, m1: nat, d1: nat, y2: int, m2: nat, d2: nat)
    requires 1000 <= y1 <= 9999 && 1000 <= y2 <= 9999
    requires m1 < 100 && d1 < 100 && m2 < 100 && d2 < 100
    ensures LexLess(DateKey(y1, m1, d1), DateKey(y2, m2, d2)) <==>
      y1 < y2 || (y1 == y2 && m1 < m2) || (y1 == y2 && m1 == m2 && d1 < d2)
  {
    NatToStringLength(y1);
    NatToStringLength(y2);
    var a1, a2 := NatToString(y1), NatToString(y2);
    DateKeySplit(y1, m1, d1);
    DateKeySplit(y2, m2, d2);
    LexLessDigits(a1, a2);
    LexLessConcat(a1, MonthDaySuffix(m1, d1), a2, MonthDaySuffix(m2, d2));
    MonthDaySuffixOrder(m1, d1, m2, d2);
    assert a1 == a2 <==> y1 == y2;
  }

  /** `formatDateKey`: the key of the calendar date of day `d`, whose month
      is `getMonth() + 1`, i.e. 1..12. */
  function FormatDateKey(d: Day): string {
    var c := CivilFromDays(d);
    DateKey(c.year, c.month, c.day)
  }

  /** A year from 1000 to 9999 gives a key of exactly ten characters, YYYY-MM-DD. */
  lemma FormatDateKeyLength(d: Day)
    requires 1000 <= CivilFromDays(d).year <= 9999
    ensures |FormatDateKey(d)| == 10
  {
    var c := CivilFromDays(d);
    NatToStringLength(c.year);
    DateKeyShape(c.year, c.month, c.day);
  }

  /** A key reads back into the calendar date of its day: the year before
      the second-to-last dash, then the month and the day of month as two
      digits each. */
  lemma FormatDateKeyShape(d: Day)
    ensures var c := CivilFromDays(d); ReadsAsDate(FormatDateKey(d), c.year, c.month, c.day)
  {
    var c := CivilFromDays(d);
    assert FormatDateKey(d) == DateKey(c.year, c.month, c.day);
    DateKeyShape(c.year, c.month, c.day);
  }

  /** Distinct days have distinct keys. */
  lemma FormatDateKeyInjective(d1: Day, d2: Day)
    requires FormatDateKey(d1) == FormatDateKey(d2)
    ensures d1 == d2
  {
    var c1, c2 := CivilFromDays(d1), CivilFromDays(d2);
    DateKeyInjective(c1.year, c1.month, c1.day, c2.year, c2.month, c2.day);
    CivilFromDaysInjective(d1, d2);
  }

  /** For years 1000..9999 the string order of keys is the order of days:
      this is what lets a key be compared with `>=` against a week's start. */
  lemma FormatDateKeyOrder(d1: Day, d2: Day)
    requires 1000 <= CivilFromDays(d1).year <= 9999 && 1000 <= CivilFromDays(d2).year <= 9999
    ensures LexLess(FormatDateKey(d1), FormatDateKey(d2)) <==> d1 < d2
  {
    var c1, c2 := CivilFromDays(d1), CivilFromDays(d2);
    DateKeyOrder(c1.year, c1.month, c1.day, c2.year, c2.month, c2.day);
    CivilOrder(d1, d2);
  }

  /** The key function as a whole is injective. */
  lemma FormatDateKeyIsInjective()
    ensures Injective(FormatDateKey)
  {
    forall a: Day, b: Day | FormatDateKey(a) == FormatDateKey(b) ensures a == b {
      FormatDateKeyInjective(a, b);
    }
  }

  // ---------------------------------------------------------------------
  // Completion and streak
  // ---------------------------------------------------------------------

  /** `isHabitCompleted`: the key occurs somewhere in `completedDates`. */
  predicate IsHabitCompleted(h: Habit, dateKey: string)
    ensures IsHabitCompleted(h, dateKey) <==>
      exists i :: 0 <= i < |h.completedDates| && h.completedDates[i] == dateKey
  {
    dateKey in h.completedDates
  }

  /** A labelling of days that never gives two days one label. */
  ghost predicate Injective(key: Day -> string) {
    forall a: Day, b: Day :: key(a) == key(b) ==> a == b
  }

  /** The number of consecutive days, going back from `d`, whose labels are
      in `dates`; at most `bound` days are looked at. */
  function RunLength(key: Day -> string, dates: seq<string>, d: Day, bound: nat): (n: nat)
    ensures n <= bound
    decreases bound
  {
    if bound == 0 || key(d) !in dates then 0
    else 1 + RunLength(key, dates, d - 1, bound - 1)
  }

  /** The labels of the `n` days ending with day `d`. */
  function DayKeys(key: Day -> string, d: Day, n: nat): set<string> {
    if n == 0 then {} else DayKeys(key, d, n - 1) + {key(d - (n - 1))}
  }

  lemma {:induction false} DayKeysMissing(key: Day -> string, d: Day, n: nat, m: int)
    requires Injective(key) && m >= n
    ensures key(d - m) !in DayKeys(key, d, n)
  {
    if n > 0 {
      DayKeysMissing(key, d, n - 1, m);
    }
  }

  /** The labels of `n` consecutive days are `n` distinct strings. */
  lemma {:induction false} DayKeysCard(key: Day -> string, d: Day, n: nat)
    requires Injective(key)
    ensures |DayKeys(key, d, n)| == n
  {
    if n > 0 {
      DayKeysCard(key, d, n - 1);
      DayKeysMissing(key, d, n - 1, n - 1);
    }
  }

  lemma {:induction false} DayKeysHas(key: Day -> string, d: Day, n: nat, k: int)
    requires 0 <= k < n
    ensures key(d - k) in DayKeys(key, d, n)
  {
    if k < n - 1 {
      DayKeysHas(key, d, n - 1, k);
    }
  }

  /** The labels of the days ending at `d` are those ending at `d - 1`, and `d`'s own. */
  lemma {:induction false} DayKeysShift(key: Day -> string, d: Day, n: nat)
    requires n > 0
    ensures DayKeys(key, d, n) == DayKeys(key, d - 1, n - 1) + {key(d)}
  {
    if n > 1 {
      DayKeysShift(key, d, n - 1);
      assert d - (n - 1) == (d - 1) - (n - 2);
    }
  }

  /** A run's labels are all in `dates`, and when it stopped before its
      bound the label of the day before it is missing. */
  lemma {:induction false} RunLengthSpec(key: Day -> string, dates: seq<string>, d: Day, bound: nat)
    ensures DayKeys(key, d, RunLength(key, dates, d, bound)) <= Elements(dates)
    ensures RunLength(key, dates, d, bound) < bound ==> key(d - RunLength(key, dates, d, bound)) !in dates
    decreases bound
  {
    var n := RunLength(key, dates, d, bound);
    if n > 0 {
      RunLengthSpec(key, dates, d - 1, bound - 1);
      DayKeysShift(key, d, n);
    }
  }

  lemma SubsetCard<T>(a: set<T>, b: set<T>)
    requires a <= b
    ensures |a| <= |b|
  {
    assert b == a + (b - a);
  }

  /** With `|dates|` as the bound, the run back from `s` is maximal: all its
      `n` labels are in `dates`, the label before it is not, and `n` is at
      most the number of distinct entries of `dates`. */
  lemma RunMaximal(key: Day -> string, dates: seq<string>, s: Day)
    requires Injective(key)
    ensures
      var n := RunLength(key, dates, s, |dates|);
      (key(s) in dates ==> n >= 1)
      && (forall j :: s - n < j <= s ==> key(j) in dates)
      && key(s - n) !in dates
      && n <= |Elements(dates)|
  {
    var n := RunLength(key, dates, s, |dates|);
    RunLengthSpec(key, dates, s, |dates|);
    forall j | s - n < j <= s ensures key(j) in dates {
      DayKeysHas(key, s, n, s - j);
    }
    DayKeysCard(key, s, n);
    SubsetCard(DayKeys(key, s, n), Elements(dates));
    ElementsCard(dates);
    if n == |dates| && key(s - n) in dates {
      DayKeysMissing(key, s, n, n);
      var more := DayKeys(key, s, n) + {key(s - n)};
      assert |more| == n + 1;
      SubsetCard(more, Elements(dates));
    }
  }

  /** The day a streak is counted back from: today when today is completed,
      otherwise yesterday when yesterday is (the one-day grace), otherwise none. */
  function StreakStart(key: Day -> string, dates: seq<string>, today: Day): Option<Day> {
    if key(today) in dates then Some(today)
    else if key(today - 1) in dates then Some(today - 1)
    else None
  }

  /** The streak of a habit with completed labels `dates` on day `today`:
      0 exactly when neither today nor yesterday is completed, and never
      more than the number of completed entries. */
  function StreakBy(key: Day -> string, dates: seq<string>, today: Day): (r: nat)
    ensures r == 0 <==> key(today) !in dates && key(today - 1) !in dates
    ensures r <= |dates|
  {
    match StreakStart(key, dates, today)
    case None => 0
    case Some(s) => RunLength(key, dates, s, |dates|)
  }

  /** The streak of a habit with completed date keys `dates` on day `today`. */
  function Streak(dates: seq<string>, today: Day): nat {
    StreakBy(FormatDateKey, dates, today)
  }

  /** Without today's and yesterday's keys there is no streak. */
  lemma StreakZero(dates: seq<string>, today: Day)
    ensures Streak(dates, today) == 0 <==>
      FormatDateKey(today) !in dates && FormatDateKey(today - 1) !in dates
  {
    FormatDateKeyIsInjective();
    RunMaximal(FormatDateKey, dates, today);
    RunMaximal(FormatDateKey, dates, today - 1);
  }

  /** When today or yesterday is completed, the streak is the maximal run
      of completed days ending today, or ending yesterday when today is not
      completed: all `n` labels going back from its start are completed,
      the label before them is not, and `n >= 1`. This holds for every
      injective labelling, `FormatDateKey` among them. */
  lemma StreakByMaximalRun(key: Day -> string, dates: seq<string>, today: Day)
    requires Injective(key)
    ensures
      var n := StreakBy(key, dates, today);
      var s := if key(today) in dates then today else today - 1;
      key(s) in dates ==>
        n >= 1
        && (forall j :: s - n < j <= s ==> key(j) in dates)
        && key(s - n) !in dates
  {
    var s := if key(today) in dates then today else today - 1;
    RunMaximal(key, dates, s);
  }

  /** The streak never exceeds the number of distinct completed keys. */
  lemma StreakBound(dates: seq<string>, today: Day)
    ensures Streak(dates, today) <= |Elements(dates)|
  {
    FormatDateKeyIsInjective();
    RunMaximal(FormatDateKey, dates, today);
    RunMaximal(FormatDateKey, dates, today - 1);
  }

  /** The body of `calculateStreak` for any injective labelling `key` of
      days: count back from today (or from yesterday, when today is not yet
      completed) while the day's label is completed. */
  method CountStreak(key: Day -> string, dates: seq<string>, today: Day) returns (streak: nat)
    requires Injective(key)
    ensures streak == StreakBy(key, dates, today)
  {
    streak := 0;
    var currentCheck := today;
    if key(currentCheck) !in dates {
      currentCheck := currentCheck - 1;
      if key(currentCheck) !in dates {
        return 0;
      }
    }
    ghost var start := currentCheck;
    assert StreakStart(key, dates, today) == Some(start);
    while true
      invariant currentCheck == start - streak
      invariant DayKeys(key, start, streak) <= Elements(dates)
      invariant streak <= |dates|
      invariant forall x :: start - streak < x <= start ==> key(x) in dates
      decreases |dates| - streak
    {
      if key(currentCheck) in dates {
        RunRoom(key, dates, start, streak);
        streak := streak + 1;
        currentCheck := currentCheck - 1;
      } else {
        break;
      }
    }
    RunLengthExact(key, dates, start, |dates|, streak);
  }

  /** A run of exactly `n` labelled days back from `d`, followed by an
      unlabelled one, has length `n`. */
  lemma {:induction false} RunLengthExact(key: Day -> string, dates: seq<string>, d: Day, bound: nat, n: nat)
    requires n <= bound
    requires forall x :: d - n < x <= d ==> key(x) in dates
    requires key(d - n) !in dates
    ensures RunLength(key, dates, d, bound) == n
    decreases n
  {
    if n > 0 {
      assert key(d) in dates;
      RunLengthExact(key, dates, d - 1, bound - 1, n - 1);
    }
  }

  /** One more labelled day fits: `n + 1` distinct labels all in `dates`
      means `dates` has at least `n + 1` entries. */
  lemma RunRoom(key: Day -> string, dates: seq<string>, start: Day, n: nat)
    requires Injective(key)
    requires DayKeys(key, start, n) <= Elements(dates) && key(start - n) in dates
    ensures DayKeys(key, start, n + 1) <= Elements(dates)
    ensures n + 1 <= |dates|
  {
    DayKeysStep(key, start, n);
    DayKeysCard(key, start, n + 1);
    SubsetCard(DayKeys(key, start, n + 1), Elements(dates));
    ElementsCard(dates);
  }

  /** `calculateStreak(habit)` on day `today`, with the date keys of `formatDateKey`. */
  method CalculateStreak(h: Habit, today: Day) returns (streak: nat)
    ensures streak == Streak(h.completedDates, today)
  {
    FormatDateKeyIsInjective();
    streak := CountStreak(FormatDateKey, h.completedDates, today);
  }

  /** Extending the days back from `d` by one more adds that day's label. */
  lemma DayKeysStep(key: Day -> string, d: Day, n: nat)
    ensures DayKeys(key, d, n + 1) == DayKeys(key, d, n) + {key(d - n)}
  {
  }

  // ---------------------------------------------------------------------
  // Due dates and levels
  // ---------------------------------------------------------------------

  /** `isHabitDueOnDate`: daily and weekly habits are due every day; a
      custom habit on the weekdays listed in `customDays`. */
  predicate IsHabitDueOnDate(h: Habit, d: Day)
    ensures IsHabitDueOnDate(h, d) <==>
      h.frequency != Custom || exists i :: 0 <= i < |h.customDays| && h.customDays[i] == Weekday(d)
  {
    match h.frequency
    case Daily => true
    case Custom => Weekday(d) in h.customDays
    case Weekly => true
  }

  /** `calculateUserLevel`: level r covers the ten completion counts
      10(r - 1) .. 10r - 1, starting at level 1. */
  function CalculateUserLevel(totalCompletions: nat): (r: int)
    ensures r >= 1
    ensures 10 * (r - 1) <= totalCompletions < 10 * r
  {
    totalCompletions / 10 + 1
  }

  lemma UserLevelMonotone(a: nat, b: nat)
    requires a <= b
    ensures CalculateUserLevel(a) <= CalculateUserLevel(b)
  {
  }

  /** Ten more completions give exactly one more level. */
  lemma UserLevelStep(n: nat)
    ensures CalculateUserLevel(n + 10) == CalculateUserLevel(n) + 1
  {
  }

  // ---------------------------------------------------------------------
  // Month helpers
  // ---------------------------------------------------------------------

  /** `getDaysInMonth(year, month)`: the length of month index `month`
      (0 = January) of `year`, read as the date of day 0 of the next month. */
  function GetDaysInMonth(year: int, month: int): (r: int)
    ensures r == MonthLength(JsConstructorYear(year) + month / 12, month % 12 + 1)
    ensures 28 <= r <= 31
  {
    MakeDayZero(year, month);
    CivilFromDays(MakeDay(year, month + 1, 0)).day
  }

  /** February has 29 days exactly in Gregorian leap years. */
  lemma DaysInFebruary(year: int)
    requires year < 0 || year > 99
    ensures GetDaysInMonth(year, 1) == 29 <==> IsLeapYear(year)
    ensures GetDaysInMonth(year, 1) == 28 <==> !IsLeapYear(year)
  {
    assert JsConstructorYear(year) + 1 / 12 == year && 1 % 12 + 1 == 2;
    assert GetDaysInMonth(year, 1) == MonthLength(year, 2);
  }

  /** `getFirstDayOfMonth(year, month)`: the weekday of the first of the month. */
  function GetFirstDayOfMonth(year: int, month: int): (w: int)
    ensures 0 <= w <= 6
    ensures w == Weekday(DaysFromCivil(Civil(JsConstructorYear(year) + month / 12, month % 12 + 1, 1)))
  {
    Weekday(MakeDay(year, month, 1))
  }

  /** Date `i` of a month sits in the grid column `(firstDay + i - 1) % 7`. */
  lemma MonthDayWeekday(year: int, month: int, i: int)
    ensures Weekday(MakeDay(year, month, i)) == (GetFirstDayOfMonth(year, month) + i - 1) % 7
  {
    WeekdayShift(MakeDay(year, month, 1), i - 1);
  }

  /** The layout both month screens build: `firstDay` empty cells, one for
      each weekday before the first, then a cell per date. */
  function MonthGrid<T>(firstDay: nat, cells: seq<T>): (g: seq<Option<T>>)
    ensures |g| == firstDay + |cells|
    ensures forall k :: 0 <= k < firstDay ==> g[k].None?
    ensures forall k :: firstDay <= k < |g| ==> g[k] == Some(cells[k - firstDay])
  {
    seq(firstDay, _ => None) + seq(|cells|, i requires 0 <= i < |cells| => Some(cells[i]))
  }

  /** The month of `today` as the screens read it: `getFullYear()` and
      `getMonth()`, the month index counted from 0. */
  function YearAndMonthIndex(today: Day): (int, int) {
    var c := CivilFromDays(today);
    (c.year, c.month - 1)
  }
}
