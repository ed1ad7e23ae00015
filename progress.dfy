/** The figures of the Progress screen: the completion chart over a time
    range, the heatmap of the current month, the ranked weekly statistics of
    each habit, the breakdown of a selected day and the achievements. All of
    them are computed over the non-archived habits of the selected category,
    except the achievements, which count every habit. */
module ProgressView {
  import opened Wrappers
  import opened Seqs
  import JsText
  import opened JsMath
  import opened Calendar
  import opened Types
  import opened Utils
  import opened Sorting
  import opened HabitQueries

  /** The habits the screen works on: not archived, and in the selected
      category unless that is "All". */
  function ActiveHabits(hs: seq<Habit>, selectedCategory: string): (r: seq<Habit>)
    ensures forall h :: h in r <==>
      h in hs && !IsArchived(h) && (selectedCategory == "All" || CategoryOrOther(h) == selectedCategory)
    ensures IsSubsequence(r, hs)
  {
    var filtered := NonArchived(hs);
    if selectedCategory != "All" then
      var r := InCategory(filtered, selectedCategory);
      IsSubsequenceTransitive(r, filtered, hs);
      r
    else filtered
  }

  // ---------------------------------------------------------------------
  // The completion chart
  // ---------------------------------------------------------------------

  datatype TimeRange = Range7d | Range30d | Range60d | Range90d

  function DaysToLookBack(r: TimeRange): (n: nat)
    ensures n == 7 || n == 30 || n == 60 || n == 90
    ensures n > 30 <==> r == Range60d || r == Range90d
  {
    match r
    case Range7d => 7
    case Range30d => 30
    case Range60d => 60
    case Range90d => 90
  }

  /** One bar of the daily chart: the habits completed on `fullDate`. */
  datatype DayBar = DayBar(completed: nat, fullDate: Day)

  /** One bar of the weekly chart: the check-ins of the seven days from
      `fullDate`, labelled "day/month" of that first day. */
  datatype WeekBar = WeekBar(labelText: string, completed: nat, fullDate: Day)

  datatype ChartData = DailyChart(days: seq<DayBar>) | WeeklyChart(weeks: seq<WeekBar>)

  /** The daily chart of the last `n` days, oldest first: bar `i` is day
      `today - (n - 1 - i)` and counts the active habits completed on it. */
  function DailyBars(dateKey: Day -> string, active: seq<Habit>, today: Day, n: nat): (r: seq<DayBar>)
    ensures |r| == n
    ensures n > 0 ==> r[n - 1].fullDate == today
    ensures forall i :: 0 <= i < n ==> r[i].fullDate == today - (n - 1 - i)
    ensures forall i :: 0 <= i < n ==> r[i].completed == CompletedOn(active, dateKey(r[i].fullDate))
    ensures forall i :: 0 <= i < n ==> r[i].completed <= |active|
    ensures forall i :: 0 <= i < n - 1 ==> r[i + 1].fullDate == r[i].fullDate + 1
  {
    var r := seq(n, i requires 0 <= i < n =>
      var d := today - (n - 1 - i);
      DayBar(CompletedOn(active, dateKey(d)), d));
    assert forall i :: 0 <= i < n ==> r[i].completed <= |active| by {
      forall i | 0 <= i < n ensures r[i].completed <= |active| {
        assert r[i].completed == CompletedOn(active, dateKey(r[i].fullDate));
      }
    }
    r
  }

  /** `Math.ceil(n / 7)`. */
  function NumWeeks(n: nat): (w: nat)
    ensures n == 0 ==> w == 0
    ensures n > 0 ==> 7 * (w - 1) < n <= 7 * w
  {
    (n + 6) / 7
  }

  /** The check-ins of the active habits on the `k` days from `start`. */
  function WeekTotal(dateKey: Day -> string, active: seq<Habit>, start: Day, k: nat): nat {
    if k == 0 then 0 else WeekTotal(dateKey, active, start, k - 1) + CompletedOn(active, dateKey(start + (k - 1)))
  }

  /** Each of the `k` days adds at most one check-in per active habit. */
  lemma {:induction false} WeekTotalBound(dateKey: Day -> string, active: seq<Habit>, start: Day, k: nat)
    ensures WeekTotal(dateKey, active, start, k) <= k * |active|
  {
    if k > 0 {
      WeekTotalBound(dateKey, active, start, k - 1);
      JsText.MulSucc(k - 1, |active|);
    }
  }

  /** `${getDate()}/${getMonth() + 1}` of the week's first day. */
  function WeekLabel(start: Day): string {
    var c := CivilFromDays(start);
    JsText.IntToString(c.day) + "/" + JsText.IntToString(c.month)
  }

  /** The bar of the week that starts on `start`: its label and the
      check-ins of its seven days. */
  function WeekBarAt(dateKey: Day -> string, dayMonth: Day -> string, active: seq<Habit>, start: Day): WeekBar {
    WeekBar(dayMonth(start), WeekTotal(dateKey, active, start, 7), start)
  }

  /** The weekly chart of the last `n` days: `ceil(n / 7)` weeks, oldest
      first, the last one ending today. */
  function WeeklyBuckets(dateKey: Day -> string, dayMonth: Day -> string, active: seq<Habit>, today: Day, n: nat): seq<WeekBar> {
    var w := NumWeeks(n);
    seq(w, j requires 0 <= j < w => WeekBarAt(dateKey, dayMonth, active, today - 7 * (w - 1 - j) - 6))
  }

  /** The weeks are consecutive, the last one ends today, together they
      cover at least the `n` days asked for; each bar is labelled by its
      first day and counts the check-ins of its seven days, at most seven
      per active habit. */
  lemma WeeklyBucketsShape(dateKey: Day -> string, dayMonth: Day -> string, active: seq<Habit>, today: Day, n: nat)
    ensures var r := WeeklyBuckets(dateKey, dayMonth, active, today, n);
      |r| == NumWeeks(n)
      && (|r| > 0 ==> r[|r| - 1].fullDate + 6 == today && r[0].fullDate <= today - n + 1)
      && (forall j :: 0 <= j < |r| - 1 ==> r[j + 1].fullDate == r[j].fullDate + 7)
      && (forall j :: 0 <= j < |r| ==> r[j].completed <= 7 * |active|)
      && (forall j :: 0 <= j < |r| ==>
            r[j].labelText == dayMonth(r[j].fullDate) && r[j].completed == WeekTotal(dateKey, active, r[j].fullDate, 7))
  {
    var r := WeeklyBuckets(dateKey, dayMonth, active, today, n);
    var w := NumWeeks(n);
    assert |r| == w;
    forall j | 0 <= j < w
      ensures r[j].fullDate == today - 7 * (w - 1 - j) - 6
      ensures r[j].completed <= 7 * |active|
      ensures r[j].labelText == dayMonth(r[j].fullDate) && r[j].completed == WeekTotal(dateKey, active, r[j].fullDate, 7)
    {
      assert r[j] == WeekBarAt(dateKey, dayMonth, active, today - 7 * (w - 1 - j) - 6);
      WeekTotalBound(dateKey, active, r[j].fullDate, 7);
    }
  }

  /** The weekly branch of the chart: walk back one week at a time from
      today, sum each week's seven days, and put the week in front. */
  method WeeklyBars(dateKey: Day -> string, dayMonth: Day -> string, active: seq<Habit>, today: Day, daysToLookBack: nat)
    returns (weeks: seq<WeekBar>)
    ensures weeks == WeeklyBuckets(dateKey, dayMonth, active, today, daysToLookBack)
  {
    weeks := [];
    var currentEnd := today;
    var numWeeks := NumWeeks(daysToLookBack);
    for i := 0 to numWeeks
      invariant |weeks| == i
      invariant currentEnd == today - 7 * i
      invariant forall j :: 0 <= j < i ==> weeks[j] == WeekBarAt(dateKey, dayMonth, active, today - 7 * (i - 1 - j) - 6)
    {
      var weekStart := currentEnd - 6;
      var weeklyTotal := 0;
      for d := 0 to 7
        invariant weeklyTotal == WeekTotal(dateKey, active, weekStart, d)
      {
        var key := dateKey(weekStart + d);
        var dailyCount := CompletedOn(active, key);
        weeklyTotal := weeklyTotal + dailyCount;
      }
      weeks := [WeekBar(dayMonth(weekStart), weeklyTotal, weekStart)] + weeks;
      currentEnd := currentEnd - 7;
    }
  }

  /** The chart for a time range: a bar per day up to 30 days, a bar per
      week beyond. */
  method ComputeChartData(active: seq<Habit>, today: Day, range: TimeRange) returns (chart: ChartData)
    ensures range == Range60d || range == Range90d ==>
      chart == WeeklyChart(WeeklyBuckets(FormatDateKey, WeekLabel, active, today, DaysToLookBack(range)))
    ensures range == Range7d || range == Range30d ==>
      chart == DailyChart(DailyBars(FormatDateKey, active, today, DaysToLookBack(range)))
  {
    var daysToLookBack := DaysToLookBack(range);
    if daysToLookBack > 30 {
      var weeks := WeeklyBars(FormatDateKey, WeekLabel, active, today, daysToLookBack);
      chart := WeeklyChart(weeks);
    } else {
      chart := DailyChart(DailyBars(FormatDateKey, active, today, daysToLookBack));
    }
  }

  // ---------------------------------------------------------------------
  // The month heatmap
  // ---------------------------------------------------------------------

  /** A heatmap cell: date `date` of the month, the share of active habits
      completed on it and their number. */
  datatype HeatCell = HeatCell(date: int, intensity: real, count: nat, fullDate: Day)

  /** `totalActive > 0 ? completedCount / totalActive : 0`. */
  function Intensity(count: nat, totalActive: nat): (r: real)
    ensures totalActive == 0 ==> r == 0.0
    ensures totalActive > 0 ==> r * totalActive as real == count as real
    ensures count <= totalActive ==> 0.0 <= r <= 1.0
  {
    if totalActive > 0 then count as real / totalActive as real else 0.0
  }

  function HeatCellFor(dateKey: Day -> string, active: seq<Habit>, year: int, month: int, i: int): HeatCell {
    var d := MakeDay(year, month, i);
    var count := CompletedOn(active, dateKey(d));
    HeatCell(i, Intensity(count, |active|), count, d)
  }

  /** The heatmap of month index `month` of `year`: an empty cell for each
      weekday before the first, then one cell per date. */
  function HeatmapGrid(dateKey: Day -> string, active: seq<Habit>, year: int, month: int): seq<Option<HeatCell>> {
    MonthGrid(GetFirstDayOfMonth(year, month), MonthHeatCells(dateKey, active, year, month))
  }

  /** The cells of the dates of the month, first to last. */
  function MonthHeatCells(dateKey: Day -> string, active: seq<Habit>, year: int, month: int): (r: seq<HeatCell>)
    ensures |r| == GetDaysInMonth(year, month)
    ensures forall i :: 0 <= i < |r| ==> r[i] == HeatCellFor(dateKey, active, year, month, i + 1)
  {
    seq(GetDaysInMonth(year, month), i => HeatCellFor(dateKey, active, year, month, i + 1))
  }

  /** Cell `k` past the leading empty cells is the cell of date `k - firstDay + 1`. */
  lemma HeatmapCellAt(dateKey: Day -> string, active: seq<Habit>, year: int, month: int, k: int)
    requires GetFirstDayOfMonth(year, month) <= k < |HeatmapGrid(dateKey, active, year, month)|
    ensures HeatmapGrid(dateKey, active, year, month)[k]
         == Some(HeatCellFor(dateKey, active, year, month, k - GetFirstDayOfMonth(year, month) + 1))
  {
  }

  /** A date cell counts at most the active habits, and its intensity is a share. */
  lemma HeatCellBounds(dateKey: Day -> string, active: seq<Habit>, year: int, month: int, i: int)
    ensures var c := HeatCellFor(dateKey, active, year, month, i);
      c.date == i && c.fullDate == MakeDay(year, month, i)
      && c.count <= |active|
      && 0.0 <= c.intensity <= 1.0 && (|active| == 0 ==> c.intensity == 0.0)
      && c.count == CompletedOn(active, dateKey(c.fullDate))
      && c.intensity == Intensity(c.count, |active|)
  {
  }

  /** The grid starts with `firstDay` empty cells; then cell `k` is date
      `k - firstDay + 1`, with an intensity in [0, 1] that is 0 when no
      habit is active. */
  lemma HeatmapShape(dateKey: Day -> string, active: seq<Habit>, year: int, month: int)
    ensures
      var grid := HeatmapGrid(dateKey, active, year, month);
      var firstDay := GetFirstDayOfMonth(year, month);
      |grid| == firstDay + GetDaysInMonth(year, month)
      && (forall k :: 0 <= k < firstDay ==> grid[k].None?)
      && forall k :: firstDay <= k < |grid| ==>
           grid[k].Some?
           && grid[k].value.date == k - firstDay + 1
           && grid[k].value.fullDate == MakeDay(year, month, k - firstDay + 1)
           && grid[k].value.count == CompletedOn(active, dateKey(grid[k].value.fullDate))
           && grid[k].value.count <= |active|
           && 0.0 <= grid[k].value.intensity <= 1.0
           && (|active| == 0 ==> grid[k].value.intensity == 0.0)
           && grid[k].value.intensity == Intensity(grid[k].value.count, |active|)
  {
    var grid := HeatmapGrid(dateKey, active, year, month);
    var firstDay := GetFirstDayOfMonth(year, month);
    forall k | firstDay <= k < |grid|
      ensures grid[k].Some?
           && grid[k].value.date == k - firstDay + 1
           && grid[k].value.fullDate == MakeDay(year, month, k - firstDay + 1)
           && grid[k].value.count == CompletedOn(active, dateKey(grid[k].value.fullDate))
           && grid[k].value.count <= |active|
           && 0.0 <= grid[k].value.intensity <= 1.0
           && (|active| == 0 ==> grid[k].value.intensity == 0.0)
           && grid[k].value.intensity == Intensity(grid[k].value.count, |active|)
    {
      HeatmapCellAt(dateKey, active, year, month, k);
      HeatCellBounds(dateKey, active, year, month, k - firstDay + 1);
    }
  }

  /** Every date cell of the heatmap sits in the column of its weekday. */
  lemma HeatmapColumns(dateKey: Day -> string, active: seq<Habit>, year: int, month: int)
    ensures
      var grid := HeatmapGrid(dateKey, active, year, month);
      forall k :: GetFirstDayOfMonth(year, month) <= k < |grid| ==>
        grid[k].Some? && Weekday(grid[k].value.fullDate) == k % 7
  {
    var grid := HeatmapGrid(dateKey, active, year, month);
    var firstDay := GetFirstDayOfMonth(year, month);
    forall k | firstDay <= k < |grid|
      ensures grid[k].Some? && Weekday(grid[k].value.fullDate) == k % 7
    {
      HeatmapCellAt(dateKey, active, year, month, k);
      assert grid[k].value.fullDate == MakeDay(year, month, k - firstDay + 1);
      MonthDayWeekday(year, month, k - firstDay + 1);
    }
  }

  /** The heatmap loops: push the leading empty cells, then a cell per date. */
  method HeatmapCells(dateKey: Day -> string, active: seq<Habit>, year: int, month: int)
    returns (grid: seq<Option<HeatCell>>)
    ensures grid == HeatmapGrid(dateKey, active, year, month)
  {
    var daysInMonth := GetDaysInMonth(year, month);
    var firstDay := GetFirstDayOfMonth(year, month);
    grid := [];
    for i := 0 to firstDay
      invariant |grid| == i
      invariant forall k :: 0 <= k < i ==> grid[k] == None
    {
      grid := grid + [None];
    }
    for i := 1 to daysInMonth + 1
      invariant |grid| == firstDay + i - 1
      invariant forall k :: 0 <= k < firstDay ==> grid[k] == None
      invariant forall k :: firstDay <= k < |grid| ==> grid[k] == Some(HeatCellFor(dateKey, active, year, month, k - firstDay + 1))
    {
      var d := MakeDay(year, month, i);
      var completedCount := CompletedOn(active, dateKey(d));
      var totalActive := |active|;
      grid := grid + [Some(HeatCell(i, Intensity(completedCount, totalActive), completedCount, d))];
    }
    assert forall k :: 0 <= k < |grid| ==> grid[k] == HeatmapGrid(dateKey, active, year, month)[k];
  }

  /** The heatmap of the month of `today`. */
  method HeatmapData(active: seq<Habit>, today: Day) returns (grid: seq<Option<HeatCell>>)
    ensures grid == HeatmapGrid(FormatDateKey, active, YearAndMonthIndex(today).0, YearAndMonthIndex(today).1)
  {
    var (year, month) := YearAndMonthIndex(today);
    grid := HeatmapCells(FormatDateKey, active, year, month);
  }

  // ---------------------------------------------------------------------
  // Weekly statistics per habit
  // ---------------------------------------------------------------------

  /** A JavaScript percentage that may be `NaN` (0 / 0). */
  datatype Percent = Pct(value: int) | NaN

  /** The check-ins a habit aims for this week: 7, the number of its custom
      days, or the value of a weekly goal, which takes precedence. */
  function WeeklyTarget(h: Habit): (t: int)
    ensures h.goal.Some? && h.goal.value.goalType == WeeklyGoal ==> t == h.goal.value.value
    ensures !(h.goal.Some? && h.goal.value.goalType == WeeklyGoal) ==>
      t == if h.frequency == Custom then |h.customDays| else 7
  {
    var target := 7;
    var target := if h.frequency == Custom then |h.customDays| else target;
    if h.goal.Some? && h.goal.value.goalType == WeeklyGoal then h.goal.value.value else target
  }

  /** `completedDates.filter(d => d >= startKey).length`: string comparison. */
  function CompletionsSince(dates: seq<string>, startKey: string): (n: nat)
    ensures n <= |dates|
  {
    |Filter(dates, (d: string) => !JsText.LexLess(d, startKey))|
  }

  /** For days whose year has four digits the string comparison counts
      exactly the completed days on or after the week's first day. */
  lemma {:induction false} CompletionsSinceDays(days: seq<Day>, start: Day)
    requires 1000 <= CivilFromDays(start).year <= 9999
    requires forall i :: 0 <= i < |days| ==> 1000 <= CivilFromDays(days[i]).year <= 9999
    ensures CompletionsSince(Map(days, FormatDateKey), FormatDateKey(start)) == |Filter(days, (d: Day) => d >= start)|
  {
    if days != [] {
      CompletionsSinceDays(days[1..], start);
      var keys := Map(days, FormatDateKey);
      assert keys[1..] == Map(days[1..], FormatDateKey);
      FormatDateKeyOrder(days[0], start);
    }
  }

  /** With the key of the Sunday that starts the week of `today`, a habit's
      weekly completions are exactly its completed days from that Sunday on. */
  lemma WeekStartKeyCounts(days: seq<Day>, today: Day)
    requires 1000 <= CivilFromDays(StartOfWeek(today)).year <= 9999
    requires forall i :: 0 <= i < |days| ==> 1000 <= CivilFromDays(days[i]).year <= 9999
    ensures CompletionsSince(Map(days, FormatDateKey), WeekStartKey(today))
         == |Filter(days, (d: Day) => d >= StartOfWeek(today))|
  {
    CompletionsSinceDays(days, StartOfWeek(today));
  }

  /** `Math.min(100, Math.round((completions / target) * 100))`: a zero
      target gives `NaN` with no completions and `Infinity`, hence 100,
      with some. */
  function WeeklyPercent(completions: nat, target: int): (p: Percent)
    ensures target > 0 ==> p.Pct? && 0 <= p.value <= 100
    ensures target > 0 && completions >= target ==> p == Pct(100)
    ensures target == 0 ==> (p == NaN <==> completions == 0)
    ensures target == 0 && completions > 0 ==> p == Pct(100)
    ensures target < 0 ==> p.Pct? && p.value <= 0
  {
    if target == 0 then (if completions == 0 then NaN else Pct(100))
    else
      assert target > 0 ==> 0 <= RoundPercent(completions, target) by {
        if target > 0 {
          RoundPercentUnique(0, target, 0);
          RoundPercentMonotone(0, completions, target);
        }
      }
      assert target > 0 && completions >= target ==> RoundPercent(completions, target) >= 100 by {
        if target > 0 && completions >= target {
          RoundPercentUnique(target, target, 100);
          RoundPercentMonotone(target, completions, target);
        }
      }
      assert target < 0 ==> RoundPercent(completions, target) <= 0 by {
        if target < 0 {
          RoundPercentNegativeWhole(completions, target);
        }
      }
      Pct(Min(100, RoundPercent(completions, target)))
  }

  /** A habit with its week's figures. */
  datatype HabitStat = HabitStat(habit: Habit, weeklyCompleted: nat, weeklyTarget: int, percent: Percent)

  /** The figures of one habit: its completions since the week's first key,
      at most all of its completions, its target and their percentage. */
  function StatFor(h: Habit, startKey: string): (r: HabitStat)
    ensures r.habit == h && r.weeklyTarget == WeeklyTarget(h)
    ensures r.weeklyCompleted <= |h.completedDates|
    ensures r.weeklyTarget > 0 ==> r.percent.Pct? && 0 <= r.percent.value <= 100
    ensures r.weeklyTarget > 0 && r.weeklyCompleted >= r.weeklyTarget ==> r.percent == Pct(100)
  {
    var completions := CompletionsSince(h.completedDates, startKey);
    var target := WeeklyTarget(h);
    HabitStat(h, completions, target, WeeklyPercent(completions, target))
  }

  /** The comparator `b.percent - a.percent`: `a` goes first when its
      percentage is higher; a `NaN` difference counts as equal. */
  predicate RanksBefore(a: HabitStat, b: HabitStat) {
    a.percent.Pct? && b.percent.Pct? && a.percent.value > b.percent.value
  }

  function StatsOf(active: seq<Habit>, startKey: string): seq<HabitStat> {
    Map(active, (h: Habit) => StatFor(h, startKey))
  }

  /** The key of the Sunday that starts the week of `today`, which the
      screen compares completed keys against. */
  function WeekStartKey(today: Day): string {
    FormatDateKey(StartOfWeek(today))
  }

  /** The statistics of each active habit for the week that starts at
      `startKey`, highest percentage first. */
  function WeeklyHabitStats(active: seq<Habit>, startKey: string): (r: seq<HabitStat>)
    ensures |r| == |active|
    ensures multiset(r) == multiset(StatsOf(active, startKey))
  {
    SortBy(StatsOf(active, startKey), RanksBefore)
  }

  function PercentKey(s: HabitStat): int {
    if s.percent.Pct? then -s.percent.value else 0
  }

  /** Every percentage is a number, and none is below a later one. */
  predicate RankedByPercent(r: seq<HabitStat>) {
    forall i, j :: 0 <= i < j < |r| ==> r[i].percent.Pct? && r[j].percent.Pct? && r[i].percent.value >= r[j].percent.value
  }

  /** No active habit has a weekly target of zero. */
  predicate NoZeroTarget(active: seq<Habit>) {
    forall h :: h in active ==> WeeklyTarget(h) != 0
  }

  /** A statistic of the list belongs to an active habit and is its own. */
  lemma StatsOfMember(active: seq<Habit>, startKey: string, s: HabitStat)
    requires s in StatsOf(active, startKey)
    ensures s.habit in active && s == StatFor(s.habit, startKey)
  {
    var stats := StatsOf(active, startKey);
    var i :| 0 <= i < |stats| && stats[i] == s;
    assert stats[i] == StatFor(active[i], startKey);
    assert active[i] in active;
  }

  /** With no zero target every percentage is a number, and the comparator
      orders by it. */
  lemma RanksBeforeIsKeyOrder(active: seq<Habit>, startKey: string)
    requires NoZeroTarget(active)
    ensures forall s :: s in StatsOf(active, startKey) ==> s.percent.Pct?
    ensures LessIsKeyOrder(StatsOf(active, startKey), RanksBefore, PercentKey)
  {
    var stats := StatsOf(active, startKey);
    forall s | s in stats ensures s.percent.Pct? {
      StatsOfMember(active, startKey, s);
    }
  }

  /** Every listed habit is one of the active habits, paired with its own
      figures; when no habit has a zero target the list is in order of
      non-increasing percentage. */
  lemma WeeklyHabitStatsRanked(active: seq<Habit>, startKey: string)
    ensures var r := WeeklyHabitStats(active, startKey);
      forall s :: s in r ==> s.habit in active && s == StatFor(s.habit, startKey)
    ensures NoZeroTarget(active) ==> RankedByPercent(WeeklyHabitStats(active, startKey))
  {
    var stats := StatsOf(active, startKey);
    var r := WeeklyHabitStats(active, startKey);
    forall s | s in r ensures s.habit in active && s == StatFor(s.habit, startKey) {
      assert s in multiset(r);
      StatsOfMember(active, startKey, s);
    }
    if NoZeroTarget(active) {
      RanksBeforeIsKeyOrder(active, startKey);
      SortByKeySorted(stats, RanksBefore, PercentKey);
      SortedPercentsRanked(r, stats);
    }
  }

  /** A rearrangement of numeric percentages sorted by `PercentKey` is ranked. */
  lemma SortedPercentsRanked(r: seq<HabitStat>, stats: seq<HabitStat>)
    requires multiset(r) == multiset(stats)
    requires forall s :: s in stats ==> s.percent.Pct?
    requires SortedByKey(r, PercentKey)
    ensures RankedByPercent(r)
  {
    forall i, j | 0 <= i < j < |r|
      ensures r[i].percent.Pct? && r[j].percent.Pct? && r[i].percent.value >= r[j].percent.value
    {
      var x, y := r[i], r[j];
      assert x in multiset(stats) && y in multiset(stats) by {
        assert x in multiset(r) && y in multiset(r);
      }
      assert x.percent.Pct? && y.percent.Pct? by {
        assert x in stats && y in stats;
      }
      assert PercentKey(x) == -x.percent.value && PercentKey(y) == -y.percent.value;
      assert PercentKey(x) <= PercentKey(y);
    }
  }

  // ---------------------------------------------------------------------
  // The selected day
  // ---------------------------------------------------------------------

  /** `handleDayClick`: an empty cell or a day after today leaves the
      selection as it was; any other day becomes the selection. */
  function DayClick(selected: Option<Day>, cell: Option<Day>, today: Day): (r: Option<Day>)
    ensures cell.None? ==> r == selected
    ensures cell.Some? && cell.value > today ==> r == selected
    ensures cell.Some? && cell.value <= today ==> r == cell
    ensures r.Some? ==> r == selected || r.value <= today
  {
    if cell.None? then selected
    else if cell.value > today then selected
    else cell
  }

  datatype DateStats = DateStats(completedHabits: seq<Habit>, missedHabits: seq<Habit>, score: int)

  /** The active habits split into those completed on `key` and the rest,
      and the rounded share of the completed ones. */
  function DayBreakdown(active: seq<Habit>, key: string): (r: DateStats)
    ensures forall h :: h in r.completedHabits <==> h in active && key in h.completedDates
    ensures forall h :: h in r.missedHabits <==> h in active && key !in h.completedDates
    ensures |r.completedHabits| + |r.missedHabits| == |active|
    ensures multiset(r.completedHabits) + multiset(r.missedHabits) == multiset(active)
    ensures 0 <= r.score <= 100
    ensures |active| == 0 || |r.completedHabits| == 0 ==> r.score == 0
    ensures |active| > 0 && |r.missedHabits| == 0 ==> r.score == 100
    ensures |active| > 0 ==> r.score == RoundPercent(|r.completedHabits|, |active|)
  {
    var done := (h: Habit) => key in h.completedDates;
    var notDone := (h: Habit) => key !in h.completedDates;
    var completed := Filter(active, done);
    var pending := Filter(active, notDone);
    FilterPartition(active, done, notDone);
    var score := if |active| > 0 then RoundPercent(|completed|, |active|) else 0;
    assert |active| > 0 ==>
      (0 <= score <= 100 && (|completed| == 0 ==> score == 0) && (|completed| == |active| ==> score == 100)) by {
      if |active| > 0 {
        RoundPercentBounds(|completed|, |active|);
      }
    }
    DateStats(completed, pending, score)
  }

  /** `getSelectedDateStats`: nothing without a selection. */
  function SelectedDateStats(active: seq<Habit>, selected: Option<Day>): (r: Option<DateStats>)
    ensures r.Some? <==> selected.Some?
    ensures r.Some? ==> r.value == DayBreakdown(active, FormatDateKey(selected.value))
  {
    if selected.None? then None else Some(DayBreakdown(active, FormatDateKey(selected.value)))
  }

  // ---------------------------------------------------------------------
  // Achievements
  // ---------------------------------------------------------------------

  datatype Achievements = Achievements(firstStep: bool, onFire: bool, dedicated: bool, habitMaster: bool)

  /** The four badges: a first check-in, a streak of three days on some
      habit (archived ones too), 20 and 50 check-ins in all. */
  function ComputeAchievements(hs: seq<Habit>, today: Day): (r: Achievements)
    ensures r.firstStep <==> exists i :: 0 <= i < |hs| && hs[i].completedDates != []
  {
    var totalCompletions := TotalCompletions(hs);
    Achievements(
      totalCompletions > 0,
      exists i :: 0 <= i < |hs| && Streak(hs[i].completedDates, today) >= 3,
      totalCompletions >= 20,
      totalCompletions >= 50)
  }

  /** The badges unlock in order: Habit Master implies Dedicated, which
      implies First Step; On Fire needs at least three check-ins, so it
      implies First Step too. */
  lemma AchievementsNested(hs: seq<Habit>, today: Day)
    ensures var a := ComputeAchievements(hs, today);
      (a.habitMaster ==> a.dedicated) && (a.dedicated ==> a.firstStep)
      && (a.onFire ==> TotalCompletions(hs) >= 3 && a.firstStep)
  {
    if ComputeAchievements(hs, today).onFire {
      var i :| 0 <= i < |hs| && Streak(hs[i].completedDates, today) >= 3;
      StreakBound(hs[i].completedDates, today);
      ElementsCard(hs[i].completedDates);
      TotalCompletionsAtLeast(hs, hs[i]);
    }
  }
}
