/** The figures of the Today screen: the habits due today, how many of them
    are done, the progress ring, the user's level and the category filter. */
module TodayView {
  import opened Seqs
  import opened Calendar
  import opened Types
  import opened Utils
  import opened HabitQueries

  /** The non-archived habits due on `today`. */
  function TodaysHabits(hs: seq<Habit>, today: Day): (r: seq<Habit>)
    ensures forall h :: h in r <==> h in hs && !IsArchived(h) && IsHabitDueOnDate(h, today)
    ensures IsSubsequence(r, NonArchived(hs))
  {
    Filter(NonArchived(hs), (h: Habit) => IsHabitDueOnDate(h, today))
  }

  /** `todaysHabits.filter(h => h.completedDates.includes(todayKey)).length`. */
  function CompletedCount(todays: seq<Habit>, todayKey: string): (n: nat)
    ensures n <= |todays|
  {
    |Filter(todays, (h: Habit) => todayKey in h.completedDates)|
  }

  /** The count of done habits is the same number the running count of the
      progress screen produces, and it is all of them exactly when every
      habit due today is done. */
  lemma CompletedCountSpec(todays: seq<Habit>, todayKey: string)
    ensures CompletedCount(todays, todayKey) == CompletedOn(todays, todayKey)
    ensures CompletedCount(todays, todayKey) == |todays| <==> forall h :: h in todays ==> todayKey in h.completedDates
  {
    CompletedOnIsFilterCount(todays, todayKey);
    var done := (h: Habit) => todayKey in h.completedDates;
    FilterSame(todays, done, (h: Habit) => todayKey in h.completedDates);
    FilterLengthAll(todays, done);
  }

  lemma {:induction false} FilterSame(s: seq<Habit>, p: Habit -> bool, q: Habit -> bool)
    requires forall h :: p(h) == q(h)
    ensures Filter(s, p) == Filter(s, q)
  {
    if s != [] {
      FilterSame(s[1..], p, q);
    }
  }

  /** A filter keeps the whole list exactly when every element passes. */
  lemma {:induction false} FilterLengthAll(s: seq<Habit>, p: Habit -> bool)
    ensures |Filter(s, p)| == |s| <==> forall h :: h in s ==> p(h)
  {
    if s != [] {
      FilterLengthAll(s[1..], p);
      assert forall h :: h in s <==> h == s[0] || h in s[1..];
    }
  }

  /** `(completedCount / todaysHabits.length) * 100`, or 0 when nothing is due. */
  function Progress(completed: nat, due: nat): (p: real)
    ensures due == 0 ==> p == 0.0
    ensures completed <= due ==> 0.0 <= p <= 100.0
    ensures due > 0 ==> (p == 100.0 <==> completed == due)
    ensures due > 0 ==> p * due as real == 100.0 * completed as real
  {
    if due > 0 then (completed as real / due as real) * 100.0 else 0.0
  }

  /** `calculateUserLevel` of every check-in of every habit, archived ones included. */
  function Level(hs: seq<Habit>): (r: int)
    ensures r >= 1
    ensures 10 * (r - 1) <= TotalCompletions(hs) < 10 * r
  {
    CalculateUserLevel(TotalCompletions(hs))
  }

  /** `totalAllCompletions % 10`: the check-ins into the current level. */
  function LevelProgress(hs: seq<Habit>): (p: int)
    ensures 0 <= p < 10
  {
    TotalCompletions(hs) % 10
  }

  /** The level and the progress into it together give back the total. */
  lemma LevelDecomposition(hs: seq<Habit>)
    ensures Level(hs) >= 1
    ensures TotalCompletions(hs) == 10 * (Level(hs) - 1) + LevelProgress(hs)
  {
  }

  /** The category chips over today's habits: everything for "All",
      otherwise the habits of that category, in their order. */
  function FilteredHabits(todays: seq<Habit>, selectedCategory: string): (r: seq<Habit>)
    ensures selectedCategory == "All" ==> r == todays
    ensures forall h :: h in r <==> h in todays && (selectedCategory == "All" || CategoryOrOther(h) == selectedCategory)
    ensures IsSubsequence(r, todays)
  {
    if selectedCategory == "All" then IsSubsequenceReflexive(todays); todays
    else InCategory(todays, selectedCategory)
  }
}
