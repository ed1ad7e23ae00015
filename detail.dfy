/** The habit detail screen: which habit it shows, the month calendar, the
    goal card, the consistency figure, which calendar day may be toggled,
    and the note and archive handlers. */
module HabitDetailView {
  import opened Wrappers
  import opened JsText
  import opened JsMath
  import opened Calendar
  import opened Types
  import opened Utils
  import opened HabitContext

  /** `habits.find(h => h.id === selectedHabitId)`: the first habit with the
      selected id; none when nothing is selected. */
  function FindHabit(hs: seq<Habit>, selected: Nullable<string>): (r: Option<Habit>)
    ensures r.None? <==> selected.Null? || forall i :: 0 <= i < |hs| ==> hs[i].id != selected.value
    ensures r.Some? ==> selected == NonNull(r.value.id)
    ensures r.Some? ==>
      exists i :: 0 <= i < |hs| && hs[i] == r.value && forall j :: 0 <= j < i ==> hs[j].id != r.value.id
  {
    if selected.Null? || hs == [] then None
    else if hs[0].id == selected.value then
      assert hs[0] == hs[0];
      Some(hs[0])
    else
      var r := FindHabit(hs[1..], selected);
      if r.Some? then
        var i :| 0 <= i < |hs[1..]| && hs[1..][i] == r.value && forall j :: 0 <= j < i ==> hs[1..][j].id != r.value.id;
        assert hs[i + 1] == r.value && forall j :: 0 <= j < i + 1 ==> hs[j].id != r.value.id;
        r
      else
        assert forall i :: 1 <= i < |hs| ==> hs[i] == hs[1..][i - 1];
        r
  }

  // ---------------------------------------------------------------------
  // The month calendar
  // ---------------------------------------------------------------------

  /** The calendar of month index `month` of `year`: an empty cell for each
      weekday before the first, then each date of the month in order. */
  function CalendarGrid(year: int, month: int): seq<Option<Day>> {
    MonthGrid(GetFirstDayOfMonth(year, month), MonthDates(year, month))
  }

  /** The dates of the month, first to last. */
  function MonthDates(year: int, month: int): (r: seq<Day>)
    ensures |r| == GetDaysInMonth(year, month)
    ensures forall i :: 0 <= i < |r| ==> r[i] == MakeDay(year, month, i + 1)
  {
    seq(GetDaysInMonth(year, month), i => MakeDay(year, month, i + 1))
  }

  /** The grid has `firstDay` empty cells, then one cell per date, each one
      day after the one before. */
  lemma CalendarShape(year: int, month: int)
    ensures
      var grid := CalendarGrid(year, month);
      var firstDay := GetFirstDayOfMonth(year, month);
      |grid| == firstDay + GetDaysInMonth(year, month)
      && (forall k :: 0 <= k < firstDay ==> grid[k].None?)
      && (forall k :: firstDay <= k < |grid| ==> grid[k] == Some(MakeDay(year, month, k - firstDay + 1)))
      && (forall k :: firstDay < k < |grid| ==> grid[k].Some? && grid[k].value == grid[k - 1].value + 1)
  {
    var grid := CalendarGrid(year, month);
    var firstDay := GetFirstDayOfMonth(year, month);
    forall k | firstDay <= k < |grid|
      ensures grid[k] == Some(MakeDay(year, month, k - firstDay + 1))
    {
      CalendarCellAt(year, month, k);
    }
  }

  /** Cell `k` past the leading empty cells holds date `k - firstDay + 1`. */
  lemma CalendarCellAt(year: int, month: int, k: int)
    requires GetFirstDayOfMonth(year, month) <= k < |CalendarGrid(year, month)|
    ensures CalendarGrid(year, month)[k] == Some(MakeDay(year, month, k - GetFirstDayOfMonth(year, month) + 1))
  {
  }

  /** Every date sits in the grid column of its weekday. */
  lemma CalendarColumns(year: int, month: int)
    ensures
      var grid := CalendarGrid(year, month);
      forall k :: GetFirstDayOfMonth(year, month) <= k < |grid| ==> grid[k].Some? && Weekday(grid[k].value) == k % 7
  {
    var grid := CalendarGrid(year, month);
    var firstDay := GetFirstDayOfMonth(year, month);
    forall k | firstDay <= k < |grid|
      ensures grid[k].Some? && Weekday(grid[k].value) == k % 7
    {
      CalendarCellAt(year, month, k);
      MonthDayWeekday(year, month, k - firstDay + 1);
    }
  }

  /** Cell `k` of the grid is the date `k - firstDay + 1` of the month the
      `Date` constructor reads from `year` and `month`. */
  lemma CalendarCellDate(year: int, month: int, k: int)
    requires GetFirstDayOfMonth(year, month) <= k < |CalendarGrid(year, month)|
    ensures CalendarGrid(year, month)[k].Some?
    ensures CivilFromDays(CalendarGrid(year, month)[k].value)
         == Civil(JsConstructorYear(year) + month / 12, month % 12 + 1, k - GetFirstDayOfMonth(year, month) + 1)
  {
    CalendarCellAt(year, month, k);
    MakeDayInMonth(year, month, k - GetFirstDayOfMonth(year, month) + 1);
  }

  /** The calendar loops: push the leading empty cells, then each date. */
  method CalendarDays(year: int, month: int) returns (days: seq<Option<Day>>)
    ensures days == CalendarGrid(year, month)
  {
    var daysInMonth := GetDaysInMonth(year, month);
    var firstDay := GetFirstDayOfMonth(year, month);
    days := [];
    for i := 0 to firstDay
      invariant |days| == i
      invariant forall k :: 0 <= k < i ==> days[k] == None
    {
      days := days + [None];
    }
    for i := 1 to daysInMonth + 1
      invariant |days| == firstDay + i - 1
      invariant forall k :: 0 <= k < firstDay ==> days[k] == None
      invariant forall k :: firstDay <= k < |days| ==> days[k] == Some(MakeDay(year, month, k - firstDay + 1))
    {
      days := days + [Some(MakeDay(year, month, i))];
    }
    assert forall k :: 0 <= k < |days| ==> days[k] == CalendarGrid(year, month)[k];
  }

  /** The calendar of the month of `today`. */
  method CalendarData(today: Day) returns (days: seq<Option<Day>>)
    ensures days == CalendarGrid(YearAndMonthIndex(today).0, YearAndMonthIndex(today).1)
  {
    var (year, month) := YearAndMonthIndex(today);
    days := CalendarDays(year, month);
  }

  // ---------------------------------------------------------------------
  // The goal card
  // ---------------------------------------------------------------------

  /** `!!habit.goal || !!habit.targetStreak`. */
  predicate HasGoal(h: Habit) {
    h.goal.Some? || IsTruthy(h.targetStreak)
  }

  /** `habit.targetStreak || habit.goal?.value || 30`: the first non-zero of
      the two, and 30 only when neither is. */
  function Target(h: Habit): (t: int)
    ensures t != 0
    ensures IsTruthy(h.targetStreak) ==> t == h.targetStreak.value
    ensures !IsTruthy(h.targetStreak) && h.goal.Some? && h.goal.value.value != 0 ==> t == h.goal.value.value
    ensures !IsTruthy(h.targetStreak) && (h.goal.None? || h.goal.value.value == 0) ==> t == 30
  {
    if IsTruthy(h.targetStreak) then h.targetStreak.value
    else if h.goal.Some? && h.goal.value.value != 0 then h.goal.value.value
    else 30
  }

  /** `hasGoal ? Math.min((streak / target) * 100, 100) : 0`. */
  function ProgressPercent(h: Habit, streak: nat): (p: real)
    ensures !HasGoal(h) ==> p == 0.0
    ensures p <= 100.0
    ensures HasGoal(h) && Target(h) > 0 ==> 0.0 <= p
    ensures HasGoal(h) && Target(h) > 0 ==> (p == 100.0 <==> streak >= Target(h))
    ensures HasGoal(h) && Target(h) > 0 && streak < Target(h) ==> p * Target(h) as real == 100.0 * streak as real
  {
    if HasGoal(h) then
      ShareOfTarget(streak, Target(h));
      MinReal((streak as real / Target(h) as real) * 100.0, 100.0)
    else 0.0
  }

  /** `(streak / target) * 100` against a positive target: a non-negative
      multiple of the streak that reaches 100 exactly when the target does. */
  lemma ShareOfTarget(streak: nat, target: int)
    ensures target > 0 ==>
      var q := (streak as real / target as real) * 100.0;
      q * target as real == 100.0 * streak as real && 0.0 <= q && (q >= 100.0 <==> streak >= target)
  {
    if target > 0 {
      var t := target as real;
      var d := streak as real / t;
      assert d * t == streak as real;
      assert 0.0 <= d;
      assert (d * 100.0) * t == 100.0 * (d * t);
      if d >= 1.0 {
        assert d * t >= 1.0 * t;
      }
      if streak >= target {
        assert d * t >= t;
        assert d >= 1.0;
      }
    }
  }

  /** The "Goal Reached" banner of the goal card: shown when the habit has a
      goal and the streak has reached the target. */
  predicate GoalReachedShown(h: Habit, streak: nat) {
    HasGoal(h) && streak >= Target(h)
  }

  /** With a positive target the banner appears exactly when the bar is full. */
  lemma GoalReachedIffFull(h: Habit, streak: nat)
    requires HasGoal(h) && Target(h) > 0
    ensures GoalReachedShown(h, streak) <==> ProgressPercent(h, streak) == 100.0
  {
  }

  /** `Math.round((totalCompletions / (getDaysInMonth(year, month) || 1)) * 100)`:
      every check-in of the habit, of any month, against the length of the
      current month. It is at most 100 exactly when the habit has no more
      check-ins than the month has days. */
  function Consistency(totalCompletions: nat, year: int, month: int): (r: int)
    ensures r >= 0
    ensures r <= 100 <==> totalCompletions <= GetDaysInMonth(year, month)
    ensures totalCompletions == GetDaysInMonth(year, month) ==> r == 100
    ensures r == RoundPercent(totalCompletions, GetDaysInMonth(year, month))
    ensures var days := GetDaysInMonth(year, month);
      2 * days * r - days <= 200 * totalCompletions < 2 * days * r + days
  {
    var daysInMonth := GetDaysInMonth(year, month);
    var days := if daysInMonth == 0 then 1 else daysInMonth;
    assert totalCompletions <= days ==> 0 <= RoundPercent(totalCompletions, days) <= 100 by {
      if totalCompletions <= days {
        RoundPercentBounds(totalCompletions, days);
      }
    }
    assert totalCompletions > days ==> RoundPercent(totalCompletions, days) > 100 by {
      if totalCompletions > days {
        RoundPercentAbove(totalCompletions, days);
      }
    }
    RoundPercent(totalCompletions, days)
  }

  // ---------------------------------------------------------------------
  // Calendar interaction and handlers
  // ---------------------------------------------------------------------

  /** A calendar day may be toggled only when it is today and the habit is
      not archived. */
  predicate CanInteract(h: Habit, key: string, todayKey: string) {
    key == todayKey && !IsArchived(h)
  }

  /** On real days the key comparison is the day comparison. */
  lemma CanInteractDays(h: Habit, d: Day, today: Day)
    ensures CanInteract(h, FormatDateKey(d), FormatDateKey(today)) <==> d == today && !IsArchived(h)
  {
    if FormatDateKey(d) == FormatDateKey(today) {
      FormatDateKeyInjective(d, today);
    }
  }

  /** The note `handleAddNote` sends: nothing when the text is blank, and
      otherwise the text as typed, untrimmed. The send button is disabled on
      the same condition. */
  function NoteToSend(newNote: string): (r: Option<string>)
    ensures r.None? <==> IsBlank(newNote)
    ensures r.Some? ==> r.value == newNote
  {
    TrimEmptyIffBlank(newNote);
    if Trim(newNote) == [] then None else Some(newNote)
  }

  /** `handleAddNote`: a blank note changes nothing; any other is added as a
      journal entry of the habit, and the input is cleared. */
  method HandleAddNote(store: HabitProvider, h: Habit, newNote: string, entryId: string, now: string)
    returns (noteAfter: string)
    modifies store
    ensures IsBlank(newNote) ==> noteAfter == newNote && store.habits == old(store.habits)
    ensures !IsBlank(newNote) ==> noteAfter == []
    ensures !IsBlank(newNote) ==>
      store.habits == AddJournalEntryIn(old(store.habits), h.id, JournalEntry(entryId, now, newNote))
    ensures store.settings == old(store.settings)
    ensures store.currentView == old(store.currentView) && store.selectedHabitId == old(store.selectedHabitId)
  {
    if NoteToSend(newNote).None? {
      noteAfter := newNote;
      return;
    }
    store.AddJournalEntry(h.id, newNote, entryId, now);
    noteAfter := [];
  }

  /** `handleArchive`, the confirmation answered yes: archiving also goes
      back to the today view; restoring stays on the screen. */
  method HandleArchive(store: HabitProvider, h: Habit)
    modifies store
    ensures store.habits == ToggleArchiveIn(old(store.habits), h.id)
    ensures !IsArchived(h) ==> store.currentView == TodayView && store.selectedHabitId == Null
    ensures IsArchived(h) ==>
      store.currentView == old(store.currentView) && store.selectedHabitId == old(store.selectedHabitId)
    ensures store.settings == old(store.settings)
  {
    if !IsArchived(h) {
      store.ToggleArchive(h.id);
      store.Navigate(TodayView, None);
    } else {
      store.ToggleArchive(h.id);
    }
  }
}
