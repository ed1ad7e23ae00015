/** The Add Habit form: the payload `handleSubmit` hands to `addHabit`, the
    weekday picker `toggleDay` and the goal-value input. */
module AddHabitView {
  import opened Wrappers
  import opened Seqs
  import opened JsText
  import opened Types
  import opened Sorting
  import opened HabitContext

  /** The state fields of the form. `category` always holds one of the
      category names; `targetStreak` is the legacy field the goal-value
      input keeps in step for streak goals. */
  datatype HabitForm = HabitForm(
    name: string,
    description: string,
    emoji: string,
    color: string,
    category: string,
    frequency: Frequency,
    customDays: seq<int>,
    enableGoal: bool,
    targetStreak: int,
    goalType: GoalType,
    goalValue: int,
    initialNote: string)

  /** `[0,1,2,3,4,5,6]`: every weekday. */
  const EveryDay: seq<int> := [0, 1, 2, 3, 4, 5, 6]

  // ---------------------------------------------------------------------
  // Submitting
  // ---------------------------------------------------------------------

  /** `handleSubmit`: nothing for a blank name; otherwise the payload,
      whose goal fields are set only when the goal is enabled. With the goal
      enabled `targetStreak` is always set: to the goal value for a streak
      goal and to the form's own `targetStreak` for the other goal types. */
  method HandleSubmit(form: HabitForm) returns (data: Option<NewHabitData>)
    ensures data.None? <==> IsBlank(form.name)
    ensures data.Some? ==>
      data.value.name == form.name && data.value.description == form.description
      && data.value.emoji == form.emoji && data.value.color == form.color
      && data.value.frequency == form.frequency && data.value.category == Some(form.category)
    ensures data.Some? && !form.enableGoal ==> data.value.goal.None? && data.value.targetStreak.None?
    ensures data.Some? && form.enableGoal ==> data.value.goal == Some(HabitGoal(form.goalType, form.goalValue))
    ensures data.Some? && form.enableGoal ==>
      data.value.targetStreak == Some(if form.goalType == StreakGoal then form.goalValue else form.targetStreak)
    ensures data.Some? ==>
      data.value.customDays == if form.frequency == Custom then form.customDays else EveryDay
    ensures data.Some? ==> (data.value.initialNote.None? <==> IsBlank(form.initialNote))
    ensures data.Some? && data.value.initialNote.Some? ==>
      data.value.initialNote.value == Trim(form.initialNote) && data.value.initialNote.value != []
  {
    TrimEmptyIffBlank(form.name);
    if Trim(form.name) == [] {
      return None;
    }

    var finalTargetStreak: Option<int> := None;
    var finalGoal: Option<HabitGoal> := None;
    if form.enableGoal {
      finalTargetStreak := Some(if form.goalType == StreakGoal then form.goalValue else form.targetStreak);
      finalGoal := Some(HabitGoal(form.goalType, form.goalValue));
    }

    var note := Trim(form.initialNote);
    TrimEmptyIffBlank(form.initialNote);
    data := Some(NewHabitData(
      name := form.name,
      description := form.description,
      emoji := form.emoji,
      color := form.color,
      frequency := form.frequency,
      customDays := if form.frequency == Custom then form.customDays else EveryDay,
      category := Some(form.category),
      targetStreak := finalTargetStreak,
      goal := finalGoal,
      initialNote := if note == [] then None else Some(note)));
  }

  /** One of the "Quick Start" suggestions. */
  datatype Suggestion = Suggestion(name: string, emoji: string, color: string, category: string, desc: string)

  /** `applySuggestion`: the suggestion's name, emoji, colour, category and
      description replace the form's; the rest of the form stays. */
  function ApplySuggestion(form: HabitForm, s: Suggestion): (f: HabitForm)
    ensures f.name == s.name && f.emoji == s.emoji && f.color == s.color
    ensures f.category == s.category && f.description == s.desc
    ensures f == form.(name := f.name, emoji := f.emoji, color := f.color, category := f.category, description := f.description)
  {
    form.(name := s.name, emoji := s.emoji, color := s.color, category := s.category, description := s.desc)
  }

  // ---------------------------------------------------------------------
  // The weekday picker
  // ---------------------------------------------------------------------

  /** The order of `Array.prototype.sort()` without a comparator: by the
      strings of the numbers. */
  predicate DefaultSortLess(a: int, b: int) {
    LexLess(IntToString(a), IntToString(b))
  }

  /** `toggleDay`: drop every occurrence of a selected day; otherwise add it
      and sort. */
  function ToggleDay(days: seq<int>, day: int): (r: seq<int>)
    ensures day in days ==> forall d :: d in r <==> d in days && d != day
    ensures day !in days ==> multiset(r) == multiset(days) + multiset{day}
  {
    if day in days then Filter(days, (d: int) => d != day)
    else SortBy(days + [day], DefaultSortLess)
  }

  predicate StrictlyIncreasing(s: seq<int>) {
    forall i, j :: 0 <= i < j < |s| ==> s[i] < s[j]
  }

  predicate Weekdays(s: seq<int>) {
    forall i :: 0 <= i < |s| ==> 0 <= s[i] <= 6
  }

  /** On one-digit numbers the string order is the numeric order. */
  lemma DigitOrder(a: int, b: int)
    requires 0 <= a <= 9 && 0 <= b <= 9
    ensures DefaultSortLess(a, b) <==> a < b
  {
    var sa, sb := IntToString(a), IntToString(b);
    assert sa == [DigitChar(a)] && sb == [DigitChar(b)];
    assert sa[1..] == [] && sb[1..] == [];
    assert !LexLess(sa[1..], sb[1..]);
    assert DigitChar(a) < DigitChar(b) <==> a < b;
  }

  lemma {:induction false} FilterIncreasing(s: seq<int>, p: int -> bool)
    requires StrictlyIncreasing(s)
    ensures StrictlyIncreasing(Filter(s, p))
  {
    if s != [] {
      IncreasingHead(s);
      FilterIncreasing(s[1..], p);
      var rest := Filter(s[1..], p);
      if p(s[0]) {
        assert Filter(s, p) == [s[0]] + rest;
        PrependSmaller(s[0], rest);
      } else {
        assert Filter(s, p) == rest;
      }
    }
  }

  /** An element below all of an increasing list extends it increasingly. */
  lemma PrependSmaller(x: int, s: seq<int>)
    requires StrictlyIncreasing(s)
    requires forall y :: y in s ==> x < y
    ensures StrictlyIncreasing([x] + s)
  {
    var r := [x] + s;
    forall i, j | 0 <= i < j < |r| ensures r[i] < r[j] {
      assert r[j] == s[j - 1];
      if i > 0 {
        assert r[i] == s[i - 1];
      } else {
        assert s[j - 1] in s;
      }
    }
  }

  /** Inserting a new element into an increasing list, with a comparator
      that agrees with `<` against that element, keeps it increasing. */
  lemma {:induction false} InsertIncreasing(sorted: seq<int>, x: int, less: (int, int) -> bool)
    requires StrictlyIncreasing(sorted) && x !in sorted
    requires forall y :: y in sorted ==> (less(x, y) <==> x < y)
    ensures StrictlyIncreasing(InsertBy(sorted, x, less))
  {
    if sorted != [] {
      var init, last := sorted[..|sorted| - 1], sorted[|sorted| - 1];
      assert last in sorted;
      AllBelowLast(sorted);
      if less(x, last) {
        var front := InsertBy(init, x, less);
        assert StrictlyIncreasing(front) by {
          assert forall y :: y in init ==> y in sorted;
          InsertIncreasing(init, x, less);
        }
        assert forall y :: y in front ==> y < last by {
          forall y | y in front ensures y < last {
            assert y in multiset(front);
            if y != x {
              assert y in multiset(init);
            }
          }
        }
        assert InsertBy(sorted, x, less) == front + [last];
        AppendGreater(front, last);
      } else {
        assert InsertBy(sorted, x, less) == sorted + [x];
        AppendGreater(sorted, x);
      }
    }
  }

  /** Every element before the last of an increasing list is below it. */
  lemma AllBelowLast(s: seq<int>)
    requires s != [] && StrictlyIncreasing(s)
    ensures StrictlyIncreasing(s[..|s| - 1])
    ensures s[|s| - 1] !in s[..|s| - 1]
    ensures forall y :: y in s ==> y <= s[|s| - 1]
  {
    forall y | y in s ensures y <= s[|s| - 1] {
      var i :| 0 <= i < |s| && s[i] == y;
    }
  }

  /** An element above all of an increasing list extends it increasingly. */
  lemma AppendGreater(s: seq<int>, x: int)
    requires StrictlyIncreasing(s)
    requires forall y :: y in s ==> y < x
    ensures StrictlyIncreasing(s + [x])
  {
    var r := s + [x];
    forall i, j | 0 <= i < j < |r| ensures r[i] < r[j] {
      if j == |s| {
        assert r[i] in s;
      } else {
        assert r[i] == s[i] && r[j] == s[j];
      }
    }
  }

  /** Sorting an increasing list of weekdays leaves it as it is. */
  lemma SortIncreasing(s: seq<int>)
    requires StrictlyIncreasing(s) && Weekdays(s)
    ensures SortBy(s, DefaultSortLess) == s
  {
    forall i, j | 0 <= i < j < |s| ensures !DefaultSortLess(s[j], s[i]) {
      DigitOrder(s[j], s[i]);
    }
    SortByNoInversions(s, DefaultSortLess);
  }

  /** Two increasing lists with the same elements are equal. */
  lemma {:induction false} IncreasingUnique(a: seq<int>, b: seq<int>)
    requires StrictlyIncreasing(a) && StrictlyIncreasing(b)
    requires forall x :: x in a <==> x in b
    ensures a == b
  {
    SameMembersEmpty(a, b);
    if a != [] {
      IncreasingHead(a);
      IncreasingHead(b);
      assert a[0] in b && b[0] in a;
      assert a[0] == b[0];
      assert forall x :: x in a[1..] <==> x in b[1..];
      IncreasingUnique(a[1..], b[1..]);
      SplitFirst(a);
      SplitFirst(b);
    }
  }

  /** The head of an increasing list is its least element, and the tail
      holds the rest. */
  lemma IncreasingHead(s: seq<int>)
    requires s != [] && StrictlyIncreasing(s)
    ensures StrictlyIncreasing(s[1..])
    ensures forall y :: y in s ==> s[0] <= y
    ensures forall x :: x in s[1..] <==> x in s && x != s[0]
  {
    forall y | y in s ensures s[0] <= y {
      var i :| 0 <= i < |s| && s[i] == y;
    }
    forall x ensures x in s[1..] <==> x in s && x != s[0] {
      if x in s && x != s[0] {
        var i :| 0 <= i < |s| && s[i] == x;
        assert s[1..][i - 1] == x;
      }
    }
  }

  lemma SameMembersEmpty(a: seq<int>, b: seq<int>)
    requires forall x :: x in a <==> x in b
    ensures a == [] <==> b == []
  {
    if a != [] {
      var x := a[0];
      assert x in a;
      assert x in b;
    }
    if b != [] {
      var x := b[0];
      assert x in b;
      assert x in a;
    }
  }

  /** Adding a weekday to an increasing list of weekdays inserts it in place. */
  lemma AddDayIncreasing(days: seq<int>, day: int)
    requires StrictlyIncreasing(days) && Weekdays(days) && 0 <= day <= 6 && day !in days
    ensures ToggleDay(days, day) == InsertBy(days, day, DefaultSortLess)
    ensures StrictlyIncreasing(ToggleDay(days, day)) && Weekdays(ToggleDay(days, day))
    ensures forall d :: d in ToggleDay(days, day) <==> d in days || d == day
  {
    var r := ToggleDay(days, day);
    assert r == InsertBy(days, day, DefaultSortLess) by {
      SortBySnoc(days, day, DefaultSortLess);
      SortIncreasing(days);
    }
    WeekdayMembers(days);
    assert StrictlyIncreasing(r) by {
      forall y | y in days ensures DefaultSortLess(day, y) <==> day < y {
        DigitOrder(day, y);
      }
      InsertIncreasing(days, day, DefaultSortLess);
    }
    forall d ensures d in r <==> d in days || d == day {
      assert d in r <==> d in multiset(r);
    }
    forall i | 0 <= i < |r| ensures 0 <= r[i] <= 6 {
      assert r[i] in r;
    }
  }

  lemma WeekdayMembers(s: seq<int>)
    requires Weekdays(s)
    ensures forall y :: y in s ==> 0 <= y <= 6
  {
    forall y | y in s ensures 0 <= y <= 6 {
      var i :| 0 <= i < |s| && s[i] == y;
    }
  }

  /** Starting from an increasing list of weekdays (sorted, without
      duplicates), the picker keeps it so. */
  lemma ToggleDayKeepsIncreasing(days: seq<int>, day: int)
    requires StrictlyIncreasing(days) && Weekdays(days) && 0 <= day <= 6
    ensures StrictlyIncreasing(ToggleDay(days, day)) && Weekdays(ToggleDay(days, day))
  {
    if day in days {
      FilterIncreasing(days, (d: int) => d != day);
      var r := ToggleDay(days, day);
      forall i | 0 <= i < |r| ensures 0 <= r[i] <= 6 {
        assert r[i] in days;
      }
    } else {
      AddDayIncreasing(days, day);
    }
  }

  /** On such a list, toggling a day twice gives back the list. */
  lemma ToggleDayTwice(days: seq<int>, day: int)
    requires StrictlyIncreasing(days) && Weekdays(days) && 0 <= day <= 6
    ensures ToggleDay(ToggleDay(days, day), day) == days
  {
    var once := ToggleDay(days, day);
    ToggleDayKeepsIncreasing(days, day);
    var twice := ToggleDay(once, day);
    if day in days {
      assert day !in once;
      AddDayIncreasing(once, day);
      IncreasingUnique(twice, days);
    } else {
      AddDayIncreasing(days, day);
      assert day in once;
      FilterIncreasing(once, (d: int) => d != day);
      IncreasingUnique(twice, days);
    }
  }

  // ---------------------------------------------------------------------
  // The goal-value input
  // ---------------------------------------------------------------------

  /** `parseInt(value) || 0`: NaN and 0 both give 0. */
  function ParseIntOrZero(s: string): (n: int)
    ensures ParseInt(s).None? ==> n == 0
    ensures ParseInt(s).Some? ==> n == ParseInt(s).value
  {
    match ParseInt(s)
    case None => 0
    case Some(v) => if v != 0 then v else 0
  }

  /** The input's change handler: the parsed value becomes the goal value,
      and for a streak goal the legacy `targetStreak` as well; nothing else
      changes. */
  function GoalValueChanged(form: HabitForm, value: string): (f: HabitForm)
    ensures f.goalValue == ParseIntOrZero(value)
    ensures form.goalType == StreakGoal ==> f.targetStreak == f.goalValue
    ensures form.goalType != StreakGoal ==> f.targetStreak == form.targetStreak
    ensures f == form.(goalValue := f.goalValue, targetStreak := f.targetStreak)
  {
    var v := ParseIntOrZero(value);
    var f := form.(goalValue := v);
    if form.goalType == StreakGoal then f.(targetStreak := v) else f
  }

  /** A quick-pick button of a streak goal: both the goal value and the
      legacy `targetStreak` become `d` days. */
  function StreakPresetChosen(form: HabitForm, d: int): (f: HabitForm)
    ensures f.goalValue == d && f.targetStreak == d
    ensures f == form.(goalValue := f.goalValue, targetStreak := f.targetStreak)
  {
    form.(goalValue := d, targetStreak := d)
  }

  /** Typing the digits of a number sets the goal to that number, and a
      cleared or non-numeric input sets it to 0, below the input's minimum of 1. */
  lemma GoalValueInput(form: HabitForm, n: nat)
    ensures GoalValueChanged(form, NatToString(n)).goalValue == n
    ensures GoalValueChanged(form, "").goalValue == 0
    ensures GoalValueChanged(form, "abc").goalValue == 0
  {
    assert ParseInt(NatToString(n)) == Some(n) by {
      ParseIntNatToString(n);
    }
    NoNumberInput("");
    NoNumberInput("abc");
  }

  /** An empty input, or one that starts with a letter, holds no number. */
  lemma NoNumberInput(s: string)
    requires s == [] || 'a' <= s[0] <= 'z'
    ensures ParseInt(s).None?
  {
    if s != [] {
      assert !IsJsWhitespace(s[0]);
      assert TrimStart(s) == s;
    }
  }
}
