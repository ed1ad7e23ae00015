/** The reductions and filters over the habit list that several screens
    compute in the same way: the non-archived habits, the category tabs, the
    number of habits completed on a date and the total number of check-ins. */
module HabitQueries {
  import opened Seqs
  import opened Types

  /** `habits.filter(h => !h.archived)`. */
  function NonArchived(hs: seq<Habit>): (r: seq<Habit>)
    ensures forall h :: h in r <==> h in hs && !IsArchived(h)
    ensures IsSubsequence(r, hs)
  {
    Filter(hs, (h: Habit) => !IsArchived(h))
  }

  /** `habits.filter(h => (h.category || 'Other') === category)`. */
  function InCategory(hs: seq<Habit>, category: string): (r: seq<Habit>)
    ensures forall h :: h in r <==> h in hs && CategoryOrOther(h) == category
    ensures IsSubsequence(r, hs)
  {
    Filter(hs, (h: Habit) => CategoryOrOther(h) == category)
  }

  /** `['All', ...new Set(active.map(h => h.category || 'Other'))]` over the
      non-archived habits: "All" first, then every category in use once, in
      order of first use. */
  function CategoryTabs(hs: seq<Habit>): (r: seq<string>)
    ensures |r| >= 1 && r[0] == "All"
    ensures NoDuplicates(r[1..])
    ensures forall c :: c in r[1..] <==> exists h :: h in hs && !IsArchived(h) && CategoryOrOther(h) == c
  {
    var active := NonArchived(hs);
    var used := Map(active, CategoryOrOther);
    var tabs := Distinct(used);
    MapMembers(active, CategoryOrOther);
    assert (["All"] + tabs)[1..] == tabs;
    ["All"] + tabs
  }

  /** `hs.reduce((acc, h) => acc + (h.completedDates.includes(key) ? 1 : 0), 0)`. */
  function CompletedOn(hs: seq<Habit>, key: string): (n: nat)
    ensures n <= |hs|
  {
    if hs == [] then 0
    else CompletedOn(hs[..|hs| - 1], key) + (if key in hs[|hs| - 1].completedDates then 1 else 0)
  }

  /** The running count equals the length of the list of habits completed on
      `key`, the form `filter(..).length` some screens use. */
  lemma {:induction false} CompletedOnIsFilterCount(hs: seq<Habit>, key: string)
    ensures CompletedOn(hs, key) == |Filter(hs, (h: Habit) => key in h.completedDates)|
  {
    if hs != [] {
      var init, last := hs[..|hs| - 1], hs[|hs| - 1];
      CompletedOnIsFilterCount(init, key);
      SplitLast(hs);
      FilterAppend(init, [last], (h: Habit) => key in h.completedDates);
    }
  }

  /** `hs.reduce((acc, h) => acc + h.completedDates.length, 0)`. */
  function TotalCompletions(hs: seq<Habit>): (n: nat)
    ensures n == 0 <==> forall i :: 0 <= i < |hs| ==> hs[i].completedDates == []
  {
    if hs == [] then 0
    else
      var init := hs[..|hs| - 1];
      assert forall i :: 0 <= i < |init| ==> init[i] == hs[i];
      TotalCompletions(init) + |hs[|hs| - 1].completedDates|
  }

  lemma {:induction false} TotalCompletionsAppend(a: seq<Habit>, b: seq<Habit>)
    ensures TotalCompletions(a + b) == TotalCompletions(a) + TotalCompletions(b)
  {
    if b != [] {
      var init, last := b[..|b| - 1], b[|b| - 1];
      assert (a + b)[..|a + b| - 1] == a + init;
      TotalCompletionsAppend(a, init);
    } else {
      assert a + b == a;
    }
  }

  /** Every habit's own check-ins are part of the total. */
  lemma {:induction false} TotalCompletionsAtLeast(hs: seq<Habit>, h: Habit)
    requires h in hs
    ensures TotalCompletions(hs) >= |h.completedDates|
  {
    var init, last := hs[..|hs| - 1], hs[|hs| - 1];
    if h != last {
      SplitLast(hs);
      assert h in init;
      TotalCompletionsAtLeast(init, h);
    }
  }

  /** Any selection of the habits (a category, the non-archived ones) has at
      most as many check-ins as all of them. */
  lemma {:induction false} TotalCompletionsFilter(hs: seq<Habit>, p: Habit -> bool)
    ensures TotalCompletions(Filter(hs, p)) <= TotalCompletions(hs)
  {
    if hs != [] {
      TotalCompletionsFilter(hs[1..], p);
      SplitFirst(hs);
      TotalCompletionsAppend([hs[0]], hs[1..]);
      if p(hs[0]) {
        TotalCompletionsAppend([hs[0]], Filter(hs[1..], p));
      }
    }
  }
}
