/** The habit store: the state the app shares between its screens and the
    actions that change it. Every action replaces the whole habit list by a
    new one computed from the old (a `map`, a `filter` or an append); those
    computations are the functions of this module, and `HabitProvider`'s
    methods assign their results. Ids and timestamps that the store would
    generate are parameters; confirmation prompts are taken as answered yes. */
module HabitContext {
  import opened Wrappers
  import opened Seqs
  import opened Calendar
  import opened Types
  import opened Utils

  /** What `addHabit` receives: a habit without id, creation time, completed
      dates and journal, plus an optional first journal note. */
  datatype NewHabitData = NewHabitData(
    name: string,
    description: string,
    emoji: string,
    color: string,
    frequency: Frequency,
    customDays: seq<int>,
    category: Option<string>,
    targetStreak: Option<int>,
    goal: Option<HabitGoal>,
    initialNote: Option<string>)

  /** The settings used when none are stored. */
  const InitialSettings: AppSettings := AppSettings(false, true, true, Some(Null))

  // ---------------------------------------------------------------------
  // Building a habit
  // ---------------------------------------------------------------------

  /** A streak goal's value is copied to `targetStreak`; any other goal, or
      none, leaves the supplied `targetStreak`. */
  function EffectiveTargetStreak(data: NewHabitData): (t: Option<int>)
    ensures data.goal.Some? && data.goal.value.goalType == StreakGoal ==> t == Some(data.goal.value.value)
    ensures !(data.goal.Some? && data.goal.value.goalType == StreakGoal) ==> t == data.targetStreak
  {
    if data.goal.Some? && data.goal.value.goalType == StreakGoal then Some(data.goal.value.value)
    else data.targetStreak
  }

  /** The note text, when it is truthy (present and non-empty). */
  predicate HasInitialNote(data: NewHabitData) {
    data.initialNote.Some? && data.initialNote.value != []
  }

  /** The habit `addHabit` builds from `data`: no completions, not archived,
      category "Other" when none (or an empty one) is given, and a journal
      holding the initial note when there is one. */
  function NewHabit(data: NewHabitData, id: string, createdAt: string, noteId: string, noteDate: string): (h: Habit)
    ensures h.id == id && h.createdAt == createdAt
    ensures h.completedDates == [] && h.archived == Some(false) && !IsArchived(h)
    ensures h.name == data.name && h.description == data.description
    ensures h.emoji == data.emoji && h.color == data.color
    ensures h.frequency == data.frequency && h.customDays == data.customDays
    ensures h.goal == data.goal && h.targetStreak == EffectiveTargetStreak(data)
    ensures h.category.Some? && h.category.value != []
    ensures data.category.Some? && data.category.value != [] ==> h.category == data.category
    ensures data.category.None? || data.category.value == [] ==> h.category == Some("Other")
    ensures !HasInitialNote(data) ==> h.journal == []
    ensures HasInitialNote(data) ==>
      |h.journal| == 1 && h.journal[0].content == data.initialNote.value
      && h.journal[0].id == noteId && h.journal[0].date == noteDate
  {
    Habit(
      id := id,
      name := data.name,
      description := data.description,
      emoji := data.emoji,
      color := data.color,
      frequency := data.frequency,
      customDays := data.customDays,
      completedDates := [],
      createdAt := createdAt,
      category := Some(if data.category.Some? && data.category.value != [] then data.category.value else "Other"),
      targetStreak := EffectiveTargetStreak(data),
      goal := data.goal,
      journal := if HasInitialNote(data) then [JournalEntry(noteId, noteDate, data.initialNote.value)] else [],
      archived := Some(false))
  }

  // ---------------------------------------------------------------------
  // Updates of the habit list
  // ---------------------------------------------------------------------

  /** Some habit of `hs` has the id `id`. */
  predicate HasId(hs: seq<Habit>, id: string) {
    exists i :: 0 <= i < |hs| && hs[i].id == id
  }

  /** `hs.map(h => h.id === id ? f(h) : h)`. */
  function MapById(hs: seq<Habit>, id: string, f: Habit -> Habit): (r: seq<Habit>)
    ensures |r| == |hs|
    ensures forall i :: 0 <= i < |hs| ==> r[i] == if hs[i].id == id then f(hs[i]) else hs[i]
  {
    seq(|hs|, i requires 0 <= i < |hs| => if hs[i].id == id then f(hs[i]) else hs[i])
  }

  /** An id that no habit has leaves the list as it is. */
  lemma MapByIdAbsent(hs: seq<Habit>, id: string, f: Habit -> Habit)
    requires !HasId(hs, id)
    ensures MapById(hs, id, f) == hs
  {
  }

  /** `updateHabit`'s new list: every habit with the updated habit's id is
      replaced by it, all others stay where they are. */
  function ReplaceById(hs: seq<Habit>, updated: Habit): (r: seq<Habit>)
    ensures |r| == |hs|
    ensures forall i :: 0 <= i < |hs| && hs[i].id == updated.id ==> r[i] == updated
    ensures forall i :: 0 <= i < |hs| && hs[i].id != updated.id ==> r[i] == hs[i]
  {
    MapById(hs, updated.id, _ => updated)
  }

  /** Updating a habit whose id is not in the list changes nothing. */
  lemma ReplaceByIdAbsent(hs: seq<Habit>, updated: Habit)
    requires !HasId(hs, updated.id)
    ensures ReplaceById(hs, updated) == hs
  {
  }

  /** `deleteHabit`'s new list: the habits whose id differs, in their order. */
  function RemoveById(hs: seq<Habit>, id: string): (r: seq<Habit>)
    ensures forall h :: h in r <==> h in hs && h.id != id
    ensures IsSubsequence(r, hs)
    ensures !HasId(r, id)
  {
    Filter(hs, (h: Habit) => h.id != id)
  }

  /** Deleting removes exactly the habits with that id: together with them
      the result makes up the old list. */
  lemma RemoveByIdExact(hs: seq<Habit>, id: string)
    ensures multiset(RemoveById(hs, id)) + multiset(Filter(hs, (h: Habit) => h.id == id)) == multiset(hs)
    ensures !HasId(hs, id) ==> RemoveById(hs, id) == hs
  {
    FilterPartition(hs, (h: Habit) => h.id != id, (h: Habit) => h.id == id);
    if !HasId(hs, id) {
      FilterAll(hs, (h: Habit) => h.id != id);
    }
  }

  /** `{ ...h, archived: !h.archived }`: an absent flag reads as false. */
  function FlipArchived(h: Habit): (r: Habit)
    ensures IsArchived(r) <==> !IsArchived(h)
    ensures r.archived.Some?
    ensures r == h.(archived := r.archived)
  {
    h.(archived := Some(!IsArchived(h)))
  }

  /** Two flips restore whether a habit is archived (an absent flag becomes an explicit false). */
  lemma FlipArchivedTwice(h: Habit)
    ensures IsArchived(FlipArchived(FlipArchived(h))) <==> IsArchived(h)
    ensures h.archived.Some? ==> FlipArchived(FlipArchived(h)) == h
  {
    if h.archived.Some? {
      var once := FlipArchived(h);
      var twice := FlipArchived(once);
      assert once.archived == Some(!IsArchived(h));
      assert twice.archived == Some(!IsArchived(once));
      if h.archived.value {
        assert h.archived == Some(true);
      } else {
        assert h.archived == Some(false);
      }
      assert twice == h.(archived := twice.archived);
    }
  }

  /** `toggleArchive`'s new list. */
  function ToggleArchiveIn(hs: seq<Habit>, id: string): (r: seq<Habit>)
    ensures |r| == |hs|
    ensures forall i :: 0 <= i < |hs| && hs[i].id == id ==> r[i] == FlipArchived(hs[i])
    ensures forall i :: 0 <= i < |hs| && hs[i].id != id ==> r[i] == hs[i]
  {
    MapById(hs, id, FlipArchived)
  }

  /** The completed dates after toggling `key`: removed (every occurrence)
      when present, appended when absent. */
  function ToggleDateKey(dates: seq<string>, key: string): (r: seq<string>)
    ensures key in r <==> key !in dates
    ensures forall k :: k != key ==> (k in r <==> k in dates)
    ensures key !in dates ==> r == dates + [key]
  {
    if key in dates then Filter(dates, d => d != key) else dates + [key]
  }

  /** Toggling twice gives back the same set of keys. */
  lemma ToggleDateKeyTwice(dates: seq<string>, key: string)
    ensures Elements(ToggleDateKey(ToggleDateKey(dates, key), key)) == Elements(dates)
  {
  }

  /** Toggling twice a key that was absent gives back exactly the same list. */
  lemma ToggleDateKeyTwiceAbsent(dates: seq<string>, key: string)
    requires key !in dates
    ensures ToggleDateKey(ToggleDateKey(dates, key), key) == dates
  {
    var once := dates + [key];
    FilterAppend(dates, [key], d => d != key);
    FilterAll(dates, d => d != key);
  }

  lemma {:induction false} FilterNoDuplicates(s: seq<string>, p: string -> bool)
    requires NoDuplicates(s)
    ensures NoDuplicates(Filter(s, p))
  {
    if s != [] {
      FilterNoDuplicates(s[1..], p);
      assert NoDuplicates(s[1..]);
      assert s[0] !in s[1..];
    }
  }

  /** A list without duplicates stays without duplicates. */
  lemma ToggleDateKeyNoDuplicates(dates: seq<string>, key: string)
    requires NoDuplicates(dates)
    ensures NoDuplicates(ToggleDateKey(dates, key))
  {
    if key in dates {
      FilterNoDuplicates(dates, d => d != key);
    }
  }

  /** `toggleCompletion`'s new list. */
  function ToggleCompletionIn(hs: seq<Habit>, id: string, key: string): (r: seq<Habit>)
    ensures |r| == |hs|
    ensures forall i :: 0 <= i < |hs| && hs[i].id == id ==>
      r[i] == hs[i].(completedDates := ToggleDateKey(hs[i].completedDates, key))
    ensures forall i :: 0 <= i < |hs| && hs[i].id != id ==> r[i] == hs[i]
  {
    MapById(hs, id, (h: Habit) => h.(completedDates := ToggleDateKey(h.completedDates, key)))
  }

  /** Toggling an unknown id changes nothing. */
  lemma ToggleCompletionAbsent(hs: seq<Habit>, id: string, key: string)
    requires !HasId(hs, id)
    ensures ToggleCompletionIn(hs, id, key) == hs
  {
  }

  /** `addJournalEntry`'s new list: the entry goes in front of the matching
      habits' journals, the old entries follow in their order. */
  function AddJournalEntryIn(hs: seq<Habit>, id: string, entry: JournalEntry): (r: seq<Habit>)
    ensures |r| == |hs|
    ensures forall i :: 0 <= i < |hs| && hs[i].id == id ==>
      r[i] == hs[i].(journal := r[i].journal)
      && |r[i].journal| == |hs[i].journal| + 1
      && r[i].journal[0] == entry && r[i].journal[1..] == hs[i].journal
    ensures forall i :: 0 <= i < |hs| && hs[i].id != id ==> r[i] == hs[i]
  {
    MapById(hs, id, (h: Habit) => h.(journal := [entry] + h.journal))
  }

  // ---------------------------------------------------------------------
  // Settings and navigation
  // ---------------------------------------------------------------------

  function ThemeToggled(s: AppSettings): (r: AppSettings)
    ensures r.darkMode == !s.darkMode
    ensures r.soundEnabled == s.soundEnabled && r.animationsEnabled == s.animationsEnabled
    ensures r.customLogo == s.customLogo
  {
    s.(darkMode := !s.darkMode)
  }

  function SoundToggled(s: AppSettings): (r: AppSettings)
    ensures r.soundEnabled == !s.soundEnabled
    ensures r.darkMode == s.darkMode && r.animationsEnabled == s.animationsEnabled
    ensures r.customLogo == s.customLogo
  {
    s.(soundEnabled := !s.soundEnabled)
  }

  function AnimationsToggled(s: AppSettings): (r: AppSettings)
    ensures r.animationsEnabled == !s.animationsEnabled
    ensures r.darkMode == s.darkMode && r.soundEnabled == s.soundEnabled
    ensures r.customLogo == s.customLogo
  {
    s.(animationsEnabled := !s.animationsEnabled)
  }

  function WithCustomLogo(s: AppSettings, logo: Nullable<string>): (r: AppSettings)
    ensures r.customLogo == Some(logo)
    ensures r.darkMode == s.darkMode && r.soundEnabled == s.soundEnabled
    ensures r.animationsEnabled == s.animationsEnabled
  {
    s.(customLogo := Some(logo))
  }

  /** Each toggle undoes itself. */
  lemma SettingsTogglesInvolutive(s: AppSettings)
    ensures ThemeToggled(ThemeToggled(s)) == s
    ensures SoundToggled(SoundToggled(s)) == s
    ensures AnimationsToggled(AnimationsToggled(s)) == s
  {
  }

  /** The selected habit after `navigate(view, habitId)`: a truthy id is
      selected; otherwise any view but the detail view clears the selection,
      and the detail view keeps it. */
  function SelectionAfterNavigate(view: ViewState, habitId: Option<string>, selected: Nullable<string>): (r: Nullable<string>)
    ensures habitId.Some? && habitId.value != [] ==> r == NonNull(habitId.value)
    ensures (habitId.None? || habitId.value == []) && view != HabitDetail ==> r == Null
    ensures (habitId.None? || habitId.value == []) && view == HabitDetail ==> r == selected
  {
    if habitId.Some? && habitId.value != [] then NonNull(habitId.value)
    else if view != HabitDetail then Null
    else selected
  }

  // ---------------------------------------------------------------------
  // The provider
  // ---------------------------------------------------------------------

  /** `HabitProvider`'s state and actions. */
  class HabitProvider {
    var habits: seq<Habit>
    var settings: AppSettings
    var currentView: ViewState
    var selectedHabitId: Nullable<string>

    /** Starts from the stored habits and settings when there are any,
      otherwise from no habits and the initial settings, on the today view. */
    constructor(storedHabits: Option<seq<Habit>>, storedSettings: Option<AppSettings>)
      ensures habits == if storedHabits.Some? then storedHabits.value else []
      ensures settings == if storedSettings.Some? then storedSettings.value else InitialSettings
      ensures currentView == TodayView && selectedHabitId == Null
    {
      habits := if storedHabits.Some? then storedHabits.value else [];
      settings := if storedSettings.Some? then storedSettings.value else InitialSettings;
      currentView := TodayView;
      selectedHabitId := Null;
    }

    method Navigate(view: ViewState, habitId: Option<string>)
      modifies this
      ensures currentView == view
      ensures selectedHabitId == SelectionAfterNavigate(view, habitId, old(selectedHabitId))
      ensures habits == old(habits) && settings == old(settings)
    {
      currentView := view;
      selectedHabitId := SelectionAfterNavigate(view, habitId, selectedHabitId);
    }

    /** Appends the new habit and goes to the today view. */
    method AddHabit(data: NewHabitData, id: string, createdAt: string, noteId: string, noteDate: string)
      modifies this
      ensures habits == old(habits) + [NewHabit(data, id, createdAt, noteId, noteDate)]
      ensures currentView == TodayView && selectedHabitId == Null
      ensures settings == old(settings)
    {
      var newHabit := NewHabit(data, id, createdAt, noteId, noteDate);
      habits := habits + [newHabit];
      Navigate(TodayView, None);
    }

    method UpdateHabit(updated: Habit)
      modifies this
      ensures habits == ReplaceById(old(habits), updated)
      ensures settings == old(settings)
      ensures currentView == old(currentView) && selectedHabitId == old(selectedHabitId)
    {
      habits := ReplaceById(habits, updated);
    }

    /** The confirmed deletion: drops the habits with that id and goes to the today view. */
    method DeleteHabit(id: string)
      modifies this
      ensures habits == RemoveById(old(habits), id)
      ensures currentView == TodayView && selectedHabitId == Null
      ensures settings == old(settings)
    {
      habits := RemoveById(habits, id);
      Navigate(TodayView, None);
    }

    method ToggleArchive(id: string)
      modifies this
      ensures habits == ToggleArchiveIn(old(habits), id)
      ensures settings == old(settings)
      ensures currentView == old(currentView) && selectedHabitId == old(selectedHabitId)
    {
      habits := ToggleArchiveIn(habits, id);
    }

    /** Toggles the key of day `date` in the completed dates of the habit with that id. */
    method ToggleCompletion(id: string, date: Day)
      modifies this
      ensures habits == ToggleCompletionIn(old(habits), id, FormatDateKey(date))
      ensures settings == old(settings)
      ensures currentView == old(currentView) && selectedHabitId == old(selectedHabitId)
    {
      var dateKey := FormatDateKey(date);
      habits := ToggleCompletionIn(habits, id, dateKey);
    }

    /** Puts a new entry with this content in front of the matching habit's journal. */
    method AddJournalEntry(habitId: string, content: string, entryId: string, now: string)
      modifies this
      ensures habits == AddJournalEntryIn(old(habits), habitId, JournalEntry(entryId, now, content))
      ensures settings == old(settings)
      ensures currentView == old(currentView) && selectedHabitId == old(selectedHabitId)
    {
      habits := AddJournalEntryIn(habits, habitId, JournalEntry(entryId, now, content));
    }

    method ToggleTheme()
      modifies this
      ensures settings == ThemeToggled(old(settings))
      ensures habits == old(habits)
      ensures currentView == old(currentView) && selectedHabitId == old(selectedHabitId)
    {
      settings := ThemeToggled(settings);
    }

    method ToggleSound()
      modifies this
      ensures settings == SoundToggled(old(settings))
      ensures habits == old(habits)
      ensures currentView == old(currentView) && selectedHabitId == old(selectedHabitId)
    {
      settings := SoundToggled(settings);
    }

    method ToggleAnimations()
      modifies this
      ensures settings == AnimationsToggled(old(settings))
      ensures habits == old(habits)
      ensures currentView == old(currentView) && selectedHabitId == old(selectedHabitId)
    {
      settings := AnimationsToggled(settings);
    }

    method SetCustomLogo(logo: Nullable<string>)
      modifies this
      ensures settings == WithCustomLogo(old(settings), logo)
      ensures habits == old(habits)
      ensures currentView == old(currentView) && selectedHabitId == old(selectedHabitId)
    {
      settings := WithCustomLogo(settings, logo);
    }

    /** The confirmed reset: no habits are left; settings and view stay. */
    method ResetAll()
      modifies this
      ensures habits == []
      ensures settings == old(settings)
      ensures currentView == old(currentView) && selectedHabitId == old(selectedHabitId)
    {
      habits := [];
    }
  }
}
