/** The records of the habit tracker. A field that the record type marks
    optional (`field?: T`) is an `Option`; a field that may also hold `null`
    is an `Option<Nullable<..>>`. Numbers the engine only counts with are
    integers. */
module Types {
  import opened Wrappers

  /** How often a habit is due. */
  datatype Frequency = Daily | Weekly | Custom

  /** The kinds of goal a habit may carry. */
  datatype GoalType = StreakGoal | WeeklyGoal | TotalGoal

  datatype HabitGoal = HabitGoal(goalType: GoalType, value: int)

  /** One note of a habit's journal; `date` is an ISO timestamp string. */
  datatype JournalEntry = JournalEntry(id: string, date: string, content: string)

  /** A habit. `customDays` holds weekday indices (0 = Sunday) and
      `completedDates` holds date keys of the form YYYY-MM-DD. */
  datatype Habit = Habit(
    id: string,
    name: string,
    description: string,
    emoji: string,
    color: string,
    frequency: Frequency,
    customDays: seq<int>,
    completedDates: seq<string>,
    createdAt: string,
    category: Option<string>,
    targetStreak: Option<int>,
    goal: Option<HabitGoal>,
    journal: seq<JournalEntry>,
    archived: Option<bool>)

  /** The three switches and the custom logo, which may be absent or null. */
  datatype AppSettings = AppSettings(
    darkMode: bool,
    soundEnabled: bool,
    animationsEnabled: bool,
    customLogo: Option<Nullable<string>>)

  /** The five screens of the app. */
  datatype ViewState = TodayView | AddView | ProgressView | SettingsView | HabitDetail

  /** `h.category || 'Other'`: an absent or empty category reads as "Other". */
  function CategoryOrOther(h: Habit): (c: string)
    ensures c != []
    ensures h.category.Some? && h.category.value != [] ==> c == h.category.value
    ensures h.category.None? || h.category.value == [] ==> c == "Other"
  {
    if h.category.Some? && h.category.value != [] then h.category.value else "Other"
  }

  /** The truthiness of `h.archived`: only a present `true` archives. */
  predicate IsArchived(h: Habit) {
    h.archived == Some(true)
  }

  /** JavaScript truthiness of an optional number: absent and 0 are falsy. */
  predicate IsTruthy(n: Option<int>) {
    n.Some? && n.value != 0
  }
}
