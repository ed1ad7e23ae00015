# Habito habit tracker — a verified model of its engine

Habito is a single-page habit tracker. A user keeps a list of habits, each
with a frequency (daily, weekly or on chosen weekdays), a set of completed
date keys of the form `YYYY-MM-DD`, an optional goal, a category and a
journal. The app's store holds the habit list, the settings, the current
screen and the selected habit. The screens compute their figures from the
store:
- Today: the habits due today, how many are done, the user's level.
- Progress: the completion chart, the month heatmap, the weekly ranking, the
  breakdown of a selected day, the achievements.
- Habit detail: the month calendar, the goal card, consistency, the note and
  archive handlers.
- Add Habit: the payload of a new habit, the weekday picker, the goal input.

This project models that engine in Dafny and proves what it promises.

- `wrappers.dfy`, `types.dfy`: the records (`Habit`, `HabitGoal`,
  `JournalEntry`, `AppSettings`, the screens). Optional fields are `Option`
  values; `null` is `Nullable`.
- `seqs.dfy`, `sorting.dfy`: `filter`, `map`, `new Set(..)`, and
  `Array.prototype.sort` as a stable insertion sort.
- `jstext.dfy`, `jsmath.dfy`: `String(n)`, `padStart`, the string `<`,
  `trim`, `parseInt`, `Math.min` and `Math.round` of a percentage.
- `calendar.dfy`: days are integers, day 0 being 1970-01-01. It holds the
  civil date of a day, the weekday, the Sunday that starts a week, and the
  `Date` constructor. That constructor normalises month and date overflow and
  reads a year from 0 to 99 as 1900 + y.
- `utils.dfy`: `formatDateKey`, `calculateStreak` (a loop proved against a
  specification of the streak), `isHabitDueOnDate`, `calculateUserLevel`,
  `getDaysInMonth` and `getFirstDayOfMonth`.
- `store.dfy`: the store as a class whose methods replace the habit list,
  the settings, the view and the selection.
- `queries.dfy`, `today.dfy`, `progress.dfy`, `detail.dfy`, `addhabit.dfy`:
  the screens.

Inputs the app reads from the environment are parameters of the model:
- "today" is a day number;
- generated ids and ISO timestamps are strings;
- stored habits and settings are optional values.

Every confirmation prompt is taken as answered yes. The chart, heatmap and
streak computations take the date-key function as a parameter. The screens
apply them with `formatDateKey`. Ratios that JavaScript computes in floating
point are exact rationals (`real`) here. A rounded percentage is the integer
nearest to `100 * c / t`, with halves rounded up.

## Model

| member | source | states |
|---|---|---|
| Types.CategoryOrOther | views/TodayView.tsx:31-34 | an absent or empty category reads as "Other", any other category as itself; never empty |
| JsText.NatToString | utils.ts:6-7 | `String(n)` is a non-empty digit string whose decimal value is `n` |
| JsText.NatToStringInjective | utils.ts:6-8 | different numbers have different strings |
| JsText.IntToStringInjective | utils.ts:8 | different integers have different strings, with a minus sign before negatives |
| JsText.NatToStringLength | utils.ts:5-8 | one digit below 10, two below 100, four for 1000..9999 |
| JsText.PadStart | utils.ts:6-7 | the string is right-aligned in `width` fill characters, never shortened |
| JsText.LexLessIrreflexive | views/ProgressView.tsx:113 | no string is below itself |
| JsText.LexLessTransitive | views/ProgressView.tsx:113 | the string order is transitive |
| JsText.LexLessTotal | views/ProgressView.tsx:113 | two different strings are ordered one way or the other |
| JsText.LexLessConcat | views/ProgressView.tsx:113 | concatenations with equal-length first parts compare first part first, then second |
| JsText.LexLessDigits | views/ProgressView.tsx:113 | on digit strings of one width string order is numeric order |
| JsText.TrimStart | views/AddHabitView.tsx:63 | the suffix after the leading whitespace, which starts with a non-space |
| JsText.TrimEnd | views/AddHabitView.tsx:63 | the prefix before the trailing whitespace, which ends with a non-space |
| JsText.TrimIsSlice | views/AddHabitView.tsx:63 | `s.trim()` is a slice of `s` with only whitespace before and after it, neither starting nor ending with whitespace |
| JsText.TrimEmptyIffBlank | views/AddHabitView.tsx:42 | `s.trim()` is empty exactly when `s` is all whitespace |
| JsText.DigitPrefix | views/AddHabitView.tsx:332 | the longest run of digits at the start |
| JsText.ParseInt | views/AddHabitView.tsx:332 | `NaN` exactly when no digit follows the leading whitespace and an optional sign |
| JsText.ParseIntNatToString | views/AddHabitView.tsx:332 | `parseInt(String(n))` gives `n` back |
| JsMath.Min | views/ProgressView.tsx:114 | `Math.min`: at most both arguments and equal to one |
| JsMath.MinReal | views/HabitDetailView.tsx:44 | the real-valued twin of `Min`, for `Math.min` on ratios: at most both and equal to one |
| JsMath.FloorDiv | views/ProgressView.tsx:114 | integer division rounding toward minus infinity, for either sign of divisor |
| JsMath.RoundPercent | views/ProgressView.tsx:114 | `Math.round(c / t * 100)`: the result is within half of `100c/t`, halves going up |
| JsMath.RoundPercentUnique | views/ProgressView.tsx:114 | any `r` within half of `100c/t`, halves going up, is the rounded percentage |
| JsMath.RoundPercentBounds | views/ProgressView.tsx:143 | for `0 <= c <= t` the percentage is in 0..100, 0 for none, 100 for all |
| JsMath.RoundPercentMonotone | views/ProgressView.tsx:114 | more completions never give a smaller percentage |
| JsMath.RoundPercentAbove | views/HabitDetailView.tsx:189 | more completions than the total give more than 100 |
| Calendar.YearOf | utils.ts:5 | `getFullYear`: the year whose span of days contains the day |
| Calendar.MonthOf | utils.ts:6 | `getMonth() + 1`: the month whose span contains the day of the year |
| Calendar.CivilFromDays | utils.ts:5-7 | the calendar date of a day is a valid date that maps back to the day |
| Calendar.CivilRoundTrip | utils.ts:5-7 | date to day to date gives the date back |
| Calendar.DaysFromCivilInjective | utils.ts:5-7 | different valid dates are different days |
| Calendar.CivilFromDaysInjective | utils.ts:5-7 | different days have different dates |
| Calendar.CivilOrder | utils.ts:5-7 | day order is calendar order (year, then month, then day) |
| Calendar.Weekday | utils.ts:46 | `getDay()` is in 0..6, Sunday = 0 |
| Calendar.WeekdayShift | utils.ts:46 | moving `k` days moves the weekday `k` places modulo 7 |
| Calendar.StartOfWeek | views/ProgressView.tsx:102-104 | the start of a week is a Sunday at most six days back |
| Calendar.MakeDayInMonth | utils.ts:69-75 | `new Date(y, m, d)` with `d` inside the month is that civil date |
| Calendar.MakeDayZero | utils.ts:70 | date 0 of the next month is the last day of the month |
| Utils.TwoDigitsValue | utils.ts:6-7 | `padStart(2, '0')` of a number below 100 is two digits reading as the number |
| Utils.DateKeyShape | utils.ts:8 | a key reads back into its year, month and day around its two dashes |
| Utils.DateKeyInjective | utils.ts:4-9 | different dates have different keys |
| Utils.DateKeyOrder | utils.ts:4-9 | with four-digit years the key order is chronological |
| Utils.FormatDateKeyLength | utils.ts:4-9 | with a four-digit year a key has ten characters |
| Utils.FormatDateKeyShape | utils.ts:4-9 | a key reads back into the calendar date of its day: year, two-digit month, two-digit day of month |
| Utils.FormatDateKeyInjective | utils.ts:4-9 | different days have different keys |
| Utils.FormatDateKeyOrder | utils.ts:4-9 | with four-digit years `formatDateKey(a) < formatDateKey(b)` exactly when `a` is before `b` |
| Utils.IsHabitCompleted | utils.ts:12-14 | completed on a key exactly when the key occurs in the completed dates |
| Utils.RunLengthSpec | utils.ts:31-39 | the run's keys are all completed, and the key after a run that stops is not |
| Utils.StreakBy | utils.ts:17-42 | for any day labelling, the streak is 0 exactly when neither today's nor yesterday's label is completed, and at most the number of completed entries |
| Utils.StreakZero | utils.ts:24-29 | the streak is 0 exactly when neither today's nor yesterday's key is completed |
| Utils.StreakByMaximalRun | utils.ts:17-42 | for any injective day labelling (formatDateKey is one), when today or yesterday is done the streak is the maximal run of completed days ending today, or ending yesterday when today is not done |
| Utils.StreakBound | utils.ts:17-42 | the streak is at most the number of distinct completed keys |
| Utils.CountStreak | utils.ts:17-42 | the counting loop, for any injective labelling of days, computes the specified streak |
| Utils.CalculateStreak | utils.ts:17-42 | `calculateStreak` with `formatDateKey` is the streak of the habit's completed dates |
| Utils.IsHabitDueOnDate | utils.ts:45-55 | a custom habit is due exactly on its listed weekdays, daily and weekly habits always |
| Utils.CalculateUserLevel | utils.ts:62-66 | level `r >= 1` covers the completion counts 10(r-1) .. 10r-1 |
| Utils.UserLevelMonotone | utils.ts:62-66 | more completions never lower the level |
| Utils.UserLevelStep | utils.ts:62-66 | ten more completions raise the level by exactly one |
| Utils.GetDaysInMonth | utils.ts:69-71 | the length of the month the `Date` constructor names, between 28 and 31 |
| Utils.DaysInFebruary | utils.ts:69-71 | February has 29 days exactly in leap years |
| Utils.GetFirstDayOfMonth | utils.ts:73-75 | the weekday of the first of the month the constructor names |
| Utils.MonthGrid | views/HabitDetailView.tsx:22-24 | `firstDay` empty cells, then each cell of the month in order |
| Utils.MonthDayWeekday | utils.ts:73-75 | date `i` of the month falls on weekday `(firstDay + i - 1) mod 7` |
| HabitContext.EffectiveTargetStreak | context/HabitContext.tsx:74-75 | a streak goal's value becomes `targetStreak`; otherwise the supplied one stays |
| HabitContext.NewHabit | context/HabitContext.tsx:77-96 | a new habit has no completions, is not archived, category "Other" when none or empty given, and a one-entry journal only for a non-empty note |
| HabitContext.MapById | context/HabitContext.tsx:102 | the habits with the id are transformed, the others stay in place |
| HabitContext.MapByIdAbsent | context/HabitContext.tsx:102 | an id no habit has changes nothing |
| HabitContext.ReplaceById | context/HabitContext.tsx:101-103 | every habit with the updated id is replaced, the others stay |
| HabitContext.ReplaceByIdAbsent | context/HabitContext.tsx:101-103 | updating an unknown habit changes nothing |
| HabitContext.RemoveById | context/HabitContext.tsx:105-110 | the remaining habits are exactly those with another id, in their order |
| HabitContext.RemoveByIdExact | context/HabitContext.tsx:107 | the kept and the removed habits together are the old list |
| HabitContext.FlipArchived | context/HabitContext.tsx:113 | the archived flag is negated (absent reads as false), nothing else changes |
| HabitContext.FlipArchivedTwice | context/HabitContext.tsx:113 | two flips restore the archived state |
| HabitContext.ToggleArchiveIn | context/HabitContext.tsx:112-114 | the habits with the id are flipped, the others stay |
| HabitContext.ToggleDateKey | context/HabitContext.tsx:122-129 | the key becomes present exactly when it was absent, other keys unchanged, appended at the end |
| HabitContext.ToggleDateKeyTwice | context/HabitContext.tsx:122-129 | toggling twice restores the set of keys |
| HabitContext.ToggleDateKeyTwiceAbsent | context/HabitContext.tsx:122-129 | toggling an absent key twice restores the exact list |
| HabitContext.ToggleDateKeyNoDuplicates | context/HabitContext.tsx:122-129 | a list without duplicates keeps none |
| HabitContext.ToggleCompletionIn | context/HabitContext.tsx:116-134 | the habits with the id have the key toggled, the others stay |
| HabitContext.ToggleCompletionAbsent | context/HabitContext.tsx:116-134 | toggling for an unknown id changes nothing |
| HabitContext.AddJournalEntryIn | context/HabitContext.tsx:136-146 | the new entry goes first in the matching habits' journals, the old entries follow in order |
| HabitContext.ThemeToggled | context/HabitContext.tsx:148 | dark mode is negated, the other settings stay |
| HabitContext.SoundToggled | context/HabitContext.tsx:149 | sound is negated, the other settings stay |
| HabitContext.AnimationsToggled | context/HabitContext.tsx:150 | animations are negated, the other settings stay |
| HabitContext.WithCustomLogo | context/HabitContext.tsx:151 | the logo is set, the other settings stay |
| HabitContext.SettingsTogglesInvolutive | context/HabitContext.tsx:148-150 | each toggle undone by itself |
| HabitContext.SelectionAfterNavigate | context/HabitContext.tsx:160-164 | a non-empty id is selected; otherwise the detail view keeps the selection and any other view clears it |
| HabitContext.HabitProvider.constructor | context/HabitContext.tsx:45-56 | stored habits and settings, or none and the initial settings; the today view, nothing selected |
| HabitContext.HabitProvider.Navigate | context/HabitContext.tsx:160-164 | the view is set and the selection follows the navigation rule |
| HabitContext.HabitProvider.AddHabit | context/HabitContext.tsx:73-99 | the new habit is appended and the app goes to the today view |
| HabitContext.HabitProvider.UpdateHabit | context/HabitContext.tsx:101-103 | the list becomes the replaced list; nothing else changes |
| HabitContext.HabitProvider.DeleteHabit | context/HabitContext.tsx:105-110 | the habits with the id are removed and the app goes to the today view |
| HabitContext.HabitProvider.ToggleArchive | context/HabitContext.tsx:112-114 | the list becomes the flipped list; nothing else changes |
| HabitContext.HabitProvider.ToggleCompletion | context/HabitContext.tsx:116-134 | the day's key is toggled for the habit; nothing else changes |
| HabitContext.HabitProvider.AddJournalEntry | context/HabitContext.tsx:136-146 | the entry is put in front of the habit's journal; nothing else changes |
| HabitContext.HabitProvider.ToggleTheme | context/HabitContext.tsx:148 | only the dark-mode setting changes |
| HabitContext.HabitProvider.ToggleSound | context/HabitContext.tsx:149 | only the sound setting changes |
| HabitContext.HabitProvider.ToggleAnimations | context/HabitContext.tsx:150 | only the animations setting changes |
| HabitContext.HabitProvider.SetCustomLogo | context/HabitContext.tsx:151 | only the logo changes |
| HabitContext.HabitProvider.ResetAll | context/HabitContext.tsx:153-158 | the habit list is emptied; settings and view stay |
| Seqs.Filter | views/TodayView.tsx:17 | `filter` keeps exactly the elements that pass, in their order |
| Seqs.FilterPartition | views/ProgressView.tsx:138-139 | filtering by a test and by its negation splits a list: the lengths add up and the multiplicities of every element add up |
| Seqs.Distinct | views/TodayView.tsx:31 | `[...new Set(s)]` has each element of `s` once and nothing else |
| Seqs.MapMembers | views/TodayView.tsx:31 | the values of `map` are exactly the images of the elements |
| HabitQueries.NonArchived | views/TodayView.tsx:17 | exactly the non-archived habits, in their order |
| HabitQueries.InCategory | views/TodayView.tsx:34 | exactly the habits of the category, in their order |
| HabitQueries.CategoryTabs | views/TodayView.tsx:31 | "All" first, then each category of a non-archived habit once and no other |
| HabitQueries.CompletedOn | views/ProgressView.tsx:46 | the count of habits completed on a key is at most the number of habits |
| HabitQueries.CompletedOnIsFilterCount | views/ProgressView.tsx:138 | the running count equals the length of the filtered list |
| HabitQueries.TotalCompletions | views/TodayView.tsx:26 | the total check-ins are 0 exactly when no habit has a completed date |
| HabitQueries.TotalCompletionsAppend | views/TodayView.tsx:26 | the total check-ins of two lists add up |
| HabitQueries.TotalCompletionsAtLeast | views/TodayView.tsx:26 | each habit's check-ins are part of the total |
| HabitQueries.TotalCompletionsFilter | views/ProgressView.tsx:125-126 | a selection of the habits has at most the total check-ins |
| TodayView.TodaysHabits | views/TodayView.tsx:17-18 | exactly the non-archived habits due today, in their order |
| TodayView.CompletedCount | views/TodayView.tsx:22 | at most the number of habits due |
| TodayView.CompletedCountSpec | views/TodayView.tsx:21-22 | the done count equals the running count, and it is all of them exactly when every habit is done |
| TodayView.Progress | views/TodayView.tsx:23 | 0 when nothing is due, in 0..100, 100 exactly when all are done, and the exact ratio |
| TodayView.Level | views/TodayView.tsx:26-27 | the level `r >= 1` of all check-ins: the total lies in 10(r-1) .. 10r-1 |
| TodayView.LevelProgress | views/TodayView.tsx:28 | the progress into a level is in 0..9 |
| TodayView.LevelDecomposition | views/TodayView.tsx:26-28 | level and progress together give back the total check-ins |
| TodayView.FilteredHabits | views/TodayView.tsx:32-34 | "All" keeps today's list, another tab exactly its category, in order |
| ProgressView.ActiveHabits | views/ProgressView.tsx:18-24 | exactly the non-archived habits of the selected category, or all of them for "All", in their order |
| ProgressView.DaysToLookBack | views/ProgressView.tsx:29-31 | 7, 30, 60 or 90 days, weekly exactly for the two long ranges |
| ProgressView.DailyBars | views/ProgressView.tsx:59-69 | one bar per day, oldest first, the last today, consecutive days; each counts the active habits completed on its day, at most all of them |
| ProgressView.NumWeeks | views/ProgressView.tsx:36 | `Math.ceil(n / 7)`: the fewest whole weeks covering `n` days |
| ProgressView.WeekTotalBound | views/ProgressView.tsx:41-48 | `k` days hold at most `k` check-ins per active habit |
| ProgressView.WeeklyBucketsShape | views/ProgressView.tsx:34-57 | `WeeklyBuckets` gives `ceil(n/7)` consecutive weeks, the last ending today, covering the range; each bar is labelled by its first day and counts the check-ins of its seven days, at most 7 per habit |
| ProgressView.WeeklyBars | views/ProgressView.tsx:34-57 | the nested loops with `unshift` produce the specified weeks |
| ProgressView.ComputeChartData | views/ProgressView.tsx:27-71 | weekly buckets for 60 and 90 days, daily bars for 7 and 30 |
| ProgressView.Intensity | views/ProgressView.tsx:87-88 | the share of active habits completed, 0 when none is active, in 0..1 |
| ProgressView.HeatmapShape | views/ProgressView.tsx:81-90 | `HeatmapGrid` has leading empty cells up to the first weekday, then each date of the month with the number of active habits completed on it and that number's share of the active habits as intensity, in 0..1 |
| ProgressView.HeatmapColumns | views/ProgressView.tsx:78-90 | every date cell sits in the column of its weekday |
| ProgressView.HeatmapCells | views/ProgressView.tsx:81-90 | the two push loops produce the specified grid |
| ProgressView.HeatmapData | views/ProgressView.tsx:74-96 | the heatmap of the current month |
| ProgressView.WeeklyTarget | views/ProgressView.tsx:108-110 | a weekly goal's value, else the number of custom days, else 7 |
| ProgressView.CompletionsSince | views/ProgressView.tsx:113 | at most the number of completed keys |
| ProgressView.CompletionsSinceDays | views/ProgressView.tsx:100-113 | with four-digit years the string comparison counts exactly the days on or after the week's start |
| ProgressView.WeekStartKeyCounts | views/ProgressView.tsx:100-113 | compared with the key of the Sunday starting the week of today, the completed keys counted are exactly the completed days from that Sunday on |
| ProgressView.WeeklyPercent | views/ProgressView.tsx:114 | in 0..100 for a positive target and 100 once reached; a zero target gives NaN without completions and 100 with some |
| ProgressView.StatFor | views/ProgressView.tsx:107-121 | a habit's figures: its own target, at most all its completions this week, a percentage in 0..100 for a positive target and 100 once the target is met |
| ProgressView.WeeklyHabitStats | views/ProgressView.tsx:107-122 | a permutation of the habits' statistics |
| ProgressView.WeeklyHabitStatsRanked | views/ProgressView.tsx:107-122 | each entry is an active habit with its own figures; without zero targets in non-increasing order |
| ProgressView.DayClick | views/ProgressView.tsx:128-133 | an empty cell or a future day keeps the selection; any other day becomes it |
| ProgressView.DayBreakdown | views/ProgressView.tsx:136-144 | completed and missed habits partition the active ones; the score is the rounded percentage of completed active habits, in 0..100, 0 for none, 100 for all |
| ProgressView.SelectedDateStats | views/ProgressView.tsx:135-145 | nothing without a selection, otherwise the breakdown of that day's key |
| ProgressView.ComputeAchievements | views/ProgressView.tsx:151-154 | First Step is unlocked exactly when some habit has a check-in |
| ProgressView.AchievementsNested | views/ProgressView.tsx:151-156 | Habit Master implies Dedicated implies First Step; On Fire implies three check-ins and First Step |
| Sorting.InsertBy | views/ProgressView.tsx:122 | insertion adds exactly the element |
| Sorting.SortBy | views/ProgressView.tsx:122 | the sort is a permutation |
| Sorting.SortByNoInversions | views/AddHabitView.tsx:79 | sorting a list in which no element must precede an earlier one leaves it unchanged |
| Sorting.SortByKeySorted | views/ProgressView.tsx:122 | a comparator that orders by a key gives a list sorted by that key |
| HabitDetailView.FindHabit | views/HabitDetailView.tsx:13 | the first habit with the selected id; none exactly when nothing is selected or no id matches |
| HabitDetailView.CalendarShape | views/HabitDetailView.tsx:22-24 | `CalendarGrid` has leading empty cells up to the first weekday, then each date in order |
| HabitDetailView.CalendarColumns | views/HabitDetailView.tsx:15-24 | every date sits in the column of its weekday |
| HabitDetailView.CalendarCellDate | views/HabitDetailView.tsx:24 | each date cell is the civil date the constructor names |
| HabitDetailView.CalendarDays | views/HabitDetailView.tsx:22-24 | the two push loops produce the specified grid |
| HabitDetailView.CalendarData | views/HabitDetailView.tsx:15-30 | the calendar of the current month |
| HabitDetailView.Target | views/HabitDetailView.tsx:43 | the first non-zero of `targetStreak` and the goal value, else 30; never 0 |
| HabitDetailView.ProgressPercent | views/HabitDetailView.tsx:42-44 | 0 without a goal (`HasGoal` false), at most 100, 100 exactly when the streak reaches a positive target, else the exact ratio |
| HabitDetailView.GoalReachedIffFull | views/HabitDetailView.tsx:144-158 | the "Goal Reached" banner (`GoalReachedShown`) shows exactly when the bar is full |
| HabitDetailView.Consistency | views/HabitDetailView.tsx:189 | the rounded percentage of check-ins against the month's days, within half of it with halves up; non-negative; at most 100 exactly when the check-ins do not exceed the month's days |
| HabitDetailView.CanInteractDays | views/HabitDetailView.tsx:210-219 | a day may be toggled (`CanInteract`) exactly when it is today and the habit is not archived |
| HabitDetailView.NoteToSend | views/HabitDetailView.tsx:46-50 | nothing for a blank note, otherwise the note untrimmed |
| HabitDetailView.HandleAddNote | views/HabitDetailView.tsx:46-50 | a blank note changes nothing; any other is added as an entry and the input clears |
| HabitDetailView.HandleArchive | views/HabitDetailView.tsx:52-61 | the archived flag flips; archiving, not restoring, returns to the today view |
| AddHabitView.HandleSubmit | views/AddHabitView.tsx:40-65 | no payload for a blank name; goal fields only with the goal enabled; custom days only for a custom frequency; the note trimmed or absent |
| AddHabitView.ApplySuggestion | views/AddHabitView.tsx:67-73 | the suggestion's five fields replace the form's, the rest stays |
| AddHabitView.ToggleDay | views/AddHabitView.tsx:75-81 | a selected day is removed everywhere; an unselected one is added once |
| AddHabitView.DigitOrder | views/AddHabitView.tsx:79 | the default string sort orders one-digit numbers numerically |
| AddHabitView.ToggleDayKeepsIncreasing | views/AddHabitView.tsx:75-81 | an increasing list of weekdays stays increasing |
| AddHabitView.ToggleDayTwice | views/AddHabitView.tsx:75-81 | toggling a day twice restores such a list |
| AddHabitView.ParseIntOrZero | views/AddHabitView.tsx:332 | `parseInt(value)` or else 0: NaN reads as 0, any number as itself |
| AddHabitView.GoalValueChanged | views/AddHabitView.tsx:331-335 | the parsed value becomes the goal value, and `targetStreak` too for a streak goal; nothing else changes |
| AddHabitView.StreakPresetChosen | views/AddHabitView.tsx:355 | a preset sets both the goal value and `targetStreak` |
| AddHabitView.GoalValueInput | views/AddHabitView.tsx:326-335 | typing a number's digits sets that goal; a cleared or non-numeric input sets 0 |

## Left out

- Rendering is not modelled: markup, styles, icons, animations and the text
  of labels.
- Locale-formatted strings are not modelled: the daily bars' weekday labels,
  the month names, the greeting and the date line.
- Time of day and time zones are not modelled. Days are whole local days, so
  `handleDayClick` comparing a cell's midnight with the current instant
  becomes `day <= today`.
- Persistence in `localStorage` and the JSON parsing of stored data are
  left out. The store's constructor takes the stored values as options.
  Toggling the page's `dark` class is also left out.
- Confirmation prompts are taken as answered yes.
- Identifiers generated with `Math.random` and timestamps from `new Date()`
  are inputs. `generateId` and `getRandomQuote` are not modelled because
  they are random. The constant tables are not modelled: colours, emojis,
  quotes, suggestions and categories.
- Floating point is not modelled. Ratios are exact rationals, and
  `Math.round` of a percentage is exact.
- The initial values of the Add Habit form (views/AddHabitView.tsx:20-38)
  are not modelled: a form is any `HabitForm`.
- The goal switch and goal-type buttons are not modelled; they are plain
  assignments.
- The detail view's call to `navigate('today')` when the selected habit is
  missing is not modelled; `FindHabit` returns none in that case.
- components/HabitCard.tsx, views/SettingsView.tsx,
  components/BottomNav.tsx and App.tsx are not part of this model. They are
  presentation and routing.
- JsText.ParseInt: reads decimal digits only. A `0x` prefix, which
  `parseInt` reads as hexadecimal, gives 0 here. Numbers too large for a
  double are exact.
- ProgressView.WeeklyHabitStatsRanked: the order is stated only when no
  habit has a zero weekly target. A `NaN` percentage makes the comparator
  inconsistent, and the result then depends on the engine's sort algorithm.
- HabitDetailView.ProgressPercent: for a negative target only the upper
  bound of 100 is stated.
- AddHabitView.ToggleDayTwice: stated for increasing lists of weekdays only.
  Such a list is what the picker starts from, and
  `ToggleDayKeepsIncreasing` shows it stays one together with the string
  sort. For an unsorted list such as `[3, 1]`, toggling 2 twice gives
  `[1, 3]`.
- Utils.FormatDateKeyOrder: the order is stated for years 1000 to 9999
  only, where keys have one width. For other years the string order of keys
  is not chronological.
- The store's `addJournalEntry` does not itself check for blank content. The
  detail view's handler is the one that checks.
