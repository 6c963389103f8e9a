# DolevTrack derived metrics, in Dafny

DolevTrack is a client-side nutrition tracker. A user logs one entry per
day: weight, protein, fat, carbs and calories. They also set daily goals.
This project models the logic that turns that history into what the
screens show, and proves properties of it:

- **Streak engine** (`badges.dfy`). It walks the newest-first history and
  counts the protein and calorie streaks. It also decides which milestone
  badges are unlocked.
- **Weekly figures** (`charts.dfy`). This covers:
  - the Sunday-to-Saturday week window and the week before it;
  - the calorie and macro totals against the goal × 7;
  - the clamped and unclamped percentages;
  - the gauge colour and its end angle;
  - the week-over-week mean weight and the trend arrow.
- **Entry form** (`trackerform.dfy`). This covers:
  - the three-band colour classifiers;
  - the automatic calorie figure, round(4p + 4c + 9f);
  - the duplicate-date error and required-field validation;
  - submission, and the search for the first free date.
- **History list** (`loglist.dfy`). This covers the descending order, the
  calorie colour, the "perfect day" mark, the expanded row and which
  fields flash.
- **Application state** (`app.dfy`). This covers:
  - save as overwrite-by-date, and delete-by-date;
  - the changed-fields diff of an edit;
  - the tab and dialog decisions, and the initial tab after loading;
  - the demo history that promises a 100-day streak on both goals.
- **Date picker calendar** (`calendar.dfy`). This covers:
  - the month length and the first weekday;
  - month stepping with the year carry;
  - the `YYYY-MM-DD` string a click emits, and reading it back;
  - the "has data" dot and the grid layout.

How the model represents the source's values:

- Dates are day numbers, in module `Gregorian`. Day 0 is 0001-01-01 in the
  proleptic Gregorian calendar.
- The `YYYY-MM-DD` strings the source stores and compares are produced by
  `DateText.DateString`.
- String comparison is `DateText.LexLess`. `DateText.DateStringOrder`
  proves it agrees with day order for four-digit years. The source relies
  on this in every filter and sort.
- Amounts are exact reals.
- `Math.round` on the values that occur is `floor(x + 1/2)`, written as
  `Types.Round`.
- `Math.random()`, the clock and the browser's storage become parameters.

Two details of the weekly balances follow the source exactly:

- The source clamps the display percentage only from above
  (`Math.min(100, …)`, components/Charts.tsx:74). `Charts.MakeBalance`
  therefore promises a non-negative percentage only for a non-negative
  amount.
- The source divides by the weekly goal without a zero check. The model
  requires goals greater than zero wherever it divides.

## Model

| member | source | states |
|---|---|---|
| Badges.StreakCounts | components/Badges.tsx:37-38 | Without goals or without entries both streaks are 0. A non-zero streak needs the newest sorted entry to meet that streak's goal. |
| Badges.CalculateStreakLoop | components/Badges.tsx:47-84 | The statement-by-statement `for` loop returns the same count as the recursive walk `Badges.CalculateStreak`. The loop has `lastDate`, a `break` on a gap or a miss, and a `continue` on a same-day entry. |
| Badges.StreakStopsAtBreak | components/Badges.tsx:64-80 | Suppose an entry is exactly one day back and misses the goal, or is more than one day back. Then nothing after it in the sorted list affects the streak. |
| Badges.StreakSkipsDuplicate | components/Badges.tsx:76-77 | An entry on the same day as the one before it is skipped. Deleting it leaves the streak unchanged. |
| Badges.LatestMissGivesZero | components/Badges.tsx:57-63 | If no entry of the newest day meets the goal, the streak is 0 whatever the older history holds. |
| Badges.StreakBound | components/Badges.tsx:47-84 | A streak never exceeds the number of distinct logged days, which never exceeds the number of entries. |
| Badges.StreakIsRun | components/Badges.tsx:43-83 | With one entry per day, the streak is k exactly when this holds: each of the k days ending at the newest logged day has an entry meeting the goal, and the day before them has none. Protein means protein ≥ goal; calories means calories ≤ goal + 150. |
| Badges.RunGivesStreak | components/Badges.tsx:43-83 | The converse: such a run of k days ending at the newest logged day forces the streak to be k. |
| Badges.StreakIsRunLength | components/Badges.tsx:43-83 | With one entry per day, the streak equals the length of the unbroken run of goal-meeting days counted back from the newest logged day. |
| Badges.SameEntriesSameStreak | components/Badges.tsx:40 | Two one-entry-per-day histories with the same entries have the same streak. |
| Badges.StreaksIgnoreOrder | components/Badges.tsx:40 | With one entry per day, the streaks do not depend on the order in which the entries are stored. |
| Badges.UnlockedBadgesFormPrefix | components/Badges.tsx:102 | The unlocked badges always form a prefix of the row, because the milestones 1, 10, 30, 50, 70, 100 ascend; unlocking means the streak has reached the badge's milestone. |
| Badges.ThreeGoodDays | components/Badges.tsx:43-84 | Three consecutive days with 160 g protein and 1900 kcal, against goals 2000 kcal / 150 g, give both streaks 3. |
| Badges.CalorieBreakAfterNewest | components/Badges.tsx:69-75 | Four consecutive days whose second newest is 2200 kcal give a calorie streak of 1. |
| Badges.GapEndsStreak | components/Badges.tsx:66-80 | Days D, D−1 and D−3 that all meet the goal give a streak of 2: the missing day D−2 ends it. |
| LogOrder.SortDesc | components/Badges.tsx:40 | The newest-first sort returns a permutation of its input, ordered by non-increasing day. |
| LogOrder.SortedHeadIsLatest | components/Badges.tsx:50 | The first entry of the sorted copy is one of the entries and carries the newest day. |
| LogOrder.SortKeepsUniqueDates | components/LogList.tsx:39 | Sorting a history with one entry per day keeps one entry per day. |
| DateText.DateStringOrder | components/Charts.tsx:60 | For days with four-digit years, string order on `YYYY-MM-DD` is day order, and two such strings are equal exactly when their days are. |
| DateText.IsoStringOrder | components/Charts.tsx:60 | On valid dates with four-digit years, string order of the zero-padded text is date order, and the text is injective. |
| DateText.PaddedDecimalValue | components/Calendar.tsx:42-43 | `String(n).padStart(w, '0')` is all digits and reads back as n. |
| Charts.CurrentWeek | components/Charts.tsx:41-50 | The week starts on a Sunday no later than today, and ends six days later, on or after today. |
| Charts.CurrentWeekUnique | components/Charts.tsx:41-46 | Only one Sunday-started seven-day span holds today: the current week. |
| Charts.PreviousWeekAdjacent | components/Charts.tsx:104-107 | The previous week starts on a Sunday, spans seven days and ends the day before the current week starts. |
| Charts.WindowIsDayRange | components/Charts.tsx:60 | The string filter `date >= startStr && date <= endStr` keeps exactly the entries dated within the window, in their order. |
| Charts.TotalAppend | components/Charts.tsx:63-66 | The `reduce` sum of a concatenation is the sum of the parts' sums. |
| Charts.RawPercentAbove100 | components/Charts.tsx:81 | The unclamped rounded percentage exceeds 100 exactly when the amount reaches 100.5% of the weekly goal. |
| Charts.MakeBalance | components/Charts.tsx:69-96 | The weekly target is the daily goal × 7. The unclamped percentage is 100 × amount / target rounded to the nearest whole number. The display percentage never exceeds 100: it equals the unclamped one, or it is 100 while the unclamped one is above 100. |
| Charts.GetWeeklyStats | components/Charts.tsx:53-98 | The weekly stats are absent exactly when the goals are. When present, each nutrient's target is its daily goal × 7. |
| Charts.WeeklyStatsCoverWeek | components/Charts.tsx:56-96 | Each nutrient's balance is `Charts.MakeBalance` of the sum over exactly the entries dated Sunday to Saturday of this week, against that nutrient's daily goal; so its percentage is that week's sum as a rounded share of the goal × 7. |
| Charts.EmptyWeekBalances | components/Charts.tsx:60-98 | A week with no entries shows, for every nutrient, 0 eaten, the goal × 7 as target and 0 percent. |
| Charts.GaugeRedThreshold | components/Charts.tsx:142 | The gauge is red exactly when the week's calories reach 100.5% of the weekly calorie goal. |
| Charts.ProgressEndAngle | components/Charts.tsx:150-152 | The angle is 180 without stats, and 0 once the percentage reaches 100. It lies in [0, 180] when the percentage does. |
| Charts.EndAngleOnHalfCircle | components/Charts.tsx:150-152 | With no negative amounts logged, the gauge's end angle lies in [0, 180]. |
| Charts.WeighedIsDayRange | components/Charts.tsx:116-120 | The weight filter keeps exactly the entries of the window that record a weight above 0. |
| Charts.AverageWeight | components/Charts.tsx:115-125 | The mean weight is 0 exactly when no entry in the window records a weight. Otherwise it lies between the least and the greatest recorded weight, so it is positive. |
| Charts.MeanWithinRange | components/Charts.tsx:123-124 | The mean of positive weights lies between their minimum and their maximum. |
| Charts.GetWeightStats | components/Charts.tsx:102-135 | The stats hold the current week's mean, the previous week's mean and their difference. |
| Charts.TrendArrow | components/Charts.tsx:324-338 | The arrow is shown iff both weekly means are positive. It points down iff the current mean is lower, up iff it is higher, and is flat iff they are equal. |
| Charts.ArrowNeedsBothWeeks | components/Charts.tsx:324 | The arrow is shown exactly when both this week and last week have an entry that records a weight. |
| Charts.WeightChangeExample | components/Charts.tsx:102-135 | Weights 80 and 82 this week and 85 last week give a mean of 81 against 85, a difference of −4. |
| TrackerForm.MacroColor | components/TrackerForm.tsx:126-133 | Carbs and fat: plain without goals. Otherwise green up to the goal, orange up to 10 g over it, red beyond. |
| TrackerForm.ProteinColor | components/TrackerForm.tsx:136-147 | Protein: plain without goals. Otherwise green from the goal up, orange from 30 g below it, red below that. |
| TrackerForm.CalorieStatus | components/TrackerForm.tsx:149-157 | Green with a flame up to the goal, orange with a neutral face up to 150 kcal over it, red with a frown beyond. The colour and the icon always agree. |
| TrackerForm.MacroColorMonotone | components/TrackerForm.tsx:126-133 | More carbs or fat never gives a better colour. |
| TrackerForm.ProteinColorMonotone | components/TrackerForm.tsx:136-147 | More protein never gives a worse colour. |
| TrackerForm.CalorieStatusMonotone | components/TrackerForm.tsx:149-157 | More calories never give a better status. |
| TrackerForm.CalorieStatusMatchesStreak | components/TrackerForm.tsx:149-157 | The calorie status is not red exactly when the day counts toward the calorie streak. |
| TrackerForm.ProteinColorMatchesStreak | components/TrackerForm.tsx:144 | Protein shows green exactly when the day counts toward the protein streak. |
| TrackerForm.ProteinExamples | components/TrackerForm.tsx:144-146 | With a protein goal of 150, 125 g is orange and 119 g is red. |
| TrackerForm.MacroCalories | components/TrackerForm.tsx:65 | The calorie figure is the integer nearest to 4p + 4c + 9f, with halves rounded up. |
| TrackerForm.UpdateForm | components/TrackerForm.tsx:57-89 | Each change stores its value. A change to protein, carbs or fat recomputes calories from the macros, with blanks read as 0; a weight change keeps calories. After a date change, the date error is present iff the date is logged and is not the edited entry's date. Another input's change clears that input's error and keeps every other error, including a pending date error. |
| TrackerForm.UpdateKeepsCaloriesFollowing | components/TrackerForm.tsx:57-66 | Once calories match the macros, every further change keeps them matched. |
| TrackerForm.MacroOrderIrrelevant | components/TrackerForm.tsx:57-66 | Typing protein then fat, or fat then protein, gives the same calorie figure. |
| TrackerForm.RequireAllCorrect | components/TrackerForm.tsx:96-101 | The five required-field checks keep every earlier error. They add "required" for exactly the empty date and the blank inputs, and nothing else. |
| TrackerForm.Validate | components/TrackerForm.tsx:95-104 | Validation passes iff the resulting error record is empty. The record holds the earlier errors plus one per missing field. |
| TrackerForm.ValidIffClean | components/TrackerForm.tsx:95-104 | Validation passes exactly when no error was pending and nothing is missing. |
| TrackerForm.Submit | components/TrackerForm.tsx:106-121 | An entry is handed on iff no error is pending and nothing is missing. It carries the form's date and values. A pending date error leaves the form untouched. |
| TrackerForm.EditRoundTrip | components/TrackerForm.tsx:42-44 | Submitting an edit form unchanged hands back the entry it was opened with. |
| TrackerForm.NewFormNeedsValues | components/TrackerForm.tsx:45-48 | A fresh form cannot be submitted. It reports "required" for exactly the four inputs. |
| TrackerForm.FirstAvailableDate | components/TrackerForm.tsx:25-35 | The result is the first day from today onward that is not logged, within 365 days. If all 365 are logged it is today. |
| TrackerForm.InitialForm | components/TrackerForm.tsx:41-50 | The form opens on the edited entry, or else blank on the first available date. |
| LogList.RowsAreHistory | components/LogList.tsx:39 | The rows are the logged entries, each shown once, newest first. With one entry per day no day appears twice. |
| LogList.CalorieColorIsStreakTest | components/LogList.tsx:86-90 | The calorie cell is neon exactly when there are no goals or the day counts toward the calorie streak. |
| LogList.PerfectDayIsBothStreakTests | components/LogList.tsx:93 | A perfect day is exactly a day with goals that counts toward both streaks. |
| LogList.PerfectDayIsNeon | components/LogList.tsx:86-93 | A perfect day always shows its calories in neon. |
| LogList.ToggleRow | components/LogList.tsx:41-47 | Toggling opens the row unless it was the open one, in which case nothing stays open. |
| LogList.ToggleTwice | components/LogList.tsx:41-47 | Toggling a row twice restores the previous state exactly when nothing, or that row, was open. |
| LogList.FlashOnlyOnOpenedRow | components/LogList.tsx:50-52 | A field flashes only on the row opened on arrival, so two flashing fields are on the same row. |
| App.WithoutDate | App.tsx:158 | The filter keeps exactly the entries of other days. Its length drops by the number of entries of that day. |
| App.WithoutDateAppend | App.tsx:158 | The filter keeps the order: it distributes over concatenation. |
| App.SaveLogs | App.tsx:156-160 | After a save the length is the old length + 1 − the old count of that day. The new entry is last and is the only entry of its day. Entries of other days are unchanged. |
| App.SaveLeavesOneEntryForDay | App.tsx:156-160 | After a save exactly one entry carries the saved day. |
| App.SaveKeepsUniqueDates | App.tsx:156-160 | A history with at most one entry per day keeps that property after a save. |
| App.WithoutDateKeepsUnique | App.tsx:216 | Deleting a day keeps the history at one entry per day. |
| App.ChangedFields | App.tsx:144-154 | The diff lists exactly the fields whose values differ, in the order weight, protein, carbs, fat, calories. |
| App.TabEffect | App.tsx:66-72 | When the tab changes to anything but history, the expanded row and the highlights are cleared and every other field is kept. Otherwise nothing changes. |
| App.HandleSaveLog | App.tsx:143-174 | A save applies `App.SaveLogs`, stops editing and shows a toast. An edit opens the history on the saved day with the changed fields highlighted. A new entry goes to the statistics, with the history view cleared if the tab changed. The goals and both dialogs are unchanged. |
| App.EditSaveFlashesChanges | App.tsx:164-168 | After saving an edit, a field flashes iff it is on the saved day's row and the edit changed it. |
| App.EditToOtherDayKeepsOld | App.tsx:156-160 | An edit saved under a different day keeps the entry of the old day and adds the new one. |
| App.HandleSaveGoals | App.tsx:176-188 | The goals are stored. With no entries the first-log prompt opens and the tab and toast stay; otherwise the statistics are shown with a toast. The edit and the delete dialog are unchanged. |
| App.StartFirstLog | App.tsx:190-193 | The prompt closes and the entry form opens. The goals, the edit, the toast and the delete dialog are unchanged. |
| App.SkipFirstLog | App.tsx:195-199 | The prompt closes and the statistics are shown with a toast. The goals, the edit and the delete dialog are unchanged. |
| App.HandleEdit | App.tsx:201-205 | The chosen entry is being edited and the entry form is shown. The goals, the toast and both dialogs are unchanged. |
| App.HandleDeleteRequest | App.tsx:208-210 | The confirmation dialog opens for the chosen day and nothing else changes. |
| App.ConfirmDelete | App.tsx:213-225 | Every entry of the chosen day is removed and the others are kept in order. The edit is dropped iff it was for that day, and the dialog closes. With no chosen day only the dialog closes. The tab, the goals, the first-log prompt and the history view are unchanged. |
| App.ChangeTab | App.tsx:371-374 | The tab switches. Editing stops unless the new tab is the entry form, which keeps the same edit. Leaving for a tab other than history clears the expanded row and the highlights. The goals, the toast and both dialogs are unchanged. |
| App.Load | App.tsx:97-127 | Stored entries that parse are adopted. Stored goals are adopted when they parse and the entries did not fail to parse; otherwise the goals are unchanged. The tab is goals exactly when nothing fails to parse and no entries were stored; otherwise it is statistics. |
| App.FirstVisitGoesToGoals | App.tsx:115-116 | A first visit, with no stored entries, lands on the goals tab. |
| App.RoundTenth | App.tsx:254 | The weight is rounded to within half a tenth of the drawn value. |
| App.DemoLog | App.tsx:245-267 | Demo entry i is dated i days before today. With draws in [0, 1), calories lie in (goal − 101, goal] and protein in (goal − 1, goal + 20]. |
| App.DemoLogs | App.tsx:245-268 | The demo history holds 100 entries on the consecutive days ending today, oldest first. |
| App.LoadDemoData | App.tsx:227-273 | The existing goals are kept, or the defaults 2000/150/200/60 are set. The history is replaced by the demo history, and the badges tab opens with a toast. The edit and both dialogs are unchanged. |
| App.DemoDaysDistinct | App.tsx:245-248 | The demo days are distinct and the newest is today. |
| App.DemoDayMeetsGoals | App.tsx:250-258 | Every demo day stays within the calorie goal and records a positive weight. With a whole-number protein goal it also reaches that goal. |
| App.DemoStreaksAre100 | App.tsx:243-271 | With a whole-number protein goal, both streaks of the demo history are 100 for any draws in [0, 1). |
| App.DemoStreakIs100 | App.tsx:243-271 | The demo calorie streak is 100 for any goals. The protein streak is 100 when the protein goal is a whole number. |
| App.DemoLoadGivesPerfectStreaks | App.tsx:227-273 | Loading the demo without goals of one's own gives two 100-day streaks. |
| App.DemoFractionalProteinGoal | App.tsx:257 | With a protein goal of 150.5 and all draws 0, the demo's protein streak is 0, not 100. |
| App.StepKeepsInvariants | App.tsx:143-273 | Every handler keeps one entry per day. Outside the history tab, every handler keeps nothing expanded or highlighted. |
| App.InitialInvariants | App.tsx:97-127 | The state before loading satisfies both invariants. |
| Calendar.NewMonth | components/Calendar.tsx:18 | `new Date(y, m, 1)` lands in the month m months after January of year y, with the month index carried into the year. |
| Calendar.DaysInMonthIsGregorian | components/Calendar.tsx:21-23 | `getDaysInMonth` is the Gregorian length of the displayed month: 28 to 31, and 29 exactly for February of a leap year. |
| Calendar.GetFirstDayOfMonth | components/Calendar.tsx:25-27 | The first weekday is in 0..6, with Sunday as 0. |
| Calendar.FirstOfMonthIsDayOne | components/Calendar.tsx:25-27 | The first of the displayed month is day 1 of that month in the year `new Date` reads. From year 100 on that is the displayed year; for years 1 to 99 it is 1900 + y, so the header "December 99" shows the grid of December 1999. |
| Calendar.NextMonthFirstDay | components/Calendar.tsx:25-37 | The next month starts on the weekday after this month's last day. |
| Calendar.StepsAreOneMonth | components/Calendar.tsx:32-38 | The arrows move exactly one month, carrying December into January of the next year and back. |
| Calendar.StepsUndoEachOther | components/Calendar.tsx:32-38 | Forward then back, or back then forward, returns to the same month. |
| Calendar.DayClickIsCanonical | components/Calendar.tsx:40-46 | For a four-digit year, the clicked string is the stored form of the clicked day. |
| Calendar.DayClickIsIsoString | components/Calendar.tsx:40-46 | The clicked string is the zero-padded `YYYY-MM-DD` text of (year, month, day). |
| Calendar.DayClickParts | components/Calendar.tsx:40-52 | The clicked string splits on `-` into three parts that read back as the year, the month and the day. |
| Calendar.ClickSelectsExactlyThatDay | components/Calendar.tsx:40-52 | After a click, the displayed month marks as selected exactly the clicked day. |
| Calendar.ClickSelectsOnlyInItsMonth | components/Calendar.tsx:40-52 | A click in one month selects no day of any other month. |
| Calendar.LoggedDates | components/Calendar.tsx:61-66 | The set of date strings holds exactly the strings of the logged days. |
| Calendar.HasDataIffLogged | components/Calendar.tsx:61-67 | For displayed years 1000 to 9999, the dot under a day appears exactly when some entry is for that day. |
| Calendar.ShortYearShowsNoDot | components/Calendar.tsx:40-67 | Below year 1000 the click text writes the year without padding. It is then shorter than every stored date string, so no dot ever shows. |
| Calendar.TodayIsOneDay | components/Calendar.tsx:54-59 | At most one day of a displayed month is today, and only in today's month. |
| Calendar.InitialView | components/Calendar.tsx:12-19 | The calendar opens on the month of the selected date, rebuilt with `new Date(year, month, 1)` so that years 0 to 99 read as 1900 to 1999. With no selected date it opens on today's month. |
| Calendar.TwoDigitYearOpensIn1900s | components/Calendar.tsx:18 | A selected date in years 1 to 99 opens the calendar in the same month of year 1900 + y. |
| Calendar.InitialViewValid | components/Calendar.tsx:12-19 | The opening view is a valid month. |
| Calendar.ReopenShowsPickedMonth | components/Calendar.tsx:12-46 | Reopening the calendar on a day picked from it shows that month in the year `new Date` read. From year 100 on this is the same view; for years 1 to 99 it is the same month of 1900 + y. |
| Calendar.RenderDays | components/Calendar.tsx:69-116 | The grid has 7 headers, `firstDay` blanks and `daysInMonth` buttons. |
| Calendar.GridLayout | components/Calendar.tsx:69-116 | Day d sits in its weekday's column, the grid has at most 7 + 42 cells, and day d shows a dot iff it is not selected and has data. |

## Left out

- Rendering is not modelled: JSX, charts, animation, icons and colour class strings. Colours and icons are small enumerations.
- Persistence (`localStorage`, `JSON.parse` and `stringify`), theme handling, scrolling, image preloading and toast timers are not modelled: they are I/O and timers. `App.Load` takes what storage held as a parameter that is missing, corrupt or a value.
- CSV export is not modelled: it is download plumbing, and its text depends on JavaScript's number formatting.
- Time zones are not modelled. The local-versus-UTC mix of `getLocalISODate` and `toISOString` is out, and so is parsing date strings with `new Date(string)`. `Calendar.InitialView` takes the parsed day, or none when the string is empty or invalid.
- The clock is a parameter (`today`).
- `Math.random()` draws are parameters. `App.ValidDraws` asks for values in [0, 1).
- Floating point is not modelled. Amounts are exact reals, so IEEE rounding and `0.1 + 0.2`-style effects are out. `toFixed(1)` is `App.RoundTenth`, which rounds halves up.
- Locale formatting for display (`toLocaleDateString`, `toFixed` in labels) is not modelled.
- React's effect and memo scheduling is not modelled. Each handler is one state transition, followed by the tab effect.
- Charts.GetWeeklyStats: requires goals greater than zero. With a zero goal the source divides by zero and shows `Infinity` or `NaN`.
- Charts.MakeBalance: promises a non-negative percentage only for a non-negative amount, because the source does not clamp from below.
- DateText.DateStringOrder: holds for years 1000 to 9999 only. Outside that range `YYYY-MM-DD` is not fixed-width, so string order and day order can differ.
- Charts.WindowIsDayRange: holds for years 1000 to 9999 only, for the same reason.
- Calendar.DayClickIsCanonical: holds for years 1000 to 9999 only, for the same reason.
- Calendar.HasDataIffLogged: holds for displayed years 1000 to 9999 only. Below 1000, `Calendar.ShortYearShowsNoDot` proves no dot shows; years above 9999 are not modelled.
- Calendar.StepsAreOneMonth: proved from year 100 on. For years 0 to 99, `new Date(y, …)` means 1900 to 1999. `Calendar.JsYear` models that rule, but stepping is not proved there.
- Calendar.StepsUndoEachOther: proved from year 100 on, for the same reason.
- Calendar.IsSelected: reads each part of the selected string as `Number` does for digit strings; any other part reads as NaN. Signs, spaces and exponents in a hand-edited date string are not modelled.
- TrackerForm.NumberOf: an input is blank or a number. Text that `Number` reads as NaN cannot come from a numeric input.
- App.DemoStreaksAre100: requires a whole-number protein goal. With a fractional goal, `Math.floor(goal + r * 20)` can fall below it, as `App.DemoFractionalProteinGoal` shows. The goal form's whole-number inputs make this case unreachable from the interface.
- The goal form, date picker wrapper, dialog, toast, navigation bar and other presentational components are not part of this model. Their behaviour enters only as the handlers they call.
