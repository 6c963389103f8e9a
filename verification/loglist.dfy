/** The history list (`components/LogList.tsx`): rows newest first, the
    calorie colour and the "perfect day" mark of each row, the expanded
    row, and the fields that flash after an edit. */
module LogList {
  import opened Types
  import opened LogOrder
  import opened Badges

  /** `[...logs].sort((a, b) => b.date.localeCompare(a.date))`. */
  function Rows(logs: seq<DailyLog>): (rows: seq<DailyLog>)
    ensures SortedDesc(rows) && multiset(rows) == multiset(logs)
  {
    SortDesc(logs)
  }

  /** The rows are the logged entries, each shown once, newest first; with
      one entry per day no day appears twice. */
  lemma RowsAreHistory(logs: seq<DailyLog>)
    ensures |Rows(logs)| == |logs|
    ensures forall l :: l in Rows(logs) <==> l in logs
    ensures forall i, j :: 0 <= i < j < |Rows(logs)| ==> Rows(logs)[i].date >= Rows(logs)[j].date
    ensures UniqueDates(logs) ==> UniqueDates(Rows(logs))
  {
    SortKeepsMembers(logs);
    if UniqueDates(logs) {
      SortKeepsUniqueDates(logs);
    }
  }

  datatype RowColor = NeonText | RedText

  /** The calories cell: neon within the 150 kcal buffer or without goals, red otherwise. */
  function CalorieColor(goals: Option<UserGoals>, l: DailyLog): (c: RowColor)
  {
    if goals.Some? then (if l.calories <= goals.value.calories + 150.0 then NeonText else RedText)
    else NeonText
  }

  /** `metBothGoals`: goals set, calories within the buffer, protein reached. */
  predicate MetBothGoals(goals: Option<UserGoals>, l: DailyLog)
  {
    goals.Some? && l.calories <= goals.value.calories + 150.0 && l.protein >= goals.value.protein
  }

  /** The calorie colour is neon exactly when there are no goals or the day
      counts toward the calorie streak. */
  lemma CalorieColorIsStreakTest(goals: Option<UserGoals>, l: DailyLog)
    ensures CalorieColor(goals, l) == NeonText <==> goals.None? || Meets(CalorieGoal, goals.value, l)
  {
  }

  /** A perfect day is one that counts toward both streaks. */
  lemma PerfectDayIsBothStreakTests(goals: Option<UserGoals>, l: DailyLog)
    ensures MetBothGoals(goals, l)
      <==> goals.Some? && Meets(ProteinGoal, goals.value, l) && Meets(CalorieGoal, goals.value, l)
  {
  }

  /** A perfect day always shows its calories in neon. */
  lemma PerfectDayIsNeon(goals: Option<UserGoals>, l: DailyLog)
    requires MetBothGoals(goals, l)
    ensures CalorieColor(goals, l) == NeonText
  {
  }

  /** `toggleRow(date)`: collapse the row if it is the open one, open it otherwise. */
  function ToggleRow(expanded: Option<Day>, date: Day): (r: Option<Day>)
    ensures r == Some(date) <==> expanded != Some(date)
    ensures r.None? <==> expanded == Some(date)
  {
    if expanded == Some(date) then None else Some(date)
  }

  /** Toggling the same row twice restores the previous state exactly when
      nothing, or that very row, was open. */
  lemma ToggleTwice(expanded: Option<Day>, date: Day)
    ensures ToggleRow(ToggleRow(expanded, date), date) == expanded <==> expanded.None? || expanded == Some(date)
  {
  }

  /** `shouldFlash(logDate, fieldName)`. */
  predicate ShouldFlash(initialExpanded: Option<Day>, highlighted: seq<LogField>, rowDate: Day, f: LogField)
  {
    initialExpanded == Some(rowDate) && f in highlighted
  }

  /** Only the row that was opened on arrival can flash. */
  lemma FlashOnlyOnOpenedRow(initialExpanded: Option<Day>, highlighted: seq<LogField>, a: Day, b: Day, f: LogField, g: LogField)
    requires ShouldFlash(initialExpanded, highlighted, a, f) && ShouldFlash(initialExpanded, highlighted, b, g)
    ensures a == b
  {
  }
}
