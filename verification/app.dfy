/** The application state and its handlers (`App.tsx`): saving and
    deleting entries, the edit diff that drives the history highlights,
    the goals flow, tab changes with their clean-up effect, the tab chosen
    on load, and the demo history. Storage, toasts' timers and scrolling
    are outside the model; the toast is kept as the message it shows. */
module App {
  import opened Types
  import opened LogOrder
  import opened Badges
  import opened LogList

  datatype Tab = EntryTab | HistoryTab | StatsTab | GoalsTab | BadgesTab

  datatype Toast = LogSaved | GoalsUpdated | GoalsSaved | EntryDeleted | DemoLoaded

  datatype DeleteModal = DeleteModal(isOpen: bool, date: Option<Day>)

  datatype AppState = AppState(
    logs: seq<DailyLog>,
    goals: Option<UserGoals>,
    editing: Option<DailyLog>,
    tab: Tab,
    toast: Option<Toast>,
    expanded: Option<Day>,
    highlighted: seq<LogField>,
    deleteModal: DeleteModal,
    firstLogModal: bool)

  // ---------------------------------------------------------------------
  // The collection

  /** How many entries carry day `d`. */
  function CountDate(logs: seq<DailyLog>, d: Day): (n: nat)
    ensures n <= |logs|
    ensures n == 0 <==> forall l :: l in logs ==> l.date != d
  {
    if |logs| == 0 then 0
    else
      assert forall l :: l in logs <==> l == logs[0] || l in logs[1..];
      (if logs[0].date == d then 1 else 0) + CountDate(logs[1..], d)
  }

  /** `logs.filter(l => l.date !== d)`. */
  function WithoutDate(logs: seq<DailyLog>, d: Day): (r: seq<DailyLog>)
    ensures forall l :: l in r <==> l in logs && l.date != d
    ensures |r| == |logs| - CountDate(logs, d)
  {
    if |logs| == 0 then []
    else
      assert forall l :: l in logs <==> l == logs[0] || l in logs[1..];
      (if logs[0].date == d then [] else [logs[0]]) + WithoutDate(logs[1..], d)
  }

  /** Filtering keeps the order: it distributes over concatenation. */
  lemma {:induction false} WithoutDateAppend(a: seq<DailyLog>, b: seq<DailyLog>, d: Day)
    ensures WithoutDate(a + b, d) == WithoutDate(a, d) + WithoutDate(b, d)
    decreases |a|
  {
    if |a| > 0 {
      assert (a + b)[1..] == a[1..] + b;
      WithoutDateAppend(a[1..], b, d);
    } else {
      assert a + b == b;
    }
  }

  /** A history without an entry for `d` comes through untouched. */
  lemma {:induction false} WithoutAbsentDate(logs: seq<DailyLog>, d: Day)
    requires CountDate(logs, d) == 0
    ensures WithoutDate(logs, d) == logs
    decreases |logs|
  {
    if |logs| > 0 {
      WithoutAbsentDate(logs[1..], d);
      assert logs == [logs[0]] + logs[1..];
    }
  }

  /** Overwrite-by-date: drop the entries of the new entry's day, append it. */
  function SaveLogs(logs: seq<DailyLog>, newLog: DailyLog): (r: seq<DailyLog>)
    ensures |r| == |logs| + 1 - CountDate(logs, newLog.date)
    ensures r[|r| - 1] == newLog
    ensures forall l :: l in r && l.date == newLog.date ==> l == newLog
    ensures forall l: DailyLog :: l.date != newLog.date ==> (l in r <==> l in logs)
  {
    WithoutDate(logs, newLog.date) + [newLog]
  }

  /** After a save exactly one entry carries the saved day. */
  lemma SaveLeavesOneEntryForDay(logs: seq<DailyLog>, newLog: DailyLog)
    ensures CountDate(SaveLogs(logs, newLog), newLog.date) == 1
  {
    var w := WithoutDate(logs, newLog.date);
    CountAppend(w, [newLog], newLog.date);
  }

  lemma {:induction false} CountAppend(a: seq<DailyLog>, b: seq<DailyLog>, d: Day)
    ensures CountDate(a + b, d) == CountDate(a, d) + CountDate(b, d)
    decreases |a|
  {
    if |a| > 0 {
      assert (a + b)[1..] == a[1..] + b;
      CountAppend(a[1..], b, d);
    } else {
      assert a + b == b;
    }
  }

  /** At most one entry per day before a save, at most one after. */
  lemma SaveKeepsUniqueDates(logs: seq<DailyLog>, newLog: DailyLog)
    requires UniqueDates(logs)
    ensures UniqueDates(SaveLogs(logs, newLog))
  {
    var w := WithoutDate(logs, newLog.date);
    WithoutDateKeepsUnique(logs, newLog.date);
    var r := w + [newLog];
    forall i, j | 0 <= i < j < |r|
      ensures r[i].date != r[j].date
    {
      if j == |r| - 1 {
        assert r[i] in w;
      } else {
        assert r[i] == w[i] && r[j] == w[j];
      }
    }
  }

  lemma {:induction false} WithoutDateKeepsUnique(logs: seq<DailyLog>, d: Day)
    requires UniqueDates(logs)
    ensures UniqueDates(WithoutDate(logs, d))
    decreases |logs|
  {
    if |logs| > 0 {
      WithoutDateKeepsUnique(logs[1..], d);
      var t := WithoutDate(logs[1..], d);
      forall k | 0 <= k < |t|
        ensures t[k].date != logs[0].date
      {
        assert t[k] in logs[1..];
        var j :| 0 <= j < |logs[1..]| && logs[1..][j] == t[k];
        assert logs[j + 1] == t[k];
      }
    }
  }

  // ---------------------------------------------------------------------
  // The edit diff

  /** The fields an edit changed, in the order weight, protein, carbs, fat, calories. */
  function ChangedFields(before: DailyLog, after: DailyLog): (fs: seq<LogField>)
    ensures forall f :: f in fs <==> FieldOf(before, f) != FieldOf(after, f)
    ensures forall i, j :: 0 <= i < j < |fs| ==> FieldRank(fs[i]) < FieldRank(fs[j])
  {
    (if before.weight != after.weight then [Weight] else [])
    + (if before.protein != after.protein then [Protein] else [])
    + (if before.carbs != after.carbs then [Carbs] else [])
    + (if before.fat != after.fat then [Fat] else [])
    + (if before.calories != after.calories then [Calories] else [])
  }

  // ---------------------------------------------------------------------
  // Handlers

  /** What the `[activeTab]` effect leaves of the history view when the tab
      goes from `before` to `r.tab`: cleared when the new tab is another one
      than the history, as it was in `st` otherwise. */
  predicate HistoryViewAfter(before: Tab, st: AppState, r: AppState)
  {
    if r.tab != before && r.tab != HistoryTab then r.expanded.None? && r.highlighted == []
    else r.expanded == st.expanded && r.highlighted == st.highlighted
  }

  /** The `[activeTab]` effect: when the tab changed to anything but the
      history, the expanded row and the highlights are cleared. */
  function TabEffect(before: Tab, st: AppState): (r: AppState)
    ensures r.tab == st.tab && r.logs == st.logs && r.editing == st.editing && r.goals == st.goals
    ensures r.toast == st.toast && r.deleteModal == st.deleteModal && r.firstLogModal == st.firstLogModal
    ensures HistoryViewAfter(before, st, r)
  {
    if st.tab != before && st.tab != HistoryTab then st.(expanded := None, highlighted := []) else st
  }

  /** `handleSaveLog(newLog)`. */
  function HandleSaveLog(st: AppState, newLog: DailyLog): (r: AppState)
    ensures r.logs == SaveLogs(st.logs, newLog) && r.editing.None? && r.toast == Some(LogSaved)
    ensures st.editing.Some? ==>
      r.tab == HistoryTab && r.expanded == Some(newLog.date)
      && r.highlighted == ChangedFields(st.editing.value, newLog)
    ensures st.editing.None? ==> r.tab == StatsTab && HistoryViewAfter(st.tab, st, r)
    ensures r.goals == st.goals && r.deleteModal == st.deleteModal && r.firstLogModal == st.firstLogModal
  {
    var isEdit := st.editing.Some?;
    var changed := if isEdit then ChangedFields(st.editing.value, newLog) else [];
    var saved := st.(logs := SaveLogs(st.logs, newLog), editing := None, toast := Some(LogSaved));
    var next := if isEdit then saved.(expanded := Some(newLog.date), highlighted := changed, tab := HistoryTab)
      else saved.(tab := StatsTab);
    TabEffect(st.tab, next)
  }

  /** After saving an edit, the history opens on the saved day and exactly
      the fields the edit changed flash, on that row only. */
  lemma EditSaveFlashesChanges(st: AppState, newLog: DailyLog, rowDate: Day, f: LogField)
    requires st.editing.Some?
    ensures var r := HandleSaveLog(st, newLog);
      ShouldFlash(r.expanded, r.highlighted, rowDate, f)
      <==> rowDate == newLog.date && FieldOf(st.editing.value, f) != FieldOf(newLog, f)
  {
  }

  /** Editing an entry and saving it under another, free, day adds the new
      day and keeps the entry of the old day: the save overwrites by the new
      entry's day only. */
  lemma EditToOtherDayKeepsOld(st: AppState, newLog: DailyLog)
    requires st.editing.Some? && st.editing.value in st.logs
    requires newLog.date != st.editing.value.date
    ensures st.editing.value in HandleSaveLog(st, newLog).logs
    ensures newLog in HandleSaveLog(st, newLog).logs
  {
  }

  /** `handleSaveGoals(goals)`: the first-log prompt when nothing is logged
      yet, else back to the statistics. */
  function HandleSaveGoals(st: AppState, g: UserGoals): (r: AppState)
    ensures r.goals == Some(g) && r.logs == st.logs
    ensures r.firstLogModal <==> |st.logs| == 0 || st.firstLogModal
    ensures |st.logs| == 0 ==> r.tab == st.tab && r.toast == st.toast
    ensures |st.logs| > 0 ==> r.tab == StatsTab && r.toast == Some(GoalsUpdated)
    ensures r.editing == st.editing && r.deleteModal == st.deleteModal && HistoryViewAfter(st.tab, st, r)
  {
    if |st.logs| == 0 then st.(goals := Some(g), firstLogModal := true)
    else TabEffect(st.tab, st.(goals := Some(g), toast := Some(GoalsUpdated), tab := StatsTab))
  }

  /** `startFirstLog`: close the prompt and open the entry form. */
  function StartFirstLog(st: AppState): (r: AppState)
    ensures !r.firstLogModal && r.tab == EntryTab && r.logs == st.logs
    ensures r.goals == st.goals && r.editing == st.editing && r.deleteModal == st.deleteModal && r.toast == st.toast
    ensures HistoryViewAfter(st.tab, st, r)
  {
    TabEffect(st.tab, st.(firstLogModal := false, tab := EntryTab))
  }

  /** `skipFirstLog`: close the prompt and show the statistics. */
  function SkipFirstLog(st: AppState): (r: AppState)
    ensures !r.firstLogModal && r.tab == StatsTab && r.toast == Some(GoalsSaved) && r.logs == st.logs
    ensures r.goals == st.goals && r.editing == st.editing && r.deleteModal == st.deleteModal
    ensures HistoryViewAfter(st.tab, st, r)
  {
    TabEffect(st.tab, st.(firstLogModal := false, toast := Some(GoalsSaved), tab := StatsTab))
  }

  /** `handleEdit(log)`: open the entry form on the chosen entry. */
  function HandleEdit(st: AppState, l: DailyLog): (r: AppState)
    ensures r.editing == Some(l) && r.tab == EntryTab && r.logs == st.logs
    ensures r.goals == st.goals && r.toast == st.toast
    ensures r.deleteModal == st.deleteModal && r.firstLogModal == st.firstLogModal
    ensures HistoryViewAfter(st.tab, st, r)
  {
    TabEffect(st.tab, st.(editing := Some(l), tab := EntryTab))
  }

  /** `handleDeleteRequest(date)`: ask for confirmation. */
  function HandleDeleteRequest(st: AppState, d: Day): (r: AppState)
    ensures r.deleteModal == DeleteModal(true, Some(d))
    ensures r.logs == st.logs && r.goals == st.goals && r.editing == st.editing && r.tab == st.tab
    ensures r.toast == st.toast && r.expanded == st.expanded && r.highlighted == st.highlighted
    ensures r.firstLogModal == st.firstLogModal
  {
    st.(deleteModal := DeleteModal(true, Some(d)))
  }

  /** `confirmDelete`: remove every entry of the chosen day, drop the edit
      if it was for that day, and close the dialog. */
  function ConfirmDelete(st: AppState): (r: AppState)
    ensures r.deleteModal == DeleteModal(false, None)
    ensures st.deleteModal.date.None? ==> r == st.(deleteModal := DeleteModal(false, None))
    ensures st.deleteModal.date.Some? ==>
      var d := st.deleteModal.date.value;
      r.logs == WithoutDate(st.logs, d)
      && (forall l :: l in r.logs <==> l in st.logs && l.date != d)
      && (r.editing.None? <==> st.editing.None? || st.editing.value.date == d)
      && (r.editing.Some? ==> r.editing == st.editing)
      && r.toast == Some(EntryDeleted)
    ensures r.tab == st.tab && r.goals == st.goals && r.firstLogModal == st.firstLogModal
    ensures r.expanded == st.expanded && r.highlighted == st.highlighted
  {
    var closed := DeleteModal(false, None);
    if st.deleteModal.date.None? then st.(deleteModal := closed)
    else
      var d := st.deleteModal.date.value;
      var editing := if st.editing.Some? && st.editing.value.date == d then None else st.editing;
      st.(logs := WithoutDate(st.logs, d), editing := editing, toast := Some(EntryDeleted), deleteModal := closed)
  }

  /** The bottom navigation: switch tabs, and stop editing unless the new
      tab is the entry form. */
  function ChangeTab(st: AppState, t: Tab): (r: AppState)
    ensures r.tab == t && r.logs == st.logs
    ensures r.editing.None? <==> t != EntryTab || st.editing.None?
    ensures t == EntryTab ==> r.editing == st.editing
    ensures r.goals == st.goals && r.toast == st.toast
    ensures r.deleteModal == st.deleteModal && r.firstLogModal == st.firstLogModal
    ensures HistoryViewAfter(st.tab, st, r)
  {
    TabEffect(st.tab, st.(tab := t, editing := if t != EntryTab then None else st.editing))
  }

  // ---------------------------------------------------------------------
  // Loading

  /** What a storage slot held: nothing (or an empty string), text that
      does not parse as the expected value, or a value. */
  datatype Stored<T> = Missing | Corrupt | Stored(value: T)

  /** The load effect: adopt what parses, land on the goals tab when no
      entries were stored, and fall back to the statistics on a parse error. */
  function Load(st: AppState, storedLogs: Stored<seq<DailyLog>>, storedGoals: Stored<UserGoals>): (r: AppState)
    ensures r.tab == GoalsTab <==>
      (storedLogs != Corrupt && storedGoals != Corrupt
       && (storedLogs.Missing? || |storedLogs.value| == 0))
    ensures r.tab != GoalsTab ==> r.tab == StatsTab
    ensures storedLogs.Stored? ==> r.logs == storedLogs.value
    ensures !storedLogs.Stored? ==> r.logs == st.logs
    ensures !storedLogs.Corrupt? && storedGoals.Stored? ==> r.goals == Some(storedGoals.value)
    ensures storedLogs.Corrupt? || !storedGoals.Stored? ==> r.goals == st.goals
  {
    if storedLogs.Corrupt? then TabEffect(st.tab, st.(tab := StatsTab))
    else
      var parsed := if storedLogs.Stored? then storedLogs.value else [];
      var st1 := if storedLogs.Stored? then st.(logs := parsed) else st;
      if storedGoals.Corrupt? then TabEffect(st.tab, st1.(tab := StatsTab))
      else
        var st2 := if storedGoals.Stored? then st1.(goals := Some(storedGoals.value)) else st1;
        TabEffect(st.tab, st2.(tab := if |parsed| == 0 then GoalsTab else StatsTab))
  }

  /** The state before loading: nothing logged, on the statistics tab. */
  const Initial: AppState := AppState([], None, None, StatsTab, None, None, [], DeleteModal(false, None), false)

  /** A first visit lands on the goals tab; a returning user with entries on the statistics. */
  lemma FirstVisitGoesToGoals(storedGoals: Stored<UserGoals>)
    requires storedGoals != Corrupt
    ensures Load(Initial, Missing, storedGoals).tab == GoalsTab
  {
  }

  // ---------------------------------------------------------------------
  // Demo history

  /** The five `Math.random()` draws made for one demo day, in call order. */
  datatype DemoDraw = DemoDraw(weight: real, protein: real, calories: real, carbs: real, fat: real)

  predicate UnitDraw(r: DemoDraw)
  {
    0.0 <= r.weight < 1.0 && 0.0 <= r.protein < 1.0 && 0.0 <= r.calories < 1.0
    && 0.0 <= r.carbs < 1.0 && 0.0 <= r.fat < 1.0
  }

  predicate ValidDraws(draws: seq<DemoDraw>)
  {
    |draws| == DemoDays && forall k :: 0 <= k < |draws| ==> UnitDraw(draws[k])
  }

  const DemoDays: nat := 100

  /** The goals used when none are set. */
  const DefaultGoals: UserGoals := UserGoals(2000.0, 150.0, 60.0, 200.0)

  /** `Number(x.toFixed(1))` on a positive number: the nearest tenth, halves up. */
  function RoundTenth(x: real): (r: real)
    ensures x - 0.05 < r <= x + 0.05
  {
    var n := Round(x * 10.0);
    var r := n as real / 10.0;
    assert r * 10.0 == n as real;
    assert r * 10.0 - 0.5 <= x * 10.0 < r * 10.0 + 0.5;
    r
  }

  /** The demo entry `i` days before `today`. */
  function DemoLog(today: Day, g: UserGoals, i: int, r: DemoDraw): (l: DailyLog)
    ensures l.date == today - i
    ensures UnitDraw(r) ==> l.calories <= g.calories && l.calories > g.calories - 101.0
    ensures UnitDraw(r) ==> l.protein > g.protein - 1.0 && l.protein <= g.protein + 20.0
  {
    var progress := (100 - i) as real / 100.0;
    var baseWeight := 90.0 - 10.0 * progress;
    var fluctuation := r.weight * 0.8 - 0.4;
    DailyLog(
      today - i,
      RoundTenth(baseWeight + fluctuation),
      Floor(g.protein + r.protein * 20.0) as real,
      Floor(g.fat + (r.fat * 10.0 - 5.0)) as real,
      Floor(g.carbs + (r.carbs * 20.0 - 10.0)) as real,
      Floor(g.calories - r.calories * 100.0) as real)
  }

  /** The demo history: one entry per day for the 100 days ending today,
      oldest first, as the loop from `i = 99` down to 0 pushes them. */
  function DemoLogs(today: Day, g: UserGoals, draws: seq<DemoDraw>): (logs: seq<DailyLog>)
    requires |draws| == DemoDays
    ensures |logs| == DemoDays
    ensures forall k :: 0 <= k < |logs| ==> logs[k].date == today - 99 + k
  {
    seq(DemoDays, k requires 0 <= k < DemoDays => DemoLog(today, g, 99 - k, draws[k]))
  }

  /** `handleLoadDemoData`: keep or set the goals, replace the history, show the badges. */
  function LoadDemoData(st: AppState, today: Day, draws: seq<DemoDraw>): (r: AppState)
    requires |draws| == DemoDays
    ensures r.goals == Some(if st.goals.Some? then st.goals.value else DefaultGoals)
    ensures r.logs == DemoLogs(today, r.goals.value, draws)
    ensures r.tab == BadgesTab && r.toast == Some(DemoLoaded)
    ensures r.editing == st.editing && r.deleteModal == st.deleteModal && r.firstLogModal == st.firstLogModal
    ensures HistoryViewAfter(st.tab, st, r)
  {
    var g := if st.goals.Some? then st.goals.value else DefaultGoals;
    TabEffect(st.tab, st.(goals := Some(g), logs := DemoLogs(today, g, draws), toast := Some(DemoLoaded), tab := BadgesTab))
  }

  /** The demo days are distinct and the newest is today. */
  lemma DemoDaysDistinct(today: Day, g: UserGoals, draws: seq<DemoDraw>)
    requires |draws| == DemoDays
    ensures UniqueDates(DemoLogs(today, g, draws))
    ensures LatestDate(DemoLogs(today, g, draws)) == today
  {
    var logs := DemoLogs(today, g, draws);
    var i :| 0 <= i < |logs| && logs[i].date == LatestDate(logs);
    assert logs[99].date == today;
  }

  /** Every demo day stays within the calorie goal, records a weight, and
      reaches the protein goal when that goal is a whole number. */
  lemma DemoDayMeetsGoals(today: Day, g: UserGoals, draws: seq<DemoDraw>, k: int)
    requires ValidDraws(draws) && 0 <= k < DemoDays
    ensures var l := DemoLogs(today, g, draws)[k];
      Meets(CalorieGoal, g, l) && l.weight > 0.0
      && (g.protein == Floor(g.protein) as real ==> Meets(ProteinGoal, g, l))
  {
    var r := draws[k];
    var i := 99 - k;
    assert UnitDraw(r);
    var l := DemoLog(today, g, i, r);
    var progress := (100 - i) as real / 100.0;
    assert 0.0 <= progress <= 1.0;
    assert l.weight >= 90.0 - 10.0 * progress + (r.weight * 0.8 - 0.4) - 0.05;
    if g.protein == Floor(g.protein) as real {
      assert g.protein <= g.protein + r.protein * 20.0;
      FloorMonotone(g.protein, g.protein + r.protein * 20.0);
    }
  }

  lemma FloorMonotone(x: real, y: real)
    requires x <= y
    ensures Floor(x) <= Floor(y)
  {
  }

  /** The demo history's promise: with a whole-number protein goal both
      streaks are 100, whatever the random draws. */
  lemma DemoStreaksAre100(today: Day, g: UserGoals, draws: seq<DemoDraw>)
    requires ValidDraws(draws) && g.protein == Floor(g.protein) as real
    ensures StreakCounts(DemoLogs(today, g, draws), Some(g)) == Streaks(100, 100)
  {
    DemoStreakIs100(today, g, draws, ProteinGoal);
    DemoStreakIs100(today, g, draws, CalorieGoal);
  }

  /** The calorie streak of the demo history is 100 for any goals. */
  lemma DemoStreakIs100(today: Day, g: UserGoals, draws: seq<DemoDraw>, m: Metric)
    requires ValidDraws(draws)
    requires m == ProteinGoal ==> g.protein == Floor(g.protein) as real
    ensures Streak(DemoLogs(today, g, draws), Some(g), m) == 100
  {
    var logs := DemoLogs(today, g, draws);
    DemoDaysDistinct(today, g, draws);
    forall d | today - 100 < d <= today
      ensures HasMeeting(logs, d, m, g)
    {
      var k := d - today + 99;
      DemoDayMeetsGoals(today, g, draws, k);
      assert logs[k] in logs;
    }
    forall l | l in logs
      ensures l.date != today - 100
    {
      var k :| 0 <= k < |logs| && logs[k] == l;
    }
    StreakIsRun(logs, g, m);
    RunLengthUnique(logs, g, m, today, Streak(logs, Some(g), m), 100);
  }

  /** Loading the demo without goals of one's own gives two 100-day streaks. */
  lemma DemoLoadGivesPerfectStreaks(st: AppState, today: Day, draws: seq<DemoDraw>)
    requires ValidDraws(draws) && st.goals.None?
    ensures var r := LoadDemoData(st, today, draws);
      StreakCounts(r.logs, r.goals) == Streaks(100, 100)
  {
    assert DefaultGoals.protein == Floor(DefaultGoals.protein) as real;
    DemoStreaksAre100(today, DefaultGoals, draws);
  }

  /** With a protein goal that is not a whole number the promise fails:
      a goal of 150.5 and draws of 0 log 150 g a day, and the protein
      streak is 0. */
  lemma DemoFractionalProteinGoal(today: Day)
    ensures var g := UserGoals(2000.0, 150.5, 60.0, 200.0);
      var draws := seq(DemoDays, k => DemoDraw(0.0, 0.0, 0.0, 0.0, 0.0));
      Streak(DemoLogs(today, g, draws), Some(g), ProteinGoal) == 0
  {
    var g := UserGoals(2000.0, 150.5, 60.0, 200.0);
    var draws := seq(DemoDays, k => DemoDraw(0.0, 0.0, 0.0, 0.0, 0.0));
    var logs := DemoLogs(today, g, draws);
    forall l | l in logs
      ensures !Meets(ProteinGoal, g, l)
    {
      var k :| 0 <= k < |logs| && logs[k] == l;
      assert l.protein == Floor(150.5) as real;
    }
    LatestMissGivesZero(logs, g, ProteinGoal);
  }

  // ---------------------------------------------------------------------
  // Invariants over every handler

  datatype Action =
    | SaveLog(log: DailyLog)
    | SaveGoals(goals: UserGoals)
    | StartFirst
    | SkipFirst
    | Edit(log: DailyLog)
    | DeleteRequest(date: Day)
    | Confirm
    | SwitchTab(tab: Tab)
    | Demo(today: Day, draws: seq<DemoDraw>)

  predicate Allowed(a: Action)
  {
    a.Demo? ==> |a.draws| == DemoDays
  }

  function Step(st: AppState, a: Action): AppState
    requires Allowed(a)
  {
    match a
    case SaveLog(l) => HandleSaveLog(st, l)
    case SaveGoals(g) => HandleSaveGoals(st, g)
    case StartFirst => StartFirstLog(st)
    case SkipFirst => SkipFirstLog(st)
    case Edit(l) => HandleEdit(st, l)
    case DeleteRequest(d) => HandleDeleteRequest(st, d)
    case Confirm => ConfirmDelete(st)
    case SwitchTab(t) => ChangeTab(st, t)
    case Demo(today, draws) => LoadDemoData(st, today, draws)
  }

  /** Outside the history tab nothing is expanded or highlighted. */
  predicate HistoryStateCleared(st: AppState)
  {
    st.tab != HistoryTab ==> st.expanded.None? && st.highlighted == []
  }

  /** Every handler keeps the history clean-up invariant and the
      one-entry-per-day invariant. */
  lemma StepKeepsInvariants(st: AppState, a: Action)
    requires Allowed(a) && HistoryStateCleared(st) && UniqueDates(st.logs)
    ensures HistoryStateCleared(Step(st, a)) && UniqueDates(Step(st, a).logs)
  {
    match a
    case SaveLog(l) => SaveKeepsUniqueDates(st.logs, l);
    case Confirm =>
      if st.deleteModal.date.Some? {
        WithoutDateKeepsUnique(st.logs, st.deleteModal.date.value);
      }
    case Demo(today, draws) =>
      DemoDaysDistinct(today, if st.goals.Some? then st.goals.value else DefaultGoals, draws);
    case _ =>
  }

  lemma InitialInvariants()
    ensures HistoryStateCleared(Initial) && UniqueDates(Initial.logs)
  {
  }
}
