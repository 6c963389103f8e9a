/** The weekly figures of the statistics tab (`components/Charts.tsx`): the
    Sunday-to-Saturday window around today and the one before it, the
    weekly nutrient balances against seven times the daily goals, the
    calorie gauge, and the weekly weight averages with their trend arrow.
    The window filter is kept as written, a comparison of date strings;
    WindowIsDayRange shows it selects exactly the days of the window. */
module Charts {
  import opened Types
  import opened Gregorian
  import opened DateText

  /** An inclusive range of days. */
  datatype Week = Week(start: Day, end: Day)

  /** The week holding `today`: from the Sunday on or before it to the
      Saturday six days later. */
  function CurrentWeek(today: Day): (w: Week)
    ensures Weekday(w.start) == 0
    ensures w.start <= today <= w.end == w.start + 6
  {
    var start := today - Weekday(today);
    assert today + 1 == 7 * ((today + 1) / 7) + Weekday(today);
    assert start + 1 == 7 * ((today + 1) / 7);
    Week(start, start + 6)
  }

  /** The week before `w`: it ends the day before `w` starts. */
  function PreviousWeek(w: Week): (p: Week)
    ensures p.end + 1 == w.start
    ensures p.end - p.start == 6
  {
    Week(w.start - 7, w.start - 7 + 6)
  }

  /** The current week is the only Sunday-started seven-day span holding today. */
  lemma CurrentWeekUnique(today: Day, s: Day)
    requires Weekday(s) == 0 && s <= today < s + 7
    ensures s == CurrentWeek(today).start
  {
    var t := CurrentWeek(today).start;
    assert s + 1 == 7 * ((s + 1) / 7);
    assert t + 1 == 7 * ((t + 1) / 7);
    var a, b := (s + 1) / 7, (t + 1) / 7;
    assert -7 < 7 * a - 7 * b < 7;
    assert -1 < a - b < 1;
  }

  /** The previous week is a Sunday-started seven-day span adjacent to the
      current one and sharing no day with it. */
  lemma PreviousWeekAdjacent(today: Day)
    ensures var w := CurrentWeek(today); var p := PreviousWeek(w);
      Weekday(p.start) == 0 && p.end - p.start == 6 && p.end + 1 == w.start
  {
    var w := CurrentWeek(today);
    assert (w.start - 7 + 1) % 7 == (w.start + 1) % 7;
  }

  // ---------------------------------------------------------------------
  // The window filter

  /** `date >= startStr && date <= endStr` on strings. */
  predicate InTextWindow(date: string, startStr: string, endStr: string)
  {
    !LexLess(date, startStr) && !LexLess(endStr, date)
  }

  /** Every entry carries a day on or after 0001-01-01, so it has a date string. */
  predicate Dated(logs: seq<DailyLog>)
  {
    forall i :: 0 <= i < |logs| ==> 0 <= logs[i].date
  }

  /** Every entry's day has a four-digit year. */
  predicate InRangeLogs(logs: seq<DailyLog>)
  {
    forall i :: 0 <= i < |logs| ==> InRange(logs[i].date)
  }

  /** `logs.filter(l => l.date >= startStr && l.date <= endStr)`, in order. */
  function WindowLogs(logs: seq<DailyLog>, w: Week): (r: seq<DailyLog>)
    requires Dated(logs) && 0 <= w.start && 0 <= w.end
    ensures |r| <= |logs|
    ensures forall l :: l in r ==> l in logs
    ensures Dated(r)
  {
    if |logs| == 0 then []
    else
      var init := WindowLogs(logs[..|logs| - 1], w);
      var l := logs[|logs| - 1];
      if InTextWindow(DateString(l.date), DateString(w.start), DateString(w.end)) then init + [l] else init
  }

  /** The entries dated `w.start` to `w.end`, by day number: the reference
      the string filter is measured against. */
  function DayWindowLogs(logs: seq<DailyLog>, w: Week): (r: seq<DailyLog>)
    ensures forall l :: l in r <==> l in logs && w.start <= l.date <= w.end
  {
    if |logs| == 0 then []
    else
      var init := DayWindowLogs(logs[..|logs| - 1], w);
      var l := logs[|logs| - 1];
      assert logs == logs[..|logs| - 1] + [l];
      if w.start <= l.date <= w.end then init + [l] else init
  }

  /** On four-digit-year days the string window is the day range. */
  lemma TextWindowIsDayRange(d: Day, lo: Day, hi: Day)
    requires InRange(d) && InRange(lo) && InRange(hi)
    ensures InTextWindow(DateString(d), DateString(lo), DateString(hi)) <==> lo <= d <= hi
  {
    DateStringOrder(d, lo);
    DateStringOrder(hi, d);
  }

  /** The string filter keeps exactly the entries dated within the window,
      in their original order. */
  lemma {:induction false} WindowIsDayRange(logs: seq<DailyLog>, w: Week)
    requires InRangeLogs(logs) && InRange(w.start) && InRange(w.end)
    ensures WindowLogs(logs, w) == DayWindowLogs(logs, w)
    decreases |logs|
  {
    if |logs| > 0 {
      WindowIsDayRange(logs[..|logs| - 1], w);
      TextWindowIsDayRange(logs[|logs| - 1].date, w.start, w.end);
    }
  }

  // ---------------------------------------------------------------------
  // Weekly balances

  /** `reduce((acc, log) => acc + log[f], 0)`: a left fold from 0. */
  function Total(logs: seq<DailyLog>, f: LogField): (t: real)
    ensures |logs| == 0 ==> t == 0.0
  {
    if |logs| == 0 then 0.0 else Total(logs[..|logs| - 1], f) + FieldOf(logs[|logs| - 1], f)
  }

  /** A total over entries whose field is never negative is never negative. */
  lemma {:induction false} TotalNonNegative(logs: seq<DailyLog>, f: LogField)
    requires forall i :: 0 <= i < |logs| ==> NonNegative(logs[i])
    ensures Total(logs, f) >= 0.0
    decreases |logs|
  {
    if |logs| > 0 {
      TotalNonNegative(logs[..|logs| - 1], f);
    }
  }

  /** The total of a concatenation is the sum of the totals. */
  lemma {:induction false} TotalAppend(a: seq<DailyLog>, b: seq<DailyLog>, f: LogField)
    ensures Total(a + b, f) == Total(a, f) + Total(b, f)
    decreases |b|
  {
    if |b| == 0 {
      assert a + b == a;
    } else {
      assert (a + b)[..|a + b| - 1] == a + b[..|b| - 1];
      TotalAppend(a, b[..|b| - 1], f);
    }
  }

  /** `Math.round((current / total) * 100)`. */
  function RawPercent(current: real, total: real): (p: int)
    requires total > 0.0
    ensures p as real - 0.5 <= current / total * 100.0 < p as real + 0.5
  {
    Round(current / total * 100.0)
  }

  /** Scaling a percentage of `total` back to an amount. */
  lemma PercentOfTotal(current: real, total: real, bound: real)
    requires total > 0.0
    ensures current / total * 100.0 >= bound <==> current * 100.0 >= bound * total
  {
    var x := current / total;
    assert x * total == current;
    if x * 100.0 >= bound {
      assert x * total * 100.0 >= bound * total;
    } else {
      assert x * total * 100.0 < bound * total;
    }
  }

  /** The rounded percentage passes 100 exactly from 100.5% of the total on. */
  lemma RawPercentAbove100(current: real, total: real)
    requires total > 0.0
    ensures RawPercent(current, total) > 100 <==> current * 100.0 >= 100.5 * total
  {
    PercentOfTotal(current, total, 100.5);
  }

  /** One gauge of the balance card. `rawPercent` is the unclamped value,
      which the component keeps only for calories. */
  datatype Balance = Balance(current: real, total: real, percent: int, rawPercent: int)

  /** `{ current, total: daily * 7, percent: Math.min(100, Math.round(...)) }`. */
  function MakeBalance(current: real, daily: real): (b: Balance)
    requires daily > 0.0
    ensures b.current == current && b.total == daily * 7.0
    ensures b.rawPercent as real - 0.5 <= current / (daily * 7.0) * 100.0 < b.rawPercent as real + 0.5
    ensures b.percent <= 100
    ensures b.percent == b.rawPercent || (b.percent == 100 && b.rawPercent > 100)
    ensures current >= 0.0 ==> b.percent >= 0
  {
    var raw := RawPercent(current, daily * 7.0);
    Balance(current, daily * 7.0, MinInt(100, raw), raw)
  }

  datatype WeeklyStats = WeeklyStats(calories: Balance, protein: Balance, carbs: Balance, fat: Balance)

  /** `getWeeklyStats`: absent without goals. */
  function GetWeeklyStats(logs: seq<DailyLog>, goals: Option<UserGoals>, today: Day): (r: Option<WeeklyStats>)
    requires Dated(logs) && 6 <= today
    requires goals.Some? ==> PositiveGoals(goals.value)
    ensures r.None? <==> goals.None?
    ensures r.Some? ==>
      r.value.calories.total == goals.value.calories * 7.0
      && r.value.protein.total == goals.value.protein * 7.0
      && r.value.carbs.total == goals.value.carbs * 7.0
      && r.value.fat.total == goals.value.fat * 7.0
  {
    if goals.None? then None
    else
      var g := goals.value;
      var week := WindowLogs(logs, CurrentWeek(today));
      Some(WeeklyStats(
        MakeBalance(Total(week, Calories), g.calories),
        MakeBalance(Total(week, Protein), g.protein),
        MakeBalance(Total(week, Carbs), g.carbs),
        MakeBalance(Total(week, Fat), g.fat)))
  }

  /** Each weekly figure is the total over exactly the entries dated in the
      current Sunday-to-Saturday week. */
  lemma WeeklyStatsCoverWeek(logs: seq<DailyLog>, g: UserGoals, today: Day)
    requires InRangeLogs(logs) && PositiveGoals(g)
    requires InRange(today - 6) && InRange(today + 6)
    ensures var s := GetWeeklyStats(logs, Some(g), today).value;
      var week := DayWindowLogs(logs, CurrentWeek(today));
      s.calories == MakeBalance(Total(week, Calories), g.calories)
      && s.protein == MakeBalance(Total(week, Protein), g.protein)
      && s.carbs == MakeBalance(Total(week, Carbs), g.carbs)
      && s.fat == MakeBalance(Total(week, Fat), g.fat)
  {
    WindowIsDayRange(logs, CurrentWeek(today));
  }

  /** A filter over a history with nothing in the window is empty. */
  lemma {:induction false} DayWindowEmpty(logs: seq<DailyLog>, w: Week)
    requires forall l :: l in logs ==> l.date < w.start || w.end < l.date
    ensures DayWindowLogs(logs, w) == []
    decreases |logs|
  {
    if |logs| > 0 {
      DayWindowEmpty(logs[..|logs| - 1], w);
      assert logs[|logs| - 1] in logs;
    }
  }

  /** A week without entries reports nothing eaten against the full weekly
      target, at 0 percent, for every nutrient. */
  lemma EmptyWeekBalances(logs: seq<DailyLog>, g: UserGoals, today: Day)
    requires InRangeLogs(logs) && PositiveGoals(g)
    requires InRange(today - 6) && InRange(today + 6)
    requires forall l :: l in logs ==> l.date < CurrentWeek(today).start || CurrentWeek(today).end < l.date
    ensures var s := GetWeeklyStats(logs, Some(g), today).value;
      s.calories == Balance(0.0, g.calories * 7.0, 0, 0)
      && s.protein == Balance(0.0, g.protein * 7.0, 0, 0)
      && s.carbs == Balance(0.0, g.carbs * 7.0, 0, 0)
      && s.fat == Balance(0.0, g.fat * 7.0, 0, 0)
  {
    WindowIsDayRange(logs, CurrentWeek(today));
    DayWindowEmpty(logs, CurrentWeek(today));
  }

  // ---------------------------------------------------------------------
  // The calorie gauge

  datatype GaugeColor = Red | Neon

  /** Red once the unclamped calorie percentage passes 100 (`|| 0` when absent). */
  function Gauge(stats: Option<WeeklyStats>): GaugeColor
  {
    var raw := if stats.Some? then stats.value.calories.rawPercent else 0;
    if raw > 100 then Red else Neon
  }

  /** The gauge turns red exactly when the week's calories reach 100.5% of
      the weekly target: 100.5% is where the rounded percentage becomes 101. */
  lemma GaugeRedThreshold(logs: seq<DailyLog>, g: UserGoals, today: Day)
    requires Dated(logs) && 6 <= today && PositiveGoals(g)
    ensures var s := GetWeeklyStats(logs, Some(g), today).value;
      Gauge(Some(s)) == Red <==> s.calories.current * 100.0 >= 100.5 * s.calories.total
  {
    var current := Total(WindowLogs(logs, CurrentWeek(today)), Calories);
    assert GetWeeklyStats(logs, Some(g), today).value.calories == MakeBalance(current, g.calories);
    BalanceAbove100(current, g.calories);
  }

  /** A balance's unclamped percentage passes 100 from 100.5% of its total on. */
  lemma BalanceAbove100(current: real, daily: real)
    requires daily > 0.0
    ensures var b := MakeBalance(current, daily);
      b.rawPercent > 100 <==> b.current * 100.0 >= 100.5 * b.total
  {
    RawPercentAbove100(current, daily * 7.0);
  }

  /** `progressEndAngle`: 180 minus 180 times the clamped calorie fraction. */
  function ProgressEndAngle(stats: Option<WeeklyStats>): (a: real)
    ensures stats.None? ==> a == 180.0
    ensures stats.Some? && stats.value.calories.percent >= 100 ==> a == 0.0
    ensures stats.Some? && 0 <= stats.value.calories.percent <= 100 ==> 0.0 <= a <= 180.0
  {
    if stats.None? then 180.0
    else
      var p := if stats.value.calories.percent <= 100 then stats.value.calories.percent else 100;
      180.0 - 180.0 * p as real / 100.0
  }

  /** With no negative amounts logged, the gauge's end angle stays on the
      half circle, and it sweeps further the more of the target is used. */
  lemma EndAngleOnHalfCircle(logs: seq<DailyLog>, goals: Option<UserGoals>, today: Day)
    requires Dated(logs) && 6 <= today
    requires goals.Some? ==> PositiveGoals(goals.value)
    requires forall i :: 0 <= i < |logs| ==> NonNegative(logs[i])
    ensures var s := GetWeeklyStats(logs, goals, today);
      0.0 <= ProgressEndAngle(s) <= 180.0
      && (s.Some? ==> ProgressEndAngle(s) == 180.0 - 1.8 * s.value.calories.percent as real)
  {
    var week := WindowLogs(logs, CurrentWeek(today));
    forall i | 0 <= i < |week|
      ensures NonNegative(week[i])
    {
      assert week[i] in logs;
    }
    TotalNonNegative(week, Calories);
  }

  // ---------------------------------------------------------------------
  // Weekly weight averages

  /** The window's entries that record a weight (`l.weight > 0`). */
  function Weighed(logs: seq<DailyLog>, w: Week): (r: seq<DailyLog>)
    requires Dated(logs) && 0 <= w.start && 0 <= w.end
    ensures forall i :: 0 <= i < |r| ==> r[i].weight > 0.0 && r[i] in logs
  {
    if |logs| == 0 then []
    else
      var init := Weighed(logs[..|logs| - 1], w);
      var l := logs[|logs| - 1];
      if InTextWindow(DateString(l.date), DateString(w.start), DateString(w.end)) && l.weight > 0.0
      then init + [l] else init
  }

  /** The weighed entries dated `w.start` to `w.end`, by day number. */
  function WeighedByDay(logs: seq<DailyLog>, w: Week): (r: seq<DailyLog>)
    ensures forall l :: l in r <==> l in logs && w.start <= l.date <= w.end && l.weight > 0.0
  {
    if |logs| == 0 then []
    else
      var init := WeighedByDay(logs[..|logs| - 1], w);
      var l := logs[|logs| - 1];
      assert logs == logs[..|logs| - 1] + [l];
      if w.start <= l.date <= w.end && l.weight > 0.0 then init + [l] else init
  }

  /** The string filter of the weight average keeps exactly the weighed
      entries dated within the window, in order. */
  lemma {:induction false} WeighedIsDayRange(logs: seq<DailyLog>, w: Week)
    requires InRangeLogs(logs) && InRange(w.start) && InRange(w.end)
    ensures Weighed(logs, w) == WeighedByDay(logs, w)
    decreases |logs|
  {
    if |logs| > 0 {
      WeighedIsDayRange(logs[..|logs| - 1], w);
      TextWindowIsDayRange(logs[|logs| - 1].date, w.start, w.end);
    }
  }

  /** `calculateAvgWeight`: the mean weight of the window's weighed
      entries, or 0 when there are none. */
  function AverageWeight(logs: seq<DailyLog>, w: Week): (avg: real)
    requires Dated(logs) && 0 <= w.start && 0 <= w.end
    ensures avg == 0.0 <==> |Weighed(logs, w)| == 0
    ensures |Weighed(logs, w)| > 0 ==>
      (exists i :: 0 <= i < |Weighed(logs, w)| && Weighed(logs, w)[i].weight <= avg)
      && (exists i :: 0 <= i < |Weighed(logs, w)| && avg <= Weighed(logs, w)[i].weight)
  {
    var q := Weighed(logs, w);
    if |q| == 0 then 0.0
    else
      var avg := Total(q, Weight) / |q| as real;
      MeanWithinRange(q);
      avg
  }

  /** The mean of positive weights lies between the least and the greatest. */
  lemma {:induction false} MeanWithinRange(q: seq<DailyLog>)
    requires |q| > 0 && forall i :: 0 <= i < |q| ==> q[i].weight > 0.0
    ensures var avg := Total(q, Weight) / |q| as real;
      avg > 0.0
      && (exists i :: 0 <= i < |q| && q[i].weight <= avg)
      && (exists i :: 0 <= i < |q| && avg <= q[i].weight)
  {
    var lo := MinWeightIndex(q);
    var hi := MaxWeightIndex(q);
    MeanBetween(q, q[lo].weight, q[hi].weight);
  }

  lemma {:induction false} MeanBetween(q: seq<DailyLog>, lo: real, hi: real)
    requires |q| > 0 && forall i :: 0 <= i < |q| ==> lo <= q[i].weight <= hi
    ensures lo <= Total(q, Weight) / |q| as real <= hi
  {
    var n, t := |q| as real, Total(q, Weight);
    TotalBetween(q, lo, hi);
    assert lo * n <= t <= hi * n;
    DivBetween(t, n, lo, hi);
  }

  lemma DivBetween(s: real, n: real, lo: real, hi: real)
    requires n > 0.0 && lo * n <= s <= hi * n
    ensures lo <= s / n <= hi
  {
    var x := s / n;
    assert x * n == s;
    Unscale(lo, x, n);
    Unscale(x, hi, n);
  }

  lemma Unscale(a: real, b: real, t: real)
    requires t > 0.0 && a * t <= b * t
    ensures a <= b
  {
  }

  function MinWeightIndex(q: seq<DailyLog>): (k: nat)
    requires |q| > 0
    ensures k < |q| && forall i :: 0 <= i < |q| ==> q[k].weight <= q[i].weight
  {
    if |q| == 1 then 0
    else
      var k := MinWeightIndex(q[..|q| - 1]);
      if q[k].weight <= q[|q| - 1].weight then k else |q| - 1
  }

  function MaxWeightIndex(q: seq<DailyLog>): (k: nat)
    requires |q| > 0
    ensures k < |q| && forall i :: 0 <= i < |q| ==> q[i].weight <= q[k].weight
  {
    if |q| == 1 then 0
    else
      var k := MaxWeightIndex(q[..|q| - 1]);
      if q[|q| - 1].weight <= q[k].weight then k else |q| - 1
  }

  lemma {:induction false} TotalBetween(q: seq<DailyLog>, lo: real, hi: real)
    requires forall i :: 0 <= i < |q| ==> lo <= q[i].weight <= hi
    ensures lo * (|q| as real) <= Total(q, Weight)
    ensures Total(q, Weight) <= hi * (|q| as real)
    decreases |q|
  {
    if |q| > 0 {
      TotalBetween(q[..|q| - 1], lo, hi);
    }
  }

  /** `{ currentAvg, lastAvg, diff: currentAvg - lastAvg }`. */
  datatype WeightStats = WeightStats(currentAvg: real, lastAvg: real, diff: real)

  /** `getWeeklyWeightStats`. */
  function GetWeightStats(logs: seq<DailyLog>, today: Day): (r: WeightStats)
    requires Dated(logs) && 13 <= today
    ensures r.diff == r.currentAvg - r.lastAvg
    ensures r.currentAvg == AverageWeight(logs, CurrentWeek(today))
    ensures r.lastAvg == AverageWeight(logs, PreviousWeek(CurrentWeek(today)))
  {
    var w := CurrentWeek(today);
    var cur := AverageWeight(logs, w);
    var last := AverageWeight(logs, PreviousWeek(w));
    WeightStats(cur, last, cur - last)
  }

  datatype Trend = TrendingDown | TrendingUp | Steady

  /** The indicator arrow: shown only when both weeks have a weight. */
  function TrendArrow(s: WeightStats): (t: Option<Trend>)
    requires s.diff == s.currentAvg - s.lastAvg
    ensures t.Some? <==> s.currentAvg > 0.0 && s.lastAvg > 0.0
    ensures t == Some(TrendingDown) <==> 0.0 < s.currentAvg < s.lastAvg
    ensures t == Some(TrendingUp) <==> 0.0 < s.lastAvg < s.currentAvg
    ensures t == Some(Steady) <==> 0.0 < s.currentAvg == s.lastAvg
  {
    if s.currentAvg > 0.0 && s.lastAvg > 0.0 then
      Some(if s.diff < 0.0 then TrendingDown else if s.diff > 0.0 then TrendingUp else Steady)
    else None
  }

  /** The arrow appears exactly when both the current and the previous week
      hold an entry with a recorded weight. */
  lemma ArrowNeedsBothWeeks(logs: seq<DailyLog>, today: Day)
    requires Dated(logs) && 13 <= today
    ensures var w := CurrentWeek(today);
      TrendArrow(GetWeightStats(logs, today)).Some?
      <==> |Weighed(logs, w)| > 0 && |Weighed(logs, PreviousWeek(w))| > 0
  {
    var w := CurrentWeek(today);
    var q, p := Weighed(logs, w), Weighed(logs, PreviousWeek(w));
    if |q| > 0 {
      MeanWithinRange(q);
    }
    if |p| > 0 {
      MeanWithinRange(p);
    }
  }

  /** The history of the worked weight example: 80 and 82 on the first
      two days of `today`'s week and 85 one week before. */
  function WeightExampleLogs(today: Day): seq<DailyLog>
  {
    var s := CurrentWeek(today).start;
    [DailyLog(s, 80.0, 0.0, 0.0, 0.0, 0.0), DailyLog(s + 1, 82.0, 0.0, 0.0, 0.0, 0.0),
     DailyLog(s - 7, 85.0, 0.0, 0.0, 0.0, 0.0)]
  }

  /** Filtering a history with one more entry appended. */
  lemma WeighedSnoc(logs: seq<DailyLog>, l: DailyLog, w: Week)
    ensures WeighedByDay(logs + [l], w) ==
      if w.start <= l.date <= w.end && l.weight > 0.0 then WeighedByDay(logs, w) + [l] else WeighedByDay(logs, w)
  {
    assert (logs + [l])[..|logs|] == logs;
  }

  lemma WeightExampleWindows(today: Day)
    ensures var logs := WeightExampleLogs(today);
      var w := CurrentWeek(today);
      WeighedByDay(logs, w) == logs[..2] && WeighedByDay(logs, PreviousWeek(w)) == logs[2..]
  {
    var logs := WeightExampleLogs(today);
    var w := CurrentWeek(today);
    var p := PreviousWeek(w);
    var a, b, c := logs[0], logs[1], logs[2];
    assert [a] == [] + [a] && [a, b] == [a] + [b] && logs == [a, b] + [c];
    WeighedSnoc([], a, w);
    WeighedSnoc([a], b, w);
    WeighedSnoc([a, b], c, w);
    WeighedSnoc([], a, p);
    WeighedSnoc([a], b, p);
    WeighedSnoc([a, b], c, p);
    assert logs[..2] == [a, b] && logs[2..] == [c];
  }

  /** On four-digit-year days the average weight is the mean over the
      day-filtered weighed entries. */
  lemma AverageByDay(logs: seq<DailyLog>, w: Week)
    requires InRangeLogs(logs) && InRange(w.start) && InRange(w.end)
    ensures var q := WeighedByDay(logs, w);
      AverageWeight(logs, w) == if |q| == 0 then 0.0 else Total(q, Weight) / |q| as real
  {
    WeighedIsDayRange(logs, w);
  }

  /** The average over a window whose weighed entries have mean `avg`. */
  lemma WindowMean(logs: seq<DailyLog>, w: Week, avg: real)
    requires InRangeLogs(logs) && InRange(w.start) && InRange(w.end)
    requires var q := WeighedByDay(logs, w); |q| > 0 && Total(q, Weight) / |q| as real == avg
    ensures AverageWeight(logs, w) == avg
  {
    AverageByDay(logs, w);
  }

  /** The weight figures of a history whose current and previous weeks'
      weighed entries have means `cur` and `last`. */
  lemma WeightStatsOfWindows(logs: seq<DailyLog>, today: Day, cur: real, last: real)
    requires InRange(today - 13) && InRange(today + 6) && InRangeLogs(logs)
    requires var q := WeighedByDay(logs, CurrentWeek(today)); |q| > 0 && Total(q, Weight) / |q| as real == cur
    requires var q := WeighedByDay(logs, PreviousWeek(CurrentWeek(today))); |q| > 0 && Total(q, Weight) / |q| as real == last
    ensures GetWeightStats(logs, today) == WeightStats(cur, last, cur - last)
  {
    var w := CurrentWeek(today);
    WindowMean(logs, w, cur);
    WindowMean(logs, PreviousWeek(w), last);
  }

  lemma WeightExampleFacts(today: Day)
    requires InRange(today - 13) && InRange(today + 6)
    ensures var logs := WeightExampleLogs(today);
      var w := CurrentWeek(today);
      var q := WeighedByDay(logs, w);
      var r := WeighedByDay(logs, PreviousWeek(w));
      InRangeLogs(logs)
      && |q| > 0 && Total(q, Weight) / |q| as real == 81.0
      && |r| > 0 && Total(r, Weight) / |r| as real == 85.0
  {
    var logs := WeightExampleLogs(today);
    WeightExampleWindows(today);
    var q, r := logs[..2], logs[2..];
    assert q[..1][..0] == [] && r[..0] == [];
    assert Total(q, Weight) == 162.0 && Total(r, Weight) == 85.0;
    assert |q| as real == 2.0 && |r| as real == 1.0;
  }

  /** Two entries this week weighing 80 and 82 and one last week weighing
      85 give averages of 81 and 85, a change of -4. */
  lemma WeightChangeExample(today: Day)
    requires InRange(today - 13) && InRange(today + 6)
    ensures GetWeightStats(WeightExampleLogs(today), today) == WeightStats(81.0, 85.0, -4.0)
  {
    WeightExampleFacts(today);
    WeightStatsOfWindows(WeightExampleLogs(today), today, 81.0, 85.0);
  }
}
