/** The streak engine behind the achievement badges (`components/Badges.tsx`).
    The logs are sorted newest first; the walk starts at the newest entry
    and moves back one entry at a time. An entry on the same day as the
    last counted one is skipped, an entry exactly one day earlier extends
    the streak if it meets the goal and ends it otherwise, and any larger
    gap ends it. */
module Badges {
  import opened Types
  import opened LogOrder

  /** The two goal-adherence tests a streak can follow. */
  datatype Metric = ProteinGoal | CalorieGoal

  /** Calories may exceed the daily target by this much and still count. */
  const CalorieBuffer: real := 150.0

  /** `checkProtein` and `checkCalories`. */
  predicate Meets(m: Metric, g: UserGoals, l: DailyLog)
  {
    match m
    case ProteinGoal => l.protein >= g.protein
    case CalorieGoal => l.calories <= g.calories + CalorieBuffer
  }

  /** The remainder of the walk: `rest` holds the entries not yet examined
      and `anchor` the day of the last counted entry (`lastDate`). The
      result is how many more days the streak gains. */
  function Continue(rest: seq<DailyLog>, anchor: Day, m: Metric, g: UserGoals): nat
    decreases |rest|
  {
    if |rest| == 0 then 0
    else
      var diffDays := Abs(anchor - rest[0].date);
      if diffDays == 1 then
        (if Meets(m, g, rest[0]) then 1 + Continue(rest[1..], rest[0].date, m, g) else 0)
      else if diffDays == 0 then Continue(rest[1..], anchor, m, g)
      else 0
  }

  /** `calculateStreak` on the newest-first list. */
  function CalculateStreak(sorted: seq<DailyLog>, m: Metric, g: UserGoals): nat
  {
    if |sorted| == 0 then 0
    else if Meets(m, g, sorted[0]) then 1 + Continue(sorted[1..], sorted[0].date, m, g)
    else 0
  }

  /** One streak of the `streaks` memo: zero without goals or logs. */
  function Streak(logs: seq<DailyLog>, goals: Option<UserGoals>, m: Metric): nat
  {
    if goals.None? || |logs| == 0 then 0
    else CalculateStreak(SortDesc(logs), m, goals.value)
  }

  datatype Streaks = Streaks(protein: nat, calories: nat)

  /** The `streaks` memo: both streaks are zero without goals or logs, and
      a non-zero streak needs the newest entry (the first sorted) to meet its goal. */
  function StreakCounts(logs: seq<DailyLog>, goals: Option<UserGoals>): (c: Streaks)
    ensures goals.None? || |logs| == 0 ==> c == Streaks(0, 0)
    ensures c.protein > 0 ==> goals.Some? && |logs| > 0 && Meets(ProteinGoal, goals.value, SortDesc(logs)[0])
    ensures c.calories > 0 ==> goals.Some? && |logs| > 0 && Meets(CalorieGoal, goals.value, SortDesc(logs)[0])
  {
    Streaks(Streak(logs, goals, ProteinGoal), Streak(logs, goals, CalorieGoal))
  }

  /** The `for` loop of `calculateStreak`, statement by statement. */
  method CalculateStreakLoop(sorted: seq<DailyLog>, m: Metric, g: UserGoals) returns (streak: nat)
    ensures streak == CalculateStreak(sorted, m, g)
  {
    streak := 0;
    var lastDate: Option<Day> := None;
    if |sorted| == 0 {
      return;
    }
    var i := 0;
    while i < |sorted|
      invariant 0 <= i <= |sorted|
      invariant i == 0 ==> lastDate.None? && streak == 0
      invariant i > 0 ==> (lastDate.Some?
        && streak + Continue(sorted[i..], lastDate.value, m, g) == CalculateStreak(sorted, m, g))
    {
      var log := sorted[i];
      if i == 0 {
        if Meets(m, g, log) {
          streak := streak + 1;
          lastDate := Some(log.date);
        } else {
          break;
        }
      } else {
        if lastDate.None? {
          break;
        }
        var diffDays := Abs(lastDate.value - log.date);
        assert sorted[i..][1..] == sorted[i + 1..];
        if diffDays == 1 {
          if Meets(m, g, log) {
            streak := streak + 1;
            lastDate := Some(log.date);
          } else {
            break;
          }
        } else if diffDays == 0 {
          i := i + 1;
          continue;
        } else {
          break;
        }
      }
      i := i + 1;
    }
  }

  // ---------------------------------------------------------------------
  // Milestone badges

  const Milestones: seq<nat> := [1, 10, 30, 50, 70, 100]

  /** `isUnlocked` of a `BadgeItem`. */
  predicate IsUnlocked(streak: nat, milestone: nat)
  {
    streak >= milestone
  }

  /** The unlocked flags of the badge row, in `MILESTONES` order. */
  function BadgeStates(streak: nat): seq<bool>
  {
    seq(|Milestones|, i requires 0 <= i < |Milestones| => IsUnlocked(streak, Milestones[i]))
  }

  /** Because the milestones ascend, the unlocked badges are always a prefix
      of the row, of exactly as many badges as there are milestones the
      streak has reached. */
  lemma UnlockedBadgesFormPrefix(streak: nat)
    ensures |BadgeStates(streak)| == |Milestones|
    ensures forall i, j :: 0 <= i <= j < |Milestones| && BadgeStates(streak)[j] ==> BadgeStates(streak)[i]
    ensures forall i :: 0 <= i < |Milestones| ==> (BadgeStates(streak)[i] <==> Milestones[i] <= streak)
  {
  }

  // ---------------------------------------------------------------------
  // Where the walk stops

  /** The day entry `i` of `rest` is compared with. */
  function PrevDay(rest: seq<DailyLog>, anchor: Day, i: nat): Day
    requires i <= |rest|
  {
    if i == 0 then anchor else rest[i - 1].date
  }

  /** Entry `l`, compared with day `prev`, ends the walk. */
  predicate Stops(m: Metric, g: UserGoals, prev: Day, l: DailyLog)
  {
    Abs(prev - l.date) > 1 || (Abs(prev - l.date) == 1 && !Meets(m, g, l))
  }

  lemma {:induction false} ContinueStops(rest: seq<DailyLog>, anchor: Day, m: Metric, g: UserGoals, i: nat)
    requires i < |rest| && Stops(m, g, PrevDay(rest, anchor, i), rest[i])
    ensures Continue(rest, anchor, m, g) == Continue(rest[..i], anchor, m, g)
    decreases i
  {
    if i > 0 {
      var t := rest[..i];
      assert t[0] == rest[0];
      assert t[1..] == rest[1..][..i - 1];
      if Abs(anchor - rest[0].date) <= 1 {
        ContinueStops(rest[1..], rest[0].date, m, g, i - 1);
      }
    }
  }

  lemma {:induction false} ContinueSkipsDuplicate(rest: seq<DailyLog>, anchor: Day, m: Metric, g: UserGoals, i: nat)
    requires i < |rest| && rest[i].date == PrevDay(rest, anchor, i)
    ensures Continue(rest, anchor, m, g) == Continue(rest[..i] + rest[i + 1..], anchor, m, g)
    decreases i
  {
    var t := rest[..i] + rest[i + 1..];
    if i == 0 {
      assert t == rest[1..];
    } else {
      assert t[0] == rest[0];
      assert t[1..] == rest[1..][..i - 1] + rest[1..][i..];
      if Abs(anchor - rest[0].date) <= 1 {
        ContinueSkipsDuplicate(rest[1..], rest[0].date, m, g, i - 1);
      }
    }
  }

  /** Nothing behind a missed day, or behind a day that misses the goal,
      can change the streak: the walk stops there. */
  lemma StreakStopsAtBreak(s: seq<DailyLog>, m: Metric, g: UserGoals, i: nat)
    requires 0 < i < |s| && Stops(m, g, s[i - 1].date, s[i])
    ensures CalculateStreak(s, m, g) == CalculateStreak(s[..i], m, g)
  {
    assert s[..i][0] == s[0];
    assert s[..i][1..] == s[1..][..i - 1];
    ContinueStops(s[1..], s[0].date, m, g, i - 1);
  }

  /** A second entry for the same day is skipped: dropping it changes
      neither the count nor where the walk goes on. */
  lemma StreakSkipsDuplicate(s: seq<DailyLog>, m: Metric, g: UserGoals, i: nat)
    requires 0 < i < |s| && s[i].date == s[i - 1].date
    ensures CalculateStreak(s, m, g) == CalculateStreak(s[..i] + s[i + 1..], m, g)
  {
    var t := s[..i] + s[i + 1..];
    assert t[0] == s[0];
    assert t[1..] == s[1..][..i - 1] + s[1..][i..];
    ContinueSkipsDuplicate(s[1..], s[0].date, m, g, i - 1);
  }

  /** If no entry of the newest day meets the goal, the streak is zero,
      however good the history before it. */
  lemma LatestMissGivesZero(logs: seq<DailyLog>, g: UserGoals, m: Metric)
    requires |logs| > 0
    requires forall l :: l in logs && l.date == LatestDate(logs) ==> !Meets(m, g, l)
    ensures Streak(logs, Some(g), m) == 0
  {
    SortedHeadIsLatest(logs);
  }

  // ---------------------------------------------------------------------
  // Bound

  lemma SubsetCard<T>(a: set<T>, b: set<T>)
    requires a <= b
    ensures |a| <= |b|
  {
    assert b == a + (b - a);
  }

  lemma DatesOfCons(s: seq<DailyLog>)
    requires |s| > 0
    ensures DatesOf(s) == {s[0].date} + DatesOf(s[1..])
  {
    assert s == [s[0]] + s[1..];
    assert forall l :: l in s <==> l == s[0] || l in s[1..];
  }

  /** A day after every entry is not among the entries' days. */
  lemma DateAfterAll(s: seq<DailyLog>, d: Day)
    requires forall i :: 0 <= i < |s| ==> s[i].date < d
    ensures d !in DatesOf(s)
  {
    forall l | l in s
      ensures l.date != d
    {
      var i :| 0 <= i < |s| && s[i] == l;
    }
  }

  /** Counting the head's day when the walk steps back one day. */
  lemma DatesStepBack(rest: seq<DailyLog>, anchor: Day)
    requires |rest| > 0 && anchor == rest[0].date + 1
    requires forall i :: 0 <= i < |rest| ==> rest[i].date <= anchor
    requires SortedDesc(rest)
    ensures |DatesOf(rest) - {anchor}| == |DatesOf(rest[1..]) - {rest[0].date}| + 1
  {
    var d0 := rest[0].date;
    var all := DatesOf(rest);
    DatesOfCons(rest);
    DateAfterAll(rest, anchor);
    assert all - {anchor} == all;
    assert DatesOf(rest[1..]) - {d0} == all - {d0};
    RemoveMember(all, d0);
  }

  lemma RemoveMember(s: set<Day>, x: Day)
    requires x in s
    ensures |s - {x}| + 1 == |s|
  {
    assert s == (s - {x}) + {x};
  }

  /** A second entry of the anchor day adds no day to count. */
  lemma DatesSkipAnchor(rest: seq<DailyLog>, anchor: Day)
    requires |rest| > 0 && anchor == rest[0].date
    ensures DatesOf(rest[1..]) - {anchor} == DatesOf(rest) - {anchor}
  {
    DatesOfCons(rest);
  }

  lemma {:induction false} ContinueBound(rest: seq<DailyLog>, anchor: Day, m: Metric, g: UserGoals)
    requires SortedDesc(rest)
    requires forall i :: 0 <= i < |rest| ==> rest[i].date <= anchor
    ensures Continue(rest, anchor, m, g) <= |DatesOf(rest) - {anchor}|
    decreases |rest|
  {
    if |rest| > 0 {
      var d0 := rest[0].date;
      if anchor - d0 == 1 && Meets(m, g, rest[0]) {
        ContinueBound(rest[1..], d0, m, g);
        DatesStepBack(rest, anchor);
      } else if anchor == d0 {
        ContinueBound(rest[1..], anchor, m, g);
        DatesSkipAnchor(rest, anchor);
      }
    }
  }

  lemma {:induction false} DistinctDatesBound(logs: seq<DailyLog>)
    ensures |DatesOf(logs)| <= |logs|
  {
    if |logs| > 0 {
      DistinctDatesBound(logs[1..]);
      DatesOfCons(logs);
    }
  }

  /** A streak never exceeds the number of distinct logged days, which
      never exceeds the number of entries. */
  lemma StreakBound(logs: seq<DailyLog>, goals: Option<UserGoals>, m: Metric)
    ensures Streak(logs, goals, m) <= |DatesOf(logs)| <= |logs|
  {
    DistinctDatesBound(logs);
    if goals.Some? && |logs| > 0 {
      var s := SortDesc(logs);
      SortKeepsMembers(logs);
      assert DatesOf(s) == DatesOf(logs);
      if Meets(m, goals.value, s[0]) {
        ContinueBound(s[1..], s[0].date, m, goals.value);
        DatesOfCons(s);
        assert DatesOf(s[1..]) - {s[0].date} + {s[0].date} == DatesOf(s);
      }
    }
  }

  // ---------------------------------------------------------------------
  // The streak as a run of days

  /** Some entry for day `d` meets the goal. */
  ghost predicate HasMeeting(logs: seq<DailyLog>, d: Day, m: Metric, g: UserGoals)
  {
    exists l :: l in logs && l.date == d && Meets(m, g, l)
  }

  predicate StrictlyDesc(s: seq<DailyLog>)
  {
    forall i, j :: 0 <= i < j < |s| ==> s[i].date > s[j].date
  }

  lemma HasMeetingCons(s: seq<DailyLog>, d: Day, m: Metric, g: UserGoals)
    requires |s| > 0
    ensures HasMeeting(s, d, m, g)
      <==> (s[0].date == d && Meets(m, g, s[0])) || HasMeeting(s[1..], d, m, g)
  {
    assert s == [s[0]] + s[1..];
    if HasMeeting(s, d, m, g) {
      var l :| l in s && l.date == d && Meets(m, g, l);
      assert l == s[0] || l in s[1..];
    }
    if HasMeeting(s[1..], d, m, g) {
      var l :| l in s[1..] && l.date == d && Meets(m, g, l);
      assert l in s;
    }
  }

  /** No entry of a strictly newest-first list is dated after its head. */
  lemma NoMeetingAfterHead(s: seq<DailyLog>, d: Day, m: Metric, g: UserGoals)
    requires |s| > 0 && StrictlyDesc(s) && d >= s[0].date
    ensures !HasMeeting(s[1..], d, m, g)
  {
    forall l | l in s[1..]
      ensures l.date < s[0].date
    {
      var i :| 0 <= i < |s[1..]| && s[1..][i] == l;
      assert s[i + 1] == l;
    }
  }

  lemma {:induction false} ContinueRun(rest: seq<DailyLog>, anchor: Day, m: Metric, g: UserGoals)
    requires StrictlyDesc(rest)
    requires forall i :: 0 <= i < |rest| ==> rest[i].date < anchor
    ensures var k := Continue(rest, anchor, m, g);
      (forall d :: anchor - k <= d < anchor ==> HasMeeting(rest, d, m, g))
      && !HasMeeting(rest, anchor - k - 1, m, g)
    decreases |rest|
  {
    var k := Continue(rest, anchor, m, g);
    if |rest| > 0 {
      var d0 := rest[0].date;
      var tail := rest[1..];
      HasMeetingCons(rest, anchor - k - 1, m, g);
      if anchor - d0 == 1 && Meets(m, g, rest[0]) {
        assert k == 1 + Continue(tail, d0, m, g);
        ContinueRun(tail, d0, m, g);
        forall d | anchor - k <= d < anchor
          ensures HasMeeting(rest, d, m, g)
        {
          HasMeetingCons(rest, d, m, g);
        }
      } else {
        assert k == 0;
        NoMeetingAfterHead(rest, anchor - 1, m, g);
      }
    }
  }

  /** With one entry per day, the streak is the length of the run of
      consecutive days, ending at the newest day, each of which has an
      entry meeting the goal: every day of the run has one and the day
      just before it has none. */
  lemma StreakIsRun(logs: seq<DailyLog>, g: UserGoals, m: Metric)
    requires |logs| > 0 && UniqueDates(logs)
    ensures forall d :: LatestDate(logs) - Streak(logs, Some(g), m) < d <= LatestDate(logs) ==> HasMeeting(logs, d, m, g)
    ensures !HasMeeting(logs, LatestDate(logs) - Streak(logs, Some(g), m), m, g)
  {
    var s := SortDesc(logs);
    SortedHeadIsLatest(logs);
    SortKeepsUniqueDates(logs);
    SortKeepsMembers(logs);
    SortedRun(s, g, m);
    assert forall d :: HasMeeting(s, d, m, g) ==> HasMeeting(logs, d, m, g);
    assert forall d :: HasMeeting(logs, d, m, g) ==> HasMeeting(s, d, m, g);
  }

  lemma SortedRun(s: seq<DailyLog>, g: UserGoals, m: Metric)
    requires |s| > 0 && SortedDesc(s) && UniqueDates(s)
    ensures var k := CalculateStreak(s, m, g);
      (forall d :: s[0].date - k < d <= s[0].date ==> HasMeeting(s, d, m, g))
      && !HasMeeting(s, s[0].date - k, m, g)
  {
    assert StrictlyDesc(s);
    var d0 := s[0].date;
    var tail := s[1..];
    var k := CalculateStreak(s, m, g);
    HasMeetingCons(s, d0 - k, m, g);
    if Meets(m, g, s[0]) {
      assert k == 1 + Continue(tail, d0, m, g);
      ContinueRun(tail, d0, m, g);
      forall d | d0 - k < d <= d0
        ensures HasMeeting(s, d, m, g)
      {
        HasMeetingCons(s, d, m, g);
      }
    } else {
      NoMeetingAfterHead(s, d0, m, g);
    }
  }

  /** The run characterisation pins the streak down. */
  lemma RunLengthUnique(logs: seq<DailyLog>, g: UserGoals, m: Metric, latest: Day, k1: nat, k2: nat)
    requires forall d :: latest - k1 < d <= latest ==> HasMeeting(logs, d, m, g)
    requires !HasMeeting(logs, latest - k1, m, g)
    requires forall d :: latest - k2 < d <= latest ==> HasMeeting(logs, d, m, g)
    requires !HasMeeting(logs, latest - k2, m, g)
    ensures k1 == k2
  {
  }

  /** Conversely, a run of `k` days ending at the newest day, each with an
      entry meeting the goal, preceded by a day without one, is the streak. */
  lemma RunGivesStreak(logs: seq<DailyLog>, g: UserGoals, m: Metric, latest: Day, k: nat)
    requires |logs| > 0 && UniqueDates(logs) && latest == LatestDate(logs)
    requires forall d :: latest - k < d <= latest ==> HasMeeting(logs, d, m, g)
    requires !HasMeeting(logs, latest - k, m, g)
    ensures Streak(logs, Some(g), m) == k
  {
    StreakIsRun(logs, g, m);
    RunLengthUnique(logs, g, m, latest, Streak(logs, Some(g), m), k);
  }

  /** Two histories holding the same entries share their newest day. */
  lemma SameEntriesSameLatest(a: seq<DailyLog>, b: seq<DailyLog>)
    requires |a| > 0 && |b| > 0
    requires forall l :: l in a <==> l in b
    ensures LatestDate(a) == LatestDate(b)
  {
    var ia :| 0 <= ia < |a| && a[ia].date == LatestDate(a);
    var ib :| 0 <= ib < |b| && b[ib].date == LatestDate(b);
    assert a[ia] in b && b[ib] in a;
  }

  /** Two one-entry-per-day histories holding the same entries have the
      same streak. */
  lemma SameEntriesSameStreak(a: seq<DailyLog>, b: seq<DailyLog>, g: UserGoals, m: Metric)
    requires |a| > 0 && |b| > 0 && UniqueDates(a) && UniqueDates(b)
    requires forall l :: l in a <==> l in b
    ensures Streak(a, Some(g), m) == Streak(b, Some(g), m)
  {
    SameEntriesSameLatest(a, b);
    SameEntriesSameMetDays(a, b, g, m);
    StreakIsRunLength(a, g, m);
    StreakIsRunLength(b, g, m);
  }

  /** The days on which some entry meets the goal. */
  function MetDays(logs: seq<DailyLog>, m: Metric, g: UserGoals): set<Day>
  {
    set l | l in logs && Meets(m, g, l) :: l.date
  }

  lemma MetDaysMeaning(logs: seq<DailyLog>, m: Metric, g: UserGoals)
    ensures forall d :: d in MetDays(logs, m, g) <==> HasMeeting(logs, d, m, g)
  {
  }

  lemma SameEntriesSameMetDays(a: seq<DailyLog>, b: seq<DailyLog>, g: UserGoals, m: Metric)
    requires forall l :: l in a <==> l in b
    ensures MetDays(a, m, g) == MetDays(b, m, g)
  {
  }

  /** How many consecutive days, counting back from `top`, lie in `days`. */
  function RunLength(days: set<Day>, top: Day): nat
    decreases days
  {
    if top in days then 1 + RunLength(days - {top}, top - 1) else 0
  }

  /** A run of `k` days ending at `top`, preceded by a day outside the set, has length `k`. */
  lemma {:induction false} RunLengthOfRun(days: set<Day>, top: Day, k: nat)
    requires forall d :: top - k < d <= top ==> d in days
    requires top - k !in days
    ensures RunLength(days, top) == k
    decreases k
  {
    if k > 0 {
      var rest := days - {top};
      assert forall d :: top - 1 - (k - 1) < d <= top - 1 ==> d in rest;
      RunLengthOfRun(rest, top - 1, k - 1);
    }
  }

  /** With one entry per day, the streak is the run length of the days that
      meet the goal, counted back from the newest logged day. */
  lemma StreakIsRunLength(logs: seq<DailyLog>, g: UserGoals, m: Metric)
    requires |logs| > 0 && UniqueDates(logs)
    ensures Streak(logs, Some(g), m) == RunLength(MetDays(logs, m, g), LatestDate(logs))
  {
    StreakIsRun(logs, g, m);
    MetDaysMeaning(logs, m, g);
    RunLengthOfRun(MetDays(logs, m, g), LatestDate(logs), Streak(logs, Some(g), m));
  }

  /** With one entry per day the streaks do not depend on the order the
      logs are stored in. */
  lemma StreaksIgnoreOrder(a: seq<DailyLog>, b: seq<DailyLog>, goals: Option<UserGoals>)
    requires multiset(a) == multiset(b) && UniqueDates(a) && UniqueDates(b)
    ensures StreakCounts(a, goals) == StreakCounts(b, goals)
  {
    assert |a| == |multiset(a)| == |b|;
    if goals.Some? && |a| > 0 {
      forall l
        ensures l in a <==> l in b
      {
        assert l in a <==> l in multiset(a);
        assert l in b <==> l in multiset(b);
      }
      SameEntriesSameStreak(a, b, goals.value, ProteinGoal);
      SameEntriesSameStreak(a, b, goals.value, CalorieGoal);
    }
  }

  // ---------------------------------------------------------------------
  // Worked examples

  /** The goals of the worked examples. */
  const ExampleGoals: UserGoals := UserGoals(2000.0, 150.0, 60.0, 200.0)

  function ExampleLog(d: Day, protein: real, calories: real): DailyLog
  {
    DailyLog(d, 0.0, protein, 60.0, 200.0, calories)
  }

  /** Three consecutive days of 160 g protein and 1900 kcal: both streaks are 3. */
  lemma ThreeGoodDays(d: Day)
    ensures StreakCounts([ExampleLog(d - 2, 160.0, 1900.0), ExampleLog(d - 1, 160.0, 1900.0),
                          ExampleLog(d, 160.0, 1900.0)], Some(ExampleGoals)) == Streaks(3, 3)
  {
    ThreeGoodDaysRun(d, ProteinGoal);
    ThreeGoodDaysRun(d, CalorieGoal);
  }

  lemma ThreeGoodDaysRun(d: Day, m: Metric)
    ensures Streak([ExampleLog(d - 2, 160.0, 1900.0), ExampleLog(d - 1, 160.0, 1900.0),
                    ExampleLog(d, 160.0, 1900.0)], Some(ExampleGoals), m) == 3
  {
    var logs := [ExampleLog(d - 2, 160.0, 1900.0), ExampleLog(d - 1, 160.0, 1900.0), ExampleLog(d, 160.0, 1900.0)];
    LatestIsMax(logs, 2);
    assert logs[0] in logs && logs[1] in logs && logs[2] in logs;
    RunGivesStreak(logs, ExampleGoals, m, d, 3);
  }

  /** Four consecutive days whose second newest is 2200 kcal: the calorie
      streak stops at the newest day. */
  lemma CalorieBreakAfterNewest(d: Day)
    ensures Streak([ExampleLog(d - 3, 160.0, 1900.0), ExampleLog(d - 2, 160.0, 1900.0),
                    ExampleLog(d - 1, 160.0, 2200.0), ExampleLog(d, 160.0, 1900.0)],
                   Some(ExampleGoals), CalorieGoal) == 1
  {
    var logs := [ExampleLog(d - 3, 160.0, 1900.0), ExampleLog(d - 2, 160.0, 1900.0),
                 ExampleLog(d - 1, 160.0, 2200.0), ExampleLog(d, 160.0, 1900.0)];
    LatestIsMax(logs, 3);
    assert logs[3] in logs;
    RunGivesStreak(logs, ExampleGoals, CalorieGoal, d, 1);
  }

  /** Days D, D-1 and D-3 all meeting the goal give a streak of 2: the
      missing day D-2 ends the run. */
  lemma GapEndsStreak(d: Day, m: Metric)
    ensures Streak([ExampleLog(d - 3, 160.0, 1900.0), ExampleLog(d - 1, 160.0, 1900.0),
                    ExampleLog(d, 160.0, 1900.0)], Some(ExampleGoals), m) == 2
  {
    var logs := [ExampleLog(d - 3, 160.0, 1900.0), ExampleLog(d - 1, 160.0, 1900.0), ExampleLog(d, 160.0, 1900.0)];
    LatestIsMax(logs, 2);
    assert logs[1] in logs && logs[2] in logs;
    RunGivesStreak(logs, ExampleGoals, m, d, 2);
  }
}
