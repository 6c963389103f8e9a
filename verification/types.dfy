/** The record shapes shared by every component: one daily log entry, the
    user's daily targets, and the small numeric helpers that stand for the
    JavaScript `Math` functions the components call. Nutrient amounts and
    weights are exact reals; dates are day numbers (see module Gregorian). */
module Types {

  datatype Option<T> = None | Some(value: T)

  /** A calendar day, counted from 0001-01-01 (day 0) in the proleptic
      Gregorian calendar. */
  type Day = int

  /** One entry of the history. `weight == 0.0` means "not recorded". */
  datatype DailyLog = DailyLog(
    date: Day,
    weight: real,
    protein: real,
    fat: real,
    carbs: real,
    calories: real)

  /** The daily targets; absent (`None`) until the user saves the goal form. */
  datatype UserGoals = UserGoals(calories: real, protein: real, fat: real, carbs: real)

  /** The numeric fields of a log, in the order the edit diff reports them. */
  datatype LogField = Weight | Protein | Carbs | Fat | Calories

  /** Position of a field in the diff order weight, protein, carbs, fat, calories. */
  function FieldRank(f: LogField): nat
  {
    match f
    case Weight => 0
    case Protein => 1
    case Carbs => 2
    case Fat => 3
    case Calories => 4
  }

  function FieldOf(l: DailyLog, f: LogField): real
  {
    match f
    case Weight => l.weight
    case Protein => l.protein
    case Carbs => l.carbs
    case Fat => l.fat
    case Calories => l.calories
  }

  /** Every target is strictly positive, so that a weekly target never divides by zero. */
  predicate PositiveGoals(g: UserGoals)
  {
    g.calories > 0.0 && g.protein > 0.0 && g.fat > 0.0 && g.carbs > 0.0
  }

  /** No amount in the entry is negative. */
  predicate NonNegative(l: DailyLog)
  {
    l.weight >= 0.0 && l.protein >= 0.0 && l.fat >= 0.0 && l.carbs >= 0.0 && l.calories >= 0.0
  }

  /** The collection invariant: at most one entry per calendar day. */
  predicate UniqueDates(logs: seq<DailyLog>)
  {
    forall i, j :: 0 <= i < j < |logs| ==> logs[i].date != logs[j].date
  }

  /** The set of days that have an entry (`new Set(logs.map(l => l.date))`). */
  function DatesOf(logs: seq<DailyLog>): set<Day>
  {
    set l | l in logs :: l.date
  }

  /** `Math.floor`. */
  function Floor(x: real): (r: int)
    ensures r as real <= x < r as real + 1.0
  {
    x.Floor
  }

  /** `Math.ceil`. */
  function Ceil(x: real): (r: int)
    ensures x <= r as real < x + 1.0
  {
    if x.Floor as real == x then x.Floor else x.Floor + 1
  }

  /** `Math.round`: the nearest integer, halves rounded up. */
  function Round(x: real): (r: int)
    ensures r as real - 0.5 <= x < r as real + 0.5
  {
    (x + 0.5).Floor
  }

  function MinInt(a: int, b: int): (r: int)
    ensures r <= a && r <= b && (r == a || r == b)
  {
    if a <= b then a else b
  }

  function Abs(x: int): (r: nat)
    ensures r == x || r == -x
  {
    if x < 0 then -x else x
  }
}
