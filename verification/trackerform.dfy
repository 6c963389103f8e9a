/** The entry form (`components/TrackerForm.tsx`): the colour bands that
    judge each typed value against the goals, the calorie figure derived
    from the macros, the duplicate-date and required-field errors, the
    save decision, and the search for the first day without an entry.

    The inputs are `type="number"` fields, so a value is either blank (the
    empty string) or a number; `Number('')` reads a blank as 0. Dates are
    day numbers, the blank date is `None`, and the set of existing dates
    is a set of days (distinct days have distinct date strings,
    DateText.DateStringOrder). */
module TrackerForm {
  import opened Types
  import opened Badges

  // ---------------------------------------------------------------------
  // Colour bands

  /** The colour classes: plain white without goals, then green, orange, red. */
  datatype Tone = Plain | Good | Warning | Bad

  /** Green, orange, red, in order of how badly a value misses its goal. */
  function Severity(t: Tone): nat
  {
    match t
    case Plain => 0
    case Good => 0
    case Warning => 1
    case Bad => 2
  }

  /** Carbs and fat are ceilings: up to 10 g over is a warning. */
  const MacroTolerance: real := 10.0
  /** Protein is a floor: up to 30 g short is a warning. */
  const ProteinTolerance: real := 30.0

  /** The two ceiling macros `getMacroColor` is used for. */
  datatype Ceiling = CarbsCeiling | FatCeiling

  function CeilingGoal(g: UserGoals, c: Ceiling): real
  {
    match c
    case CarbsCeiling => g.carbs
    case FatCeiling => g.fat
  }

  /** `getMacroColor(value, goal)`. */
  function MacroColor(goals: Option<UserGoals>, c: Ceiling, value: real): (t: Tone)
    ensures t == Plain <==> goals.None?
    ensures goals.Some? ==>
      var goal := CeilingGoal(goals.value, c);
      (t == Good <==> value <= goal)
      && (t == Warning <==> goal < value <= goal + MacroTolerance)
      && (t == Bad <==> goal + MacroTolerance < value)
  {
    if goals.None? then Plain
    else
      var goal := CeilingGoal(goals.value, c);
      if value <= goal then Good
      else if value <= goal + MacroTolerance then Warning
      else Bad
  }

  /** `getProteinColor(value, goal)`. */
  function ProteinColor(goals: Option<UserGoals>, value: real): (t: Tone)
    ensures t == Plain <==> goals.None?
    ensures goals.Some? ==>
      var goal := goals.value.protein;
      (t == Good <==> goal <= value)
      && (t == Warning <==> goal - ProteinTolerance <= value < goal)
      && (t == Bad <==> value < goal - ProteinTolerance)
  {
    if goals.None? then Plain
    else
      var goal := goals.value.protein;
      if value >= goal then Good
      else if value >= goal - ProteinTolerance then Warning
      else Bad
  }

  datatype CalorieIcon = Flame | Meh | Frown

  /** `getCalorieStatus(current, goal)`: colour and icon together. */
  function CalorieStatus(current: real, goal: real): (s: (Tone, CalorieIcon))
    ensures s.0 == Good <==> s.1 == Flame
    ensures s.0 == Warning <==> s.1 == Meh
    ensures s.0 == Bad <==> s.1 == Frown
    ensures s.0 == Good <==> current <= goal
    ensures s.0 == Bad <==> goal + CalorieBuffer < current
  {
    if current <= goal then (Good, Flame)
    else if current <= goal + CalorieBuffer then (Warning, Meh)
    else (Bad, Frown)
  }

  /** The calorie display: the status against the goal, or a plain flame
      without goals. */
  function CalorieDisplay(goals: Option<UserGoals>, calories: real): (s: (Tone, CalorieIcon))
    ensures goals.None? ==> s == (Plain, Flame)
    ensures goals.Some? ==> s == CalorieStatus(calories, goals.value.calories)
  {
    if goals.Some? then CalorieStatus(calories, goals.value.calories) else (Plain, Flame)
  }

  /** More carbs or fat never gives a better colour. */
  lemma MacroColorMonotone(goals: Option<UserGoals>, c: Ceiling, v1: real, v2: real)
    requires v1 <= v2
    ensures Severity(MacroColor(goals, c, v1)) <= Severity(MacroColor(goals, c, v2))
  {
  }

  /** More protein never gives a worse colour. */
  lemma ProteinColorMonotone(goals: Option<UserGoals>, v1: real, v2: real)
    requires v1 <= v2
    ensures Severity(ProteinColor(goals, v2)) <= Severity(ProteinColor(goals, v1))
  {
  }

  /** More calories never give a better status. */
  lemma CalorieStatusMonotone(goal: real, v1: real, v2: real)
    requires v1 <= v2
    ensures Severity(CalorieStatus(v1, goal).0) <= Severity(CalorieStatus(v2, goal).0)
  {
  }

  /** A day counts toward the calorie streak exactly when its status is not red. */
  lemma CalorieStatusMatchesStreak(g: UserGoals, l: DailyLog)
    ensures CalorieStatus(l.calories, g.calories).0 != Bad <==> Meets(CalorieGoal, g, l)
  {
  }

  /** A day counts toward the protein streak exactly when its protein is green. */
  lemma ProteinColorMatchesStreak(g: UserGoals, l: DailyLog)
    ensures ProteinColor(Some(g), l.protein) == Good <==> Meets(ProteinGoal, g, l)
  {
  }

  /** With a protein goal of 150: 125 g is orange, 119 g is red. */
  lemma ProteinExamples()
    ensures ProteinColor(Some(UserGoals(2000.0, 150.0, 60.0, 200.0)), 125.0) == Warning
    ensures ProteinColor(Some(UserGoals(2000.0, 150.0, 60.0, 200.0)), 119.0) == Bad
  {
  }

  // ---------------------------------------------------------------------
  // Form state

  /** A numeric input's value: blank (`''`) or a number. */
  datatype Entry = Blank | Num(v: real)

  /** `Number(value) || 0`: a blank reads as 0. */
  function NumberOf(e: Entry): real
  {
    if e.Blank? then 0.0 else e.v
  }

  /** The four inputs the user types into. */
  datatype Input = WeightInput | ProteinInput | CarbsInput | FatInput

  /** The form's state: the date, the four inputs and the derived calories. */
  datatype FormData = FormData(
    date: Option<Day>,
    weight: Entry,
    protein: Entry,
    fat: Entry,
    carbs: Entry,
    calories: real)

  function InputOf(d: FormData, i: Input): Entry
  {
    match i
    case WeightInput => d.weight
    case ProteinInput => d.protein
    case CarbsInput => d.carbs
    case FatInput => d.fat
  }

  /** Keys of the error record: the date or one of the inputs. */
  datatype ErrorKey = DateKey | InputKey(i: Input)

  datatype ErrorMessage = AlreadyLogged | DateRequired | ValueRequired

  datatype FormState = FormState(data: FormData, errors: map<ErrorKey, ErrorMessage>)

  /** One call of `updateForm(name, value)`. */
  datatype Change = SetDate(date: Option<Day>) | SetInput(input: Input, value: Entry)

  /** Calories from the macros: 4 per gram of protein and carbs, 9 per gram of fat. */
  function MacroCalories(protein: real, carbs: real, fat: real): (kcal: int)
    ensures (kcal as real) - 0.5 <= protein * 4.0 + carbs * 4.0 + fat * 9.0 < (kcal as real) + 0.5
  {
    Round(protein * 4.0 + carbs * 4.0 + fat * 9.0)
  }

  /** The stored calories are the ones the current macros give. */
  predicate CaloriesFollowMacros(d: FormData)
  {
    d.calories == MacroCalories(NumberOf(d.protein), NumberOf(d.carbs), NumberOf(d.fat)) as real
  }

  /** `date` is already logged and is not the date of the entry being edited. */
  predicate IsDuplicate(date: Option<Day>, existing: set<Day>, editing: Option<Day>)
  {
    date.Some? && date.value in existing && date != editing
  }

  /** `updateForm(name, value)`: store the value; recompute calories when a
      macro changed; set or clear the duplicate-date error on a date
      change; clear the input's own error otherwise. `editing` is the date
      of the entry being edited, if any. */
  function UpdateForm(st: FormState, c: Change, existing: set<Day>, editing: Option<Day>): (r: FormState)
    ensures c.SetDate? ==> r.data == st.data.(date := c.date)
    ensures c.SetDate? ==>
      (DateKey in r.errors <==> IsDuplicate(c.date, existing, editing))
      && (DateKey in r.errors ==> r.errors[DateKey] == AlreadyLogged)
    ensures c.SetInput? ==> InputOf(r.data, c.input) == c.value && r.data.date == st.data.date
    ensures c.SetInput? ==> forall i :: i != c.input ==> InputOf(r.data, i) == InputOf(st.data, i)
    ensures c.SetInput? && c.input != WeightInput ==> CaloriesFollowMacros(r.data)
    ensures c.SetInput? && c.input == WeightInput ==> r.data.calories == st.data.calories
    ensures c.SetInput? ==> InputKey(c.input) !in r.errors
    ensures c.SetInput? ==>
      (DateKey in r.errors <==> DateKey in st.errors)
      && (DateKey in st.errors ==> r.errors[DateKey] == st.errors[DateKey])
    ensures forall k :: k in r.errors && k != DateKey && (c.SetInput? ==> k != InputKey(c.input)) ==>
      k in st.errors && r.errors[k] == st.errors[k]
    ensures forall k :: k in st.errors && k != DateKey && (c.SetInput? ==> k != InputKey(c.input)) ==>
      k in r.errors
  {
    match c
    case SetDate(date) =>
      var errors := if IsDuplicate(date, existing, editing) then st.errors[DateKey := AlreadyLogged]
        else st.errors - {DateKey};
      FormState(st.data.(date := date), errors)
    case SetInput(input, value) =>
      var d := match input
        case WeightInput => st.data.(weight := value)
        case ProteinInput => st.data.(protein := value)
        case CarbsInput => st.data.(carbs := value)
        case FatInput => st.data.(fat := value);
      var d' := if input == WeightInput then d
        else d.(calories := MacroCalories(NumberOf(d.protein), NumberOf(d.carbs), NumberOf(d.fat)) as real);
      FormState(d', if InputKey(input) in st.errors then st.errors - {InputKey(input)} else st.errors)
  }

  /** Once calories follow the macros, every later change keeps it so:
      typing a macro recomputes them, and the weight and the date do not
      touch them. */
  lemma UpdateKeepsCaloriesFollowing(st: FormState, c: Change, existing: set<Day>, editing: Option<Day>)
    requires CaloriesFollowMacros(st.data)
    ensures CaloriesFollowMacros(UpdateForm(st, c, existing, editing).data)
  {
  }

  /** The calorie figure depends only on the final macros, not on the
      order they were typed in. */
  lemma MacroOrderIrrelevant(st: FormState, p: Entry, f: Entry, existing: set<Day>, editing: Option<Day>)
    ensures
      var a := UpdateForm(UpdateForm(st, SetInput(ProteinInput, p), existing, editing), SetInput(FatInput, f), existing, editing);
      var b := UpdateForm(UpdateForm(st, SetInput(FatInput, f), existing, editing), SetInput(ProteinInput, p), existing, editing);
      a.data == b.data
  {
  }

  /** An input is missing when it is blank; the date when it is empty. */
  predicate Missing(d: FormData, k: ErrorKey)
  {
    match k
    case DateKey => d.date.None?
    case InputKey(i) => InputOf(d, i).Blank?
  }

  function RequiredMessage(k: ErrorKey): ErrorMessage
  {
    if k == DateKey then DateRequired else ValueRequired
  }

  /** One `if (!formData.x) newErrors.x = ...` line. */
  function Require(e: map<ErrorKey, ErrorMessage>, d: FormData, k: ErrorKey): (r: map<ErrorKey, ErrorMessage>)
    ensures forall j :: j in r <==> j in e || (j == k && Missing(d, k))
    ensures forall j :: j in r ==> r[j] == if j == k && Missing(d, k) then RequiredMessage(k) else e[j]
  {
    if Missing(d, k) then e[k := RequiredMessage(k)] else e
  }

  /** The five `if (!formData.x)` checks, in the source's order. */
  function RequireAll(e: map<ErrorKey, ErrorMessage>, d: FormData): map<ErrorKey, ErrorMessage>
  {
    var e0 := Require(e, d, DateKey);
    var e1 := Require(e0, d, InputKey(WeightInput));
    var e2 := Require(e1, d, InputKey(ProteinInput));
    var e3 := Require(e2, d, InputKey(CarbsInput));
    Require(e3, d, InputKey(FatInput))
  }

  lemma RequireAllCorrect(e: map<ErrorKey, ErrorMessage>, d: FormData)
    ensures forall k :: k in RequireAll(e, d) <==> k in e || Missing(d, k)
    ensures forall k :: k in RequireAll(e, d) ==> RequireAll(e, d)[k] == if Missing(d, k) then RequiredMessage(k) else e[k]
  {
    var r := RequireAll(e, d);
    forall k
      ensures k in r <==> k in e || Missing(d, k)
      ensures k in r ==> r[k] == if Missing(d, k) then RequiredMessage(k) else e[k]
    {
      match k
      case DateKey =>
      case InputKey(i) =>
        match i
        case WeightInput =>
        case ProteinInput =>
        case CarbsInput =>
        case FatInput =>
    }
  }

  /** `validate()`: the existing errors plus a "required" error for every
      missing field; valid when the result has no errors. */
  function Validate(st: FormState): (r: (bool, map<ErrorKey, ErrorMessage>))
    ensures forall k :: k in r.1 <==> k in st.errors || Missing(st.data, k)
    ensures forall k :: k in r.1 ==> r.1[k] == if Missing(st.data, k) then RequiredMessage(k) else st.errors[k]
    ensures r.0 <==> r.1 == map[]
  {
    var e := RequireAll(st.errors, st.data);
    RequireAllCorrect(st.errors, st.data);
    (|e| == 0, e)
  }

  /** Validation passes exactly when no error is pending and nothing is missing. */
  lemma ValidIffClean(st: FormState)
    ensures Validate(st).0 <==> st.errors == map[] && forall k :: !Missing(st.data, k)
  {
    var e := Validate(st).1;
    if st.errors != map[] {
      var k :| k in st.errors;
      assert k in e;
    }
    if exists k :: Missing(st.data, k) {
      var k :| Missing(st.data, k);
      assert k in e;
    }
    if e != map[] {
      var k :| k in e;
    }
  }

  /** `handleSubmit`: stop on a date error, then stop unless validation
      passes (keeping the errors it found), else hand the entry on. */
  function Submit(st: FormState): (r: (FormState, Option<DailyLog>))
    ensures r.1.Some? <==> st.errors == map[] && forall k :: !Missing(st.data, k)
    ensures r.1.Some? ==> st.data.date.Some? && r.1.value == DailyLog(st.data.date.value,
      NumberOf(st.data.weight), NumberOf(st.data.protein), NumberOf(st.data.fat),
      NumberOf(st.data.carbs), st.data.calories)
    ensures DateKey in st.errors ==> r.0 == st
  {
    ValidIffClean(st);
    if DateKey in st.errors then (st, None)
    else
      var (ok, errors) := Validate(st);
      var st' := st.(errors := errors);
      if !ok then (st', None)
      else
        (st', Some(DailyLog(st.data.date.value, NumberOf(st.data.weight), NumberOf(st.data.protein),
          NumberOf(st.data.fat), NumberOf(st.data.carbs), st.data.calories)))
  }

  // ---------------------------------------------------------------------
  // The form's starting state

  /** `{ ...initialData }`: the edited entry's values, no errors. */
  function EditForm(l: DailyLog): (st: FormState)
    ensures st.errors == map[] && forall k :: !Missing(st.data, k)
  {
    FormState(FormData(Some(l.date), Num(l.weight), Num(l.protein), Num(l.fat), Num(l.carbs), l.calories), map[])
  }

  /** `{ ...defaultForm, date }`: blank inputs, zero calories, no errors. */
  function NewForm(date: Day): (st: FormState)
    ensures st.data.date == Some(date) && st.errors == map[] && CaloriesFollowMacros(st.data)
    ensures forall i :: InputOf(st.data, i) == Blank
  {
    FormState(FormData(Some(date), Blank, Blank, Blank, Blank, 0.0), map[])
  }

  /** Submitting an edit form untouched hands back the very entry it was opened with. */
  lemma EditRoundTrip(l: DailyLog)
    ensures Submit(EditForm(l)).1 == Some(l)
  {
  }

  /** A fresh form cannot be submitted before its values are typed. */
  lemma NewFormNeedsValues(date: Day)
    ensures Submit(NewForm(date)).1.None?
    ensures Submit(NewForm(date)).0.errors.Keys == {InputKey(WeightInput), InputKey(ProteinInput),
      InputKey(CarbsInput), InputKey(FatInput)}
  {
    var st := NewForm(date);
    var e := Submit(st).0.errors;
    assert Missing(st.data, InputKey(WeightInput));
    forall k | k in e
      ensures k in {InputKey(WeightInput), InputKey(ProteinInput), InputKey(CarbsInput), InputKey(FatInput)}
    {
      assert Missing(st.data, k);
    }
  }

  /** How many days `getFirstAvailableDate` tries. */
  const SearchDays: nat := 365

  /** `getFirstAvailableDate`: the first of the 365 days from `today` on
      that has no entry, or `today` itself when all of them do. */
  method FirstAvailableDate(dates: set<Day>, today: Day) returns (d: Day)
    ensures d !in dates ==> (today <= d < today + SearchDays && forall e :: today <= e < d ==> e in dates)
    ensures d in dates ==> (d == today && forall e :: today <= e < today + SearchDays ==> e in dates)
  {
    var date := today;
    var i := 0;
    while i < SearchDays
      invariant 0 <= i <= SearchDays && date == today + i
      invariant forall e :: today <= e < date ==> e in dates
    {
      if date !in dates {
        return date;
      }
      date := date + 1;
      i := i + 1;
    }
    return today;
  }

  /** The form's state when it opens: the edited entry, or a blank form on
      the first free day. */
  method InitialForm(initial: Option<DailyLog>, existing: set<Day>, today: Day) returns (st: FormState)
    ensures initial.Some? ==> st == EditForm(initial.value)
    ensures initial.None? ==> st.data.date.Some? && st == NewForm(st.data.date.value)
    ensures initial.None? && st.data.date.value in existing ==> st.data.date.value == today
  {
    if initial.Some? {
      st := EditForm(initial.value);
    } else {
      var date := FirstAvailableDate(existing, today);
      st := NewForm(date);
    }
  }
}
