/** The date picker's calendar (`components/Calendar.tsx`): the month on
    display, stepping between months, the length and first weekday of a
    month, the string a clicked day produces and how the selected and
    logged days are recognised, and the cells of the month grid.

    The component keeps the month as a `Date` on its first day and builds
    every other date with `new Date(y, m, d)`. That constructor reads a
    0-based month of any size (carrying into the year) and a day of any
    size (day 0 is the last day of the month before), and maps a year
    argument in 0..99 to 1900..1999. `JsDate` models it on day numbers. */
module Calendar {
  import opened Types
  import opened Gregorian
  import opened DateText

  /** The month on display: `currentMonth`, with the 0-based month index
      that `getMonth()` returns. */
  datatype MonthView = MonthView(year: int, month: int)

  predicate ValidView(v: MonthView)
  {
    1 <= v.year && 0 <= v.month < 12
  }

  /** The year `new Date(y, …)` uses: two-digit years mean the 1900s. */
  function JsYear(y: int): (r: int)
    ensures 1 <= y ==> 100 <= r
    ensures 100 <= y ==> r == y
  {
    if 0 <= y <= 99 then 1900 + y else y
  }

  /** The month `new Date(y, m, 1)` lands in: the month index carries into
      the year. */
  function NewMonth(y: int, m: int): (v: MonthView)
    ensures 0 <= v.month < 12
    ensures v.year * 12 + v.month == JsYear(y) * 12 + m
  {
    MonthView(JsYear(y) + m / 12, m % 12)
  }

  /** The day number of `new Date(y, m, d)`. */
  function JsDate(y: int, m: int, d: int): Day
  {
    var v := NewMonth(y, m);
    ToDay(Date(v.year, v.month + 1, 1)) + d - 1
  }

  /** The day number of the view's first day. */
  function FirstOfMonth(v: MonthView): Day
  {
    JsDate(v.year, v.month, 1)
  }

  /** Month arithmetic: the months since year 0. */
  function MonthCount(v: MonthView): int
  {
    v.year * 12 + v.month
  }

  // ---------------------------------------------------------------------
  // Month length and first weekday

  /** `getDaysInMonth`: the date of day 0 of the following month. */
  function GetDaysInMonth(v: MonthView): int
  {
    FromDay(JsDate(v.year, v.month + 1, 0)).day
  }

  /** The first of the month after month `m` (1..12) of year `y`, as
      `new Date(y, m, 1)` finds it. */
  lemma NextMonthOf(y: int, m: int)
    requires 100 <= y && 1 <= m <= 12
    ensures NewMonth(y, m) == if m < 12 then MonthView(y, m) else MonthView(y + 1, 0)
  {
    if m == 12 {
      assert m / 12 == 1 && m % 12 == 0;
    } else {
      assert m / 12 == 0 && m % 12 == m;
    }
  }

  /** The days before the first of the next month end with the last day of this one. */
  lemma DayBeforeNextMonth(y: int, m: int)
    requires 100 <= y && 1 <= m <= 12
    ensures var n := NewMonth(y, m);
      ToDay(Date(n.year, n.month + 1, 1)) - 1 == ToDay(Date(y, m, DaysInMonth(y, m)))
  {
    NextMonthOf(y, m);
    if m < 12 {
      MonthStep(y, m);
    } else {
      YearEnd(y);
    }
  }

  lemma YearEnd(y: int)
    ensures ToDay(Date(y + 1, 1, 1)) - 1 == ToDay(Date(y, 12, 31))
  {
    LastMonth(y);
    YearStep(y);
  }

  /** `getDaysInMonth` is the Gregorian length of the displayed month (of
      the year `new Date` reads). */
  lemma DaysInMonthIsGregorian(v: MonthView)
    requires ValidView(v)
    ensures GetDaysInMonth(v) == DaysInMonth(JsYear(v.year), v.month + 1)
    ensures 28 <= GetDaysInMonth(v) <= 31
    ensures GetDaysInMonth(v) == 29 <==> v.month == 1 && IsLeapYear(JsYear(v.year))
  {
    LastDayReadsBack(v);
  }

  /** Day 0 of the next month reads back as the last day of this one. */
  lemma LastDayReadsBack(v: MonthView)
    requires ValidView(v)
    ensures GetDaysInMonth(v) == DaysInMonth(JsYear(v.year), v.month + 1)
  {
    var y := JsYear(v.year);
    var last := Date(y, v.month + 1, DaysInMonth(y, v.month + 1));
    assert FromDay(JsDate(v.year, v.month + 1, 0)) == last by {
      LastDayOfView(v);
      ToDayRoundTrip(last);
    }
  }

  /** `new Date(year, month + 1, 0)` is the last day of the view's month. */
  lemma LastDayOfView(v: MonthView)
    requires ValidView(v)
    ensures var y := JsYear(v.year);
      JsDate(v.year, v.month + 1, 0) == ToDay(Date(y, v.month + 1, DaysInMonth(y, v.month + 1)))
  {
    var y := JsYear(v.year);
    var m := v.month + 1;
    assert NewMonth(v.year, m) == NewMonth(y, m);
    DayBeforeNextMonth(y, m);
  }

  /** `getFirstDayOfMonth`: the weekday of the first, Sunday = 0. */
  function GetFirstDayOfMonth(v: MonthView): (w: int)
    ensures 0 <= w < 7
  {
    Weekday(FirstOfMonth(v))
  }

  /** The view's first day is the first of its month in the year `new Date`
      reads: the view's own year from year 100 on, 1900 + y below it. */
  lemma FirstOfMonthIsDayOne(v: MonthView)
    requires ValidView(v)
    ensures FromDay(FirstOfMonth(v)) == Date(JsYear(v.year), v.month + 1, 1)
    ensures 100 <= v.year ==> FromDay(FirstOfMonth(v)) == Date(v.year, v.month + 1, 1)
  {
    FirstOfMonthIsToDay(v);
    ToDayRoundTrip(Date(JsYear(v.year), v.month + 1, 1));
  }

  lemma FirstOfMonthIsToDay(v: MonthView)
    requires ValidView(v)
    ensures FirstOfMonth(v) == ToDay(Date(JsYear(v.year), v.month + 1, 1))
  {
    JsDateOfValidDay(v, 1);
  }

  // ---------------------------------------------------------------------
  // Stepping between months

  /** `prevMonth`. */
  function PrevMonth(v: MonthView): (r: MonthView)
    ensures ValidView(v) ==> ValidView(r)
  {
    NewMonth(v.year, v.month - 1)
  }

  /** `nextMonth`. */
  function NextMonth(v: MonthView): (r: MonthView)
    ensures ValidView(v) ==> ValidView(r)
  {
    NewMonth(v.year, v.month + 1)
  }

  /** The arrows move one month, carrying into the year. */
  lemma StepsAreOneMonth(v: MonthView)
    requires ValidView(v) && 100 <= v.year
    ensures MonthCount(NextMonth(v)) == MonthCount(v) + 1
    ensures MonthCount(PrevMonth(v)) == MonthCount(v) - 1
    ensures v.month == 11 ==> NextMonth(v) == MonthView(v.year + 1, 0)
    ensures v.month == 0 ==> PrevMonth(v) == MonthView(v.year - 1, 11)
  {
    if v.month == 11 {
      assert (v.month + 1) / 12 == 1 && (v.month + 1) % 12 == 0;
    } else {
      assert (v.month + 1) / 12 == 0 && (v.month + 1) % 12 == v.month + 1;
    }
    if v.month == 0 {
      assert (v.month - 1) / 12 == -1 && (v.month - 1) % 12 == 11;
    } else {
      assert (v.month - 1) / 12 == 0 && (v.month - 1) % 12 == v.month - 1;
    }
  }

  /** Forward then back, or back then forward, returns to the same month. */
  lemma StepsUndoEachOther(v: MonthView)
    requires ValidView(v) && 100 <= v.year
    ensures PrevMonth(NextMonth(v)) == v
    ensures 100 <= PrevMonth(v).year ==> NextMonth(PrevMonth(v)) == v
  {
    var n, p := NextMonth(v), PrevMonth(v);
    StepsAreOneMonth(v);
    StepsAreOneMonth(n);
    SameCountSameView(PrevMonth(n), v);
    if 100 <= p.year {
      StepsAreOneMonth(p);
      SameCountSameView(NextMonth(p), v);
    }
  }

  /** A view is determined by its month count. */
  lemma SameCountSameView(a: MonthView, b: MonthView)
    requires ValidView(a) && ValidView(b) && MonthCount(a) == MonthCount(b)
    ensures a == b
  {
  }

  /** The next month starts on the weekday after the last day of this one. */
  lemma NextMonthFirstDay(v: MonthView)
    requires ValidView(v)
    ensures GetFirstDayOfMonth(NextMonth(v)) == (GetFirstDayOfMonth(v) + GetDaysInMonth(v)) % 7
  {
    DaysInMonthIsGregorian(v);
    NextMonthStart(v);
    FirstDayShift(v, NextMonth(v), DaysInMonth(JsYear(v.year), v.month + 1));
  }

  /** The next month's first day comes a month's length after this one's. */
  lemma NextMonthStart(v: MonthView)
    requires ValidView(v)
    ensures FirstOfMonth(NextMonth(v)) == FirstOfMonth(v) + DaysInMonth(JsYear(v.year), v.month + 1)
  {
    var y, m := JsYear(v.year), v.month + 1;
    assert NextMonth(v) == NewMonth(y, m);
    DayBeforeNextMonth(y, m);
    FirstOfMonthIsToDay(v);
    FirstOfMonthIsToDay(NextMonth(v));
    DayOffset(Date(y, m, DaysInMonth(y, m)));
  }

  lemma DayOffset(d: Date)
    requires 1 <= d.month <= 12
    ensures ToDay(d) == ToDay(Date(d.year, d.month, 1)) + d.day - 1
  {
  }

  lemma FirstDayShift(v: MonthView, n: MonthView, len: int)
    requires FirstOfMonth(n) == FirstOfMonth(v) + len
    ensures GetFirstDayOfMonth(n) == (GetFirstDayOfMonth(v) + len) % 7
  {
    WeekdayShift(FirstOfMonth(v), len);
  }

  lemma WeekdayShift(n: Day, k: int)
    ensures Weekday(n + k) == (Weekday(n) + k) % 7
  {
  }

  // ---------------------------------------------------------------------
  // Day strings

  /** `handleDayClick(day)`: `${year}-${mm}-${dd}` with the month and day
      zero-padded to two digits. */
  function DayClick(v: MonthView, day: int): (s: string)
    requires ValidView(v) && 1 <= day
    ensures |s| >= 6
  {
    Decimal(v.year) + "-" + PadStart(Decimal(v.month + 1), 2) + "-" + PadStart(Decimal(day), 2)
  }

  /** For a four-digit year the clicked day's string is the canonical one
      the logs are stored under. */
  lemma DayClickIsCanonical(v: MonthView, day: int)
    requires ValidView(v) && 1000 <= v.year <= 9999 && 1 <= day <= DaysInMonth(v.year, v.month + 1)
    ensures DateString(JsDate(v.year, v.month, day)) == DayClick(v, day)
    ensures InRange(JsDate(v.year, v.month, day))
  {
    var date := Date(v.year, v.month + 1, day);
    JsDateOfValidDay(v, day);
    ToDayRoundTrip(date);
    DayClickIsIsoString(v, day);
    RangeBounds();
    ToDayOrder(Date(1000, 1, 1), date);
    ToDayOrder(date, Date(9999, 12, 31));
  }

  /** Within the displayed month `new Date(y, m, d)` is the day of that
      date, in the year `new Date` reads. */
  lemma JsDateOfValidDay(v: MonthView, day: int)
    requires ValidView(v)
    ensures JsDate(v.year, v.month, day) == ToDay(Date(JsYear(v.year), v.month + 1, day))
  {
    assert NewMonth(v.year, v.month) == MonthView(JsYear(v.year), v.month);
  }

  lemma DayClickIsIsoString(v: MonthView, day: int)
    requires ValidView(v) && 1000 <= v.year <= 9999 && 1 <= day <= 31
    ensures DayClick(v, day) == IsoString(Date(v.year, v.month + 1, day))
  {
    DecimalLength(v.year, 4);
    PaddedDecimalIsDigits(v.year, 4);
    PaddedDecimalIsDigits(v.month + 1, 2);
    PaddedDecimalIsDigits(day, 2);
  }

  /** One `-`-separated part of the selected date, as `Number` reads it
      (`None` for a missing part or NaN). */
  function Part(parts: seq<string>, i: nat): Option<int>
  {
    if i < |parts| then ParseNumber(parts[i]) else None
  }

  /** `isSelected(day)`: the selected string's parts name the displayed
      year, month and this day. */
  predicate IsSelected(v: MonthView, selectedDate: string, day: int)
  {
    |selectedDate| > 0
    && var parts := Split(selectedDate, '-');
    Part(parts, 0) == Some(v.year) && Part(parts, 1) == Some(v.month + 1) && Part(parts, 2) == Some(day)
  }

  /** The clicked string splits back into its three numbers. */
  lemma DayClickParts(v: MonthView, day: int)
    requires ValidView(v) && 1 <= day
    ensures var parts := Split(DayClick(v, day), '-');
      |parts| == 3 && Part(parts, 0) == Some(v.year)
      && Part(parts, 1) == Some(v.month + 1) && Part(parts, 2) == Some(day)
  {
    var a := Decimal(v.year);
    var b := PadStart(Decimal(v.month + 1), 2);
    var c := PadStart(Decimal(day), 2);
    PaddedDecimalValue(v.year, 0);
    PaddedDecimalValue(v.month + 1, 2);
    PaddedDecimalValue(day, 2);
    assert DayClick(v, day) == a + ['-'] + (b + ['-'] + c);
    SplitNoSep(c, '-');
    SplitAtSep(b, '-', c);
    SplitAtSep(a, '-', b + ['-'] + c);
  }

  /** After a day is clicked, the displayed month marks exactly that day as selected. */
  lemma ClickSelectsExactlyThatDay(v: MonthView, day: int, other: int)
    requires ValidView(v) && 1 <= day
    ensures IsSelected(v, DayClick(v, day), other) <==> other == day
  {
    DayClickParts(v, day);
  }

  /** A click in one month selects nothing in another. */
  lemma ClickSelectsOnlyInItsMonth(v: MonthView, w: MonthView, day: int, other: int)
    requires ValidView(v) && 1 <= day && w != v
    ensures !IsSelected(w, DayClick(v, day), other)
  {
    DayClickParts(v, day);
  }

  /** `hasData(day)`: the day's string is among the dates that hold an entry. */
  predicate HasData(v: MonthView, existingDates: Option<set<string>>, day: int)
    requires ValidView(v) && 1 <= day
  {
    existingDates.Some? && DayClick(v, day) in existingDates.value
  }

  /** The strings of the logged days (`new Set(logs.map(l => l.date))`). */
  function LoggedDates(logs: seq<DailyLog>): (r: set<string>)
    requires forall l :: l in logs ==> 0 <= l.date
    ensures forall l :: l in logs ==> DateString(l.date) in r
    ensures forall s :: s in r ==> exists l :: l in logs && s == DateString(l.date)
  {
    set l | l in logs :: DateString(l.date)
  }

  /** The dot under a day appears exactly when some entry is for that day. */
  lemma HasDataIffLogged(v: MonthView, logs: seq<DailyLog>, day: int)
    requires ValidView(v) && 1000 <= v.year <= 9999 && 1 <= day <= DaysInMonth(v.year, v.month + 1)
    requires forall l :: l in logs ==> InRange(l.date) && 0 <= l.date
    ensures HasData(v, Some(LoggedDates(logs)), day)
      <==> exists l :: l in logs && l.date == JsDate(v.year, v.month, day)
  {
    DayClickIsCanonical(v, day);
    var n := JsDate(v.year, v.month, day);
    forall l | l in logs
      ensures DateString(l.date) == DayClick(v, day) <==> l.date == n
    {
      DateStringOrder(l.date, n);
    }
  }

  /** Below year 1000 the clicked text writes the year unpadded, so it is
      shorter than every stored date string and no dot ever shows. */
  lemma ShortYearShowsNoDot(v: MonthView, logs: seq<DailyLog>, day: int)
    requires ValidView(v) && v.year < 1000 && 1 <= day <= GetDaysInMonth(v)
    requires forall l :: l in logs ==> 0 <= l.date
    ensures !HasData(v, Some(LoggedDates(logs)), day)
  {
    DaysInMonthIsGregorian(v);
    ShortYearClickLength(v, day);
    StoredDatesLength(logs);
  }

  lemma ShortYearClickLength(v: MonthView, day: int)
    requires ValidView(v) && v.year < 1000 && 1 <= day <= 31
    ensures |DayClick(v, day)| <= 9
  {
    assert Pow10(2) == 100 && Pow10(3) == 1000;
    DecimalLength(v.year, 3);
    DecimalLength(v.month + 1, 2);
    DecimalLength(day, 2);
  }

  /** Every stored date string is ten characters long. */
  lemma StoredDatesLength(logs: seq<DailyLog>)
    requires forall l :: l in logs ==> 0 <= l.date
    ensures forall s :: s in LoggedDates(logs) ==> |s| == 10
  {
    forall s | s in LoggedDates(logs)
      ensures |s| == 10
    {
      var l :| l in logs && s == DateString(l.date);
    }
  }

  /** `isToday(day)`: the clock's date is this day of the displayed month. */
  predicate IsToday(v: MonthView, today: Day, day: int)
  {
    var t := FromDay(today);
    t.day == day && t.month == v.month + 1 && t.year == v.year
  }

  /** At most one day of a displayed month is today, and only in today's month. */
  lemma TodayIsOneDay(v: MonthView, today: Day, a: int, b: int)
    requires IsToday(v, today, a) && IsToday(v, today, b)
    ensures a == b && InitialView(None, today) == v
  {
  }

  // ---------------------------------------------------------------------
  // Opening the calendar

  /** The month shown when the calendar opens: that of the selected date
      when it parses (`parsed`), rebuilt with `new Date(year, month, 1)`,
      otherwise the current month. */
  function InitialView(parsed: Option<Day>, today: Day): (v: MonthView)
    ensures parsed.Some? ==> v.year == JsYear(FromDay(parsed.value).year) && v.month == FromDay(parsed.value).month - 1
    ensures parsed.None? ==> v.year == FromDay(today).year && v.month == FromDay(today).month - 1
  {
    if parsed.Some? then
      var d := FromDay(parsed.value);
      FromDayMonth(parsed.value);
      NewMonth(d.year, d.month - 1)
    else
      var t := FromDay(today);
      MonthView(t.year, t.month - 1)
  }

  /** A selected date in years 1 to 99 opens the calendar in the 1900s:
      `new Date(50, 2, 1)` is March 1950. */
  lemma TwoDigitYearOpensIn1900s(date: Date, today: Day)
    requires ValidDate(date) && date.year <= 99
    ensures InitialView(Some(ToDay(date)), today) == MonthView(1900 + date.year, date.month - 1)
  {
    ToDayRoundTrip(date);
  }

  /** The month of a valid date is a valid view. */
  lemma InitialViewValid(parsed: Option<Day>, today: Day)
    requires 0 <= today && (parsed.Some? ==> 0 <= parsed.value)
    ensures ValidView(InitialView(parsed, today))
  {
    FromDayCorrect(today);
    if parsed.Some? {
      FromDayCorrect(parsed.value);
    }
  }

  /** Reopening the calendar on a day picked from it shows the month of the
      year `new Date` read: the same view from year 100 on, and 1900 + y
      below it. */
  lemma ReopenShowsPickedMonth(v: MonthView, day: int, today: Day)
    requires ValidView(v) && 1 <= day <= DaysInMonth(JsYear(v.year), v.month + 1)
    ensures InitialView(Some(JsDate(v.year, v.month, day)), today) == MonthView(JsYear(v.year), v.month)
    ensures 100 <= v.year ==> InitialView(Some(JsDate(v.year, v.month, day)), today) == v
  {
    var date := Date(JsYear(v.year), v.month + 1, day);
    ToDayRoundTrip(date);
    JsDateOfValidDay(v, day);
  }

  // ---------------------------------------------------------------------
  // The grid

  datatype Cell =
    | Header(name: string)
    | Blank
    | DayButton(day: int, selected: bool, today: bool, dot: bool)

  const DayNames: seq<string> := ["Su", "Mo", "Tu", "We", "Th", "Fr", "Sa"]

  /** `renderDays`: the weekday headers, a blank per weekday before the
      first, then one button per day of the month. */
  function RenderDays(v: MonthView, selectedDate: string, today: Day, existingDates: Option<set<string>>): (cells: seq<Cell>)
    requires ValidView(v)
    ensures |cells| == 7 + GetFirstDayOfMonth(v) + (if GetDaysInMonth(v) < 0 then 0 else GetDaysInMonth(v))
  {
    Grid(v, selectedDate, today, existingDates, GetFirstDayOfMonth(v),
      if GetDaysInMonth(v) < 0 then 0 else GetDaysInMonth(v))
  }

  /** The cells for a month whose first day falls in column `first` and
      which has `count` days. */
  function Grid(v: MonthView, selectedDate: string, today: Day, existingDates: Option<set<string>>, first: nat, count: nat): (cells: seq<Cell>)
    requires ValidView(v)
    ensures |cells| == 7 + first + count
  {
    seq(7, i requires 0 <= i < 7 => Header(DayNames[i]))
    + seq(first, _ => Blank)
    + seq(count, k requires 0 <= k < count =>
        var d := k + 1;
        var selected := IsSelected(v, selectedDate, d);
        DayButton(d, selected, IsToday(v, today, d), !selected && HasData(v, existingDates, d)))
  }

  /** The grid holds 7 headers, `firstDay` blanks and one button per day;
      day `d` sits in the column of its weekday, at most six rows down, and
      shows a dot exactly when it is not selected and has data. */
  lemma GridLayout(v: MonthView, selectedDate: string, today: Day, existingDates: Option<set<string>>, d: int)
    requires ValidView(v) && 1 <= d <= GetDaysInMonth(v)
    ensures var cells := RenderDays(v, selectedDate, today, existingDates);
      var i := 7 + GetFirstDayOfMonth(v) + d - 1;
      |cells| == 7 + GetFirstDayOfMonth(v) + GetDaysInMonth(v)
      && |cells| <= 7 + 6 * 7
      && i < |cells| && cells[i].DayButton? && cells[i].day == d
      && (i - 7) % 7 == Weekday(JsDate(v.year, v.month, d))
      && (cells[i].dot <==> !IsSelected(v, selectedDate, d) && HasData(v, existingDates, d))
  {
    DaysInMonthIsGregorian(v);
    GridCell(v, selectedDate, today, existingDates, GetFirstDayOfMonth(v), GetDaysInMonth(v), d);
    DayColumn(v, d);
  }

  /** Day `d`'s button comes after the headers and the leading blanks. */
  lemma GridCell(v: MonthView, selectedDate: string, today: Day, existingDates: Option<set<string>>,
                 first: nat, count: nat, d: int)
    requires ValidView(v) && 1 <= d <= count
    ensures var cells := Grid(v, selectedDate, today, existingDates, first, count);
      var selected := IsSelected(v, selectedDate, d);
      cells[7 + first + d - 1] == DayButton(d, selected, IsToday(v, today, d), !selected && HasData(v, existingDates, d))
  {
    var cells := Grid(v, selectedDate, today, existingDates, first, count);
    var head := seq(7, i requires 0 <= i < 7 => Header(DayNames[i])) + seq(first, _ => Blank);
    assert |head| == 7 + first;
    assert cells[7 + first + d - 1] == cells[|head| + (d - 1)];
  }

  /** Day `d` of the month falls `d - 1` places after the first's weekday. */
  lemma DayColumn(v: MonthView, d: int)
    ensures (GetFirstDayOfMonth(v) + d - 1) % 7 == Weekday(JsDate(v.year, v.month, d))
  {
    var a := FirstOfMonth(v);
    assert JsDate(v.year, v.month, d) == a + (d - 1);
    WeekdayShift(a, d - 1);
  }
}
