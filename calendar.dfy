/** The Calendar component: the month grid it renders for the displayed month,
    the month cursor its arrow buttons move, the check that highlights the
    selected day, and the date a click on a day reports. */
module Calendar {
  import opened Gregorian
  import opened JsDate

  datatype Option<T> = None | Some(value: T)

  /** One cell of the 7-column grid under the Sun..Sat headers. */
  datatype Cell = Blank | DayCell(day: int)

  /** `daysInMonth`: the day number of `new Date(y, m + 1, 0)`, the last day of the month. */
  function DaysInMonth(ym: YearMonth): (r: int)
    requires ValidMonth(ym.month)
    ensures r == MonthLength(ym.year, ym.month)
  {
    DayZeroIsLastDay(ym.year, ym.month);
    Normalize(ym.year, ym.month + 1, 0).day
  }

  /** The month-length rule the `new Date(y, m + 1, 0)` idiom yields: 31 days
      for January, March, May, July, August, October and December, 30 for
      April, June, September and November, and for February 29 in a leap
      year and 28 otherwise. */
  lemma DaysInMonthFacts(ym: YearMonth)
    requires ValidMonth(ym.month)
    ensures 28 <= DaysInMonth(ym) <= 31
    ensures ym.month in {0, 2, 4, 6, 7, 9, 11} ==> DaysInMonth(ym) == 31
    ensures ym.month in {3, 5, 8, 10} ==> DaysInMonth(ym) == 30
    ensures ym.month == 1 ==> (DaysInMonth(ym) == 29 <==> IsLeapYear(ym.year))
    ensures ym.month == 1 ==> (DaysInMonth(ym) == 28 <==> !IsLeapYear(ym.year))
  {
    MonthLengthFacts(ym.year, ym.month);
  }

  /** `firstDayOfMonth`: getDay() of `new Date(y, m, 1)`. */
  function FirstDayOfMonth(ym: YearMonth): (r: int)
    requires ValidMonth(ym.month)
    ensures 0 <= r < 7
  {
    GetDay(Normalize(ym.year, ym.month, 1))
  }

  /** `days`: the day numbers of the month, in the order they are rendered. */
  function Days(ym: YearMonth): (r: seq<int>)
    requires ValidMonth(ym.month)
    ensures |r| == DaysInMonth(ym)
    ensures |r| > 0 && r[0] == 1 && r[|r| - 1] == DaysInMonth(ym)
    ensures forall i, j :: 0 <= i < j < |r| ==> r[i] < r[j]
    ensures forall d :: d in r <==> 1 <= d <= DaysInMonth(ym)
  {
    var r := seq(DaysInMonth(ym), i => i + 1);
    assert forall d :: 1 <= d <= |r| ==> d in r by {
      forall d | 1 <= d <= |r| ensures d in r {
        assert r[d - 1] == d;
      }
    }
    r
  }

  /** `blanks`: one placeholder per weekday column before the first of the month. */
  function Blanks(ym: YearMonth): (r: seq<int>)
    requires ValidMonth(ym.month)
    ensures |r| == FirstDayOfMonth(ym) && |r| < 7
  {
    seq(FirstDayOfMonth(ym), i => i)
  }

  /** The cells in render order: the blanks, then one cell per day. */
  function Grid(ym: YearMonth): (r: seq<Cell>)
    requires ValidMonth(ym.month)
    ensures |r| == FirstDayOfMonth(ym) + DaysInMonth(ym)
    ensures forall i :: 0 <= i < |r| ==> (r[i].Blank? <==> i < FirstDayOfMonth(ym))
  {
    var blanks, days := Blanks(ym), Days(ym);
    seq(|blanks|, _ => Blank) + seq(|days|, i requires 0 <= i < |days| => DayCell(days[i]))
  }

  /** The grid is a blank for each weekday column before the first of the
      month, then day d at position first + d - 1. */
  lemma GridShape(ym: YearMonth)
    requires ValidMonth(ym.month)
    ensures |Grid(ym)| == FirstDayOfMonth(ym) + DaysInMonth(ym)
    ensures forall i :: 0 <= i < FirstDayOfMonth(ym) ==> Grid(ym)[i] == Blank
    ensures forall d :: 1 <= d <= DaysInMonth(ym) ==> Grid(ym)[FirstDayOfMonth(ym) + d - 1] == DayCell(d)
  {
    var blanks, days := Blanks(ym), Days(ym);
    var head := seq(|blanks|, _ => Blank);
    var tail := seq(|days|, i requires 0 <= i < |days| => DayCell(days[i]));
    assert Grid(ym) == head + tail;
    forall d | 1 <= d <= |days|
      ensures (head + tail)[|blanks| + d - 1] == DayCell(d)
    {
      assert days[d - 1] == d;
      assert tail[d - 1] == DayCell(d);
    }
  }

  /** Day d sits in column (first + d - 1) mod 7, under the header of the
      weekday it actually falls on. */
  lemma DayColumns(ym: YearMonth)
    requires ValidMonth(ym.month)
    ensures forall d :: 1 <= d <= DaysInMonth(ym) ==>
      (FirstDayOfMonth(ym) + d - 1) % 7 == GetDay(Date(ym.year, ym.month, d))
  {
    forall d | 1 <= d <= DaysInMonth(ym)
      ensures (FirstDayOfMonth(ym) + d - 1) % 7 == GetDay(Date(ym.year, ym.month, d))
    {
      WeekdayAdvances(ym, d);
    }
  }

  /** The first of the month falls on the weekday Sakamoto's rule gives for it. */
  lemma FirstDayIsSakamoto(ym: YearMonth)
    requires ValidMonth(ym.month)
    ensures FirstDayOfMonth(ym) == Sakamoto(ym.year, ym.month, 1)
  {
    NormalizeValid(Date(ym.year, ym.month, 1));
    GetDayIsSakamoto(Date(ym.year, ym.month, 1));
  }

  /** The first of the month falls on the ECMAScript weekday of its day number. */
  lemma FirstDayIsWeekDay(ym: YearMonth)
    requires ValidMonth(ym.month)
    ensures FirstDayOfMonth(ym) == WeekDay(DayNumber(ym.year, ym.month, 1))
  {
    NormalizeValid(Date(ym.year, ym.month, 1));
  }

  /** Day d falls d - 1 weekdays after the first of the month. */
  lemma WeekdayAdvances(ym: YearMonth, d: int)
    requires ValidMonth(ym.month) && 1 <= d <= MonthLength(ym.year, ym.month)
    ensures GetDay(Date(ym.year, ym.month, d)) == (FirstDayOfMonth(ym) + d - 1) % 7
  {
    var dn := DayNumber(ym.year, ym.month, 1);
    FirstDayIsWeekDay(ym);
    assert DayOf(Date(ym.year, ym.month, d)) == dn + (d - 1);
    WeekDayAdd(dn, d - 1);
  }

  /** Consecutive months chain: the next month's grid starts in the column
      after the one holding this month's last day. */
  lemma GridsChain(ym: YearMonth)
    requires ValidMonth(ym.month)
    ensures ValidMonth(Succ(ym).month)
    ensures FirstDayOfMonth(Succ(ym)) == (FirstDayOfMonth(ym) + DaysInMonth(ym)) % 7
  {
    var n := Succ(ym);
    var dn := DayNumber(ym.year, ym.month, 1);
    var len := MonthLength(ym.year, ym.month);
    SuccStep(ym);
    FirstDayIsWeekDay(ym);
    FirstDayIsWeekDay(n);
    assert DayNumber(n.year, n.month, 1) == dn + len;
    WeekDayAdd(dn, len);
  }

  lemma February2024Length()
    ensures DaysInMonth(YearMonth(2024, 1)) == 29
  {
    assert IsLeapYear(2024);
  }

  lemma February2024Start()
    ensures FirstDayOfMonth(YearMonth(2024, 1)) == 4
  {
    FirstDayIsSakamoto(YearMonth(2024, 1));
    assert Sakamoto(2024, 1, 1) == 4;
  }

  lemma February2024Blanks()
    ensures Blanks(YearMonth(2024, 1)) == [0, 1, 2, 3]
  {
    February2024Start();
  }

  /** `isSelected(day)`: a selected date exists and its day, month and year
      are `day` and the displayed month's month and year. */
  predicate IsSelected(ym: YearMonth, day: int, selected: Option<Date>)
    ensures IsSelected(ym, day, selected) ==> selected == Some(Date(ym.year, ym.month, day))
  {
    selected.Some? &&
    day == selected.value.day &&
    ym.month == selected.value.month &&
    ym.year == selected.value.year
  }

  /** The date a click on `day` reports: `new Date(y, m, day)` for the displayed month. */
  function ClickDate(ym: YearMonth, day: int): (r: Date)
    requires ValidMonth(ym.month)
    ensures 1 <= day <= DaysInMonth(ym) ==> r == Date(ym.year, ym.month, day)
  {
    // Both branches are the same constructor call; the first only brings in
    // the fact that a day of the month is its own normal form.
    if 1 <= day <= DaysInMonth(ym) then
      NormalizeValid(Date(ym.year, ym.month, day));
      Normalize(ym.year, ym.month, day)
    else
      Normalize(ym.year, ym.month, day)
  }

  /** A day is highlighted exactly when the selection is that day of the displayed month. */
  lemma IsSelectedMeans(ym: YearMonth, day: int, selected: Option<Date>)
    ensures IsSelected(ym, day, selected) <==> selected == Some(Date(ym.year, ym.month, day))
    ensures selected == None ==> !IsSelected(ym, day, selected)
  {
  }

  /** The selection checks on February 2024. */
  lemma SelectionExamples()
    ensures IsSelected(YearMonth(2024, 1), 15, Some(Date(2024, 1, 15)))
    ensures !IsSelected(YearMonth(2024, 1), 15, Some(Date(2024, 2, 15)))
    ensures !IsSelected(YearMonth(2024, 1), 15, None)
  {
  }

  /** After a click on day d of the displayed month, day d and no other day
      of that month is highlighted, and nothing is highlighted in the
      neighbouring months. */
  lemma ClickSelectsDay(ym: YearMonth, d: int)
    requires ValidMonth(ym.month) && 1 <= d <= DaysInMonth(ym)
    ensures forall e :: IsSelected(ym, e, Some(ClickDate(ym, d))) <==> e == d
    ensures forall e :: !IsSelected(Succ(ym), e, Some(ClickDate(ym, d)))
    ensures forall e :: !IsSelected(Pred(ym), e, Some(ClickDate(ym, d)))
  {
  }

  /** The month `nextMonth` moves to: that of `new Date(y, m + 1, 1)`. */
  function NextMonth(ym: YearMonth): (r: YearMonth)
    requires ValidMonth(ym.month)
    ensures ValidMonth(r.month)
    ensures ym.month == 11 ==> r == YearMonth(ym.year + 1, 0)
    ensures ym.month < 11 ==> r == YearMonth(ym.year, ym.month + 1)
  {
    FirstOfNext(ym.year, ym.month);
    var first := Normalize(ym.year, ym.month + 1, 1);
    YearMonth(first.year, first.month)
  }

  /** The month `prevMonth` moves to: that of `new Date(y, m - 1, 1)`. */
  function PrevMonth(ym: YearMonth): (r: YearMonth)
    requires ValidMonth(ym.month)
    ensures ValidMonth(r.month)
    ensures ym.month == 0 ==> r == YearMonth(ym.year - 1, 11)
    ensures ym.month > 0 ==> r == YearMonth(ym.year, ym.month - 1)
  {
    FirstOfPrev(ym.year, ym.month);
    var first := Normalize(ym.year, ym.month - 1, 1);
    YearMonth(first.year, first.month)
  }

  /** Forward then back, or back then forward, returns to the same month. */
  lemma NavigationRoundTrip(ym: YearMonth)
    requires ValidMonth(ym.month)
    ensures PrevMonth(NextMonth(ym)) == ym
    ensures NextMonth(PrevMonth(ym)) == ym
  {
  }

  /** `currentMonth`: the displayed month. Only its year and month are ever read. */
  class MonthCursor {
    var year: int
    var month: int

    ghost predicate Valid()
      reads this
    {
      ValidMonth(month)
    }

    function Current(): YearMonth
      reads this
    {
      YearMonth(year, month)
    }

    /** The initial month, taken from the wall clock by the host. */
    constructor (start: YearMonth)
      requires ValidMonth(start.month)
      ensures Valid() && Current() == start
    {
      year := start.year;
      month := start.month;
    }

    /** `nextMonth`: replaces the cursor by the first of the following month. */
    method Next()
      requires Valid()
      modifies this
      ensures Valid()
      ensures old(month) == 11 ==> year == old(year) + 1 && month == 0
      ensures old(month) < 11 ==> year == old(year) && month == old(month) + 1
    {
      var next := NextMonth(Current());
      year, month := next.year, next.month;
    }

    /** `prevMonth`: replaces the cursor by the first of the preceding month. */
    method Prev()
      requires Valid()
      modifies this
      ensures Valid()
      ensures old(month) == 0 ==> year == old(year) - 1 && month == 11
      ensures old(month) > 0 ==> year == old(year) && month == old(month) - 1
    {
      var prev := PrevMonth(Current());
      year, month := prev.year, prev.month;
    }

    /** The values recomputed on each render: `blanks` and `days` of the displayed month. */
    method Render() returns (blanks: seq<int>, days: seq<int>)
      requires Valid()
      ensures |blanks| == Sakamoto(year, month, 1)
      ensures |days| == MonthLength(year, month)
      ensures forall i, j :: 0 <= i < j < |days| ==> days[i] < days[j]
      ensures forall d :: d in days <==> 1 <= d <= MonthLength(year, month)
    {
      FirstDayIsSakamoto(Current());
      blanks := Blanks(Current());
      days := Days(Current());
    }
  }

  /** Pressing "<" then ">" (or ">" then "<") leaves the displayed month as it was. */
  method PrevThenNext(c: MonthCursor)
    requires c.Valid()
    modifies c
    ensures c.Valid() && c.Current() == old(c.Current())
  {
    c.Prev();
    c.Next();
  }

  method NextThenPrev(c: MonthCursor)
    requires c.Valid()
    modifies c
    ensures c.Valid() && c.Current() == old(c.Current())
  {
    c.Next();
    c.Prev();
  }

  // The navigation exactly as written: `new Date(y, m +- 1, 1)` goes through
  // the Date constructor, which reads years 0 to 99 as 1900 to 1999.

  function NextMonthAsWritten(ym: YearMonth): (r: YearMonth)
    ensures !(0 <= ym.year <= 99) && ValidMonth(ym.month) ==> r == NextMonth(ym)
  {
    var first := Construct(ym.year, ym.month + 1, 1);
    YearMonth(first.year, first.month)
  }

  function PrevMonthAsWritten(ym: YearMonth): (r: YearMonth)
    ensures !(0 <= ym.year <= 99) && ValidMonth(ym.month) ==> r == PrevMonth(ym)
  {
    var first := Construct(ym.year, ym.month - 1, 1);
    YearMonth(first.year, first.month)
  }

  /** From January of year 100, "<" shows December of year 99 and ">" then
      shows January 2000, not January 100 again; "<" from December 99 shows
      November 1999. */
  lemma TwoDigitYearBreaksNavigation()
    ensures PrevMonthAsWritten(YearMonth(100, 0)) == YearMonth(99, 11)
    ensures NextMonthAsWritten(YearMonth(99, 11)) == YearMonth(2000, 0)
    ensures PrevMonthAsWritten(YearMonth(99, 11)) == YearMonth(1999, 10)
    ensures NextMonthAsWritten(PrevMonthAsWritten(YearMonth(100, 0))) != YearMonth(100, 0)
  {
    FirstOfPrev(100, 0);
    FirstOfNext(1999, 11);
    FirstOfPrev(1999, 11);
    assert Normalize(1999, 12, 1) == Date(2000, 0, 1);
    assert Normalize(1999, 10, 1) == Date(1999, 10, 1);
  }

  // The grid and the click exactly as written: they too pass the cursor's
  // year through the Date constructor.

  /** `daysInMonth` as written: in years 0 to 99, the length of the same month of 1900 + year. */
  function DaysInMonthAsWritten(ym: YearMonth): (r: int)
    requires ValidMonth(ym.month)
    ensures !(0 <= ym.year <= 99) ==> r == DaysInMonth(ym)
    ensures 0 <= ym.year <= 99 ==> r == MonthLength(ym.year + 1900, ym.month)
  {
    DayZeroIsLastDay(FullYear(ym.year), ym.month);
    Construct(ym.year, ym.month + 1, 0).day
  }

  /** `firstDayOfMonth` as written: in years 0 to 99, the first weekday of the same month of 1900 + year. */
  function FirstDayOfMonthAsWritten(ym: YearMonth): (r: int)
    requires ValidMonth(ym.month)
    ensures 0 <= r < 7
    ensures !(0 <= ym.year <= 99) ==> r == FirstDayOfMonth(ym)
    ensures 0 <= ym.year <= 99 ==> r == FirstDayOfMonth(YearMonth(ym.year + 1900, ym.month))
  {
    GetDay(Construct(ym.year, ym.month, 1))
  }

  /** The date a click reports, as written: in years 0 to 99, a date of year 1900 + year. */
  function ClickDateAsWritten(ym: YearMonth, day: int): (r: Date)
    requires ValidMonth(ym.month)
    ensures !(0 <= ym.year <= 99) ==> r == ClickDate(ym, day)
    ensures 0 <= ym.year <= 99 ==> r == ClickDate(YearMonth(ym.year + 1900, ym.month), day)
  {
    Construct(ym.year, ym.month, day)
  }

  /** December of year 99, which "<" reaches from January 100, is drawn as
      written from December 1999, which starts on a Wednesday, while
      1 December 99 fell on a Tuesday. */
  lemma December99GridAsWritten()
    ensures FirstDayOfMonthAsWritten(YearMonth(99, 11)) == 3
    ensures FirstDayOfMonth(YearMonth(99, 11)) == 2
  {
    FirstDayIsSakamoto(YearMonth(1999, 11));
    assert Sakamoto(1999, 11, 1) == 3;
    FirstDayIsSakamoto(YearMonth(99, 11));
    assert Sakamoto(99, 11, 1) == 2;
  }

  /** As written, a click on day 5 of December 99 reports 5 December 1999,
      so the day just clicked is not highlighted. */
  lemma December99ClickAsWritten()
    ensures ClickDateAsWritten(YearMonth(99, 11), 5) == Date(1999, 11, 5)
    ensures !IsSelected(YearMonth(99, 11), 5, Some(ClickDateAsWritten(YearMonth(99, 11), 5)))
  {
    assert DaysInMonth(YearMonth(1999, 11)) == 31;
  }
}
