/** The calendar part of the JavaScript Date object, on integer dates:
    `new Date(year, month, date)` with out-of-range months and days carried
    into the neighbouring months and years, and the getters getFullYear(),
    getMonth(), getDate() and getDay(). Local time only; no time of day. */
module JsDate {
  import opened Gregorian

  /** A Date as its getters report it: getFullYear(), getMonth() (0-based) and getDate(). */
  datatype Date = Date(year: int, month: int, day: int)

  /** The date names an existing day of the proleptic Gregorian calendar. */
  predicate Valid(dt: Date) {
    ValidMonth(dt.month) && 1 <= dt.day <= MonthLength(dt.year, dt.month)
  }

  /** The day number of a date, counted from 1970-01-01 = 0. */
  function DayOf(dt: Date): int
    requires ValidMonth(dt.month)
  {
    DayNumber(dt.year, dt.month, dt.day)
  }

  /** getDay(): the weekday, Sunday = 0 .. Saturday = 6. */
  function GetDay(dt: Date): (r: int)
    requires Valid(dt)
    ensures 0 <= r < 7
  {
    WeekDay(DayOf(dt))
  }

  /** getDay() is the weekday Sakamoto's rule gives. */
  lemma GetDayIsSakamoto(dt: Date)
    requires Valid(dt)
    ensures GetDay(dt) == Sakamoto(dt.year, dt.month, dt.day)
  {
    SakamotoIsWeekDay(dt.year, dt.month, dt.day);
  }

  /** Carries a day outside month (y, m) into the months before or after it,
      one month at a time, until it names an existing day. */
  function NormalizeDay(y: int, m: int, d: int): (r: Date)
    requires ValidMonth(m)
    ensures Valid(r)
    decreases if d < 1 then 1 - d else 0, d
  {
    var ym := YearMonth(y, m);
    if d < 1 then
      var p := Pred(ym);
      NormalizeDay(p.year, p.month, d + MonthLength(p.year, p.month))
    else if d > MonthLength(y, m) then
      var n := Succ(ym);
      NormalizeDay(n.year, n.month, d - MonthLength(y, m))
    else
      Date(y, m, d)
  }

  /** The date NormalizeDay reaches lies d - 1 days after the first of (y, m). */
  lemma {:induction false} NormalizeDayNumber(y: int, m: int, d: int)
    requires ValidMonth(m)
    ensures DayOf(NormalizeDay(y, m, d)) == DayNumber(y, m, 1) + d - 1
    decreases if d < 1 then 1 - d else 0, d
  {
    var ym := YearMonth(y, m);
    if d < 1 {
      var p := Pred(ym);
      SuccPredInverse(ym);
      SuccStep(p);
      NormalizeDayNumber(p.year, p.month, d + MonthLength(p.year, p.month));
    } else if d > MonthLength(y, m) {
      var n := Succ(ym);
      SuccStep(ym);
      NormalizeDayNumber(n.year, n.month, d - MonthLength(y, m));
    }
  }

  /** The date `new Date(year, month, date)` stands for, leaving aside the
      two-digit-year rule (see Construct): the month is carried into the
      year by floor division, then the day into the months. */
  function Normalize(year: int, month: int, date: int): (r: Date)
    ensures Valid(r)
  {
    NormalizeDay(year + month / 12, month % 12, date)
  }

  /** The day number of Normalize(year, month, date) is that of ECMAScript's
      MakeDay: the first of the carried month plus date - 1. */
  lemma NormalizeIsMakeDay(year: int, month: int, date: int)
    ensures DayOf(Normalize(year, month, date)) == DayNumber(year + month / 12, month % 12, 1) + date - 1
  {
    NormalizeDayNumber(year + month / 12, month % 12, date);
  }

  /** The Date constructor reads a year from 0 to 99 as 1900 to 1999: the
      year it uses is never a two-digit one, is the given year exactly when
      that is not two-digit, and otherwise is 1900 later. */
  function FullYear(year: int): (r: int)
    ensures !(0 <= r <= 99)
    ensures r == year <==> !(0 <= year <= 99)
    ensures r == year || r == year + 1900
  {
    if 0 <= year <= 99 then 1900 + year else year
  }

  /** `new Date(year, month, date)` exactly as JavaScript evaluates it. */
  function Construct(year: int, month: int, date: int): (r: Date)
    ensures Valid(r)
    ensures !(0 <= year <= 99) ==> r == Normalize(year, month, date)
  {
    Normalize(FullYear(year), month, date)
  }

  /** A day that exists in month (y, m) is left where it is. */
  lemma NormalizeDayInRange(y: int, m: int, d: int)
    requires ValidMonth(m) && 1 <= d <= MonthLength(y, m)
    ensures NormalizeDay(y, m, d) == Date(y, m, d)
  {
  }

  /** A valid date is its own normal form. */
  lemma NormalizeValid(dt: Date)
    requires Valid(dt)
    ensures Normalize(dt.year, dt.month, dt.day) == dt
  {
    assert dt.month / 12 == 0 && dt.month % 12 == dt.month;
    NormalizeDayInRange(dt.year, dt.month, dt.day);
  }

  /** Day 0 of the month after (y, m) is the last day of (y, m), December
      carrying into January of the next year: the idiom new Date(y, m + 1, 0). */
  lemma DayZeroIsLastDay(y: int, m: int)
    requires ValidMonth(m)
    ensures Normalize(y, m + 1, 0) == Date(y, m, MonthLength(y, m))
  {
    var ym := YearMonth(y, m);
    var n := Succ(ym);
    assert n.year == y + (m + 1) / 12 && n.month == (m + 1) % 12;
    SuccPredInverse(ym);
    assert NormalizeDay(n.year, n.month, 0) == NormalizeDay(y, m, MonthLength(y, m));
    NormalizeDayInRange(y, m, MonthLength(y, m));
  }

  /** Day 1 of month m + 1, as the Date constructor carries it, is the first of Succ. */
  lemma FirstOfNext(y: int, m: int)
    requires ValidMonth(m)
    ensures Normalize(y, m + 1, 1) == Date(Succ(YearMonth(y, m)).year, Succ(YearMonth(y, m)).month, 1)
  {
    var n := Succ(YearMonth(y, m));
    assert n.year == y + (m + 1) / 12 && n.month == (m + 1) % 12;
    NormalizeDayInRange(n.year, n.month, 1);
  }

  /** Day 1 of month m - 1, as the Date constructor carries it, is the first of Pred. */
  lemma FirstOfPrev(y: int, m: int)
    requires ValidMonth(m)
    ensures Normalize(y, m - 1, 1) == Date(Pred(YearMonth(y, m)).year, Pred(YearMonth(y, m)).month, 1)
  {
    var p := Pred(YearMonth(y, m));
    assert p.year == y + (m - 1) / 12 && p.month == (m - 1) % 12;
    NormalizeDayInRange(p.year, p.month, 1);
  }

  /** The days of one year lie between its January 1 and the next one's. */
  lemma WithinYear(dt: Date)
    requires Valid(dt)
    ensures DayFromYear(dt.year) <= DayOf(dt) < DayFromYear(dt.year + 1)
  {
    YearStep(dt.year);
  }

  /** January 1 moves forward with the year. */
  lemma {:induction false} DayFromYearMonotone(y1: int, y2: int)
    requires y1 < y2
    ensures DayFromYear(y1 + 1) <= DayFromYear(y2)
    decreases y2 - y1
  {
    if y1 + 1 < y2 {
      DayFromYearMonotone(y1, y2 - 1);
      YearStep(y2 - 1);
    }
  }

  /** The first of a later month of the same year comes after every day of an earlier one. */
  lemma MonthsOrdered(y: int, m1: int, m2: int)
    requires ValidMonth(m1) && ValidMonth(m2) && m1 < m2
    ensures DaysBeforeMonth(y, m1) + MonthLength(y, m1) <= DaysBeforeMonth(y, m2)
  {
  }

  /** A date of an earlier year has a smaller day number. */
  lemma EarlierYearFirst(a: Date, b: Date)
    requires Valid(a) && Valid(b) && a.year < b.year
    ensures DayOf(a) < DayOf(b)
  {
    WithinYear(a);
    WithinYear(b);
    DayFromYearMonotone(a.year, b.year);
  }

  /** A date of an earlier month of the same year has a smaller day number. */
  lemma EarlierMonthFirst(a: Date, b: Date)
    requires Valid(a) && Valid(b) && a.year == b.year && a.month < b.month
    ensures DayOf(a) < DayOf(b)
  {
    MonthsOrdered(a.year, a.month, b.month);
  }

  /** Two valid dates with the same day number are the same date. */
  lemma DayOfInjective(a: Date, b: Date)
    requires Valid(a) && Valid(b) && DayOf(a) == DayOf(b)
    ensures a == b
  {
    if a.year < b.year {
      EarlierYearFirst(a, b);
    } else if b.year < a.year {
      EarlierYearFirst(b, a);
    } else if a.month < b.month {
      EarlierMonthFirst(a, b);
    } else if b.month < a.month {
      EarlierMonthFirst(b, a);
    }
  }

  /** Normalize returns the one valid date whose day number is ECMAScript's
      MakeDay(year, month, date). */
  lemma NormalizeUnique(year: int, month: int, date: int, dt: Date)
    requires Valid(dt)
    requires DayOf(dt) == DayNumber(year + month / 12, month % 12, 1) + date - 1
    ensures dt == Normalize(year, month, date)
  {
    NormalizeIsMakeDay(year, month, date);
    DayOfInjective(dt, Normalize(year, month, date));
  }
}
