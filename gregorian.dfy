/** Integer arithmetic of the proleptic Gregorian calendar, in the terms the
    ECMAScript Date object uses: months are numbered 0 (January) to 11
    (December) and days are counted from 1970-01-01, which was a Thursday. */
module Gregorian {

  /** A calendar month of a year; `month` is 0-based, as in JavaScript. */
  datatype YearMonth = YearMonth(year: int, month: int)

  predicate ValidMonth(m: int) { 0 <= m < 12 }

  /** Leap rule: divisible by 4, and not by 100 unless also by 400. */
  predicate IsLeapYear(y: int) {
    y % 4 == 0 && (y % 100 != 0 || y % 400 == 0)
  }

  function DaysInYear(y: int): int {
    if IsLeapYear(y) then 366 else 365
  }

  /** The length of month `m` of year `y`: thirty days hath September, ... */
  function MonthLength(y: int, m: int): int
    requires ValidMonth(m)
  {
    if m == 1 then (if IsLeapYear(y) then 29 else 28)
    else if m == 3 || m == 5 || m == 8 || m == 10 then 30
    else 31
  }

  /** The month after `ym`: December carries into January of the next year. */
  function Succ(ym: YearMonth): YearMonth {
    if ym.month == 11 then YearMonth(ym.year + 1, 0) else YearMonth(ym.year, ym.month + 1)
  }

  /** The month before `ym`: January borrows from December of the previous year. */
  function Pred(ym: YearMonth): YearMonth {
    if ym.month == 0 then YearMonth(ym.year - 1, 11) else YearMonth(ym.year, ym.month - 1)
  }

  /** Number of days from 1970-01-01 to January 1 of year `y` (ECMAScript's
      DayFromYear; Dafny's `/` by a positive constant is floor division). */
  function DayFromYear(y: int): int {
    365 * (y - 1970) + (y - 1969) / 4 - (y - 1901) / 100 + (y - 1601) / 400
  }

  /** Number of days of year `y` that come before the first of month `m`. */
  function DaysBeforeMonth(y: int, m: int): int
    requires ValidMonth(m)
  {
    var common :=
      if m == 0 then 0 else if m == 1 then 31 else if m == 2 then 59
      else if m == 3 then 90 else if m == 4 then 120 else if m == 5 then 151
      else if m == 6 then 181 else if m == 7 then 212 else if m == 8 then 243
      else if m == 9 then 273 else if m == 10 then 304 else 334;
    common + (if m >= 2 && IsLeapYear(y) then 1 else 0)
  }

  /** Day number of date (y, m, d), counted from 1970-01-01 = 0. */
  function DayNumber(y: int, m: int, d: int): int
    requires ValidMonth(m)
  {
    DayFromYear(y) + DaysBeforeMonth(y, m) + d - 1
  }

  /** ECMAScript's WeekDay: Sunday = 0 .. Saturday = 6, day 0 being a Thursday. */
  function WeekDay(dayNumber: int): (r: int)
    ensures 0 <= r < 7
  {
    (dayNumber + 4) % 7
  }

  /** Sakamoto's rule for the weekday (Sunday = 0) of date (y, m, d). */
  function Sakamoto(y: int, m: int, d: int): (r: int)
    requires ValidMonth(m)
    ensures 0 <= r < 7
  {
    var t := [0, 3, 2, 5, 0, 3, 5, 1, 4, 6, 2, 4];
    var yy := if m < 2 then y - 1 else y;
    (yy + yy / 4 - yy / 100 + yy / 400 + t[m] + d) % 7
  }

  /** Every month has 28 to 31 days; which one is fixed by the month and,
      for February only, by the leap rule. */
  lemma MonthLengthFacts(y: int, m: int)
    requires ValidMonth(m)
    ensures 28 <= MonthLength(y, m) <= 31
    ensures m in {0, 2, 4, 6, 7, 9, 11} <==> MonthLength(y, m) == 31
    ensures m in {3, 5, 8, 10} <==> MonthLength(y, m) == 30
    ensures MonthLength(y, m) == 29 <==> m == 1 && IsLeapYear(y)
    ensures MonthLength(y, m) == 28 <==> m == 1 && !IsLeapYear(y)
  {
  }

  lemma SuccPredInverse(ym: YearMonth)
    requires ValidMonth(ym.month)
    ensures ValidMonth(Succ(ym).month) && ValidMonth(Pred(ym).month)
    ensures Pred(Succ(ym)) == ym && Succ(Pred(ym)) == ym
  {
  }

  /** Floor division steps up by one exactly at multiples of the divisor. */
  lemma FloorStep(a: int)
    ensures (a + 1) / 4 - a / 4 == if (a + 1) % 4 == 0 then 1 else 0
    ensures (a + 1) / 100 - a / 100 == if (a + 1) % 100 == 0 then 1 else 0
    ensures (a + 1) / 400 - a / 400 == if (a + 1) % 400 == 0 then 1 else 0
  {
  }

  /** How many of the multiples of 4, 100 and 400 counted by DayFromYear
      the year y adds. */
  lemma LeapCounters(y: int)
    ensures (y - 1968) / 4 - (y - 1969) / 4 == if y % 4 == 0 then 1 else 0
    ensures (y - 1900) / 100 - (y - 1901) / 100 == if y % 100 == 0 then 1 else 0
    ensures (y - 1600) / 400 - (y - 1601) / 400 == if y % 400 == 0 then 1 else 0
  {
    FloorStep(y - 1969);
    FloorStep(y - 1901);
    FloorStep(y - 1601);
    assert (y - 1968) % 4 == y % 4;
    assert (y - 1900) % 100 == y % 100;
    assert (y - 1600) % 400 == y % 400;
  }

  /** A year divisible by 400 is divisible by 100, and one divisible by 100 by 4. */
  lemma DivisorsNest(y: int)
    ensures y % 400 == 0 ==> y % 100 == 0
    ensures y % 100 == 0 ==> y % 4 == 0
  {
    if y % 400 == 0 {
      var q := y / 400;
      assert y == 100 * (4 * q);
      MultipleMod(4 * q);
    }
    if y % 100 == 0 {
      var q := y / 100;
      assert y == 4 * (25 * q);
      MultipleMod(25 * q);
    }
  }

  lemma MultipleMod(q: int)
    ensures (100 * q) % 100 == 0
    ensures (4 * q) % 4 == 0
  {
  }

  /** DayFromYear(y + 1) - DayFromYear(y), written with the three counters. */
  lemma DayFromYearDifference(y: int)
    ensures DayFromYear(y + 1) - DayFromYear(y)
         == 365 + ((y - 1968) / 4 - (y - 1969) / 4) - ((y - 1900) / 100 - (y - 1901) / 100)
            + ((y - 1600) / 400 - (y - 1601) / 400)
  {
  }

  /** January 1 of year y + 1 comes DaysInYear(y) days after January 1 of y:
      the closed DayFromYear formula agrees with the leap rule. */
  lemma YearStep(y: int)
    ensures DayFromYear(y + 1) == DayFromYear(y) + DaysInYear(y)
  {
    DayFromYearDifference(y);
    LeapCounters(y);
    DivisorsNest(y);
  }

  /** The first of the next month comes MonthLength days after the first of this one. */
  lemma SuccStep(ym: YearMonth)
    requires ValidMonth(ym.month)
    ensures ValidMonth(Succ(ym).month)
    ensures DayNumber(Succ(ym).year, Succ(ym).month, 1)
         == DayNumber(ym.year, ym.month, 1) + MonthLength(ym.year, ym.month)
  {
    if ym.month == 11 {
      YearStep(ym.year);
    }
  }

  /** Sakamoto's rule agrees with ECMAScript's day-count weekday on every date. */
  lemma {:induction false} SakamotoIsWeekDay(y: int, m: int, d: int)
    requires ValidMonth(m)
    ensures Sakamoto(y, m, d) == WeekDay(DayNumber(y, m, d))
  {
    var a := y - 1;
    var leaps := a / 4 - a / 100 + a / 400;
    var adj := if m >= 2 && IsLeapYear(y) then 1 else 0;
    var shift := if m < 2 then 0 else 1;
    var t := [0, 3, 2, 5, 0, 3, 5, 1, 4, 6, 2, 4];
    var weeks := [0, 4, 8, 12, 17, 21, 25, 30, 34, 38, 43, 47];
    // the days before month m, less Sakamoto's month offset, fill whole weeks
    assert DaysBeforeMonth(y, m) - adj == t[m] + shift + 7 * weeks[m];
    assert DayFromYear(y) == 365 * (a - 1969) + leaps - 477 by {
      assert (y - 1969) / 4 == a / 4 - 492;
      assert (y - 1901) / 100 == a / 100 - 19;
      assert (y - 1601) / 400 == a / 400 - 4;
    }
    if m >= 2 {
      FloorStep(a);
      DivisorsNest(y);
      assert y / 4 - y / 100 + y / 400 == leaps + adj;
    }
    var s := a + leaps + shift + adj + t[m] + d;
    assert Sakamoto(y, m, d) == s % 7;
    assert DayNumber(y, m, d) + 4 == s + 7 * (52 * a - 102737 + weeks[m]);
    ModMultiple(s, 52 * a - 102737 + weeks[m]);
  }

  /** Moving k days ahead moves the weekday k places round the week. */
  lemma WeekDayAdd(n: int, k: int)
    ensures WeekDay(n + k) == (WeekDay(n) + k) % 7
  {
  }

  lemma ModMultiple(s: int, k: int)
    ensures (s + 7 * k) % 7 == s % 7
  {
  }
}
