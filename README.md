# Pet adoption and appointment scheduler: calendar and pet filter

This project models the logic of the single-page React app `src/App.tsx` in
Dafny. There are two parts:

- The `Calendar` widget of the appointment scheduler. For the displayed month
  it finds the number of days and the weekday of the 1st. It renders that
  many leading blanks and then the days 1..n in a 7-column grid under the
  headers Sun..Sat. Its "<" and ">" buttons move a month cursor. It
  highlights the selected day, and a click on a day reports a new selected
  date.
- The breed filter of the `PetAdoption` panel. It keeps the cats or the dogs
  of a fixed list of four pets.

All of the calendar work goes through the JavaScript `Date` constructor. So
the model first gives the calendar part of `Date` in integer terms.

- `Gregorian` is the proleptic Gregorian calendar. It has the leap rule, the
  month lengths, ECMAScript's day count from 1970-01-01 (`DayFromYear`),
  ECMAScript's weekday (day 0 was a Thursday), and Sakamoto's weekday rule as
  an independent reference.
- `JsDate` models `new Date(year, month, date)`. The month is carried into
  the year by floor division and the day is carried into the neighbouring
  months (`Normalize`). It is proved to be the unique valid date whose day
  number is ECMAScript's MakeDay. `Construct` adds the constructor's rule
  that a year from 0 to 99 means 1900 to 1999. `GetDay` is `getDay()`.
- `Calendar` models `daysInMonth`, `firstDayOfMonth`, `days`, `blanks`, the
  grid, `isSelected` and the date a day click reports. It also models the
  month cursor as the class `MonthCursor`, whose `Next` and `Prev` methods
  update its `year` and `month` fields.
- `PetAdoption` models the pet list and `filteredPets`.

Months are 0-based (0 = January .. 11 = December), as `getMonth()` returns
them and as the source computes with them.

## Model

| member | source | states |
|---|---|---|
| Gregorian.MonthLengthFacts | src/App.tsx:7 | The month-length table gives 28..31 days. It gives 31 exactly for Jan/Mar/May/Jul/Aug/Oct/Dec and 30 exactly for Apr/Jun/Sep/Nov. It gives 29 exactly for February of a leap year and 28 exactly for February of any other year. |
| Gregorian.YearStep | src/App.tsx:7 | ECMAScript's closed day-count formula puts January 1 of y+1 exactly 366 days after January 1 of y when y is a leap year (divisible by 4, and not by 100 unless also by 400), and 365 otherwise. |
| Gregorian.SuccStep | src/App.tsx:13-19 | The first of the next month comes exactly one month length after the first of this month, across the December/January boundary too. |
| Gregorian.SuccPredInverse | src/App.tsx:13-19 | The month after and the month before stay in 0..11 and undo each other. |
| Gregorian.SakamotoIsWeekDay | src/App.tsx:8 | On every date, for every year, Sakamoto's rule and ECMAScript's weekday (day count + 4, mod 7) agree. |
| JsDate.NormalizeDay | src/App.tsx:7 | Carrying a day that is out of range of its month into the neighbouring months always ends on an existing date. |
| JsDate.NormalizeDayNumber | src/App.tsx:7 | That date lies exactly d - 1 days after the first of the starting month. |
| JsDate.Normalize | src/App.tsx:7-8 | `new Date(y, m, d)` (without the two-digit-year rule) is a valid date for any integer month and day. |
| JsDate.NormalizeIsMakeDay | src/App.tsx:7-8 | Its day number is ECMAScript's MakeDay: the first of month (y + m div 12, m mod 12), plus d - 1. |
| JsDate.DayOfInjective | src/App.tsx:7-8 | Two valid dates with the same day number are equal. |
| JsDate.NormalizeUnique | src/App.tsx:7-8 | Any valid date with MakeDay's day number is the constructor's result, so the result is unique. |
| JsDate.NormalizeValid | src/App.tsx:46 | The constructor leaves an existing date unchanged. |
| JsDate.DayZeroIsLastDay | src/App.tsx:7 | `new Date(y, m + 1, 0)` is the last day of month m, and in December it carries into the next year. |
| JsDate.FirstOfNext | src/App.tsx:14 | `new Date(y, m + 1, 1)` is the first of the following month, and December rolls to January of y + 1. |
| JsDate.FirstOfPrev | src/App.tsx:18 | `new Date(y, m - 1, 1)` is the first of the preceding month, and January rolls to December of y - 1. |
| JsDate.GetDay | src/App.tsx:8 | `getDay()` is in 0..6. |
| JsDate.GetDayIsSakamoto | src/App.tsx:8 | `getDay()` is the weekday that Sakamoto's rule gives (Sunday = 0). |
| JsDate.FullYear | src/App.tsx:14 | The year the `Date` constructor uses is never in 0..99. It equals the given year exactly when that year is outside 0..99, and otherwise it is 1900 later. |
| JsDate.Construct | src/App.tsx:14 | `new Date(y, m, d)` as JavaScript runs it is always valid. Outside years 0..99 it equals the normalisation. |
| Calendar.DaysInMonth | src/App.tsx:7 | `daysInMonth`, computed by the day-0 idiom, is the Gregorian length of the displayed month. |
| Calendar.DaysInMonthFacts | src/App.tsx:7 | `daysInMonth` is in 28..31. It is 31 for Jan/Mar/May/Jul/Aug/Oct/Dec and 30 for Apr/Jun/Sep/Nov. For February it is 29 iff the year is a leap year, and 28 iff it is not. |
| Calendar.FirstDayOfMonth | src/App.tsx:8 | `firstDayOfMonth` is in 0..6. |
| Calendar.FirstDayIsSakamoto | src/App.tsx:8 | `firstDayOfMonth` is the weekday of day 1 of the displayed month (Sunday = 0). |
| Calendar.FirstDayIsWeekDay | src/App.tsx:8 | `firstDayOfMonth` is ECMAScript's weekday of that day's day number. |
| Calendar.Days | src/App.tsx:10 | `days` has `daysInMonth` entries. They start at 1, end at `daysInMonth` and strictly ascend. The entries are exactly the integers 1..`daysInMonth`. |
| Calendar.Blanks | src/App.tsx:11 | `blanks` has `firstDayOfMonth` entries, so fewer than 7. |
| Calendar.Grid | src/App.tsx:39-51 | The rendered cells, in order: `firstDayOfMonth + daysInMonth` of them, and a cell is a blank exactly when it comes before position `firstDayOfMonth`. |
| Calendar.GridShape | src/App.tsx:39-51 | The rendered cells are `firstDayOfMonth` blanks and then day d at position first + d - 1. That is `firstDayOfMonth + daysInMonth` cells in all. |
| Calendar.WeekdayAdvances | src/App.tsx:8-10 | Day d of the month falls (first + d - 1) mod 7. |
| Calendar.DayColumns | src/App.tsx:36-51 | Every day d sits in column (first + d - 1) mod 7, which is the header of the weekday it really falls on. |
| Calendar.GridsChain | src/App.tsx:7-15 | The next month's first weekday is (this month's first weekday + `daysInMonth`) mod 7. |
| Calendar.February2024Length | src/App.tsx:7 | February 2024 has 29 days. |
| Calendar.February2024Start | src/App.tsx:8 | February 2024 starts on a Thursday (4). |
| Calendar.February2024Blanks | src/App.tsx:11 | February 2024 renders the blanks 0, 1, 2, 3. |
| Calendar.IsSelected | src/App.tsx:21-26 | `isSelected(day)` holds only when the selection is the date (cursor year, cursor month, day). |
| Calendar.IsSelectedMeans | src/App.tsx:21-26 | `isSelected(day)` holds iff the selection is exactly the date (cursor year, cursor month, day). With no selection it is false. |
| Calendar.SelectionExamples | src/App.tsx:21-26 | In February 2024, day 15 is highlighted for the selection 2024-02-15. It is not highlighted for 2024-03-15 or for no selection. |
| Calendar.ClickDate | src/App.tsx:46 | Clicking a day d of the displayed month reports the date (cursor year, cursor month, d). |
| Calendar.ClickSelectsDay | src/App.tsx:21-46 | After clicking d, `isSelected(e)` holds iff e = d, and no day of the previous or next month is highlighted. |
| Calendar.NextMonth | src/App.tsx:13-15 | `nextMonth` moves to the following month with the month kept in 0..11. December goes to January of year + 1, and any other month goes to month + 1 of the same year. |
| Calendar.PrevMonth | src/App.tsx:17-19 | `prevMonth` moves to the preceding month with the month kept in 0..11. January goes to December of year - 1, and any other month goes to month - 1 of the same year. |
| Calendar.NavigationRoundTrip | src/App.tsx:13-19 | Next then previous, or previous then next, returns to the same (year, month). |
| Calendar.MonthCursor.constructor | src/App.tsx:5 | The cursor starts at the given month, which the host takes from the clock. |
| Calendar.MonthCursor.Next | src/App.tsx:13-15 | Only the cursor's fields change, and they change to the following month with the rollover. The month stays in range. |
| Calendar.MonthCursor.Prev | src/App.tsx:17-19 | Only the cursor's fields change, and they change to the preceding month with the rollover. The month stays in range. |
| Calendar.MonthCursor.Render | src/App.tsx:7-11 | For the displayed month, `blanks` has as many entries as the weekday of day 1. `days` is 1..length in ascending order. |
| Calendar.PrevThenNext | src/App.tsx:13-19 | Pressing "<" then ">" on the cursor restores its month. |
| Calendar.NextThenPrev | src/App.tsx:13-19 | Pressing ">" then "<" on the cursor restores its month. |
| Calendar.NextMonthAsWritten | src/App.tsx:14 | As written (through `Construct`), `nextMonth` agrees with `NextMonth` for every year outside 0..99. |
| Calendar.PrevMonthAsWritten | src/App.tsx:18 | As written, `prevMonth` agrees with `PrevMonth` for every year outside 0..99. |
| Calendar.DaysInMonthAsWritten | src/App.tsx:7 | As written (through `Construct`), `daysInMonth` agrees with `DaysInMonth` outside years 0..99. In years 0..99 it is the length of the same month of year + 1900. |
| Calendar.FirstDayOfMonthAsWritten | src/App.tsx:8 | As written, `firstDayOfMonth` is in 0..6 and agrees with `FirstDayOfMonth` outside years 0..99. In years 0..99 it is the first weekday of the same month of year + 1900. |
| Calendar.ClickDateAsWritten | src/App.tsx:46 | As written, a click reports the same date as `ClickDate` outside years 0..99. In years 0..99 it reports the date of year + 1900. |
| Calendar.December99GridAsWritten | src/App.tsx:8 | As written, the grid of December 99 starts in column 3, the weekday of 1 December 1999. 1 December 99 fell on weekday 2. |
| Calendar.December99ClickAsWritten | src/App.tsx:21-46 | As written, a click on day 5 of December 99 reports 5 December 1999, so the day just clicked is not highlighted. |
| Calendar.TwoDigitYearBreaksNavigation | src/App.tsx:13-19 | As written, "<" from January 100 gives December 99. ">" from there gives January 2000, not January 100, and "<" gives November 1999. |
| PetAdoption.Pets | src/App.tsx:96-101 | The pet list has four pets, and their ids (the cards' keys) are distinct. |
| PetAdoption.Shows | src/App.tsx:103-106 | The filter test shows a pet only when `petType` is 'Cat' or 'Dog'. |
| PetAdoption.NoPetOnBothTabs | src/App.tsx:103-106 | No pet is shown on both the 'Cat' and the 'Dog' tab. |
| PetAdoption.FilteredPets | src/App.tsx:103-106 | `filteredPets` is a subsequence of the pet list, so list order is kept, and every pet in it passes the breed test of `petType`. |
| PetAdoption.Filter | src/App.tsx:103-106 | The filter returns no more pets than it is given, and every pet it returns passes the breed test. |
| PetAdoption.FilterCounts | src/App.tsx:103-106 | Every pet that passes the breed test keeps all of its copies, and every other pet keeps none. |
| PetAdoption.FilterIsSubsequence | src/App.tsx:103-106 | The result is a subsequence of the list, so the original order is kept. |
| PetAdoption.FilterAppend | src/App.tsx:103-106 | Filtering a concatenation gives the concatenation of the filtered parts, so the filter judges each pet on its own. |
| PetAdoption.CatTab | src/App.tsx:96-106 | 'Cat' keeps exactly Fluffy (Persian) and Whiskers (Siamese), in that order. |
| PetAdoption.DogTab | src/App.tsx:96-106 | 'Dog' keeps exactly Buddy (Golden Retriever) and Max (Labrador), in that order. |
| PetAdoption.OtherTab | src/App.tsx:103-106 | Any other `petType` gives an empty list. |

## Left out

- JSX rendering, Bootstrap classes, buttons, keys and the Sun..Sat header row (src/App.tsx:28-54, 66-92, 108-123, 129-162) are presentation only. The model keeps just their order of cells, in `Calendar.Grid`.
- The month/year label made by `toLocaleString` (src/App.tsx:32) depends on the locale and comes from a foreign library.
- The cursor and the selected date start from the wall clock through `new Date()` (src/App.tsx:5, 58). That is not deterministic, so the initial month is a constructor parameter instead.
- The cursor keeps only its year and month. The day and time of the initial `Date` are never read by the component.
- Time of day, time zones and the `Date` time-value limit of 8.64e15 ms are not modelled. Dates are integer triples in local time and years are unbounded. Beyond about 273,790 years from 1970, JavaScript gives an Invalid Date, and the model does not.
- When there is no selection, `isSelected` returns the falsy `selectedDate` itself. The model returns `false`, which is what the class name test uses.
- `handleSchedule`, `alert` and the name and email inputs (src/App.tsx:59-64, 74-87) are display and I/O with no logic.
- Tab switching in `App` (src/App.tsx:126-163) only selects which panel to show.
- The pets' image URLs are not modelled.
- Calendar.DaysInMonth: follows the corrected constructor in years 0..99. The source then uses the length of the same month of year + 1900, which is `Calendar.DaysInMonthAsWritten`.
- Calendar.FirstDayOfMonth: follows the corrected constructor in years 0..99. `Calendar.Blanks`, `Calendar.Grid` and `Calendar.MonthCursor.Render` build on this function, so they follow it too. The source draws the grid of the same month of year + 1900, which is `Calendar.FirstDayOfMonthAsWritten`.
- Calendar.ClickDate: follows the corrected constructor in years 0..99. The source reports a date of year + 1900, which is `Calendar.ClickDateAsWritten`.
- Calendar.ClickSelectsDay: holds for the corrected constructor only. As written, a click in years 0..99 highlights nothing, as `Calendar.December99ClickAsWritten` shows.
- Calendar.NextMonth: follows the corrected constructor in years 0..99. The source's navigation is `Calendar.NextMonthAsWritten`.
- Calendar.PrevMonth: follows the corrected constructor in years 0..99. The source's navigation is `Calendar.PrevMonthAsWritten`.
- Calendar.MonthCursor.Next: follows the corrected constructor in years 0..99. Only `Calendar.NextMonthAsWritten` models the source's step there.
- Calendar.MonthCursor.Prev: follows the corrected constructor in years 0..99. Only `Calendar.PrevMonthAsWritten` models the source's step there.

## Findings

| source | as written | input that shows it | evidently intended | confidence | as-written member | corrected member |
|---|---|---|---|---|---|---|
| src/App.tsx:13-19 | `new Date(y, m ± 1, 1)` passes the year through the `Date` constructor, and the constructor reads years 0..99 as 1900..1999. | With the cursor on January of year 100, "<" shows December 99 and then ">" shows January 2000. "<" from December 99 shows November 1999. | Navigation moves by one month in every year, and ">" after "<" returns to January 100. | not executed; follows from the two-digit-year rule of the ECMAScript `Date` constructor | Calendar.TwoDigitYearBreaksNavigation | Calendar.NavigationRoundTrip |
| src/App.tsx:8 | `new Date(y, m, 1).getDay()` uses the cursor's year through the `Date` constructor. In years 0..99 the grid is therefore laid out for the same month of 1900 + year. | With the cursor on December 99 (reached by "<" from January 100), the grid starts under Wed, the weekday of 1 December 1999. 1 December 99 fell on a Tuesday. | The grid of the displayed month, whatever its year. | not executed; follows from the two-digit-year rule of the ECMAScript `Date` constructor | Calendar.December99GridAsWritten | Calendar.FirstDayIsSakamoto |
| src/App.tsx:46 | The click handler reports `new Date(y, m, day)`, which in years 0..99 is a date of year 1900 + y that `isSelected` (lines 21-26) never matches against the cursor's year. | With the cursor on December 99, a click on day 5 reports 5 December 1999, and day 5 is not highlighted. | The clicked day of the displayed month is reported and highlighted. | not executed; follows from the two-digit-year rule of the ECMAScript `Date` constructor | Calendar.December99ClickAsWritten | Calendar.ClickSelectsDay |

The model uses the corrected constructor `JsDate.Normalize` everywhere except the `AsWritten` members.
