/** Calendar dates as the scripts see them through `new Date('YYYY-MM-DD')`:
    a date-only ISO string denotes midnight UTC of that day, and two such
    dates compare by their time values. Here a date is its day number, the
    count of days since 1970-01-01 in the proleptic Gregorian calendar (the
    time value divided by 86 400 000). */
module Dates {
  import opened Wrappers
  import opened Text

  predicate IsLeapYear(y: int) {
    y % 4 == 0 && (y % 100 != 0 || y % 400 == 0)
  }

  function DaysInMonth(y: int, m: int): (n: int)
    requires 1 <= m <= 12
    ensures 28 <= n <= 31
    ensures m == 2 ==> (n == 29 <==> IsLeapYear(y))
  {
    if m == 2 then (if IsLeapYear(y) then 29 else 28)
    else if m == 4 || m == 6 || m == 9 || m == 11 then 30
    else 31
  }

  predicate ValidDate(y: int, m: int, d: int) {
    1 <= m <= 12 && 1 <= d <= DaysInMonth(y, m)
  }

  /** Days from 1 March to the first of the month `mp` months later (March
      is 0, February 11): the lengths of March to January added up. */
  function DaysSinceMarch(mp: int): int
    requires 0 <= mp < 12
  {
    if mp == 0 then 0 else if mp == 1 then 31 else if mp == 2 then 61
    else if mp == 3 then 92 else if mp == 4 then 122 else if mp == 5 then 153
    else if mp == 6 then 184 else if mp == 7 then 214 else if mp == 8 then 245
    else if mp == 9 then 275 else if mp == 10 then 306 else 337
  }

  /** Days from 1970-01-01 to the given date; March-based year so that the
      leap day falls at the end of the counted year. */
  function DayNumber(y: int, m: int, d: int): int
    requires 1 <= m <= 12
  {
    var y' := if m <= 2 then y - 1 else y;
    var mp := if m <= 2 then m + 9 else m - 3;
    MarchYearStart(y') + DaysSinceMarch(mp) + d - 1 - 719468
  }

  /** Days from 1 March of year 0 to 1 March of year `y` plus one: 365 a year
      and one more for every 29th of February in between. */
  function MarchYearStart(y: int): int {
    365 * y + y / 4 - y / 100 + y / 400
  }

  /** The calendar date that follows a valid date. */
  function NextDate(y: int, m: int, d: int): (r: (int, int, int))
    requires ValidDate(y, m, d)
    ensures ValidDate(r.0, r.1, r.2)
  {
    if d < DaysInMonth(y, m) then (y, m, d + 1)
    else if m < 12 then (y, m + 1, 1)
    else (y + 1, 1, 1)
  }

  /** Going from `y - 1` to `y` passes one more multiple of 4, 100 or 400
      exactly when `y` is one. */
  lemma {:induction false} QuotientSteps(y: int)
    ensures y / 4 - (y - 1) / 4 == if y % 4 == 0 then 1 else 0
    ensures y / 100 - (y - 1) / 100 == if y % 100 == 0 then 1 else 0
    ensures y / 400 - (y - 1) / 400 == if y % 400 == 0 then 1 else 0
  {
  }

  /** Every multiple of 400 is a multiple of 100. */
  lemma {:induction false} Multiple400Is100(y: int)
    requires y % 400 == 0
    ensures y % 100 == 0
  {
    assert y == 100 * (4 * (y / 400));
  }

  /** Every multiple of 100 is a multiple of 4. */
  lemma {:induction false} Multiple100Is4(y: int)
    requires y % 100 == 0
    ensures y % 4 == 0
  {
    assert y == 4 * (25 * (y / 100));
  }

  /** The March-based year that ends in February of `y` has 366 days
      exactly when `y` is a leap year. */
  lemma {:induction false} LeapStep(y: int)
    ensures MarchYearStart(y) - MarchYearStart(y - 1) == if IsLeapYear(y) then 366 else 365
  {
    QuotientSteps(y);
    if y % 400 == 0 {
      Multiple400Is100(y);
    }
    if y % 100 == 0 {
      Multiple100Is4(y);
    }
  }

  /** Consecutive calendar dates have consecutive day numbers, so one day
      later is always `+ 1` in this representation. */
  lemma {:induction false} NextDateIsNextDay(y: int, m: int, d: int)
    requires ValidDate(y, m, d)
    ensures var n := NextDate(y, m, d); DayNumber(n.0, n.1, n.2) == DayNumber(y, m, d) + 1
  {
    if d == DaysInMonth(y, m) && m == 2 {
      LeapStep(y);
    }
  }

  /** Month starts increase through the year: the last day of an earlier
      month comes before the first day of a later one. */
  lemma {:induction false} MonthsIncrease(y: int, m1: int, m2: int)
    requires 1 <= m1 < m2 <= 12
    ensures DayNumber(y, m1, DaysInMonth(y, m1)) < DayNumber(y, m2, 1)
    decreases m2 - m1
  {
    NextDateIsNextDay(y, m1, DaysInMonth(y, m1));
    if m1 + 1 < m2 {
      MonthsIncrease(y, m1 + 1, m2);
    }
  }

  /** Every valid date of a year lies between its first and last day. */
  lemma {:induction false} WithinYear(y: int, m: int, d: int)
    requires ValidDate(y, m, d)
    ensures DayNumber(y, 1, 1) <= DayNumber(y, m, d) <= DayNumber(y, 12, 31)
  {
    if m > 1 {
      MonthsIncrease(y, 1, m);
    }
    if m < 12 {
      MonthsIncrease(y, m, 12);
    }
  }

  /** The last day of an earlier year comes before the first day of a later
      one. */
  lemma {:induction false} YearsIncrease(y1: int, y2: int)
    requires y1 < y2
    ensures DayNumber(y1, 12, 31) < DayNumber(y2, 1, 1)
    decreases y2 - y1
  {
    NextDateIsNextDay(y1, 12, 31);
    if y1 + 1 < y2 {
      WithinYear(y1 + 1, 12, 31);
      YearsIncrease(y1 + 1, y2);
    }
  }

  predicate DateBefore(y1: int, m1: int, d1: int, y2: int, m2: int, d2: int) {
    y1 < y2 || (y1 == y2 && (m1 < m2 || (m1 == m2 && d1 < d2)))
  }

  /** Comparing day numbers (what `<` and `<=` on two `Date` objects do) is
      comparing the dates in calendar order. */
  lemma {:induction false} DayNumberOrder(y1: int, m1: int, d1: int, y2: int, m2: int, d2: int)
    requires ValidDate(y1, m1, d1) && ValidDate(y2, m2, d2)
    ensures DayNumber(y1, m1, d1) < DayNumber(y2, m2, d2) <==> DateBefore(y1, m1, d1, y2, m2, d2)
  {
    if DateBefore(y1, m1, d1, y2, m2, d2) {
      DayNumberBefore(y1, m1, d1, y2, m2, d2);
    } else if DateBefore(y2, m2, d2, y1, m1, d1) {
      DayNumberBefore(y2, m2, d2, y1, m1, d1);
    }
  }

  lemma {:induction false} DayNumberBefore(y1: int, m1: int, d1: int, y2: int, m2: int, d2: int)
    requires ValidDate(y1, m1, d1) && ValidDate(y2, m2, d2)
    requires DateBefore(y1, m1, d1, y2, m2, d2)
    ensures DayNumber(y1, m1, d1) < DayNumber(y2, m2, d2)
  {
    if y1 < y2 {
      WithinYear(y1, m1, d1);
      WithinYear(y2, m2, d2);
      YearsIncrease(y1, y2);
    } else if m1 < m2 {
      MonthsIncrease(y1, m1, m2);
    }
  }

  /** `new Date(s)` for a date-only ISO string "YYYY-MM-DD": the day number,
      or `None` (an Invalid Date, whose comparisons are all false) when the
      text is not such a date. */
  function ParseIsoDate(s: string): (r: Option<int>)
    ensures r.Some? ==> |s| == 10 && s[4] == '-' && s[7] == '-'
  {
    if |s| == 10 && s[4] == '-' && s[7] == '-'
       && AllDigitsIn(s[..4], 10) && AllDigitsIn(s[5..7], 10) && AllDigitsIn(s[8..], 10)
    then
      var y := ValueIn(s[..4], 10);
      var m := ValueIn(s[5..7], 10);
      var d := ValueIn(s[8..], 10);
      if ValidDate(y, m, d) then Some(DayNumber(y, m, d)) else None
    else
      None
  }

  /** `isPastDate` in main.js and the date rule of form.js: the text names a
      day strictly before `today`. An unreadable date is never in the past. */
  predicate IsPastDate(s: string, today: int) {
    match ParseIsoDate(s)
    case Some(day) => day < today
    case None => false
  }
}
