/** Proleptic Gregorian dates, their day numbers and weekdays.

    The successor of a date is computed as the calendar does it; day numbers give it the meaning
    "one day later" and the weekday its cycle of seven. */
module Calendar {

  datatype Date = Date(year: int, month: int, day: int)

  predicate Leap(y: int) { y % 4 == 0 && (y % 100 != 0 || y % 400 == 0) }

  function MonthLength(y: int, m: int): int {
    if m == 2 then (if Leap(y) then 29 else 28)
    else if m == 4 || m == 6 || m == 9 || m == 11 then 30 else 31
  }

  predicate ValidDate(d: Date) {
    d.year >= 1 && 1 <= d.month <= 12 && 1 <= d.day <= MonthLength(d.year, d.month)
  }

  function YearLength(y: int): int { if Leap(y) then 366 else 365 }

  function DaysBeforeYear(y: int): int {
    365 * (y - 1) + (y - 1) / 4 - (y - 1) / 100 + (y - 1) / 400
  }

  function DaysBeforeMonth(y: int, m: int): int
    decreases m
  {
    if m <= 1 then 0 else DaysBeforeMonth(y, m - 1) + MonthLength(y, m - 1)
  }

  /** Day number, counting 1 January of year 1 as 1. */
  function Ordinal(d: Date): int {
    DaysBeforeYear(d.year) + DaysBeforeMonth(d.year, d.month) + d.day
  }

  /** Sunday is 0. Day number 1 was a Monday. */
  function Weekday(d: Date): int { Ordinal(d) % 7 }

  function NextDay(d: Date): Date {
    if d.day < MonthLength(d.year, d.month) then Date(d.year, d.month, d.day + 1)
    else if d.month < 12 then Date(d.year, d.month + 1, 1)
    else Date(d.year + 1, 1, 1)
  }

  lemma DivideStep(y: int, k: int)
    requires k == 4 || k == 100 || k == 400
    ensures y / k - (y - 1) / k == if y % k == 0 then 1 else 0
  {
    var q, r := y / k, y % k;
    assert y == k * q + r;
    if r == 0 {
      assert y - 1 == k * (q - 1) + (k - 1);
    } else {
      assert y - 1 == k * q + (r - 1);
    }
  }

  lemma YearStep(y: int)
    requires y >= 1
    ensures DaysBeforeYear(y + 1) == DaysBeforeYear(y) + YearLength(y)
  {
    DivideStep(y, 4);
    DivideStep(y, 100);
    DivideStep(y, 400);
    CenturyIsFourth(y);
  }

  lemma CenturyIsFourth(y: int)
    ensures y % 100 == 0 ==> y % 4 == 0
    ensures y % 400 == 0 ==> y % 100 == 0
  {
  }

  lemma MonthTotals(y: int)
    ensures DaysBeforeMonth(y, 12) + MonthLength(y, 12) == YearLength(y)
  {
    assert DaysBeforeMonth(y, 4) == 31 + MonthLength(y, 2) + 31;
    assert DaysBeforeMonth(y, 8) == DaysBeforeMonth(y, 4) + 30 + 31 + 30 + 31;
    assert DaysBeforeMonth(y, 12) == DaysBeforeMonth(y, 8) + 31 + 30 + 31 + 30;
  }

  /** Stepping a date one day steps its day number, so weekdays come round in order. */
  lemma NextDayOrdinal(d: Date)
    requires ValidDate(d)
    ensures ValidDate(NextDay(d)) && Ordinal(NextDay(d)) == Ordinal(d) + 1
  {
    if d.day == MonthLength(d.year, d.month) && d.month == 12 {
      MonthTotals(d.year);
      YearStep(d.year);
    }
  }

  lemma {:induction false} MonthsMonotone(y: int, m: int, n: int)
    requires 1 <= m < n
    ensures DaysBeforeMonth(y, m) + MonthLength(y, m) <= DaysBeforeMonth(y, n)
    decreases n
  {
    if m < n - 1 { MonthsMonotone(y, m, n - 1); }
  }

  lemma {:induction false} YearsMonotone(y: int, z: int)
    requires 1 <= y < z
    ensures DaysBeforeYear(y) + YearLength(y) <= DaysBeforeYear(z)
    decreases z
  {
    YearStep(z - 1);
    if y < z - 1 { YearsMonotone(y, z - 1); }
  }

  lemma WithinYear(d: Date)
    requires ValidDate(d)
    ensures 1 <= DaysBeforeMonth(d.year, d.month) + d.day <= YearLength(d.year)
  {
    MonthTotals(d.year);
    MonthNonNegative(d.year, d.month);
    if d.month < 12 { MonthsMonotone(d.year, d.month, 12); }
  }

  lemma {:induction false} MonthNonNegative(y: int, m: int)
    ensures DaysBeforeMonth(y, m) >= 0
    decreases m
  {
    if m > 1 { MonthNonNegative(y, m - 1); }
  }

  predicate Earlier(d: Date, e: Date) {
    d.year < e.year
    || (d.year == e.year && (d.month < e.month || (d.month == e.month && d.day < e.day)))
  }

  lemma EarlierOrdinal(d: Date, e: Date)
    requires ValidDate(d) && ValidDate(e) && Earlier(d, e)
    ensures Ordinal(d) < Ordinal(e)
  {
    WithinYear(d);
    WithinYear(e);
    if d.year < e.year {
      YearsMonotone(d.year, e.year);
    } else if d.month < e.month {
      MonthsMonotone(d.year, d.month, e.month);
    }
  }

  /** A day number names one date. */
  lemma OrdinalInjective(d: Date, e: Date)
    requires ValidDate(d) && ValidDate(e) && Ordinal(d) == Ordinal(e)
    ensures d == e
  {
    if Earlier(d, e) { EarlierOrdinal(d, e); } else if Earlier(e, d) { EarlierOrdinal(e, d); }
  }

  // ---- The weekday by a formula of its own ----

  /** Zeller's congruence, from year, month and day alone: January and February count as months 13
      and 14 of the year before. Sunday is 0. */
  function DayOfWeek(d: Date): int {
    var y := if d.month <= 2 then d.year - 1 else d.year;
    var m := if d.month <= 2 then d.month + 12 else d.month;
    (d.day + 13 * (m + 1) / 5 + y + y / 4 - y / 100 + y / 400 + 6) % 7
  }

  lemma MonthTable(y: int)
    ensures DaysBeforeMonth(y, 1) == 0 && DaysBeforeMonth(y, 2) == 31
    ensures var leap := YearLength(y) - 365;
            && DaysBeforeMonth(y, 3) == 59 + leap && DaysBeforeMonth(y, 4) == 90 + leap
            && DaysBeforeMonth(y, 5) == 120 + leap && DaysBeforeMonth(y, 6) == 151 + leap
            && DaysBeforeMonth(y, 7) == 181 + leap && DaysBeforeMonth(y, 8) == 212 + leap
            && DaysBeforeMonth(y, 9) == 243 + leap && DaysBeforeMonth(y, 10) == 273 + leap
            && DaysBeforeMonth(y, 11) == 304 + leap && DaysBeforeMonth(y, 12) == 334 + leap
  {
    assert DaysBeforeMonth(y, 4) == 31 + MonthLength(y, 2) + 31;
    assert DaysBeforeMonth(y, 8) == DaysBeforeMonth(y, 4) + 30 + 31 + 30 + 31;
    assert DaysBeforeMonth(y, 12) == DaysBeforeMonth(y, 8) + 31 + 30 + 31 + 30;
  }

  /** Days before a month: the formula's term for it and whole weeks. */
  lemma MonthTerm(y: int, m: int)
    requires 1 <= m <= 12
    ensures m <= 2 ==> DaysBeforeMonth(y, m) == 13 * (m + 13) / 5 + 6 + 7 * (4 * m - 10)
    ensures m > 2 ==> DaysBeforeMonth(y, m) == 13 * (m + 1) / 5 + YearLength(y) - 365 + 7 * (4 * m - 5)
  {
    MonthTable(y);
    assert m == 1 || m == 2 || m == 3 || m == 4 || m == 5 || m == 6
        || m == 7 || m == 8 || m == 9 || m == 10 || m == 11 || m == 12;
  }

  lemma SameRemainder(x: int, y: int, k: int)
    requires x == y + 7 * k
    ensures x % 7 == y % 7
  {
  }

  function LeapDays(y: int): int { y / 4 - y / 100 + y / 400 }

  lemma EarlyMonth(d: Date, term: int)
    requires ValidDate(d) && d.month <= 2 && term == 13 * (d.month + 13) / 5
    ensures Weekday(d) == DayOfWeek(d)
  {
    var y := d.year - 1;
    MonthTerm(d.year, d.month);
    assert Ordinal(d) == 365 * y + LeapDays(y) + (term + 6 + 7 * (4 * d.month - 10)) + d.day;
    SameRemainder(Ordinal(d), d.day + term + y + LeapDays(y) + 6, 52 * y + 4 * d.month - 10);
    assert d.month + 12 + 1 == d.month + 13;
  }

  lemma LateMonth(d: Date, term: int)
    requires ValidDate(d) && d.month > 2 && term == 13 * (d.month + 1) / 5
    ensures Weekday(d) == DayOfWeek(d)
  {
    var y := d.year;
    MonthTerm(y, d.month);
    YearStep(y);
    assert Ordinal(d) == 365 * y + LeapDays(y) + (term - 365 + 7 * (4 * d.month - 5)) + d.day;
    SameRemainder(Ordinal(d), d.day + term + y + LeapDays(y) + 6, 52 * y + 4 * d.month - 58);
  }

  /** For every valid date the day number and the formula give the same weekday. */
  lemma WeekdayFormula(d: Date)
    requires ValidDate(d)
    ensures Weekday(d) == DayOfWeek(d)
  {
    if d.month <= 2 { EarlyMonth(d, 13 * (d.month + 13) / 5); } else { LateMonth(d, 13 * (d.month + 1) / 5); }
  }

  /** Weekdays come round in order. */
  lemma WeekdayNext(d: Date)
    requires ValidDate(d)
    ensures ValidDate(NextDay(d)) && Weekday(NextDay(d)) == (Weekday(d) + 1) % 7
  {
    NextDayOrdinal(d);
    RemainderNext(Ordinal(d));
  }

  lemma RemainderNext(n: int)
    ensures (n + 1) % 7 == (n % 7 + 1) % 7
  {
    SameRemainder(n + 1, n % 7 + 1, n / 7);
  }

  /** A weekday that can be looked up: 1 January 2000 was a Saturday. */
  lemma MillenniumSaturday()
    ensures Weekday(Date(2000, 1, 1)) == 6
  {
    assert DaysBeforeYear(2000) == 365 * 1999 + 499 - 19 + 4;
  }
}
