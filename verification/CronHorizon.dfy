/** Which schedules have a time within the search horizon. */
module CronHorizon {
  import opened Text
  import opened Calendar
  import opened Cron

  function CommonLength(m: int): int {
    if m == 2 then 28 else if m == 4 || m == 6 || m == 9 || m == 11 then 30 else 31
  }

  predicate HasDay(f: Fields, m: int) { exists d | d in f.dom :: d <= CommonLength(m) }

  /** The day fields can be met in month m of a common year. */
  predicate MetInCommonYear(f: Fields, m: int) {
    && m in f.months
    && if DomRestricted(f) && DowRestricted(f) then f.dow != {} || HasDay(f, m)
       else f.dow != {} && HasDay(f, m)
  }

  predicate TimesGiven(f: Fields) { f.minutes != {} && f.hours != {} }

  lemma LengthBound(y: int, m: int)
    ensures CommonLength(m) <= MonthLength(y, m) <= CommonLength(m) + (if m == 2 && Leap(y) then 1 else 0)
  {
  }

  /** A date of the year after the reference is later than it and well inside the horizon. */
  lemma NextYearInside(ref: Date, d: Date)
    requires ValidDate(ref) && ValidDate(d) && d.year == ref.year + 1
    ensures Ordinal(ref) < Ordinal(d) <= Ordinal(ref) + MAX_LOOP_DAYS
  {
    EarlierOrdinal(ref, d);
    WithinYear(ref);
    WithinYear(d);
    YearStep(ref.year);
  }

  lemma SomeOf<T>(s: set<T>) returns (v: T)
    requires s != {}
    ensures v in s
  {
    v :| v in s;
  }

  lemma AnyTime(f: Fields, ref: Moment, d: Date) returns (t: Moment)
    requires InRanges(f) && TimesGiven(f) && ValidDate(ref.date) && 0 <= ref.hour < 24 && 0 <= ref.minute < 60
    requires ValidDate(d) && DayDue(f, d)
    requires Ordinal(ref.date) < Ordinal(d) <= Ordinal(ref.date) + MAX_LOOP_DAYS
    ensures Due(f, ref, MAX_LOOP_DAYS, t)
  {
    var h := SomeOf(f.hours);
    var m := SomeOf(f.minutes);
    t := Moment(d, h, m);
    DayDueExactly(f, d);
    assert Stamp(t) >= (Ordinal(ref.date) + 1) * 1440 > Stamp(ref);
  }

  /** One of the first seven days of a month falls on any given weekday. */
  lemma WeekdayInMonth(y: int, m: int, w: int) returns (d: Date)
    requires y >= 1 && 1 <= m <= 12 && 0 <= w <= 6
    ensures ValidDate(d) && d.year == y && d.month == m && d.day <= 7 && Weekday(d) == w
  {
    var o := Ordinal(Date(y, m, 1));
    var shift := (w - o) % 7;
    d := Date(y, m, 1 + shift);
    LengthBound(y, m);
    ShiftTo(o, w);
    assert Ordinal(d) == o + shift;
  }

  lemma ShiftTo(o: int, w: int)
    requires 0 <= w <= 6
    ensures (o + (w - o) % 7) % 7 == w
  {
    var q := (w - o) / 7;
    assert o + (w - o) % 7 == w - 7 * q;
  }

  /** A schedule whose times are given and whose day fields can be met in a common year has a
      time within the horizon of every reference: one in the following year. */
  lemma CommonYearFound(f: Fields, ref: Moment, m: int) returns (t: Moment)
    requires InRanges(f) && TimesGiven(f) && MetInCommonYear(f, m)
    requires ValidDate(ref.date) && 0 <= ref.hour < 24 && 0 <= ref.minute < 60
    ensures Due(f, ref, MAX_LOOP_DAYS, t)
  {
    var y := ref.date.year + 1;
    var d: Date;
    LengthBound(y, m);
    if (DomRestricted(f) && DowRestricted(f) && HasDay(f, m)) || !DowRestricted(f) {
      var day :| day in f.dom && day <= CommonLength(m);
      d := Date(y, m, day);
      assert DayDue(f, d);
    } else {
      var w := SomeOf(f.dow);
      d := WeekdayInMonth(y, m, w);
      assert DayDue(f, d);
    }
    NextYearInside(ref.date, d);
    t := AnyTime(f, ref, d);
  }

  /** Otherwise every matching minute lies on a 29 February. */
  lemma OnlyLeapDays(f: Fields, t: Moment)
    requires InRanges(f) && Matches(f, t)
    requires forall m :: m in f.months ==> !MetInCommonYear(f, m)
    ensures t.date.month == 2 && t.date.day == 29 && Leap(t.date.year)
  {
    var d := t.date;
    LengthBound(d.year, d.month);
    assert d.day <= CommonLength(d.month) && d.day in f.dom ==> HasDay(f, d.month);
    assert !MetInCommonYear(f, d.month);
  }

  // ---- Schedules that only 29 February can meet ----

  /** 29 February meets the day fields, through the day of the month. */
  predicate TakesLeapDay(f: Fields) { 2 in f.months && 29 in f.dom && DomRestricted(f) }

  /** Some time of the schedule is not before the reference's time of day. */
  predicate TimeLeft(f: Fields, ref: Moment) {
    exists h | h in f.hours :: exists m | m in f.minutes :: h * 60 + m >= ref.hour * 60 + ref.minute
  }

  /** Year y has a leap day within the horizon, and not over yet if it is the reference's own. */
  predicate LeapDayAhead(f: Fields, ref: Moment, y: int) {
    y >= 1 && Leap(y) &&
    var d := Date(y, 2, 29);
    Ordinal(ref.date) <= Ordinal(d) <= Ordinal(ref.date) + MAX_LOOP_DAYS && (d == ref.date ==> TimeLeft(f, ref))
  }

  lemma LeapDayFound(f: Fields, ref: Moment, y: int) returns (t: Moment)
    requires InRanges(f) && TimesGiven(f) && TakesLeapDay(f) && LeapDayAhead(f, ref, y)
    requires ValidDate(ref.date) && 0 <= ref.hour < 24 && 0 <= ref.minute < 60
    ensures Due(f, ref, MAX_LOOP_DAYS, t)
  {
    var d := Date(y, 2, 29);
    assert DayDue(f, d);
    if d == ref.date {
      var h :| h in f.hours && exists m | m in f.minutes :: h * 60 + m >= ref.hour * 60 + ref.minute;
      var m :| m in f.minutes && h * 60 + m >= ref.hour * 60 + ref.minute;
      t := Moment(d, h, m);
    } else {
      if Ordinal(d) == Ordinal(ref.date) { OrdinalInjective(d, ref.date); }
      t := AnyTime(f, ref, d);
    }
  }

  /** A due minute of a schedule that no common year can meet shows a leap day ahead. */
  lemma LeapDayNeeded(f: Fields, ref: Moment, t: Moment)
    requires InRanges(f) && Due(f, ref, MAX_LOOP_DAYS, t)
    requires ValidDate(ref.date) && 0 <= ref.hour < 24 && 0 <= ref.minute < 60
    requires forall m :: m in f.months ==> !MetInCommonYear(f, m)
    ensures TakesLeapDay(f) && LeapDayAhead(f, ref, t.date.year)
  {
    OnlyLeapDays(f, t);
    assert t.date == Date(t.date.year, 2, 29);
    assert !MetInCommonYear(f, 2);
    if !(DomRestricted(f) && DowRestricted(f)) {
      assert !HasDay(f, 2);
      assert 1 !in f.dom;
    }
  }

  /** The search for some time comes back with one if and only if times are given and either the
      day fields can be met in a common year or a leap day that meets them lies ahead. */
  lemma FoundExactly(f: Fields, ref: Moment, count: nat, r: seq<Moment>)
    requires InRanges(f) && ValidDate(ref.date) && 0 <= ref.hour < 24 && 0 <= ref.minute < 60
    requires count > 0 && FirstDue(f, ref, MAX_LOOP_DAYS, count, r)
    ensures r != [] <==>
            TimesGiven(f) && ((exists m :: m in f.months && MetInCommonYear(f, m))
                              || (TakesLeapDay(f) && exists y :: LeapDayAhead(f, ref, y)))
  {
    if r != [] {
      assert r[0] in r;
      if forall m :: m in f.months ==> !MetInCommonYear(f, m) { LeapDayNeeded(f, ref, r[0]); }
    } else if TimesGiven(f) {
      if m :| m in f.months && MetInCommonYear(f, m) {
        var t := CommonYearFound(f, ref, m);
      } else if TakesLeapDay(f) && exists y :: LeapDayAhead(f, ref, y) {
        var y :| LeapDayAhead(f, ref, y);
        var t := LeapDayFound(f, ref, y);
      }
    }
  }

  /** A leap day more than four calendar years ahead can still be within the horizon. */
  lemma LateLeapDay()
    ensures var f := Fields({0}, {0}, {29}, {2}, {0, 1, 2, 3, 4, 5, 6});
            Due(f, Moment(Date(2099, 6, 1), 0, 0), MAX_LOOP_DAYS, Moment(Date(2104, 2, 29), 0, 0))
  {
    assert DaysBeforeYear(2104) == DaysBeforeYear(2099) + 5 * 365;
  }

  /** Across a century without its leap day the horizon is too short: from the start of 2097,
      midnight on 29 February is never found. */
  lemma SkippedLeapDay()
    ensures var f := Fields({0}, {0}, {29}, {2}, {0, 1, 2, 3, 4, 5, 6});
            forall t :: !Due(f, Moment(Date(2097, 1, 1), 0, 0), MAX_LOOP_DAYS, t)
  {
    var f := Fields({0}, {0}, {29}, {2}, {0, 1, 2, 3, 4, 5, 6});
    var ref := Date(2097, 1, 1);
    forall m | m in f.months ensures !MetInCommonYear(f, m) { assert !DowRestricted(f); }
    forall t | Matches(f, t) ensures Leap(t.date.year) { OnlyLeapDays(f, t); }
    forall d | ValidDate(d) && Ordinal(ref) <= Ordinal(d) <= Ordinal(ref) + MAX_LOOP_DAYS ensures !Leap(d.year) {
      NoLeapNear(d);
    }
  }

  lemma NoLeapNear(d: Date)
    requires ValidDate(d) && Ordinal(Date(2097, 1, 1)) <= Ordinal(d) <= Ordinal(Date(2097, 1, 1)) + MAX_LOOP_DAYS
    ensures 2097 <= d.year <= 2103 && !Leap(d.year)
  {
    WithinYear(d);
    assert DaysBeforeYear(2103) == DaysBeforeYear(2097) + 6 * 365;
    if d.year < 2097 { EarlierOrdinal(d, Date(2097, 1, 1)); }
    if d.year > 2103 { YearsMonotone(2103, d.year); }
  }
}
