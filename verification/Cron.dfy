/** The next times of a five-field schedule, found by walking the calendar day by day. */
module Cron {
  import opened Text
  import opened Calendar

  const HORIZON_YEARS := 5
  const MAX_LOOP_DAYS := HORIZON_YEARS * 366 + 5

  datatype Fields = Fields(minutes: set<int>, hours: set<int>, dom: set<int>, months: set<int>, dow: set<int>)

  datatype Moment = Moment(date: Date, hour: int, minute: int)

  /** Minutes since a fixed origin. */
  function Stamp(t: Moment): int { Ordinal(t.date) * 1440 + t.hour * 60 + t.minute }

  predicate InRanges(f: Fields) {
    && (forall v :: v in f.minutes ==> 0 <= v < 60)
    && (forall v :: v in f.hours ==> 0 <= v < 24)
    && (forall v :: v in f.dom ==> 1 <= v <= 31)
    && (forall v :: v in f.months ==> 1 <= v <= 12)
    && (forall v :: v in f.dow ==> 0 <= v <= 6)
  }

  /** s is the set of all values from lo up to hi - 1 (Python's `s == set(range(lo, hi))`). */
  predicate IsRange(s: set<int>, lo: int, hi: int) {
    (forall v | v in s :: lo <= v < hi) && forall v | lo <= v < hi :: v in s
  }

  predicate DomRestricted(f: Fields) { !IsRange(f.dom, 1, 32) }

  predicate DowRestricted(f: Fields) { !IsRange(f.dow, 0, 7) }

  predicate DaysMatch(f: Fields, domRestricted: bool, dowRestricted: bool, day: int, weekday: int, month: int) {
    month in f.months
    && if domRestricted && dowRestricted then day in f.dom || weekday in f.dow
       else day in f.dom && weekday in f.dow
  }

  predicate DayDue(f: Fields, d: Date) {
    DaysMatch(f, DomRestricted(f), DowRestricted(f), d.day, Weekday(d), d.month)
  }

  /** The schedule's meaning: a minute satisfies it when its minute, hour, month and day do; when
      both day fields are restricted, either of them is enough. The weekday is the formula's. */
  predicate Matches(f: Fields, t: Moment) {
    && ValidDate(t.date) && 0 <= t.hour < 24 && 0 <= t.minute < 60
    && t.minute in f.minutes && t.hour in f.hours && t.date.month in f.months
    && DayMatches(f, t.date)
  }

  predicate DayMatches(f: Fields, d: Date) {
    if !IsRange(f.dom, 1, 32) && !IsRange(f.dow, 0, 7) then d.day in f.dom || DayOfWeek(d) in f.dow
    else d.day in f.dom && DayOfWeek(d) in f.dow
  }

  /** The day test of the walk, by its running weekday, is the schedule's. */
  lemma DayDueExactly(f: Fields, d: Date)
    requires ValidDate(d)
    ensures DayDue(f, d) <==> d.month in f.months && DayMatches(f, d)
  {
    WeekdayFormula(d);
  }

  /** A minute that the search owes to a reference: not earlier, in the day horizon, matching. */
  predicate Due(f: Fields, ref: Moment, horizon: nat, t: Moment) {
    && Matches(f, t) && Stamp(t) >= Stamp(ref)
    && Ordinal(ref.date) <= Ordinal(t.date) <= Ordinal(ref.date) + horizon
  }

  /** Later in minutes since the origin is later by year, month, day, hour and minute. */
  lemma StampOrder(t: Moment, u: Moment)
    requires ValidDate(t.date) && 0 <= t.hour < 24 && 0 <= t.minute < 60
    requires ValidDate(u.date) && 0 <= u.hour < 24 && 0 <= u.minute < 60
    ensures Stamp(t) < Stamp(u) <==>
            Earlier(t.date, u.date)
            || (t.date == u.date && (t.hour < u.hour || (t.hour == u.hour && t.minute < u.minute)))
  {
    if Earlier(t.date, u.date) { EarlierOrdinal(t.date, u.date); }
    if Earlier(u.date, t.date) { EarlierOrdinal(u.date, t.date); }
  }

  ghost predicate Increasing(ts: seq<Moment>) {
    forall i, j :: 0 <= i < j < |ts| ==> Stamp(ts[i]) < Stamp(ts[j])
  }

  /** t is not later than the last of r. */
  predicate UpToLast(t: Moment, r: seq<Moment>) {
    r != [] && Stamp(t) <= Stamp(r[|r| - 1])
  }

  /** r holds the first `count` due minutes: at most that many, in strictly increasing order,
      all due, and with none skipped; fewer only when there are no more. */
  ghost predicate FirstDue(f: Fields, ref: Moment, horizon: nat, count: nat, r: seq<Moment>) {
    && |r| <= count && Increasing(r)
    && (forall t :: t in r ==> Due(f, ref, horizon, t))
    && (forall t :: Due(f, ref, horizon, t) && (|r| < count || UpToLast(t, r)) ==> t in r)
  }

  // ---- The candidates in the order they are visited ----

  /** Python's `sorted` on a set of values between lo and hi. */
  function Ascend(s: set<int>, lo: int, hi: int): (r: seq<int>)
    decreases s, hi - lo
  {
    if lo >= hi then [] else (if lo in s then [lo] else []) + Ascend(s, lo + 1, hi)
  }

  lemma {:induction false} AscendFacts(s: set<int>, lo: int, hi: int)
    ensures forall v :: v in Ascend(s, lo, hi) <==> lo <= v < hi && v in s
    ensures forall i, j :: 0 <= i < j < |Ascend(s, lo, hi)| ==> Ascend(s, lo, hi)[i] < Ascend(s, lo, hi)[j]
    decreases hi - lo
  {
    if lo < hi {
      AscendFacts(s, lo + 1, hi);
      var rest := Ascend(s, lo + 1, hi);
      var r := Ascend(s, lo, hi);
      forall i, j | 0 <= i < j < |r| ensures r[i] < r[j] {
        if lo in s {
          assert r[j] == rest[j - 1] && rest[j - 1] in rest;
          if i > 0 { assert r[i] == rest[i - 1]; }
        }
      }
    }
  }

  function HourList(d: Date, hour: int, ms: seq<int>): seq<Moment> {
    if ms == [] then [] else [Moment(d, hour, ms[0])] + HourList(d, hour, ms[1..])
  }

  function DayList(d: Date, hs: seq<int>, ms: seq<int>): seq<Moment> {
    if hs == [] then [] else HourList(d, hs[0], ms) + DayList(d, hs[1..], ms)
  }

  function DueList(f: Fields, d: Date): seq<Moment> {
    if DayDue(f, d) then DayList(d, Ascend(f.hours, 0, 24), Ascend(f.minutes, 0, 60)) else []
  }

  function Visit(f: Fields, d: Date, days: nat): seq<Moment>
    decreases f, days
  {
    if days == 0 then [] else DueList(f, d) + Visit(f, NextDay(d), days - 1)
  }

  /** The first `count` of the moments that are not before ref. */
  function Collect(acc: seq<Moment>, ts: seq<Moment>, ref: Moment, count: nat): seq<Moment>
    decreases |ts|
  {
    if ts == [] then acc
    else if Stamp(ts[0]) < Stamp(ref) || |acc| >= count then Collect(acc, ts[1..], ref, count)
    else Collect(acc + [ts[0]], ts[1..], ref, count)
  }

  lemma {:induction false} CollectConcat(acc: seq<Moment>, x: seq<Moment>, y: seq<Moment>, ref: Moment, count: nat)
    ensures Collect(acc, x + y, ref, count) == Collect(Collect(acc, x, ref, count), y, ref, count)
    decreases |x|
  {
    if x == [] {
      assert x + y == y;
    } else {
      assert (x + y)[1..] == x[1..] + y;
      var next := if Stamp(x[0]) < Stamp(ref) || |acc| >= count then acc else acc + [x[0]];
      CollectConcat(next, x[1..], y, ref, count);
    }
  }

  lemma {:induction false} CollectFull(acc: seq<Moment>, ts: seq<Moment>, ref: Moment, count: nat)
    requires |acc| >= count
    ensures Collect(acc, ts, ref, count) == acc
    decreases |ts|
  {
    if ts != [] { CollectFull(acc, ts[1..], ref, count); }
  }

  // ---- The search ----

  /** The next `count` times after a reference, within the service's day horizon. */
  method NextTimes(f: Fields, ref: Moment, count: nat) returns (upcoming: seq<Moment>)
    requires InRanges(f) && ValidDate(ref.date) && 0 <= ref.hour < 24 && 0 <= ref.minute < 60
    ensures FirstDue(f, ref, MAX_LOOP_DAYS, count, upcoming)
    ensures forall t, w :: t in upcoming && f.dow == {w} && IsRange(f.dom, 1, 32) ==> DayOfWeek(t.date) == w
  {
    upcoming := WalkDays(f, ref, count, MAX_LOOP_DAYS);
    FirstOnes(f, ref, MAX_LOOP_DAYS, count);
  }

  /** The calendar walk: days outermost, then hours, then minutes, stopping as soon as `count`
      times are found or the day horizon is exhausted. */
  method WalkDays(f: Fields, ref: Moment, count: nat, maxLoopDays: nat) returns (upcoming: seq<Moment>)
    requires InRanges(f) && ValidDate(ref.date) && 0 <= ref.hour < 24 && 0 <= ref.minute < 60
    ensures upcoming == Collect([], Visit(f, ref.date, maxLoopDays + 1), ref, count)
  {
    var domRestricted := !IsRange(f.dom, 1, 32);
    var dowRestricted := !IsRange(f.dow, 0, 7);
    var hours := Ascend(f.hours, 0, 24);
    var minutes := Ascend(f.minutes, 0, 60);
    var current := ref.date;
    upcoming := [];
    var loopDays := 0;
    ghost var days: nat := maxLoopDays + 1;
    ghost var goal := Collect([], Visit(f, current, days), ref, count);
    while loopDays <= maxLoopDays && |upcoming| < count
      invariant 0 <= loopDays <= maxLoopDays + 1 && days == maxLoopDays + 1 - loopDays
      invariant OnTrack(f, upcoming, current, days, ref, count, goal)
      decreases days
    {
      upcoming := VisitDay(f, upcoming, current, domRestricted, dowRestricted, hours, minutes, ref, count, days, goal);
      current := NextDay(current);
      loopDays := loopDays + 1;
      days := days - 1;
    }
    CollectFullOrDone(upcoming, Visit(f, current, days), ref, count);
  }

  /** One turn of the walk: the hours and minutes of a matching day. */
  method VisitDay(f: Fields, acc: seq<Moment>, d: Date, domRestricted: bool, dowRestricted: bool,
                  hours: seq<int>, minutes: seq<int>, ref: Moment, count: nat, ghost days: nat, ghost goal: seq<Moment>)
    returns (upcoming: seq<Moment>)
    requires days > 0 && OnTrack(f, acc, d, days, ref, count, goal)
    requires domRestricted == DomRestricted(f) && dowRestricted == DowRestricted(f)
    requires hours == Ascend(f.hours, 0, 24) && minutes == Ascend(f.minutes, 0, 60)
    ensures OnTrack(f, upcoming, NextDay(d), days - 1, ref, count, goal)
  {
    upcoming := acc;
    VisitStep(f, acc, d, days, ref, count, goal);
    var weekday := Weekday(d);
    if DaysMatch(f, domRestricted, dowRestricted, d.day, weekday, d.month) {
      upcoming := CollectDay(upcoming, d, hours, minutes, ref, count);
    }
  }

  /** Collecting what the days still to visit offer completes the goal. */
  ghost predicate OnTrack(f: Fields, acc: seq<Moment>, d: Date, days: nat, ref: Moment, count: nat, goal: seq<Moment>) {
    Collect(acc, Visit(f, d, days), ref, count) == goal
  }

  /** One day of the walk: a due day's candidates are collected before the rest is visited. */
  lemma VisitStep(f: Fields, acc: seq<Moment>, d: Date, days: nat, ref: Moment, count: nat, goal: seq<Moment>)
    requires days > 0 && OnTrack(f, acc, d, days, ref, count, goal)
    ensures var day := DayList(d, Ascend(f.hours, 0, 24), Ascend(f.minutes, 0, 60));
            var next := if DayDue(f, d) then Collect(acc, day, ref, count) else acc;
            OnTrack(f, next, NextDay(d), days - 1, ref, count, goal)
  {
    CollectConcat(acc, DueList(f, d), Visit(f, NextDay(d), days - 1), ref, count);
  }

  lemma CollectFullOrDone(acc: seq<Moment>, ts: seq<Moment>, ref: Moment, count: nat)
    requires |acc| >= count || ts == []
    ensures Collect(acc, ts, ref, count) == acc
  {
    if |acc| >= count { CollectFull(acc, ts, ref, count); }
  }

  /** The two inner loops; leaving the minute loop early when the list is full. */
  method CollectDay(acc: seq<Moment>, d: Date, hours: seq<int>, minutes: seq<int>, ref: Moment, count: nat)
    returns (upcoming: seq<Moment>)
    ensures upcoming == Collect(acc, DayList(d, hours, minutes), ref, count)
  {
    upcoming := acc;
    for h := 0 to |hours|
      invariant Collect(upcoming, DayList(d, hours[h..], minutes), ref, count) ==
                Collect(acc, DayList(d, hours, minutes), ref, count)
    {
      assert hours[h..][0] == hours[h] && hours[h..][1..] == hours[h + 1..];
      CollectConcat(upcoming, HourList(d, hours[h], minutes), DayList(d, hours[h + 1..], minutes), ref, count);
      ghost var target := Collect(upcoming, HourList(d, hours[h], minutes), ref, count);
      var m := 0;
      while m < |minutes|
        invariant 0 <= m <= |minutes|
        invariant Collect(upcoming, HourList(d, hours[h], minutes[m..]), ref, count) == target
      {
        var candidate := Moment(d, hours[h], minutes[m]);
        assert minutes[m..][0] == minutes[m] && minutes[m..][1..] == minutes[m + 1..];
        assert HourList(d, hours[h], minutes[m..])[1..] == HourList(d, hours[h], minutes[m + 1..]);
        if Stamp(candidate) < Stamp(ref) {
          m := m + 1;
          continue;
        }
        if |upcoming| >= count { break; }
        upcoming := upcoming + [candidate];
        m := m + 1;
      }
      CollectFullOrDone(upcoming, HourList(d, hours[h], minutes[m..]), ref, count);
    }
    assert hours[|hours|..] == [];
  }

  // ---- The candidates are exactly the matching minutes, in order ----

  lemma IncreasingConcat(x: seq<Moment>, y: seq<Moment>, bound: int)
    requires Increasing(x) && Increasing(y)
    requires forall t :: t in x ==> Stamp(t) < bound
    requires forall t :: t in y ==> bound <= Stamp(t)
    ensures Increasing(x + y)
  {
    forall i, j | 0 <= i < j < |x + y| ensures Stamp((x + y)[i]) < Stamp((x + y)[j]) {
      if i < |x| && j >= |x| {
        assert (x + y)[i] in x && (x + y)[j] in y;
      } else if i >= |x| {
        assert (x + y)[i] == y[i - |x|] && (x + y)[j] == y[j - |x|];
      }
    }
  }

  lemma {:induction false} HourListFacts(d: Date, h: int, ms: seq<int>)
    requires forall i, j :: 0 <= i < j < |ms| ==> ms[i] < ms[j]
    ensures forall t :: t in HourList(d, h, ms) <==> t.date == d && t.hour == h && t.minute in ms
    ensures Increasing(HourList(d, h, ms))
    decreases |ms|
  {
    if ms != [] {
      HourListFacts(d, h, ms[1..]);
      forall t | t in HourList(d, h, ms[1..]) ensures Stamp(Moment(d, h, ms[0])) < Stamp(t) {
        var j :| 0 <= j < |ms[1..]| && ms[1..][j] == t.minute;
        assert ms[j + 1] == t.minute;
      }
      IncreasingConcat([Moment(d, h, ms[0])], HourList(d, h, ms[1..]), Stamp(Moment(d, h, ms[0])) + 1);
    }
  }

  lemma {:induction false} DayListFacts(d: Date, hs: seq<int>, ms: seq<int>)
    requires forall i, j :: 0 <= i < j < |hs| ==> hs[i] < hs[j]
    requires forall i, j :: 0 <= i < j < |ms| ==> ms[i] < ms[j]
    requires forall m :: m in ms ==> 0 <= m < 60
    ensures forall t :: t in DayList(d, hs, ms) <==> t.date == d && t.hour in hs && t.minute in ms
    ensures Increasing(DayList(d, hs, ms))
    decreases |hs|
  {
    if hs != [] {
      HourListFacts(d, hs[0], ms);
      DayListFacts(d, hs[1..], ms);
      var bound := Stamp(Moment(d, hs[0] + 1, 0));
      forall t | t in DayList(d, hs[1..], ms) ensures bound <= Stamp(t) {
        var j :| 0 <= j < |hs[1..]| && hs[1..][j] == t.hour;
        assert hs[j + 1] == t.hour;
      }
      IncreasingConcat(HourList(d, hs[0], ms), DayList(d, hs[1..], ms), bound);
    }
  }

  lemma DueListFacts(f: Fields, d: Date)
    requires InRanges(f) && ValidDate(d)
    ensures forall t :: t in DueList(f, d) <==> t.date == d && Matches(f, t)
    ensures Increasing(DueList(f, d))
    ensures forall t :: t in DueList(f, d) ==> Ordinal(d) * 1440 <= Stamp(t) < (Ordinal(d) + 1) * 1440
  {
    var hs, ms := Ascend(f.hours, 0, 24), Ascend(f.minutes, 0, 60);
    AscendFacts(f.hours, 0, 24);
    AscendFacts(f.minutes, 0, 60);
    DayListFacts(d, hs, ms);
    DayDueExactly(f, d);
  }

  lemma {:induction false} VisitFacts(f: Fields, d: Date, days: nat)
    requires InRanges(f) && ValidDate(d)
    ensures forall t :: t in Visit(f, d, days) <==>
              Matches(f, t) && Ordinal(d) <= Ordinal(t.date) < Ordinal(d) + days
    ensures Increasing(Visit(f, d, days))
    decreases days
  {
    if days > 0 {
      NextDayOrdinal(d);
      DueListFacts(f, d);
      VisitFacts(f, NextDay(d), days - 1);
      IncreasingConcat(DueList(f, d), Visit(f, NextDay(d), days - 1), (Ordinal(d) + 1) * 1440);
      forall t: Moment | Matches(f, t) && Ordinal(t.date) == Ordinal(d) ensures t.date == d {
        OrdinalInjective(t.date, d);
      }
    }
  }

  /** Collecting from an increasing list takes its first elements that are not before ref. */
  lemma {:induction false} CollectFirst(acc: seq<Moment>, ts: seq<Moment>, ref: Moment, count: nat)
    requires Increasing(acc + ts) && |acc| <= count
    ensures var r := Collect(acc, ts, ref, count);
            && acc <= r && |r| <= count && Increasing(r)
            && (forall t :: t in r ==> t in acc || (t in ts && Stamp(t) >= Stamp(ref)))
            && (forall t :: t in ts && Stamp(t) >= Stamp(ref) && (|r| < count || UpToLast(t, r)) ==> t in r)
    decreases |ts|
  {
    if ts == [] {
      assert acc + ts == acc;
    } else if |acc| >= count {
      CollectFull(acc, ts, ref, count);
      PrefixIncreasing(acc, ts);
    } else if Stamp(ts[0]) < Stamp(ref) {
      SkipIncreasing(acc, ts);
      CollectFirst(acc, ts[1..], ref, count);
    } else {
      assert acc + [ts[0]] + ts[1..] == acc + ts;
      CollectFirst(acc + [ts[0]], ts[1..], ref, count);
      assert ts[0] in acc + [ts[0]];
    }
  }

  /** Past the taken prefix everything is later than its last element. */
  lemma PrefixIncreasing(acc: seq<Moment>, ts: seq<Moment>)
    requires Increasing(acc + ts)
    ensures Increasing(acc) && forall t :: t in ts ==> !UpToLast(t, acc)
  {
    assert forall i :: 0 <= i < |acc| ==> (acc + ts)[i] == acc[i];
    forall t | t in ts ensures !UpToLast(t, acc) {
      var j :| 0 <= j < |ts| && ts[j] == t;
      assert (acc + ts)[|acc| + j] == t;
    }
  }

  lemma SkipIncreasing(acc: seq<Moment>, ts: seq<Moment>)
    requires Increasing(acc + ts) && ts != []
    ensures Increasing(acc + ts[1..])
  {
    forall i, j | 0 <= i < j < |acc + ts[1..]| ensures Stamp((acc + ts[1..])[i]) < Stamp((acc + ts[1..])[j]) {
      var i2 := if i < |acc| then i else i + 1;
      var j2 := if j < |acc| then j else j + 1;
      assert (acc + ts)[i2] == (acc + ts[1..])[i] && (acc + ts)[j2] == (acc + ts[1..])[j];
    }
  }

  lemma FirstOnes(f: Fields, ref: Moment, horizon: nat, count: nat)
    requires InRanges(f) && ValidDate(ref.date)
    ensures FirstDue(f, ref, horizon, count, Collect([], Visit(f, ref.date, horizon + 1), ref, count))
  {
    var ts := Visit(f, ref.date, horizon + 1);
    VisitFacts(f, ref.date, horizon + 1);
    assert [] + ts == ts;
    CollectFirst([], ts, ref, count);
    var r := Collect([], ts, ref, count);
    forall t ensures Due(f, ref, horizon, t) <==> (t in ts && Stamp(t) >= Stamp(ref)) {
      DueVisited(f, ref, horizon, t);
    }
  }

  lemma DueVisited(f: Fields, ref: Moment, horizon: nat, t: Moment)
    requires InRanges(f) && ValidDate(ref.date)
    ensures Due(f, ref, horizon, t) <==> t in Visit(f, ref.date, horizon + 1) && Stamp(t) >= Stamp(ref)
  {
    VisitFacts(f, ref.date, horizon + 1);
  }
}
