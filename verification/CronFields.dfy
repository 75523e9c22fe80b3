/** Expanding one field of a schedule, and the schedules that the generator writes. */
module CronFields {
  import opened Text
  import opened Calendar
  import opened Cron

  const WEEKDAY_NAMES: map<string, nat> := map[
    "sunday" := 0, "sun" := 0, "monday" := 1, "mon" := 1, "tuesday" := 2, "tue" := 2,
    "wednesday" := 3, "wed" := 3, "thursday" := 4, "thu" := 4, "friday" := 5, "fri" := 5,
    "saturday" := 6, "sat" := 6]

  function LowerChar(c: char): char {
    if 'A' <= c <= 'Z' then ((c as int) + 32) as char else c
  }

  function Lower(s: string): string {
    if s == "" then "" else [LowerChar(s[0])] + Lower(s[1..])
  }

  function ToInt(part: string, isDow: bool): Option<nat> {
    if isDow && Lower(part) in WEEKDAY_NAMES then Some(WEEKDAY_NAMES[Lower(part)])
    else if AllDigits(part) then Digits(part, 0, false)
    else None
  }

  /** Python's `text.split(c, 1)`, for a text that has c. */
  function SplitFirst(s: string, c: char): (string, string)
    requires c in s
  {
    if s[0] == c then ("", s[1..])
    else
      var r := SplitFirst(s[1..], c);
      ([s[0]] + r.0, r.1)
  }

  /** The values start, start + step, ... that are not above end. */
  datatype Cover = Cover(start: int, end: int, step: int)

  ghost predicate Covers(c: Cover, v: int) {
    exists k: nat :: v == c.start + k * c.step && v <= c.end
  }

  function Bounds(base: string, lo: int, hi: int, isDow: bool): Option<(int, int)> {
    if base == "*" then Some((lo, hi))
    else if '-' in base then
      var (a, b) := SplitFirst(base, '-');
      match (ToInt(a, isDow), ToInt(b, isDow))
      case (Some(x), Some(y)) => Some((x, y))
      case _ => None
    else
      match ToInt(base, isDow)
      case Some(x) => Some((x, x))
      case None => None
  }

  /** What one item between commas stands for; None when it is refused. */
  function ItemCover(item: string, lo: int, hi: int, isDow: bool): (c: Option<Cover>)
    ensures c.Some? ==> lo <= c.value.start && c.value.end <= hi && c.value.step >= 1
    ensures c.Some? && lo <= hi ==> c.value.start <= c.value.end
  {
    if '/' in item then
      var (base, stepText) := SplitFirst(item, '/');
      match (PyInt(stepText), Bounds(base, lo, hi, isDow))
      case (Some(step), Some((start, end))) =>
        if step <= 0 || start < lo || end > hi || start > end then None else Some(Cover(start, end, step))
      case _ => None
    else
      match Bounds(item, lo, hi, isDow)
      case None => None
      case Some((start, end)) =>
        if item == "*" then Some(Cover(lo, hi, 1))
        else if start < lo || end > hi || start > end then None else Some(Cover(start, end, 1))
  }

  /** Items as the service sees them: stripped, and skipped when nothing is left. */
  function Items(raw: string): seq<string> { Split(raw, ',') }

  predicate Skipped(item: string) { Strip(item) == "" }

  ghost predicate Refused(item: string, lo: int, hi: int, isDow: bool) {
    !Skipped(item) && ItemCover(Strip(item), lo, hi, isDow).None?
  }

  ghost predicate ItemHas(item: string, lo: int, hi: int, isDow: bool, v: int) {
    !Skipped(item) && ItemCover(Strip(item), lo, hi, isDow).Some? &&
    Covers(ItemCover(Strip(item), lo, hi, isDow).value, v)
  }

  /** r is what a field stands for: nothing when one of its items is refused, and otherwise the
      values of all its items together. */
  ghost predicate FieldMeans(items: seq<string>, lo: int, hi: int, isDow: bool, r: Option<set<int>>) {
    && (r.None? <==> exists i :: 0 <= i < |items| && Refused(items[i], lo, hi, isDow))
    && (r.Some? ==> forall v :: v in r.value <==> exists i :: 0 <= i < |items| && ItemHas(items[i], lo, hi, isDow, v))
  }

  method ExpandField(raw: string, lo: int, hi: int, isDow: bool) returns (r: Option<set<int>>)
    ensures FieldMeans(Items(raw), lo, hi, isDow, r)
  {
    var items := Split(raw, ',');
    var result: set<int> := {};
    for i := 0 to |items|
      invariant forall j :: 0 <= j < i ==> !Refused(items[j], lo, hi, isDow)
      invariant Collected(items, i, lo, hi, isDow, result)
    {
      var item := Strip(items[i]);
      ghost var before := result;
      if item != "" {
        var cover := ItemCover(item, lo, hi, isDow);
        if cover.None? {
          assert Refused(items[i], lo, hi, isDow);
          return None;
        }
        result := AddAll(result, cover.value);
      }
      AddItem(items, i, lo, hi, isDow, before, result);
    }
    return Some(result);
  }

  /** The values of the first n items together. */
  ghost predicate Collected(items: seq<string>, n: nat, lo: int, hi: int, isDow: bool, s: set<int>)
    requires n <= |items|
  {
    forall v :: v in s <==> exists i :: 0 <= i < n && ItemHas(items[i], lo, hi, isDow, v)
  }

  lemma AddItem(items: seq<string>, i: nat, lo: int, hi: int, isDow: bool, before: set<int>, after: set<int>)
    requires i < |items| && Collected(items, i, lo, hi, isDow, before)
    requires forall v :: v in after <==> v in before || ItemHas(items[i], lo, hi, isDow, v)
    ensures Collected(items, i + 1, lo, hi, isDow, after)
  {
  }

  method AddAll(base: set<int>, c: Cover) returns (result: set<int>)
    requires c.step >= 1
    ensures forall v :: v in result <==> v in base || Covers(c, v)
  {
    result := base;
    var value := c.start;
    ghost var k: nat := 0;
    while value <= c.end
      invariant value == c.start + k * c.step
      invariant forall v :: v in result <==>
                v in base || exists j: nat :: j < k && v == c.start + j * c.step && v <= c.end
      decreases c.end - value
    {
      result := result + {value};
      value := value + c.step;
      k := k + 1;
    }
    forall j: nat | c.start + j * c.step <= c.end ensures j < k {
      if j >= k { Scale(k, j, c.step); }
    }
  }

  lemma Scale(k: nat, j: nat, step: int)
    requires k <= j && step >= 1
    ensures k * step <= j * step
  {
  }

  /** Everything an accepted field stands for lies in the field's range. */
  lemma MeaningInRange(items: seq<string>, lo: int, hi: int, isDow: bool, r: Option<set<int>>, v: int)
    requires FieldMeans(items, lo, hi, isDow, r) && r.Some? && v in r.value
    ensures lo <= v <= hi
  {
    var i :| 0 <= i < |items| && ItemHas(items[i], lo, hi, isDow, v);
    var c := ItemCover(Strip(items[i]), lo, hi, isDow).value;
    var k: nat :| v == c.start + k * c.step && v <= c.end;
    Scale(0, k, c.step);
  }

  /** An accepted field is empty if and only if it has no item that is not skipped. */
  lemma EmptyExactly(items: seq<string>, lo: int, hi: int, isDow: bool, r: Option<set<int>>)
    requires lo <= hi && FieldMeans(items, lo, hi, isDow, r) && r.Some?
    ensures r.value == {} <==> forall i :: 0 <= i < |items| ==> Skipped(items[i])
  {
    if i :| 0 <= i < |items| && !Skipped(items[i]) {
      assert !Refused(items[i], lo, hi, isDow);
      var c := ItemCover(Strip(items[i]), lo, hi, isDow).value;
      assert c.start == c.start + 0 * c.step;
      assert Covers(c, c.start);
      assert ItemHas(items[i], lo, hi, isDow, c.start);
      assert c.start in r.value;
    } else {
      assert forall v, i :: 0 <= i < |items| ==> !ItemHas(items[i], lo, hi, isDow, v);
      assert forall v :: v !in r.value;
    }
  }

  /** A field of a single comma is accepted and empty. */
  lemma CommaField(lo: int, hi: int, isDow: bool, r: Option<set<int>>)
    requires lo <= hi && FieldMeans(Items(","), lo, hi, isDow, r)
    ensures r == Some({})
  {
    SplitConcat("", "", ',');
    assert "" + [','] + "" == ",";
    assert Items(",") == ["", ""];
    EmptyExactly(Items(","), lo, hi, isDow, r);
  }

  // ---- The generator ----

  /** A recognised description, with the numbers read from its text. */
  datatype Schedule =
    | EveryMinute | Morning | Evening
    | EveryMinutes(n: nat)
    | EveryHours(n: nat)
    | Daily(hour: nat, minute: nat)
    | Weekdays(hour: nat, minute: nat)
    | Weekends(hour: nat, minute: nat)
    | Weekly(name: string, hour: nat, minute: nat)
    | Monthly(day: nat, hour: nat, minute: nat)
    | Dated(month: nat, day: nat, year: nat, hour: nat, minute: nat)

  datatype Expression = Expression(minute: string, hour: string, dom: string, month: string, dow: string)

  predicate Clock(hour: nat, minute: nat) { hour <= 23 && minute <= 59 }

  /** The expression written for a description; None when its numbers are out of range. */
  function Generate(s: Schedule): Option<Expression> {
    match s
    case EveryMinute => Some(Expression("*", "*", "*", "*", "*"))
    case Morning => Some(Expression("0", "6", "*", "*", "*"))
    case Evening => Some(Expression("0", "18", "*", "*", "*"))
    case EveryMinutes(n) => if 1 <= n <= 59 then Some(Expression("*/" + Dec(n), "*", "*", "*", "*")) else None
    case EveryHours(n) => if 1 <= n <= 23 then Some(Expression("0", "*/" + Dec(n), "*", "*", "*")) else None
    case Daily(h, m) => if Clock(h, m) then Some(Expression(Dec(m), Dec(h), "*", "*", "*")) else None
    case Weekdays(h, m) => if Clock(h, m) then Some(Expression(Dec(m), Dec(h), "*", "*", "1-5")) else None
    case Weekends(h, m) => if Clock(h, m) then Some(Expression(Dec(m), Dec(h), "*", "*", "0,6")) else None
    case Weekly(name, h, m) =>
      if name !in WEEKDAY_NAMES || !Clock(h, m) then None
      else Some(Expression(Dec(m), Dec(h), "*", "*", Dec(WEEKDAY_NAMES[name])))
    case Monthly(d, h, m) =>
      if 1 <= d <= 31 && Clock(h, m) then Some(Expression(Dec(m), Dec(h), Dec(d), "*", "*")) else None
    case Dated(mon, d, _, h, m) =>
      if 1 <= mon <= 12 && 1 <= d <= 31 && Clock(h, m) then
        Some(Expression(Dec(m), Dec(h), Dec(d), Dec(mon), "*"))
      else None
  }

  /** A description is accepted if and only if its numbers are in range and its weekday is known; a
      date need not exist. */
  lemma AcceptedDescriptions(s: Schedule)
    ensures s.EveryMinutes? ==> (Generate(s).Some? <==> 1 <= s.n <= 59)
    ensures s.EveryHours? ==> (Generate(s).Some? <==> 1 <= s.n <= 23)
    ensures s.EveryMinute? || s.Morning? || s.Evening? ==> Generate(s).Some?
    ensures s.Daily? || s.Weekdays? || s.Weekends? ==> (Generate(s).Some? <==> s.hour <= 23 && s.minute <= 59)
    ensures s.Weekly? ==>
              (Generate(s).Some? <==> s.hour <= 23 && s.minute <= 59 && s.name in WEEKDAY_NAMES)
    ensures s.Monthly? ==> (Generate(s).Some? <==> s.hour <= 23 && s.minute <= 59 && 1 <= s.day <= 31)
    ensures s.Dated? ==>
              (Generate(s).Some? <==> s.hour <= 23 && s.minute <= 59 && 1 <= s.day <= 31 && 1 <= s.month <= 12)
  {
  }

  /** A field of one item stands for that item's values. */
  lemma SingleItem(raw: string, lo: int, hi: int, isDow: bool, r: Option<set<int>>)
    requires FieldMeans(Items(raw), lo, hi, isDow, r)
    requires ',' !in raw && Strip(raw) == raw && raw != ""
    requires ItemCover(raw, lo, hi, isDow).Some?
    ensures r.Some? && forall v :: v in r.value <==> Covers(ItemCover(raw, lo, hi, isDow).value, v)
  {
    SplitPlain(raw, ',');
    assert Items(raw) == [raw];
    assert !Refused(raw, lo, hi, isDow);
    forall v ensures v in r.value <==> Covers(ItemCover(raw, lo, hi, isDow).value, v) {
      assert Items(raw)[0] == raw;
      assert ItemHas(raw, lo, hi, isDow, v) <==> Covers(ItemCover(raw, lo, hi, isDow).value, v);
    }
  }

  lemma PlainNumber(n: nat, isDow: bool)
    ensures Strip(Dec(n)) == Dec(n) && ',' !in Dec(n) && '/' !in Dec(n) && '-' !in Dec(n) && Dec(n) != "*"
    ensures ToInt(Dec(n), isDow) == Some(n)
  {
    var s := Dec(n);
    assert IsDigit(s[0]) && IsDigit(s[|s| - 1]);
    forall c | c in s ensures c != ',' && c != '/' && c != '-' && c != '*' { assert IsDigit(c); }
    forall i | 0 <= i < |s| ensures IsDigit(s[i]) { assert s[i] in s; }
    DigitsOfDec(n, "");
    assert s + "" == s;
    NamesAreLetters();
    assert Lower(s)[0] == LowerChar(s[0]) == s[0];
  }

  lemma NamesAreLetters()
    ensures forall k :: k in WEEKDAY_NAMES ==> k != "" && 'a' <= k[0] <= 'z'
  {
  }

  /** A single number stands for itself. */
  lemma NumberField(n: nat, lo: int, hi: int, isDow: bool, r: Option<set<int>>)
    requires lo <= n <= hi && FieldMeans(Items(Dec(n)), lo, hi, isDow, r)
    ensures r.Some? && forall v :: v in r.value <==> v == n
  {
    PlainNumber(n, isDow);
    SingleItem(Dec(n), lo, hi, isDow, r);
    var c := ItemCover(Dec(n), lo, hi, isDow).value;
    assert c == Cover(n, n, 1);
    forall v ensures Covers(c, v) <==> v == n {
      if v == n { assert v == c.start + 0 * c.step; }
    }
  }

  /** A star stands for the whole range. */
  lemma StarField(lo: int, hi: int, isDow: bool, r: Option<set<int>>)
    requires FieldMeans(Items("*"), lo, hi, isDow, r)
    ensures r.Some? && forall v :: v in r.value <==> lo <= v <= hi
  {
    SingleItem("*", lo, hi, isDow, r);
    var c := Cover(lo, hi, 1);
    forall v ensures Covers(c, v) <==> lo <= v <= hi {
      if lo <= v <= hi { var k: nat := v - lo; assert v == c.start + k * c.step; }
    }
  }

  /** A star with a step stands for every step-th value from the bottom of the range. */
  lemma StepField(n: nat, lo: int, hi: int, isDow: bool, r: Option<set<int>>)
    requires n >= 1 && lo <= hi && FieldMeans(Items("*/" + Dec(n)), lo, hi, isDow, r)
    ensures r.Some? && forall v :: v in r.value <==> Covers(Cover(lo, hi, n), v)
  {
    var raw := "*/" + Dec(n);
    PlainNumber(n, isDow);
    StarSlash(n);
    assert ItemCover(raw, lo, hi, isDow) == Some(Cover(lo, hi, n)) by { PyIntOfDec(n); }
    SingleItem(raw, lo, hi, isDow, r);
  }

  lemma StarSlash(n: nat)
    ensures var raw := "*/" + Dec(n);
            Strip(raw) == raw && ',' !in raw && '/' in raw && SplitFirst(raw, '/') == ("*", Dec(n))
  {
    var d := Dec(n);
    var raw := "*/" + d;
    PlainNumber(n, false);
    assert raw[|raw| - 1] == d[|d| - 1] && IsDigit(d[|d| - 1]);
    SplitAfterStar(d);
  }

  lemma SplitAfterStar(d: string)
    ensures SplitFirst("*/" + d, '/') == ("*", d)
  {
    var tail := ("*/" + d)[1..];
    assert tail[0] == '/' && tail[1..] == d;
    assert SplitFirst(tail, '/') == ("", d);
    assert ['*'] + "" == "*";
  }

  lemma SmallDec()
    ensures Dec(0) == "0" && Dec(1) == "1" && Dec(5) == "5" && Dec(6) == "6"
    ensures Dec(18) == "18"
  {
    assert DIGITS[0] == '0' && DIGITS[1] == '1' && DIGITS[5] == '5' && DIGITS[6] == '6' && DIGITS[8] == '8';
    assert Dec(18) == Dec(1) + [DIGITS[8]];
  }

  /** Monday to Friday. */
  lemma WorkWeekField(r: Option<set<int>>)
    requires FieldMeans(Items("1-5"), 0, 6, true, r)
    ensures r.Some? && forall v :: v in r.value <==> 1 <= v <= 5
  {
    SmallDec();
    PlainNumber(1, true);
    PlainNumber(5, true);
    var tail := "1-5"[1..];
    assert tail == "-5" && tail[1..] == "5";
    assert SplitFirst(tail, '-') == ("", "5");
    assert ['1'] + "" == "1";
    assert SplitFirst("1-5", '-') == ("1", "5");
    assert Bounds("1-5", 0, 6, true) == Some((1, 5));
    SingleItem("1-5", 0, 6, true, r);
    var c := Cover(1, 5, 1);
    forall v ensures Covers(c, v) <==> 1 <= v <= 5 {
      if 1 <= v <= 5 { var k: nat := v - 1; assert v == c.start + k * c.step; }
    }
  }

  lemma NumberItem(n: nat, v: int)
    requires n <= 6
    ensures !Refused(Dec(n), 0, 6, true) && (ItemHas(Dec(n), 0, 6, true, v) <==> v == n)
  {
    PlainNumber(n, true);
    var c := Cover(n, n, 1);
    assert ItemCover(Dec(n), 0, 6, true) == Some(c);
    if v == n { assert v == c.start + 0 * c.step; }
  }

  /** Sunday and Saturday. */
  lemma WeekendField(r: Option<set<int>>)
    requires FieldMeans(Items("0,6"), 0, 6, true, r)
    ensures r.Some? && forall v :: v in r.value <==> v == 0 || v == 6
  {
    SmallDec();
    PlainNumber(0, true);
    PlainNumber(6, true);
    assert "0,6" == Dec(0) + [','] + Dec(6);
    SplitConcat(Dec(0), Dec(6), ',');
    SplitPlain(Dec(0), ',');
    SplitPlain(Dec(6), ',');
    var items := Items("0,6");
    assert items == [Dec(0), Dec(6)];
    NumberItem(0, 0);
    NumberItem(6, 0);
    forall v ensures v in r.value <==> v == 0 || v == 6 {
      NumberItem(0, v);
      NumberItem(6, v);
      assert ItemHas(items[0], 0, 6, true, v) <==> v == 0;
      assert ItemHas(items[1], 0, 6, true, v) <==> v == 6;
    }
  }

  /** The five fields of an expression, expanded. */
  datatype Expanded = Expanded(minute: Option<set<int>>, hour: Option<set<int>>, dom: Option<set<int>>,
                               month: Option<set<int>>, dow: Option<set<int>>)

  ghost predicate Expands(e: Expression, x: Expanded) {
    && FieldMeans(Items(e.minute), 0, 59, false, x.minute)
    && FieldMeans(Items(e.hour), 0, 23, false, x.hour)
    && FieldMeans(Items(e.dom), 1, 31, false, x.dom)
    && FieldMeans(Items(e.month), 1, 12, false, x.month)
    && FieldMeans(Items(e.dow), 0, 6, true, x.dow)
  }

  ghost predicate Accepted(x: Expanded) {
    x.minute.Some? && x.hour.Some? && x.dom.Some? && x.month.Some? && x.dow.Some?
  }

  lemma WeekdayNumber(name: string)
    requires name in WEEKDAY_NAMES
    ensures WEEKDAY_NAMES[name] <= 6
  {
  }

  // ---- What the generated expressions mean ----

  predicate MinuteSaid(s: Schedule, v: int) {
    match s
    case EveryMinute => true
    case EveryMinutes(n) => n > 0 && v % n == 0
    case Morning => v == 0
    case Evening => v == 0
    case EveryHours(_) => v == 0
    case _ => v == s.minute
  }

  predicate HourSaid(s: Schedule, v: int) {
    match s
    case EveryMinute => true
    case EveryMinutes(_) => true
    case EveryHours(n) => n > 0 && v % n == 0
    case Morning => v == 6
    case Evening => v == 18
    case _ => v == s.hour
  }

  predicate DaySaid(s: Schedule, d: Date) {
    match s
    case Weekdays(_, _) => 1 <= DayOfWeek(d) <= 5
    case Weekends(_, _) => DayOfWeek(d) == 0 || DayOfWeek(d) == 6
    case Weekly(name, _, _) => name in WEEKDAY_NAMES && DayOfWeek(d) == WEEKDAY_NAMES[name]
    case Monthly(day, _, _) => d.day == day
    case Dated(month, day, year, _, _) => d.month == month && d.day == day && d.year == year
    case _ => true
  }

  /** The minutes a description speaks of. */
  predicate Said(s: Schedule, t: Moment) {
    && ValidDate(t.date) && 0 <= t.hour < 24 && 0 <= t.minute < 60
    && MinuteSaid(s, t.minute) && HourSaid(s, t.hour) && DaySaid(s, t.date)
  }

  /** Whatever the generator writes, the parser accepts. */
  lemma GeneratedAccepted(s: Schedule, x: Expanded)
    requires Generate(s).Some? && Expands(Generate(s).value, x)
    ensures Accepted(x)
  {
    MinuteMeans(s, Generate(s).value, x.minute);
    HourMeans(s, Generate(s).value, x.hour);
    DomMeans(s, Generate(s).value, x.dom);
    MonthMeans(s, Generate(s).value, x.month);
    DowMeans(s, Generate(s).value, x.dow);
  }

  /** The description with another year; only a dated one changes. */
  function InYear(s: Schedule, year: nat): Schedule { if s.Dated? then s.(year := year) else s }

  /** The parsed fields of a generated expression match exactly the minutes that the description
      speaks of, except that a dated one is read without its year. */
  lemma GeneratedMeans(s: Schedule, x: Expanded, t: Moment)
    requires Generate(s).Some? && Expands(Generate(s).value, x)
    ensures Accepted(x)
    ensures var found := Matches(Fields(x.minute.value, x.hour.value, x.dom.value, x.month.value, x.dow.value), t);
            && (!s.Dated? ==> (found <==> Said(s, t)))
            && (found <==> t.date.year >= 1 && Said(InYear(s, t.date.year), t))
            && (found != Said(s, t) <==> found && s.Dated? && t.date.year != s.year)
  {
    MinuteMeans(s, Generate(s).value, x.minute);
    HourMeans(s, Generate(s).value, x.hour);
    DomMeans(s, Generate(s).value, x.dom);
    MonthMeans(s, Generate(s).value, x.month);
    DowMeans(s, Generate(s).value, x.dow);
    if ValidDate(t.date) {
      DaysAgree(s, Fields(x.minute.value, x.hour.value, x.dom.value, x.month.value, x.dow.value), t.date);
    }
  }

  /** "on march 5, 2026 at 09:30" also means 5 March 2027. */
  lemma YearForgotten(s: Schedule, x: Expanded, t: Moment)
    requires s == Dated(3, 5, 2026, 9, 30) && t == Moment(Date(2027, 3, 5), 9, 30)
    requires Expands(Generate(s).value, x)
    ensures Accepted(x) && !Said(s, t)
    ensures Matches(Fields(x.minute.value, x.hour.value, x.dom.value, x.month.value, x.dow.value), t)
  {
    GeneratedMeans(s, x, t);
  }

  /** Every generated expression leaves one of the two day fields open. */
  lemma DaysAgree(s: Schedule, f: Fields, d: Date)
    requires ValidDate(d)
    requires forall v :: v in f.dom <==> 1 <= v <= 31 && (s.Monthly? || s.Dated? ==> v == s.day)
    requires forall v :: v in f.months <==> 1 <= v <= 12 && (s.Dated? ==> v == s.month)
    requires forall v :: v in f.dow <==> 0 <= v <= 6 && DowSaid(s, v)
    ensures d.month in f.months && DayMatches(f, d) <==> DaySaid(InYear(s, d.year), d)
  {
    assert d.day <= 31;
    assert 0 <= DayOfWeek(d) <= 6;
    if s.Monthly? || s.Dated? {
      assert IsRange(f.dow, 0, 7);
    } else {
      assert IsRange(f.dom, 1, 32);
    }
  }

  predicate DowSaid(s: Schedule, v: int) {
    match s
    case Weekdays(_, _) => 1 <= v <= 5
    case Weekends(_, _) => v == 0 || v == 6
    case Weekly(name, _, _) => name in WEEKDAY_NAMES && v == WEEKDAY_NAMES[name]
    case _ => true
  }

  /** Steps from zero are the multiples. */
  lemma Multiples(n: nat, hi: int, v: int)
    requires n >= 1
    ensures Covers(Cover(0, hi, n), v) <==> 0 <= v <= hi && v % n == 0
  {
    if Covers(Cover(0, hi, n), v) {
      var k: nat :| v == k * n && v <= hi;
      Multiple(k, n);
    }
    if 0 <= v <= hi && v % n == 0 {
      var k: nat := v / n;
      assert v == 0 + k * n;
    }
  }

  lemma Multiple(k: nat, n: nat)
    requires n >= 1
    ensures k * n >= 0 && k * n % n == 0
  {
    var q := k * n / n;
    assert n * (k - q) == k * n % n;
    if k > q { AtLeast(n, k - q); }
    if k < q { AtLeast(n, q - k); }
  }

  lemma AtLeast(n: nat, k: nat)
    requires k >= 1
    ensures n * k >= n
  {
  }

  lemma MinuteMeans(s: Schedule, e: Expression, r: Option<set<int>>)
    requires Generate(s) == Some(e) && FieldMeans(Items(e.minute), 0, 59, false, r)
    ensures r.Some? && forall v :: v in r.value <==> 0 <= v <= 59 && MinuteSaid(s, v)
  {
    match s
    case EveryMinute => StarField(0, 59, false, r);
    case EveryMinutes(n) =>
      StepField(n, 0, 59, false, r);
      forall v { Multiples(n, 59, v); }
    case Morning => NumberField(0, 0, 59, false, r);
    case Evening => NumberField(0, 0, 59, false, r);
    case EveryHours(_) => NumberField(0, 0, 59, false, r);
    case _ => NumberField(s.minute, 0, 59, false, r);
  }

  lemma HourMeans(s: Schedule, e: Expression, r: Option<set<int>>)
    requires Generate(s) == Some(e) && FieldMeans(Items(e.hour), 0, 23, false, r)
    ensures r.Some? && forall v :: v in r.value <==> 0 <= v <= 23 && HourSaid(s, v)
  {
    match s
    case EveryMinute => StarField(0, 23, false, r);
    case EveryMinutes(_) => StarField(0, 23, false, r);
    case EveryHours(n) =>
      StepField(n, 0, 23, false, r);
      forall v { Multiples(n, 23, v); }
    case Morning =>
      SmallDec();
      NumberField(6, 0, 23, false, r);
    case Evening =>
      SmallDec();
      NumberField(18, 0, 23, false, r);
    case _ => NumberField(s.hour, 0, 23, false, r);
  }

  lemma DomMeans(s: Schedule, e: Expression, r: Option<set<int>>)
    requires Generate(s) == Some(e) && FieldMeans(Items(e.dom), 1, 31, false, r)
    ensures r.Some? && forall v :: v in r.value <==> 1 <= v <= 31 && (s.Monthly? || s.Dated? ==> v == s.day)
  {
    if s.Monthly? || s.Dated? { NumberField(s.day, 1, 31, false, r); } else { StarField(1, 31, false, r); }
  }

  lemma MonthMeans(s: Schedule, e: Expression, r: Option<set<int>>)
    requires Generate(s) == Some(e) && FieldMeans(Items(e.month), 1, 12, false, r)
    ensures r.Some? && forall v :: v in r.value <==> 1 <= v <= 12 && (s.Dated? ==> v == s.month)
  {
    if s.Dated? { NumberField(s.month, 1, 12, false, r); } else { StarField(1, 12, false, r); }
  }

  lemma DowMeans(s: Schedule, e: Expression, r: Option<set<int>>)
    requires Generate(s) == Some(e) && FieldMeans(Items(e.dow), 0, 6, true, r)
    ensures r.Some? && forall v :: v in r.value <==> 0 <= v <= 6 && DowSaid(s, v)
  {
    match s
    case Weekdays(_, _) => WorkWeekField(r);
    case Weekends(_, _) => WeekendField(r);
    case Weekly(name, _, _) =>
      WeekdayNumber(name);
      NumberField(WEEKDAY_NAMES[name], 0, 6, true, r);
    case _ =>
      assert e.dow == "*";
      StarField(0, 6, true, r);
  }
}
