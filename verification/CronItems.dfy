/** What a field means, from a grammar of its items that owes nothing to the parser. */
module CronItems {
  import opened Text
  import opened Cron
  import opened CronFields

  // ---- The grammar ----

  datatype Point = Number(n: nat) | Day(name: string)

  datatype Base = All | One(p: Point) | Between(from: Point, to: Point)

  datatype Item = Item(base: Base, step: Option<nat>)

  /** Names of weekdays are written in full or short, in any letter case. */
  predicate PointOk(p: Point) { p.Day? ==> Lower(p.name) in WEEKDAY_NAMES }

  predicate ItemOk(i: Item) {
    match i.base
    case All => true
    case One(p) => PointOk(p)
    case Between(p, q) => PointOk(p) && PointOk(q)
  }

  function PointText(p: Point): string { if p.Number? then Dec(p.n) else p.name }

  function BaseText(b: Base): string {
    match b
    case All => "*"
    case One(p) => PointText(p)
    case Between(p, q) => PointText(p) + "-" + PointText(q)
  }

  function ItemText(i: Item): string {
    if i.step.Some? then BaseText(i.base) + "/" + Dec(i.step.value) else BaseText(i.base)
  }

  ghost predicate Written(texts: seq<string>, items: seq<Item>) {
    |texts| == |items| && forall n :: 0 <= n < |items| ==> ItemOk(items[n]) && texts[n] == ItemText(items[n])
  }

  // ---- Its meaning ----

  /** Names stand for numbers in the weekday field only. */
  function PointValue(p: Point, isDow: bool): Option<int>
    requires PointOk(p)
  {
    match p
    case Number(n) => Some(n)
    case Day(name) => if isDow then Some(WEEKDAY_NAMES[Lower(name)]) else None
  }

  function Ends(b: Base, lo: int, hi: int, isDow: bool): Option<(int, int)>
    requires ItemOk(Item(b, None))
  {
    match b
    case All => Some((lo, hi))
    case One(p) => (match PointValue(p, isDow) case None => None case Some(x) => Some((x, x)))
    case Between(p, q) =>
      match (PointValue(p, isDow), PointValue(q, isDow))
      case (Some(x), Some(y)) => Some((x, y))
      case _ => None
  }

  predicate Rejected(i: Item, lo: int, hi: int, isDow: bool)
    requires ItemOk(i)
  {
    var ends := Ends(i.base, lo, hi, isDow);
    i.step == Some(0) || ends.None? || ends.value.0 < lo || ends.value.1 > hi || ends.value.0 > ends.value.1
  }

  /** The first value, and from it every step-th one up to the last; without a step every one. */
  predicate Includes(i: Item, lo: int, hi: int, isDow: bool, v: int)
    requires ItemOk(i)
  {
    match Ends(i.base, lo, hi, isDow)
    case None => false
    case Some((first, last)) =>
      first <= v <= last && (i.step.Some? && i.step.value > 0 ==> (v - first) % i.step.value == 0)
  }

  // ---- The texts of points ----

  /** Neither separators nor white space, and not empty. */
  predicate Solid(s: string) {
    s != "" && forall c :: c in s ==> c != '-' && c != '/' && c != ',' && c != '*' && !IsSpace(c)
  }

  lemma NameLetters()
    ensures forall k, c :: k in WEEKDAY_NAMES && c in k ==> 'a' <= c <= 'z'
    ensures "" !in WEEKDAY_NAMES
  {
  }

  lemma {:induction false} LowerMembers(s: string, c: char)
    requires c in s
    ensures LowerChar(c) in Lower(s)
  {
    if s[0] != c { LowerMembers(s[1..], c); }
  }

  lemma PointSolid(p: Point)
    requires PointOk(p)
    ensures Solid(PointText(p))
    ensures forall isDow :: ToInt(PointText(p), isDow) == PointValue(p, isDow)
  {
    match p
    case Number(n) =>
      PlainNumber(n, true);
      PlainNumber(n, false);
      forall c | c in Dec(n) ensures c != '*' && !IsSpace(c) && c != '-' && c != '/' && c != ',' { assert IsDigit(c); }
    case Day(name) =>
      NameLetters();
      forall c | c in name ensures c != '-' && c != '/' && c != ',' && c != '*' && !IsSpace(c) && !IsDigit(c) {
        LowerMembers(name, c);
      }
      assert Lower("") == "";
      assert !IsDigit(name[0]);
  }

  lemma {:induction false} SplitAt(x: string, y: string, c: char)
    requires c !in x
    ensures c in x + [c] + y && SplitFirst(x + [c] + y, c) == (x, y)
    decreases |x|
  {
    var s := x + [c] + y;
    assert s[|x|] == c;
    if x == "" {
      assert s[1..] == y;
    } else {
      assert s[1..] == x[1..] + [c] + y;
      SplitAt(x[1..], y, c);
      assert [x[0]] + x[1..] == x;
    }
  }

  /** A text is read as a name if and only if it is that name with any of its letters capital. */
  lemma {:induction false} NameSpelled(s: string, name: string)
    requires forall i :: 0 <= i < |name| ==> 'a' <= name[i] <= 'z'
    ensures Lower(s) == name <==>
            |s| == |name| && forall i :: 0 <= i < |s| ==> s[i] == name[i] || s[i] as int == name[i] as int - 32
    decreases |s|
  {
    if s != "" && name != "" {
      NameSpelled(s[1..], name[1..]);
      assert name == [name[0]] + name[1..];
      LetterSpelled(s[0], name[0]);
      if |s| == |name| {
        assert forall i :: 0 < i < |s| ==> s[i] == s[1..][i - 1] && name[i] == name[1..][i - 1];
      }
    }
  }

  lemma LetterSpelled(c: char, letter: char)
    requires 'a' <= letter <= 'z'
    ensures LowerChar(c) == letter <==> c == letter || c as int == letter as int - 32
  {
  }

  // ---- One item ----

  lemma BaseBounds(b: Base, lo: int, hi: int, isDow: bool)
    requires ItemOk(Item(b, None))
    ensures Bounds(BaseText(b), lo, hi, isDow) == Ends(b, lo, hi, isDow)
    ensures '/' !in BaseText(b) && ',' !in BaseText(b) && (BaseText(b) == "*" <==> b.All?)
    ensures Firm(BaseText(b))
  {
    match b
    case All =>
    case One(p) =>
      PointSolid(p);
      assert PointText(p)[0] in PointText(p) && PointText(p)[|PointText(p)| - 1] in PointText(p);
    case Between(p, q) =>
      PointSolid(p);
      PointSolid(q);
      RangeText(PointText(p), PointText(q));
  }

  lemma RangeText(x: string, y: string)
    requires Solid(x) && Solid(y)
    ensures var s := x + "-" + y;
            && '-' in s && '/' !in s && ',' !in s && s != "*" && Firm(s)
            && SplitFirst(s, '-') == (x, y)
  {
    var s := x + "-" + y;
    assert s == x + ['-'] + y;
    SplitAt(x, y, '-');
    assert s[0] == x[0] && x[0] in x;
    assert s[|x| + |y|] == y[|y| - 1] && y[|y| - 1] in y;
  }

  /** Not empty, and no white space at either end. */
  predicate Firm(s: string) { s != "" && !IsSpace(s[0]) && !IsSpace(s[|s| - 1]) }

  lemma ItemWritten(i: Item)
    requires ItemOk(i)
    ensures Firm(ItemText(i)) && ',' !in ItemText(i) && Strip(ItemText(i)) == ItemText(i)
    ensures '/' in ItemText(i) <==> i.step.Some?
    ensures i.step.Some? ==> SplitFirst(ItemText(i), '/') == (BaseText(i.base), Dec(i.step.value))
  {
    var b := BaseText(i.base);
    BaseBounds(i.base, 0, 0, false);
    if i.step.Some? {
      var d := Dec(i.step.value);
      PlainNumber(i.step.value, false);
      assert ItemText(i) == b + ['/'] + d;
      SplitAt(b, d, '/');
      assert ItemText(i)[0] == b[0] && ItemText(i)[|b| + |d|] == d[|d| - 1] && d[|d| - 1] in d;
      assert IsDigit(d[|d| - 1]);
    }
  }

  lemma StepsCovered(first: int, last: int, step: int, v: int)
    requires step >= 1
    ensures Covers(Cover(first, last, step), v) <==> first <= v <= last && (v - first) % step == 0
  {
    var c := Cover(first, last, step);
    if first <= v <= last && (v - first) % step == 0 {
      var k: nat := (v - first) / step;
      assert v == c.start + k * c.step;
    }
    if Covers(c, v) {
      var k: nat :| v == c.start + k * c.step && v <= c.end;
      Multiple(k, step);
      assert v - first == k * step;
    }
  }

  /** The parser refuses a written item if and only if its meaning does, and otherwise covers exactly
      what it includes. */
  lemma ItemExactly(i: Item, lo: int, hi: int, isDow: bool)
    requires ItemOk(i) && lo <= hi
    ensures ItemCover(ItemText(i), lo, hi, isDow).None? <==> Rejected(i, lo, hi, isDow)
    ensures !Rejected(i, lo, hi, isDow) ==>
              forall v :: Covers(ItemCover(ItemText(i), lo, hi, isDow).value, v) <==> Includes(i, lo, hi, isDow, v)
  {
    ItemWritten(i);
    BaseBounds(i.base, lo, hi, isDow);
    if i.step.Some? { PyIntOfDec(i.step.value); }
    if !Rejected(i, lo, hi, isDow) {
      var c := ItemCover(ItemText(i), lo, hi, isDow).value;
      forall v ensures Covers(c, v) <==> Includes(i, lo, hi, isDow, v) { StepsCovered(c.start, c.end, c.step, v); }
    }
  }

  // ---- A whole field ----

  ghost predicate MeansItems(items: seq<Item>, lo: int, hi: int, isDow: bool, r: Option<set<int>>)
    requires forall n :: 0 <= n < |items| ==> ItemOk(items[n])
  {
    && (r.None? <==> exists n :: 0 <= n < |items| && Rejected(items[n], lo, hi, isDow))
    && (r.Some? ==>
          forall v :: v in r.value <==> exists n :: 0 <= n < |items| && Includes(items[n], lo, hi, isDow, v))
  }

  /** A field written from items is refused if and only if one of them is; otherwise it stands for the
      values that its items include. */
  lemma FieldExactly(texts: seq<string>, items: seq<Item>, lo: int, hi: int, isDow: bool, r: Option<set<int>>)
    requires items != [] && lo <= hi && Written(texts, items)
    requires FieldMeans(Items(Join(texts, ',')), lo, hi, isDow, r)
    ensures MeansItems(items, lo, hi, isDow, r)
  {
    PiecesBack(texts, items);
    TextsAlike(texts, items, lo, hi, isDow);
    FieldAlike(texts, items, lo, hi, isDow, r);
  }

  lemma PiecesBack(texts: seq<string>, items: seq<Item>)
    requires items != [] && Written(texts, items)
    ensures Items(Join(texts, ',')) == texts
  {
    forall s | s in texts ensures ',' !in s {
      var n :| 0 <= n < |texts| && texts[n] == s;
      ItemWritten(items[n]);
    }
    SplitJoin(texts, ',');
  }

  lemma TextsAlike(texts: seq<string>, items: seq<Item>, lo: int, hi: int, isDow: bool)
    requires lo <= hi && Written(texts, items)
    ensures AllAlike(texts, items, lo, hi, isDow)
  {
    forall n | 0 <= n < |items| ensures ItemOk(items[n]) && Alike(texts[n], items[n], lo, hi, isDow) {
      TextAlike(items[n], lo, hi, isDow);
    }
  }

  lemma FieldAlike(texts: seq<string>, items: seq<Item>, lo: int, hi: int, isDow: bool, r: Option<set<int>>)
    requires AllAlike(texts, items, lo, hi, isDow) && FieldMeans(texts, lo, hi, isDow, r)
    ensures MeansItems(items, lo, hi, isDow, r)
  {
    RefusedAlike(texts, items, lo, hi, isDow, r);
    if r.Some? {
      forall v ensures v in r.value <==> exists n :: 0 <= n < |items| && Includes(items[n], lo, hi, isDow, v) {
        ValueAlike(texts, items, lo, hi, isDow, r, v);
      }
    }
  }

  ghost predicate AllAlike(texts: seq<string>, items: seq<Item>, lo: int, hi: int, isDow: bool) {
    |texts| == |items| && forall n :: 0 <= n < |items| ==> ItemOk(items[n]) && Alike(texts[n], items[n], lo, hi, isDow)
  }

  lemma RefusedAlike(texts: seq<string>, items: seq<Item>, lo: int, hi: int, isDow: bool, r: Option<set<int>>)
    requires AllAlike(texts, items, lo, hi, isDow) && FieldMeans(texts, lo, hi, isDow, r)
    ensures r.None? <==> exists n :: 0 <= n < |items| && Rejected(items[n], lo, hi, isDow)
  {
    if r.None? {
      var n :| 0 <= n < |texts| && Refused(texts[n], lo, hi, isDow);
      assert Alike(texts[n], items[n], lo, hi, isDow);
    }
    if n :| 0 <= n < |items| && Rejected(items[n], lo, hi, isDow) {
      assert Alike(texts[n], items[n], lo, hi, isDow);
    }
  }

  lemma ValueAlike(texts: seq<string>, items: seq<Item>, lo: int, hi: int, isDow: bool, r: Option<set<int>>, v: int)
    requires AllAlike(texts, items, lo, hi, isDow) && FieldMeans(texts, lo, hi, isDow, r) && r.Some?
    ensures v in r.value <==> exists n :: 0 <= n < |items| && Includes(items[n], lo, hi, isDow, v)
  {
    RefusedAlike(texts, items, lo, hi, isDow, r);
    if v in r.value {
      var n :| 0 <= n < |texts| && ItemHas(texts[n], lo, hi, isDow, v);
      assert Alike(texts[n], items[n], lo, hi, isDow) && !Rejected(items[n], lo, hi, isDow);
    }
    if n :| 0 <= n < |items| && Includes(items[n], lo, hi, isDow, v) {
      assert Alike(texts[n], items[n], lo, hi, isDow) && !Rejected(items[n], lo, hi, isDow);
    }
  }

  /** The parser's view of a text and the meaning of an item. */
  ghost predicate Alike(text: string, i: Item, lo: int, hi: int, isDow: bool)
    requires ItemOk(i)
  {
    && (Refused(text, lo, hi, isDow) <==> Rejected(i, lo, hi, isDow))
    && (!Rejected(i, lo, hi, isDow) ==> forall v :: ItemHas(text, lo, hi, isDow, v) <==> Includes(i, lo, hi, isDow, v))
  }

  lemma TextAlike(i: Item, lo: int, hi: int, isDow: bool)
    requires ItemOk(i) && lo <= hi
    ensures Alike(ItemText(i), i, lo, hi, isDow)
  {
    ItemWritten(i);
    ItemExactly(i, lo, hi, isDow);
  }
}
