/** Shared values and the character-level operations the services use:
    ordering of strings, decimal numerals, splitting, joining and replacing.

    Strings are sequences of code points, as in Python; what Python does beyond ASCII with white
    space and digits is not covered. */
module Text {

  datatype Option<+T> = None | Some(value: T)

  datatype Result<+T, +E> = Success(value: T) | Failure(error: E)

  type pos = n: nat | n >= 1 witness 1

  /** A part of a finite set is no larger than the set. */
  lemma {:induction false} SubsetSize<T>(s: set<T>, t: set<T>)
    requires s <= t
    ensures |s| <= |t|
    decreases s
  {
    if s != {} {
      var x :| x in s;
      SubsetSize(s - {x}, t - {x});
    }
  }

  // ---- Code-point order of strings (Python's `<` on str) ----

  predicate StrLess(a: string, b: string) {
    b != "" && (a == "" || a[0] < b[0] || (a[0] == b[0] && StrLess(a[1..], b[1..])))
  }

  lemma {:induction false} StrLessIrreflexive(a: string)
    ensures !StrLess(a, a)
  {
    if a != "" { StrLessIrreflexive(a[1..]); }
  }

  lemma {:induction false} StrLessTotal(a: string, b: string)
    ensures a == b || StrLess(a, b) || StrLess(b, a)
  {
    if a != "" && b != "" && a[0] == b[0] {
      StrLessTotal(a[1..], b[1..]);
      if a[1..] == b[1..] { assert a == [a[0]] + a[1..] == [b[0]] + b[1..] == b; }
    }
  }

  lemma {:induction false} StrLessTransitive(a: string, b: string, c: string)
    requires StrLess(a, b) && StrLess(b, c)
    ensures StrLess(a, c)
  {
    if a != "" && a[0] == b[0] && b[0] == c[0] { StrLessTransitive(a[1..], b[1..], c[1..]); }
  }

  // ---- A finite set of strings in ascending order (Python's `sorted`) ----

  ghost predicate IsLeast(k: string, s: set<string>) {
    k in s && forall o :: o in s && o != k ==> StrLess(k, o)
  }

  lemma {:induction false} LeastExists(s: set<string>)
    requires s != {}
    ensures exists k :: IsLeast(k, s)
    decreases s
  {
    var x :| x in s;
    if s == {x} {
      assert IsLeast(x, s);
    } else {
      LeastExists(s - {x});
      var m :| IsLeast(m, s - {x});
      StrLessTotal(m, x);
      if StrLess(m, x) {
        assert IsLeast(m, s);
      } else {
        forall o | o in s && o != x ensures StrLess(x, o) {
          if o != m { StrLessTransitive(x, m, o); }
        }
        assert IsLeast(x, s);
      }
    }
  }

  ghost function Least(s: set<string>): (k: string)
    requires s != {}
    ensures IsLeast(k, s)
  {
    LeastExists(s);
    var k :| IsLeast(k, s);
    k
  }

  ghost predicate Enumerates(ks: seq<string>, s: set<string>) {
    && (forall k :: k in ks <==> k in s)
    && (forall i, j :: 0 <= i < j < |ks| ==> ks[i] != ks[j])
  }

  ghost predicate Ascending(ks: seq<string>) {
    forall i, j :: 0 <= i < j < |ks| ==> StrLess(ks[i], ks[j])
  }

  ghost function SortedKeys(s: set<string>): seq<string>
    decreases s
  {
    if s == {} then [] else [Least(s)] + SortedKeys(s - {Least(s)})
  }

  lemma {:induction false} SortedKeysSorted(s: set<string>)
    ensures Enumerates(SortedKeys(s), s) && Ascending(SortedKeys(s))
    decreases s
  {
    if s != {} {
      var k := Least(s);
      var rest := SortedKeys(s - {k});
      var ks := [k] + rest;
      SortedKeysSorted(s - {k});
      assert forall o :: o in ks <==> o == k || o in rest;
      forall i, j | 0 <= i < j < |ks| ensures ks[i] != ks[j] && StrLess(ks[i], ks[j]) {
        assert ks[j] == rest[j - 1] && ks[j] in rest;
        if i > 0 { assert ks[i] == rest[i - 1]; }
      }
    }
  }

  /** Python's `sorted` on a set of keys, by repeated selection. */
  method Sort(s: set<string>) returns (ks: seq<string>)
    ensures ks == SortedKeys(s)
  {
    ks := [];
    var rest := s;
    while rest != {}
      invariant ks + SortedKeys(rest) == SortedKeys(s)
      decreases rest
    {
      var k := FindLeast(rest);
      assert ks + SortedKeys(rest) == ks + [k] + SortedKeys(rest - {k});
      ks := ks + [k];
      rest := rest - {k};
    }
  }

  method FindLeast(s: set<string>) returns (k: string)
    requires s != {}
    ensures k == Least(s)
  {
    k :| k in s;
    var todo := s - {k};
    while todo != {}
      invariant k in s && k !in todo && todo <= s
      invariant IsLeast(k, s - todo)
      decreases todo
    {
      var o :| o in todo;
      if StrLess(o, k) {
        StrLessIrreflexive(o);
        forall p | p in s - (todo - {o}) && p != o ensures StrLess(o, p) {
          if p != k { StrLessTransitive(o, k, p); }
        }
        k := o;
      } else {
        StrLessTotal(k, o);
      }
      todo := todo - {o};
    }
    assert s - todo == s;
    LeastUnique(s, k);
  }

  lemma LeastUnique(s: set<string>, k: string)
    requires IsLeast(k, s)
    ensures k == Least(s)
  {
    var m := Least(s);
    if m != k {
      StrLessTransitive(m, k, m);
      StrLessIrreflexive(m);
    }
  }

  // ---- Decimal numerals: str(n) and int(text) ----

  const DIGITS := "0123456789"

  predicate IsDigit(c: char) { '0' <= c <= '9' }

  predicate AllDigits(s: string) { s != "" && forall i :: 0 <= i < |s| ==> IsDigit(s[i]) }

  function DigitValue(c: char): (v: nat)
    requires IsDigit(c)
    ensures v < 10
  {
    (c as int) - ('0' as int)
  }

  function Dec(n: nat): (s: string)
    ensures s != "" && forall c :: c in s ==> IsDigit(c)
  {
    if n < 10 then [DIGITS[n]] else Dec(n / 10) + [DIGITS[n % 10]]
  }

  predicate IsSpace(c: char) { c in " \t\n\r\U{0B}\U{0C}\U{1C}\U{1D}\U{1E}\U{1F}" }

  function Strip(s: string): string {
    if s != "" && IsSpace(s[0]) then Strip(s[1..])
    else if s != "" && IsSpace(s[|s| - 1]) then Strip(s[..|s| - 1])
    else s
  }

  /** Digits of a numeral after `acc`; single underscores may stand between digits. */
  function Digits(s: string, acc: nat, afterDigit: bool): Option<nat> {
    if s == "" then if afterDigit then Some(acc) else None
    else if IsDigit(s[0]) then Digits(s[1..], acc * 10 + DigitValue(s[0]), true)
    else if s[0] == '_' && afterDigit then Digits(s[1..], acc, false)
    else None
  }

  /** Python's `int(text)`, for ASCII text. */
  function PyInt(s: string): Option<int> {
    var t := Strip(s);
    if t != "" && t[0] in "+-" then
      match Digits(t[1..], 0, false)
      case None => None
      case Some(v) => Some(if t[0] == '-' then 0 - v else v)
    else
      match Digits(t, 0, false)
      case None => None
      case Some(v) => Some(v)
  }

  lemma {:induction false} DigitsOfDec(n: nat, rest: string)
    ensures Digits(Dec(n) + rest, 0, false) == Digits(rest, n, true)
  {
    if n < 10 {
      assert (Dec(n) + rest)[1..] == rest;
    } else {
      var last := [DIGITS[n % 10]];
      assert Dec(n) + rest == Dec(n / 10) + (last + rest);
      DigitsOfDec(n / 10, last + rest);
      assert (last + rest)[1..] == rest;
      assert DigitValue(DIGITS[n % 10]) == n % 10;
    }
  }

  lemma PyIntOfDec(n: nat)
    ensures PyInt(Dec(n)) == Some(n)
  {
    var s := Dec(n);
    assert IsDigit(s[0]) && IsDigit(s[|s| - 1]);
    assert Strip(s) == s;
    DigitsOfDec(n, "");
    assert s + "" == s;
  }

  // ---- Splitting, joining, replacing ----

  /** Python's `text.split(c)`: one more piece than there are occurrences of c. */
  function Split(s: string, c: char): (parts: seq<string>)
    ensures parts != []
  {
    if s == "" then [""] else
      var rest := Split(s[1..], c);
      if s[0] == c then [""] + rest else [[s[0]] + rest[0]] + rest[1..]
  }

  /** Python's `c.join(parts)`. */
  function Join(parts: seq<string>, c: char): string {
    if parts == [] then ""
    else if |parts| == 1 then parts[0]
    else parts[0] + [c] + Join(parts[1..], c)
  }

  lemma {:induction false} SplitPlain(s: string, c: char)
    requires c !in s
    ensures Split(s, c) == [s]
  {
    if s != "" {
      SplitPlain(s[1..], c);
      assert [s[0]] + s[1..] == s;
    }
  }

  lemma {:induction false} SplitConcat(x: string, y: string, c: char)
    ensures Split(x + [c] + y, c) == Split(x, c) + Split(y, c)
  {
    var whole := x + [c] + y;
    if x == "" {
      assert whole[1..] == y;
    } else {
      assert whole[1..] == x[1..] + [c] + y;
      SplitConcat(x[1..], y, c);
    }
  }

  lemma {:induction false} SplitJoin(parts: seq<string>, c: char)
    requires parts != []
    requires forall p :: p in parts ==> c !in p
    ensures Split(Join(parts, c), c) == parts
  {
    SplitPlain(parts[0], c);
    if |parts| > 1 {
      SplitJoin(parts[1..], c);
      SplitConcat(parts[0], Join(parts[1..], c), c);
    }
  }

  /** Python's `text.replace(c, rep)` for a one-character pattern. */
  function ReplaceChar(s: string, c: char, rep: string): string {
    if s == "" then "" else (if s[0] == c then rep else [s[0]]) + ReplaceChar(s[1..], c, rep)
  }

  /** Python's `text.replace(pair, rep)` for a two-character pattern: leftmost, non-overlapping. */
  function ReplacePair(s: string, c: char, d: char, rep: string): string {
    if |s| < 2 then s
    else if s[0] == c && s[1] == d then rep + ReplacePair(s[2..], c, d, rep)
    else [s[0]] + ReplacePair(s[1..], c, d, rep)
  }
}
