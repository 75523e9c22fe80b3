/** Version precedence and range matching (item 11 of Semantic Versioning 2.0.0). */
module SemVer {
  import opened Text

  /** A parsed version; an absent prerelease or build is the empty text. */
  datatype Version = Version(major: nat, minor: nat, patch: nat, prerelease: string, build: string)

  predicate IdentifierChar(c: char) { IsDigit(c) || 'A' <= c <= 'Z' || 'a' <= c <= 'z' || c == '-' }

  /** What the version pattern admits as an identifier, in ASCII: letters, digits and hyphens, not
      empty, and without a leading zero when it is all digits. */
  predicate Identifier(s: string) {
    s != "" && (forall i :: 0 <= i < |s| ==> IdentifierChar(s[i])) && (AllDigits(s) && |s| > 1 ==> s[0] != '0')
  }

  predicate WellFormed(v: Version) {
    v.prerelease == "" || forall i :: 0 <= i < |Split(v.prerelease, '.')| ==> Identifier(Split(v.prerelease, '.')[i])
  }

  datatype Part = Numeric(text: string) | Alpha(text: string)

  function AsPart(s: string): Part { if AllDigits(s) then Numeric(s) else Alpha(s) }

  function AsParts(pieces: seq<string>): (r: seq<Part>)
    ensures |r| == |pieces| && forall i :: 0 <= i < |r| ==> r[i] == AsPart(pieces[i])
  {
    if pieces == [] then [] else [AsPart(pieces[0])] + AsParts(pieces[1..])
  }

  function Parts(prerelease: string): seq<Part> {
    if prerelease == "" then [] else AsParts(Split(prerelease, '.'))
  }

  method SemverParts(prerelease: string) returns (parts: seq<Part>)
    ensures parts == Parts(prerelease)
  {
    parts := [];
    if prerelease == "" { return; }
    var pieces := Split(prerelease, '.');
    for i := 0 to |pieces|
      invariant |parts| == i && forall j :: 0 <= j < i ==> parts[j] == AsPart(pieces[j])
    {
      parts := parts + [if AllDigits(pieces[i]) then Numeric(pieces[i]) else Alpha(pieces[i])];
    }
  }

  function Value(s: string): nat
    requires AllDigits(s)
  {
    DigitsDefined(s, 0);
    Digits(s, 0, false).value
  }

  lemma {:induction false} DigitsDefined(s: string, acc: nat)
    requires AllDigits(s)
    ensures Digits(s, acc, false).Some? && Digits(s, acc, true) == Digits(s, acc, false)
  {
    if |s| > 1 { DigitsDefined(s[1..], acc * 10 + DigitValue(s[0])); }
  }

  function Sign(less: bool): int { if less then -1 else 1 }

  function ComparePart(x: Part, y: Part): int
    requires PartOk(x) && PartOk(y)
  {
    match (x, y)
    case (Numeric(s), Numeric(t)) => if Value(s) == Value(t) then 0 else Sign(Value(s) < Value(t))
    case (Numeric(_), Alpha(_)) => -1
    case (Alpha(_), Numeric(_)) => 1
    case (Alpha(s), Alpha(t)) => if s == t then 0 else Sign(StrLess(s, t))
  }

  predicate PartOk(p: Part) { (p.Numeric? <==> AllDigits(p.text)) && Identifier(p.text) }

  predicate PartsOk(ps: seq<Part>) {
    forall i :: 0 <= i < |ps| ==> PartOk(ps[i])
  }

  /** Field by field; a list that runs out first is smaller. */
  function CompareParts(x: seq<Part>, y: seq<Part>): int
    requires PartsOk(x) && PartsOk(y)
  {
    if x == [] then (if y == [] then 0 else -1)
    else if y == [] then 1
    else if ComparePart(x[0], y[0]) != 0 then ComparePart(x[0], y[0])
    else CompareParts(x[1..], y[1..])
  }

  function CompareCore(a: Version, b: Version): int {
    if a.major != b.major then Sign(a.major < b.major)
    else if a.minor != b.minor then Sign(a.minor < b.minor)
    else if a.patch != b.patch then Sign(a.patch < b.patch)
    else 0
  }

  lemma PartsAreOk(v: Version)
    requires WellFormed(v)
    ensures PartsOk(Parts(v.prerelease))
  {
  }

  /** Precedence: -1, 0 or 1. */
  function Compare(a: Version, b: Version): int
    requires WellFormed(a) && WellFormed(b)
  {
    if CompareCore(a, b) != 0 then CompareCore(a, b)
    else if a.prerelease != "" && b.prerelease == "" then 1
    else if a.prerelease == "" && b.prerelease != "" then -1
    else
      PartsAreOk(a);
      PartsAreOk(b);
      CompareParts(Parts(a.prerelease), Parts(b.prerelease))
  }

  lemma PartsStep(x: seq<Part>, y: seq<Part>, i: nat)
    requires PartsOk(x) && PartsOk(y) && i < |x| && i < |y|
    ensures CompareParts(x[i..], y[i..]) ==
            if ComparePart(x[i], y[i]) != 0 then ComparePart(x[i], y[i]) else CompareParts(x[i + 1..], y[i + 1..])
  {
    assert x[i..][1..] == x[i + 1..] && y[i..][1..] == y[i + 1..];
  }

  /** The service's comparison: a loop over the longer of the two lists with early returns. */
  method SemverCompare(a: Version, b: Version) returns (r: int)
    requires WellFormed(a) && WellFormed(b)
    ensures r == Compare(a, b)
  {
    if a.major != b.major { return if a.major < b.major then -1 else 1; }
    if a.minor != b.minor { return if a.minor < b.minor then -1 else 1; }
    if a.patch != b.patch { return if a.patch < b.patch then -1 else 1; }
    if a.prerelease != "" && b.prerelease == "" { return 1; }
    if a.prerelease == "" && b.prerelease != "" { return -1; }
    if a.prerelease == "" && b.prerelease == "" { return 0; }
    var alist := SemverParts(a.prerelease);
    var blist := SemverParts(b.prerelease);
    PartsAreOk(a);
    PartsAreOk(b);
    var longest := if |alist| > |blist| then |alist| else |blist|;
    for i := 0 to longest
      invariant i <= |alist| && i <= |blist|
      invariant CompareParts(alist[i..], blist[i..]) == CompareParts(alist, blist)
    {
      if i >= |alist| { return -1; }
      if i >= |blist| { return 1; }
      var x, y := alist[i], blist[i];
      PartsStep(alist, blist, i);
      if x.Numeric? != y.Numeric? { return if y.Numeric? then 1 else -1; }
      if x.Numeric? {
        var av, bv := Value(x.text), Value(y.text);
        if av != bv { return if av < bv then -1 else 1; }
      } else if x.text != y.text {
        return if StrLess(x.text, y.text) then -1 else 1;
      }
    }
    return 0;
  }

  // ---- Numerals without leading zeros are determined by their value ----

  lemma {:induction false} DigitsSnoc(s: string, d: char, acc: nat)
    requires AllDigits(s) && IsDigit(d)
    ensures AllDigits(s + [d])
    ensures Digits(s + [d], acc, false).Some? && Digits(s, acc, false).Some?
    ensures Digits(s + [d], acc, false).value == Digits(s, acc, false).value * 10 + DigitValue(d)
    decreases |s|
  {
    DigitsDefined(s, acc);
    assert AllDigits(s + [d]);
    DigitsDefined(s + [d], acc);
    assert (s + [d])[1..] == s[1..] + [d];
    var next := acc * 10 + DigitValue(s[0]);
    if |s| > 1 {
      DigitsSnoc(s[1..], d, next);
      DigitsDefined(s[1..], next);
      DigitsDefined(s[1..] + [d], next);
    } else {
      assert s[1..] + [d] == [d] && [d][1..] == "" && s[1..] == "";
      assert Digits([d], next, true) == Some(next * 10 + DigitValue(d));
      assert Digits(s, acc, false) == Some(next);
    }
  }

  lemma {:induction false} Canonical(s: string)
    requires AllDigits(s) && Identifier(s)
    ensures s == Dec(Value(s)) && (|s| > 1 ==> Value(s) >= 10)
    decreases |s|
  {
    var n := |s| - 1;
    DigitsDefined(s, 0);
    assert DIGITS[DigitValue(s[n])] == s[n] by { DigitChar(s[n]); }
    if n == 0 {
      assert s[1..] == "";
      assert s == [s[0]];
    } else {
      Canonical(s[..n]);
      CanonicalSnoc(s[..n], s[n]);
      assert s == s[..n] + [s[n]];
    }
  }

  /** One more digit behind a canonical numeral that is not zero. */
  lemma CanonicalSnoc(t: string, d: char)
    requires t != "" && AllDigits(t) && IsDigit(d) && t[0] != '0'
    requires t == Dec(Value(t)) && (|t| > 1 ==> Value(t) >= 10)
    ensures AllDigits(t + [d]) && t + [d] == Dec(Value(t + [d])) && Value(t + [d]) >= 10
  {
    var v, e := Value(t), DigitValue(d);
    LeadingNonZero(t);
    assert AllDigits(t + [d]) && Value(t + [d]) == v * 10 + e by { DigitsSnoc(t, d, 0); }
    assert DIGITS[e] == d by { DigitChar(d); }
    DecSnoc(v, e);
  }

  lemma DecSnoc(v: nat, d: nat)
    requires v >= 1 && d < 10
    ensures Dec(v * 10 + d) == Dec(v) + [DIGITS[d]]
  {
    var n := v * 10 + d;
    assert n >= 10 && n / 10 == v && n % 10 == d;
  }

  lemma DigitChar(c: char)
    requires IsDigit(c)
    ensures DIGITS[DigitValue(c)] == c
  {
  }

  lemma LeadingNonZero(t: string)
    requires AllDigits(t) && t[0] != '0' && (|t| > 1 ==> Value(t) >= 10)
    ensures Value(t) >= 1
  {
    if |t| == 1 {
      DigitsDefined(t, 0);
      assert t[1..] == "";
    }
  }

  lemma PartZero(x: Part, y: Part)
    requires PartOk(x) && PartOk(y)
    ensures ComparePart(x, y) == 0 <==> x == y
  {
    if x.Numeric? && y.Numeric? {
      Canonical(x.text);
      Canonical(y.text);
    }
  }

  lemma {:induction false} PartsZero(x: seq<Part>, y: seq<Part>)
    requires PartsOk(x) && PartsOk(y)
    ensures CompareParts(x, y) == 0 <==> x == y
    decreases |x|
  {
    if x != [] && y != [] {
      PartZero(x[0], y[0]);
      PartsZero(x[1..], y[1..]);
      assert x == [x[0]] + x[1..] && y == [y[0]] + y[1..];
    }
  }

  // ---- Precedence is a total order ----

  lemma PartAntisymmetric(x: Part, y: Part)
    requires PartOk(x) && PartOk(y)
    ensures ComparePart(x, y) == -ComparePart(y, x)
  {
    if x.Alpha? && y.Alpha? {
      StrLessTotal(x.text, y.text);
      if StrLess(x.text, y.text) && StrLess(y.text, x.text) {
        StrLessTransitive(x.text, y.text, x.text);
        StrLessIrreflexive(x.text);
      }
    }
  }

  lemma PartTransitive(x: Part, y: Part, z: Part)
    requires PartOk(x) && PartOk(y) && PartOk(z)
    requires ComparePart(x, y) < 0 && ComparePart(y, z) < 0
    ensures ComparePart(x, z) < 0
  {
    if x.Alpha? && y.Alpha? && z.Alpha? {
      StrLessTransitive(x.text, y.text, z.text);
      StrLessIrreflexive(x.text);
    }
  }

  lemma {:induction false} PartsAntisymmetric(x: seq<Part>, y: seq<Part>)
    requires PartsOk(x) && PartsOk(y)
    ensures CompareParts(x, y) == -CompareParts(y, x)
    decreases |x|
  {
    if x != [] && y != [] {
      PartAntisymmetric(x[0], y[0]);
      PartsAntisymmetric(x[1..], y[1..]);
    }
  }

  lemma {:induction false} PartsTransitive(x: seq<Part>, y: seq<Part>, z: seq<Part>)
    requires PartsOk(x) && PartsOk(y) && PartsOk(z)
    requires CompareParts(x, y) < 0 && CompareParts(y, z) < 0
    ensures CompareParts(x, z) < 0
    decreases |x|
  {
    if x != [] && y != [] && z != [] {
      PartZero(x[0], y[0]);
      PartZero(y[0], z[0]);
      PartZero(x[0], z[0]);
      if x[0] == y[0] && y[0] == z[0] {
        PartsTransitive(x[1..], y[1..], z[1..]);
      } else if x[0] != y[0] && y[0] != z[0] {
        PartTransitive(x[0], y[0], z[0]);
      }
    }
  }

  /** Exactly one of smaller, equal, greater holds, seen alike from both sides. */
  lemma Antisymmetric(a: Version, b: Version)
    requires WellFormed(a) && WellFormed(b)
    ensures Compare(a, b) == -Compare(b, a)
    ensures Compare(a, b) == -1 || Compare(a, b) == 0 || Compare(a, b) == 1
  {
    PartsAreOk(a);
    PartsAreOk(b);
    PartsAntisymmetric(Parts(a.prerelease), Parts(b.prerelease));
    SignOnly(Parts(a.prerelease), Parts(b.prerelease));
  }

  lemma {:induction false} SignOnly(x: seq<Part>, y: seq<Part>)
    requires PartsOk(x) && PartsOk(y)
    ensures CompareParts(x, y) == -1 || CompareParts(x, y) == 0 || CompareParts(x, y) == 1
    decreases |x|
  {
    if x != [] && y != [] { SignOnly(x[1..], y[1..]); }
  }

  lemma {:induction false} JoinSplit(s: string, c: char)
    ensures Join(Split(s, c), c) == s
    decreases |s|
  {
    if s != "" {
      var rest := Split(s[1..], c);
      JoinSplit(s[1..], c);
      if s[0] == c {
        assert ([""] + rest)[1..] == rest;
        assert Join([""] + rest, c) == "" + [c] + Join(rest, c);
      } else {
        var first := [s[0]] + rest[0];
        assert ([first] + rest[1..])[1..] == rest[1..];
        if |rest| == 1 {
          assert Join([first], c) == first;
        } else {
          assert Join([first] + rest[1..], c) == first + [c] + Join(rest[1..], c);
        }
      }
      assert s == [s[0]] + s[1..];
    }
  }

  lemma SplitInjective(s: string, t: string)
    requires AsParts(Split(s, '.')) == AsParts(Split(t, '.'))
    ensures s == t
  {
    var x, y := Split(s, '.'), Split(t, '.');
    assert forall i :: 0 <= i < |x| ==> AsParts(x)[i].text == x[i] && AsParts(y)[i].text == y[i];
    assert x == y;
    JoinSplit(s, '.');
    JoinSplit(t, '.');
  }

  /** Two versions compare as equal exactly when core and prerelease are equal; the build is ignored. */
  lemma EqualMeans(a: Version, b: Version)
    requires WellFormed(a) && WellFormed(b)
    ensures Compare(a, b) == 0 <==>
              a.major == b.major && a.minor == b.minor && a.patch == b.patch && a.prerelease == b.prerelease
  {
    PartsAreOk(a);
    PartsAreOk(b);
    PartsZero(Parts(a.prerelease), Parts(b.prerelease));
    if a.prerelease != "" && b.prerelease != "" && Parts(a.prerelease) == Parts(b.prerelease) {
      SplitInjective(a.prerelease, b.prerelease);
    }
  }

  lemma Transitive(a: Version, b: Version, c: Version)
    requires WellFormed(a) && WellFormed(b) && WellFormed(c)
    requires Compare(a, b) <= 0 && Compare(b, c) <= 0
    ensures Compare(a, c) <= 0
    ensures Compare(a, b) < 0 || Compare(b, c) < 0 ==> Compare(a, c) < 0
  {
    PartsAreOk(a);
    PartsAreOk(b);
    PartsAreOk(c);
    EqualMeans(a, b);
    EqualMeans(b, c);
    EqualMeans(a, c);
    if CompareParts(Parts(a.prerelease), Parts(b.prerelease)) < 0 &&
        CompareParts(Parts(b.prerelease), Parts(c.prerelease)) < 0 {
      PartsTransitive(Parts(a.prerelease), Parts(b.prerelease), Parts(c.prerelease));
    }
  }

  // ---- Caret and tilde ranges ----

  function CaretUpper(l: Version): Version {
    if l.major != 0 then Version(l.major + 1, 0, 0, "", "")
    else if l.minor != 0 then Version(l.major, l.minor + 1, 0, "", "")
    else Version(l.major, l.minor, l.patch + 1, "", "")
  }

  function TildeUpper(l: Version): Version {
    Version(l.major, l.minor + 1, 0, "", "")
  }

  predicate InCaret(v: Version, l: Version)
    requires WellFormed(v) && WellFormed(l)
  {
    Compare(v, l) >= 0 && Compare(v, CaretUpper(l)) < 0
  }

  predicate InTilde(v: Version, l: Version)
    requires WellFormed(v) && WellFormed(l)
  {
    Compare(v, l) >= 0 && Compare(v, TildeUpper(l)) < 0
  }

  /** Everything between two members of a caret or tilde range is a member. */
  lemma RangesConvex(l: Version, a: Version, b: Version, c: Version)
    requires WellFormed(l) && WellFormed(a) && WellFormed(b) && WellFormed(c)
    requires Compare(a, b) <= 0 && Compare(b, c) <= 0
    ensures InCaret(a, l) && InCaret(c, l) ==> InCaret(b, l)
    ensures InTilde(a, l) && InTilde(c, l) ==> InTilde(b, l)
  {
    Between(l, a, b, c, CaretUpper(l));
    Between(l, a, b, c, TildeUpper(l));
  }

  lemma Between(l: Version, a: Version, b: Version, c: Version, u: Version)
    requires WellFormed(l) && WellFormed(a) && WellFormed(b) && WellFormed(c) && WellFormed(u)
    requires Compare(a, b) <= 0 && Compare(b, c) <= 0
    ensures Compare(a, l) >= 0 && Compare(c, u) < 0 ==> Compare(b, l) >= 0 && Compare(b, u) < 0
  {
    if Compare(a, l) >= 0 && Compare(c, u) < 0 {
      Antisymmetric(a, l);
      Antisymmetric(b, l);
      Transitive(l, a, b);
      Transitive(b, c, u);
    }
  }

  /** Equal up to and including the leftmost nonzero component of l, or in all three if none is nonzero. */
  predicate SharesLeading(v: Version, l: Version) {
    v.major == l.major
    && (l.major == 0 ==> v.minor == l.minor)
    && (l.major == 0 && l.minor == 0 ==> v.patch == l.patch)
  }

  predicate SameCore(a: Version, b: Version) {
    a.major == b.major && a.minor == b.minor && a.patch == b.patch
  }

  /** Below a release is what has a smaller core: the service puts prereleases above their release. */
  lemma BelowRelease(v: Version, u: Version)
    requires WellFormed(v) && WellFormed(u) && u.prerelease == ""
    ensures Compare(v, u) < 0 <==> CoreBelow(v, u)
  {
    if v.prerelease == "" { assert CompareParts(Parts(""), Parts("")) == 0; }
  }

  /** A version is in a caret range exactly when it is not below the bound and shares its leading
      components; in particular every release in the range does. */
  lemma CaretMeans(v: Version, l: Version)
    requires WellFormed(v) && WellFormed(l)
    ensures InCaret(v, l) <==> Compare(v, l) >= 0 && SharesLeading(v, l)
  {
    BelowRelease(v, CaretUpper(l));
    assert Compare(v, l) >= 0 ==> !CoreBelow(v, l);
  }

  lemma TildeMeans(v: Version, l: Version)
    requires WellFormed(v) && WellFormed(l)
    ensures InTilde(v, l) <==> Compare(v, l) >= 0 && v.major == l.major && v.minor == l.minor
  {
    BelowRelease(v, TildeUpper(l));
    assert Compare(v, l) >= 0 ==> !CoreBelow(v, l);
  }

  /** Tilde is inside caret above major zero, equal to it for 0.y.z with y > 0, and around it for 0.0.z. */
  lemma TildeAgainstCaret(v: Version, l: Version)
    requires WellFormed(v) && WellFormed(l)
    ensures l.major > 0 && InTilde(v, l) ==> InCaret(v, l)
    ensures l.major == 0 && l.minor > 0 ==> (InTilde(v, l) <==> InCaret(v, l))
    ensures l.major == 0 && l.minor == 0 && InCaret(v, l) ==> InTilde(v, l)
  {
    TildeMeans(v, l);
    CaretMeans(v, l);
  }

  // ---- Whole ranges ----

  datatype Op = Eq | Ne | Lt | Le | Gt | Ge | Caret | Tilde

  /** A comparator: a wildcard, an operator with a version, or a version that does not parse. */
  datatype Comparator = Any | Bound(op: Op, version: Version) | Bad

  /** What an operator says of a version and a bound, in terms of their components. */
  ghost predicate Holds(op: Op, v: Version, l: Version) {
    match op
    case Eq => SameVersion(v, l)
    case Ne => !SameVersion(v, l)
    case Lt => Below(v, l)
    case Le => Below(v, l) || SameVersion(v, l)
    case Gt => Below(l, v)
    case Ge => Below(l, v) || SameVersion(v, l)
    case Caret => !Below(v, l) && SharesLeading(v, l)
    case Tilde => !Below(v, l) && v.major == l.major && v.minor == l.minor
  }

  ghost predicate Comp(v: Version, c: Comparator) {
    match c
    case Any => true
    case Bad => false
    case Bound(op, l) => Holds(op, v, l)
  }

  /** The operators as comparisons, each the complement or union of others. */
  lemma OperatorsCompare(v: Version, l: Version)
    requires WellFormed(v) && WellFormed(l)
    ensures Holds(Eq, v, l) <==> Compare(v, l) == 0
    ensures Holds(Lt, v, l) <==> Compare(v, l) < 0
    ensures Holds(Gt, v, l) <==> Compare(v, l) > 0
    ensures Holds(Le, v, l) <==> !Holds(Gt, v, l)
    ensures Holds(Ge, v, l) <==> !Holds(Lt, v, l)
    ensures Holds(Ne, v, l) <==> !Holds(Eq, v, l)
    ensures Holds(Caret, v, l) <==> InCaret(v, l)
    ensures Holds(Tilde, v, l) <==> InTilde(v, l)
  {
    EqualMeans(v, l);
    BelowExactly(v, l);
    BelowExactly(l, v);
    Antisymmetric(v, l);
    CaretMeans(v, l);
    TildeMeans(v, l);
  }

  type Range = seq<seq<Comparator>>

  predicate RangeOk(r: Range) {
    forall i, j :: 0 <= i < |r| && 0 <= j < |r[i]| && r[i][j].Bound? ==> WellFormed(r[i][j].version)
  }

  ghost predicate AltHolds(v: Version, alt: seq<Comparator>)
  {
    forall j :: 0 <= j < |alt| ==> Comp(v, alt[j])
  }

  /** A comparator that does not parse, reached because all before it hold. */
  ghost predicate BadReached(v: Version, alt: seq<Comparator>)
  {
    exists j :: 0 <= j < |alt| && alt[j].Bad? && forall m :: 0 <= m < j ==> Comp(v, alt[m])
  }

  datatype Answer = Answer(valid: bool, matches: bool)

  /** Alternatives in order, comparators in order; a comparator that does not parse ends the
      search unless an earlier alternative already matched. */
  method Satisfies(v: Version, r: Range) returns (a: Answer)
    requires WellFormed(v) && RangeOk(r) && forall i :: 0 <= i < |r| ==> r[i] != []
    ensures !a.valid <==>
            exists i :: 0 <= i < |r| && BadReached(v, r[i]) && forall k :: 0 <= k < i ==> !AltHolds(v, r[k])
    ensures a.valid ==> (a.matches <==> r == [] || exists i :: 0 <= i < |r| && AltHolds(v, r[i]))
  {
    if r == [] { return Answer(true, true); }
    for i := 0 to |r|
      invariant forall k :: 0 <= k < i ==> !AltHolds(v, r[k]) && !BadReached(v, r[k])
    {
      var ok := true;
      var j := 0;
      while j < |r[i]|
        invariant 0 <= j <= |r[i]|
        invariant ok && forall m :: 0 <= m < j ==> Comp(v, r[i][m])
      {
        if r[i][j].Bad? {
          assert BadReached(v, r[i]);
          return Answer(false, false);
        }
        var matched := CompareWith(v, r[i][j]);
        if !matched {
          ok := false;
          assert !Comp(v, r[i][j]);
          break;
        }
        j := j + 1;
      }
      if ok {
        assert AltHolds(v, r[i]);
        return Answer(true, true);
      }
    }
    return Answer(true, false);
  }

  method CompareWith(v: Version, c: Comparator) returns (matched: bool)
    requires WellFormed(v) && !c.Bad? && (c.Bound? ==> WellFormed(c.version))
    ensures matched <==> Comp(v, c)
  {
    if c.Any? { return true; }
    var l := c.version;
    OperatorsCompare(v, l);
    var cmp := SemverCompare(v, l);
    match c.op
    case Eq => matched := cmp == 0;
    case Ne => matched := cmp != 0;
    case Lt => matched := cmp < 0;
    case Le => matched := cmp <= 0;
    case Gt => matched := cmp > 0;
    case Ge => matched := cmp >= 0;
    case Caret =>
      var high := SemverCompare(v, CaretUpper(l));
      matched := cmp >= 0 && high < 0;
    case Tilde =>
      var high := SemverCompare(v, TildeUpper(l));
      matched := cmp >= 0 && high < 0;
  }

  // ---- Against the standard's own order ----

  predicate IdentifierLess(s: string, t: string) {
    if AllDigits(s) && AllDigits(t) then Value(s) < Value(t)
    else if AllDigits(s) then true
    else if AllDigits(t) then false
    else StrLess(s, t)
  }

  /** x is decided below y at its first difference, or is a proper beginning of y. */
  ghost predicate ListPrecedes(x: seq<string>, y: seq<string>) {
    exists i :: DecidedAt(x, y, i)
  }

  ghost predicate DecidedAt(x: seq<string>, y: seq<string>, i: int) {
    0 <= i <= |x| && i < |y| && x[..i] == y[..i] && (i == |x| || IdentifierLess(x[i], y[i]))
  }

  /** a has the smaller core: major decides, then minor, then patch. */
  predicate CoreBelow(a: Version, b: Version) {
    a.major < b.major
    || (a.major == b.major && (a.minor < b.minor || (a.minor == b.minor && a.patch < b.patch)))
  }

  predicate SameVersion(a: Version, b: Version) { SameCore(a, b) && a.prerelease == b.prerelease }

  /** The service's own order: like the standard's, except that a release is below its prereleases. */
  ghost predicate Below(a: Version, b: Version) {
    CoreBelow(a, b)
    || (SameCore(a, b) && a.prerelease == "" && b.prerelease != "")
    || (SameCore(a, b) && a.prerelease != "" && b.prerelease != ""
        && ListPrecedes(Split(a.prerelease, '.'), Split(b.prerelease, '.')))
  }

  lemma BelowExactly(a: Version, b: Version)
    requires WellFormed(a) && WellFormed(b)
    ensures Compare(a, b) < 0 <==> Below(a, b)
  {
    if SameCore(a, b) && a.prerelease != "" && b.prerelease != "" {
      ListOrder(Split(a.prerelease, '.'), Split(b.prerelease, '.'));
    }
    if SameCore(a, b) && a.prerelease == "" && b.prerelease == "" {
      assert CompareParts(Parts(""), Parts("")) == 0;
    }
  }

  /** a has lower precedence than b (item 11 of Semantic Versioning 2.0.0): cores decide first;
      of two equal cores the prerelease is the lower; two prereleases go by their identifiers. */
  ghost predicate Precedes(a: Version, b: Version) {
    CoreBelow(a, b)
    || (SameCore(a, b) && a.prerelease != "" && b.prerelease == "")
    || (SameCore(a, b) && a.prerelease != "" && b.prerelease != ""
        && ListPrecedes(Split(a.prerelease, '.'), Split(b.prerelease, '.')))
  }

  predicate Identifiers(x: seq<string>) {
    forall i :: 0 <= i < |x| ==> Identifier(x[i])
  }

  lemma PieceOrder(s: string, t: string)
    requires Identifier(s) && Identifier(t)
    ensures ComparePart(AsPart(s), AsPart(t)) < 0 <==> IdentifierLess(s, t)
    ensures ComparePart(AsPart(s), AsPart(t)) == 0 <==> s == t
  {
    PartZero(AsPart(s), AsPart(t));
    if !AllDigits(s) && !AllDigits(t) { StrLessIrreflexive(s); }
  }

  lemma {:induction false} ListOrder(x: seq<string>, y: seq<string>)
    requires Identifiers(x) && Identifiers(y)
    ensures PartsOk(AsParts(x)) && PartsOk(AsParts(y))
    ensures CompareParts(AsParts(x), AsParts(y)) < 0 <==> ListPrecedes(x, y)
    decreases |x|
  {
    if x == [] || y == [] {
      if x == [] && y != [] { assert DecidedAt(x, y, 0); }
    } else {
      PieceOrder(x[0], y[0]);
      ListOrder(x[1..], y[1..]);
      assert AsParts(x)[1..] == AsParts(x[1..]) && AsParts(y)[1..] == AsParts(y[1..]);
      ListPrecedesStep(x, y);
    }
  }

  lemma ListPrecedesHead(x: seq<string>, y: seq<string>)
    requires x != [] && y != [] && ListPrecedes(x, y)
    ensures IdentifierLess(x[0], y[0]) || (x[0] == y[0] && ListPrecedes(x[1..], y[1..]))
  {
    var i :| DecidedAt(x, y, i);
    if i > 0 {
      assert x[0] == x[..i][0] == y[..i][0] == y[0];
      assert x[1..][..i - 1] == x[..i][1..] && y[1..][..i - 1] == y[..i][1..];
      assert DecidedAt(x[1..], y[1..], i - 1);
    }
  }

  lemma DecidedLater(x: seq<string>, y: seq<string>, i: int)
    requires x != [] && y != [] && x[0] == y[0] && DecidedAt(x[1..], y[1..], i)
    ensures DecidedAt(x, y, i + 1)
  {
    assert x[..i + 1] == [x[0]] + x[1..][..i] && y[..i + 1] == [y[0]] + y[1..][..i];
  }

  lemma ListPrecedesStep(x: seq<string>, y: seq<string>)
    requires x != [] && y != [] && Identifiers(x) && Identifiers(y)
    ensures ListPrecedes(x, y) <==> IdentifierLess(x[0], y[0]) || (x[0] == y[0] && ListPrecedes(x[1..], y[1..]))
  {
    if ListPrecedes(x, y) { ListPrecedesHead(x, y); }
    if IdentifierLess(x[0], y[0]) { assert DecidedAt(x, y, 0); }
    if x[0] == y[0] && ListPrecedes(x[1..], y[1..]) {
      var i :| DecidedAt(x[1..], y[1..], i);
      DecidedLater(x, y, i);
    }
  }

  /** The service agrees with the standard on which of two versions is lower exactly when they
      are not a release and a prerelease of the same core. */
  lemma PrecedenceExact(a: Version, b: Version)
    requires WellFormed(a) && WellFormed(b)
    ensures ((Compare(a, b) < 0 <==> Precedes(a, b)) && (Compare(b, a) < 0 <==> Precedes(b, a)))
            <==> !(SameCore(a, b) && (a.prerelease == "") != (b.prerelease == ""))
  {
    if SameCore(a, b) && a.prerelease != "" && b.prerelease != "" {
      ListOrder(Split(a.prerelease, '.'), Split(b.prerelease, '.'));
      ListOrder(Split(b.prerelease, '.'), Split(a.prerelease, '.'));
    }
    if SameCore(a, b) && a.prerelease == "" && b.prerelease == "" {
      assert CompareParts(Parts(""), Parts("")) == 0;
    }
  }

  /** The smallest disagreement: 1.0.0-a is below 1.0.0, and the service puts it above. */
  lemma PrereleaseAbove()
    ensures var a, b := Version(1, 0, 0, "a", ""), Version(1, 0, 0, "", "");
            WellFormed(a) && WellFormed(b) && Precedes(a, b) && Compare(a, b) > 0
  {
    SplitPlain("a", '.');
    assert !IsDigit("a"[0]);
  }
}
