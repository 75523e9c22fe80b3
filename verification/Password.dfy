/** Password generation: required characters first, filler from the joined pool, then an
    in-place shuffle driven by independent random choices. */
module Password {
  import opened Text

  // ---------------------------------------------------------------- shuffle

  /** A choice for each position i, between 0 and i. Position 0 has no choice to make. */
  ghost predicate Choices(c: seq<nat>, n: nat) {
    |c| == n && forall i :: 0 <= i < n ==> c[i] <= i
  }

  function Swapped<T>(s: seq<T>, i: nat, j: nat): (t: seq<T>)
    requires i < |s| && j < |s|
    ensures |t| == |s|
  {
    s[i := s[j]][j := s[i]]
  }

  /** The arrangement that the choices c produce from s, last position first. */
  function Shuffled<T>(s: seq<T>, c: seq<nat>): (r: seq<T>)
    requires |c| == |s| && forall i :: 0 <= i < |c| ==> c[i] <= i
    ensures |r| == |s|
    decreases |s|
  {
    if |s| <= 1 then s
    else
      var n := |s| - 1;
      var t := Swapped(s, n, c[n]);
      Shuffled(t[..n], c[..n]) + [t[n]]
  }

  lemma SwapKeeps<T>(s: seq<T>, i: nat, j: nat)
    requires i < |s| && j < |s|
    ensures multiset(Swapped(s, i, j)) == multiset(s)
  {
  }

  lemma {:induction false} ShuffleKeeps<T>(s: seq<T>, c: seq<nat>)
    requires Choices(c, |s|)
    ensures multiset(Shuffled(s, c)) == multiset(s)
    decreases |s|
  {
    if |s| > 1 {
      var n := |s| - 1;
      var t := Swapped(s, n, c[n]);
      SwapKeeps(s, n, c[n]);
      ShuffleKeeps(t[..n], c[..n]);
      Rejoin(c, n);
      LastChoice(s, n, c[n], c[..n]);
      Rejoin(t, n);
    }
  }

  ghost predicate Distinct<T>(s: seq<T>) {
    forall i, j :: 0 <= i < j < |s| ==> s[i] != s[j]
  }

  lemma SwapDistinct<T>(s: seq<T>, i: nat, j: nat)
    requires i < |s| && j < |s| && Distinct(s)
    ensures Distinct(Swapped(s, i, j))
  {
  }

  /** Different choices give different arrangements. */
  lemma {:induction false} ShuffleOneToOne<T>(s: seq<T>, c: seq<nat>, d: seq<nat>)
    requires Distinct(s) && Choices(c, |s|) && Choices(d, |s|)
    requires Shuffled(s, c) == Shuffled(s, d)
    ensures c == d
    decreases |s|
  {
    if |s| > 1 {
      var n := |s| - 1;
      var t := Swapped(s, n, c[n]);
      SettledFirst(s, c);
      SettledFirst(s, d);
      assert c[n] == d[n];
      SwapDistinct(s, n, c[n]);
      ShuffleOneToOne(t[..n], c[..n], d[..n]);
      Rejoin(c, n);
      Rejoin(d, n);
    }
  }

  /** The last choice settles the last element; the others arrange what is before it. */
  lemma SettledFirst<T>(s: seq<T>, c: seq<nat>)
    requires Choices(c, |s|) && |s| > 1
    ensures var n := |s| - 1;
            Shuffled(s, c)[n] == s[c[n]] && Shuffled(s, c)[..n] == Shuffled(Swapped(s, n, c[n])[..n], c[..n])
  {
    var n := |s| - 1;
    Rejoin(c, n);
    LastChoice(s, n, c[n], c[..n]);
    SwappedLast(s, n, c[n]);
    Appended(Shuffled(Swapped(s, n, c[n])[..n], c[..n]), s[c[n]]);
  }

  lemma Appended<T>(s: seq<T>, x: T)
    ensures (s + [x])[|s|] == x && (s + [x])[..|s|] == s
  {
  }

  /** Every arrangement comes from some choices. */
  lemma {:induction false} ShuffleOnto<T>(s: seq<T>, p: seq<T>) returns (c: seq<nat>)
    requires multiset(p) == multiset(s)
    ensures Choices(c, |s|) && Shuffled(s, c) == p
    decreases |s|
  {
    assert |multiset(p)| == |multiset(s)|;
    if |s| == 0 {
      c := [];
    } else if |s| == 1 {
      c := [0];
      assert s == [s[0]] && p == [p[0]];
      assert p[0] in multiset(p);
    } else {
      var n := |s| - 1;
      assert p[n] in multiset(p);
      var j := IndexOf(s, p[n]);
      SwapKeeps(s, n, j);
      WithoutLast(Swapped(s, n, j), p, n);
      var rest := ShuffleOnto(Swapped(s, n, j)[..n], p[..n]);
      c := rest + [j];
      OntoStep(s, p, n, j, rest);
    }
  }

  lemma OntoStep<T>(s: seq<T>, p: seq<T>, n: nat, j: nat, rest: seq<nat>)
    requires |s| == |p| == n + 1 && n > 0 && j <= n && s[j] == p[n]
    requires Choices(rest, n) && Shuffled(Swapped(s, n, j)[..n], rest) == p[..n]
    ensures Choices(rest + [j], n + 1) && Shuffled(s, rest + [j]) == p
  {
    LastChoice(s, n, j, rest);
    SwappedLast(s, n, j);
    Rejoin(p, n);
  }

  lemma SwappedLast<T>(s: seq<T>, n: nat, j: nat)
    requires |s| == n + 1 && j <= n
    ensures Swapped(s, n, j)[n] == s[j]
  {
  }

  lemma Rejoin<T>(p: seq<T>, n: nat)
    requires |p| == n + 1
    ensures p[..n] + [p[n]] == p
  {
  }

  lemma LastChoice<T>(s: seq<T>, n: nat, j: nat, rest: seq<nat>)
    requires |s| == n + 1 && n > 0 && j <= n && Choices(rest, n)
    ensures Choices(rest + [j], n + 1)
    ensures Shuffled(s, rest + [j]) == Shuffled(Swapped(s, n, j)[..n], rest) + [Swapped(s, n, j)[n]]
  {
    var c := rest + [j];
    assert c[..n] == rest && c[n] == j;
  }

  lemma IndexOf<T>(s: seq<T>, x: T) returns (j: nat)
    requires x in multiset(s)
    ensures j < |s| && s[j] == x
  {
    assert x in s;
    j :| 0 <= j < |s| && s[j] == x;
  }

  lemma WithoutLast<T>(t: seq<T>, p: seq<T>, n: nat)
    requires |t| == |p| == n + 1 && t[n] == p[n] && multiset(t) == multiset(p)
    ensures multiset(t[..n]) == multiset(p[..n])
  {
    assert t == t[..n] + [t[n]] && p == p[..n] + [p[n]];
    assert multiset(t[..n]) == multiset(t) - multiset{t[n]};
    assert multiset(p[..n]) == multiset(p) - multiset{p[n]};
  }

  /** The loop of the service: positions from the last down to the second are swapped with the
      position drawn for them. */
  method ShuffleInPlace(chars: array<char>, draws: seq<nat>)
    requires Choices(draws, chars.Length)
    modifies chars
    ensures chars[..] == Shuffled(old(chars[..]), draws)
  {
    ghost var start := chars[..];
    var n := chars.Length;
    if n == 0 {
      return;
    }
    var i := n - 1;
    NothingSettled(start, draws);
    while i > 0
      invariant 0 <= i < n
      invariant Shuffled(start, draws) == Partly(chars[..], draws, i)
    {
      var j := draws[i];
      ghost var before := chars[..];
      chars[i], chars[j] := chars[j], chars[i];
      ShuffleStep(before, chars[..], draws, i);
      i := i - 1;
    }
    AllSettled(chars[..], draws);
  }

  lemma NothingSettled(s: seq<char>, draws: seq<nat>)
    requires Choices(draws, |s|) && s != []
    ensures Partly(s, draws, |s| - 1) == Shuffled(s, draws)
  {
    assert s[..|s|] == s && draws[..|s|] == draws && s[|s|..] == [];
  }

  lemma AllSettled(s: seq<char>, draws: seq<nat>)
    requires Choices(draws, |s|) && s != []
    ensures Partly(s, draws, 0) == s
  {
    assert s == s[..1] + s[1..];
  }

  /** What is still to be shuffled, then what is settled. */
  function Partly(now: seq<char>, draws: seq<nat>, i: nat): seq<char>
    requires |draws| == |now| && i < |now| && forall k :: 0 <= k < |draws| ==> draws[k] <= k
  {
    Shuffled(now[..i + 1], draws[..i + 1]) + now[i + 1..]
  }

  lemma ShuffleStep(before: seq<char>, after: seq<char>, draws: seq<nat>, i: nat)
    requires Choices(draws, |before|) && 0 < i < |before|
    requires after == Swapped(before, i, draws[i])
    ensures Partly(before, draws, i) == Partly(after, draws, i - 1)
  {
    var whole := before[..i + 1];
    assert Swapped(whole, i, draws[i]) == after[..i + 1];
    assert after[..i + 1][..i] == after[..i] && draws[..i + 1][..i] == draws[..i];
    assert after[i..] == [after[i]] + after[i + 1..];
    assert after[i + 1..] == before[i + 1..];
  }

  /** Independent draws, one per position, each not above its position. */
  method Draw(n: nat) returns (draws: seq<nat>)
    ensures Choices(draws, n)
  {
    draws := [];
    for i := 0 to n
      invariant Choices(draws, i)
    {
      var j :| 0 <= j <= i;
      draws := draws + [j];
    }
  }

  // -------------------------------------------------------------- generation

  const UPPER: set<char> := set c: char | 'A' <= c <= 'Z'
  const LOWER: set<char> := set c: char | 'a' <= c <= 'z'
  const DIGIT: set<char> := set c: char | '0' <= c <= '9'
  const SPECIALS: set<char> := {'!', '@', '#', '$', '%', '^', '&', '*', '(', ')'}
  const MIN_LENGTH: int := 4
  const MAX_LENGTH: int := 256

  datatype Request = Request(length: int, excludeNumbers: bool, excludeSpecials: bool,
                             minUpper: int, minLower: int, minNumbers: int, minSpecials: int)

  datatype PasswordError = LengthOutOfRange | TooShortForMix | RequiredExcluded | CategoryViolated

  /** A bucket of characters and how many of them are required. */
  datatype Need = Need(bucket: set<char>, count: int)

  function Wanted(on: bool, bucket: set<char>, count: int): seq<Need> {
    if on && count > 0 then [Need(bucket, count)] else []
  }

  function Needs(r: Request): seq<Need> {
    Wanted(true, UPPER, r.minUpper) + Wanted(true, LOWER, r.minLower)
    + Wanted(!r.excludeNumbers, DIGIT, r.minNumbers) + Wanted(!r.excludeSpecials, SPECIALS, r.minSpecials)
  }

  function Total(needs: seq<Need>): int {
    if needs == [] then 0 else needs[0].count + Total(needs[1..])
  }

  function Pool(needs: seq<Need>): set<char> {
    if needs == [] then {} else needs[0].bucket + Pool(needs[1..])
  }

  /** With nothing required, everything comes from letters and digits. */
  function Effective(r: Request): seq<Need> {
    if Needs(r) == [] then [Need(UPPER + LOWER + DIGIT, r.length)] else Needs(r)
  }

  /** How many characters of m lie in the bucket. */
  ghost function Count(m: multiset<char>, bucket: set<char>): nat
    decreases bucket
  {
    if bucket == {} then 0 else
      var c :| c in bucket;
      m[c] + Count(m, bucket - {c})
  }

  lemma {:induction false} CountSum(m: multiset<char>, n: multiset<char>, bucket: set<char>)
    ensures Count(m + n, bucket) == Count(m, bucket) + Count(n, bucket)
    decreases bucket
  {
    if bucket != {} {
      var c :| c in bucket && Count(m + n, bucket) == (m + n)[c] + Count(m + n, bucket - {c})
               && Count(m, bucket) == m[c] + Count(m, bucket - {c})
               && Count(n, bucket) == n[c] + Count(n, bucket - {c});
      CountSum(m, n, bucket - {c});
    }
  }

  lemma {:induction false} CountOne(x: char, bucket: set<char>)
    ensures Count(multiset{x}, bucket) == if x in bucket then 1 else 0
    decreases bucket
  {
    if bucket != {} {
      var c :| c in bucket && Count(multiset{x}, bucket) == multiset{x}[c] + Count(multiset{x}, bucket - {c});
      CountOne(x, bucket - {c});
    }
  }

  ghost predicate Met(m: multiset<char>, needs: seq<Need>) {
    forall k :: 0 <= k < |needs| ==> Count(m, needs[k].bucket) >= needs[k].count
  }

  lemma {:induction false} CountGrows(s: seq<char>, t: seq<char>, bucket: set<char>)
    ensures Count(multiset(s + t), bucket) >= Count(multiset(s), bucket)
  {
    assert multiset(s + t) == multiset(s) + multiset(t);
    CountSum(multiset(s), multiset(t), bucket);
  }

  method AppendFrom(chars: seq<char>, bucket: set<char>, count: nat) returns (r: seq<char>)
    requires bucket != {}
    ensures |r| == |chars| + count && chars <= r
    ensures forall c :: c in r ==> c in chars || c in bucket
    ensures Count(multiset(r), bucket) >= Count(multiset(chars), bucket) + count
  {
    r := chars;
    for i := 0 to count
      invariant |r| == |chars| + i && chars <= r
      invariant forall c :: c in r ==> c in chars || c in bucket
      invariant Count(multiset(r), bucket) >= Count(multiset(chars), bucket) + i
    {
      var c :| c in bucket;
      assert multiset(r + [c]) == multiset(r) + multiset{c};
      CountSum(multiset(r), multiset{c}, bucket);
      CountOne(c, bucket);
      r := r + [c];
    }
  }

  predicate Usable(needs: seq<Need>) {
    forall k :: 0 <= k < |needs| ==> needs[k].bucket != {} && needs[k].count >= 0
  }

  method Required(needs: seq<Need>) returns (chars: seq<char>)
    requires Usable(needs)
    ensures |chars| == Total(needs) && Met(multiset(chars), needs)
    ensures forall c :: c in chars ==> c in Pool(needs)
  {
    chars := [];
    var k := 0;
    TotalNonNegative(needs);
    while k < |needs|
      invariant 0 <= k <= |needs|
      invariant |chars| + Total(needs[k..]) == Total(needs)
      invariant Met(multiset(chars), needs[..k])
      invariant forall c :: c in chars ==> c in Pool(needs)
    {
      BucketInPool(needs, k);
      ghost var before := chars;
      chars := AppendFrom(chars, needs[k].bucket, needs[k].count);
      assert needs[k..][1..] == needs[k + 1..];
      var next := needs[..k + 1];
      forall m | 0 <= m < |next| ensures Count(multiset(chars), next[m].bucket) >= next[m].count {
        if m < k {
          assert needs[..k][m] == next[m];
          assert chars == before + chars[|before|..];
          CountGrows(before, chars[|before|..], needs[m].bucket);
        }
      }
      k := k + 1;
    }
    assert needs[..k] == needs && needs[k..] == [];
  }

  lemma {:induction false} TotalNonNegative(needs: seq<Need>)
    requires Usable(needs)
    ensures Total(needs) >= 0
  {
    if needs != [] { TotalNonNegative(needs[1..]); }
  }

  lemma {:induction false} BucketInPool(needs: seq<Need>, k: nat)
    requires k < |needs|
    ensures needs[k].bucket <= Pool(needs)
  {
    if k > 0 { BucketInPool(needs[1..], k - 1); }
  }

  lemma EffectiveUsable(r: Request)
    requires r.length >= 0
    ensures Usable(Effective(r)) && Effective(r) != []
  {
    assert 'A' in UPPER && 'a' in LOWER && '0' in DIGIT && '!' in SPECIALS;
  }

  lemma EffectiveTotal(r: Request)
    requires r.length >= 0
    ensures Total(Effective(r)) > r.length <==> Total(Needs(r)) > r.length
  {
    if Needs(r) == [] { assert Effective(r)[1..] == []; }
  }

  /** The positive minimums of the categories that are not excluded, together. */
  function Minimum(r: Request): int {
    (if r.minUpper > 0 then r.minUpper else 0) + (if r.minLower > 0 then r.minLower else 0)
    + (if !r.excludeNumbers && r.minNumbers > 0 then r.minNumbers else 0)
    + (if !r.excludeSpecials && r.minSpecials > 0 then r.minSpecials else 0)
  }

  /** How many characters of s lie in the bucket, position by position. */
  function Occurrences(s: string, bucket: set<char>): nat {
    if s == "" then 0 else (if s[0] in bucket then 1 else 0) + Occurrences(s[1..], bucket)
  }

  lemma {:induction false} OccurrencesCounted(s: string, bucket: set<char>)
    ensures Occurrences(s, bucket) == Count(multiset(s), bucket)
  {
    if s == "" {
      NoneCounted(s, bucket);
    } else {
      OccurrencesCounted(s[1..], bucket);
      assert s == [s[0]] + s[1..];
      assert multiset(s) == multiset{s[0]} + multiset(s[1..]);
      CountSum(multiset{s[0]}, multiset(s[1..]), bucket);
      CountOne(s[0], bucket);
    }
  }

  lemma NeedsMinimum(r: Request)
    ensures Total(Needs(r)) == Minimum(r)
  {
    var a, b := Wanted(true, UPPER, r.minUpper), Wanted(true, LOWER, r.minLower);
    var c, d := Wanted(!r.excludeNumbers, DIGIT, r.minNumbers), Wanted(!r.excludeSpecials, SPECIALS, r.minSpecials);
    TotalConcat(a, b);
    TotalConcat(a + b, c);
    TotalConcat(a + b + c, d);
    WantedTotal(true, UPPER, r.minUpper);
    WantedTotal(true, LOWER, r.minLower);
    WantedTotal(!r.excludeNumbers, DIGIT, r.minNumbers);
    WantedTotal(!r.excludeSpecials, SPECIALS, r.minSpecials);
  }

  /** A category that is wanted is among the needs with its own minimum. */
  lemma WantedMet(m: multiset<char>, needs: seq<Need>, on: bool, bucket: set<char>, count: int)
    requires Met(m, needs) && forall w :: w in Wanted(on, bucket, count) ==> w in needs
    ensures on ==> Count(m, bucket) >= count
  {
    if on && count > 0 {
      var w := Need(bucket, count);
      assert Wanted(on, bucket, count)[0] == w;
      assert w in needs;
      var k :| 0 <= k < |needs| && needs[k] == w;
      assert Count(m, needs[k].bucket) >= needs[k].count;
    }
  }

  /** Every category that is not excluded occurs as often as the request says. */
  predicate MinimumsMet(r: Request, password: string) {
    && Occurrences(password, UPPER) >= r.minUpper
    && Occurrences(password, LOWER) >= r.minLower
    && (!r.excludeNumbers ==> Occurrences(password, DIGIT) >= r.minNumbers)
    && (!r.excludeSpecials ==> Occurrences(password, SPECIALS) >= r.minSpecials)
  }

  lemma EachMinimum(r: Request, password: string)
    requires Met(multiset(password), Effective(r))
    ensures MinimumsMet(r, password)
  {
    OccurrencesCounted(password, UPPER);
    OccurrencesCounted(password, LOWER);
    OccurrencesCounted(password, DIGIT);
    OccurrencesCounted(password, SPECIALS);
    Excluded(r);
    if Needs(r) != [] {
      var m := multiset(password);
      WantedMet(m, Needs(r), true, UPPER, r.minUpper);
      WantedMet(m, Needs(r), true, LOWER, r.minLower);
      WantedMet(m, Needs(r), !r.excludeNumbers, DIGIT, r.minNumbers);
      WantedMet(m, Needs(r), !r.excludeSpecials, SPECIALS, r.minSpecials);
    }
  }

  /** A password has the requested length, only characters of the wanted buckets, and at least
      the required number from each. It is refused exactly when the length is out of range or
      too short for the mix; the closing self-check never fails. */
  method GeneratePassword(r: Request) returns (p: Result<string, PasswordError>)
    ensures p.Failure? <==> !(4 <= r.length <= 256) || Minimum(r) > r.length
    ensures p.Failure? ==> p.error == if !(4 <= r.length <= 256) then LengthOutOfRange else TooShortForMix
    ensures p.Success? ==>
              && |p.value| == r.length
              && MinimumsMet(r, p.value)
              && Met(multiset(p.value), Effective(r))
              && (forall c :: c in p.value ==> c in Pool(Effective(r)))
              && (r.excludeSpecials ==> forall c :: c in p.value ==> c !in SPECIALS)
              && (r.excludeNumbers && Needs(r) != [] ==> forall c :: c in p.value ==> c !in DIGIT)
  {
    if !(MIN_LENGTH <= r.length <= MAX_LENGTH) { return Failure(LengthOutOfRange); }
    var needs := Effective(r);
    EffectiveUsable(r);
    EffectiveTotal(r);
    Excluded(r);
    NeedsMinimum(r);
    if Total(needs) > r.length { return Failure(TooShortForMix); }
    var drawn := Required(needs);
    ghost var required := drawn;
    BucketInPool(needs, 0);
    drawn := AppendFrom(drawn, Pool(needs), r.length - |drawn|);
    var password := Arrange(drawn);
    Arranged(required, drawn, password, needs);
    var ok := SelfCheck(password, needs);
    if !ok { return Failure(CategoryViolated); }
    EachMinimum(r, password);
    return Success(password);
  }

  /** The closing shuffle, in a fresh array. */
  method Arrange(drawn: string) returns (password: string)
    ensures multiset(password) == multiset(drawn) && |password| == |drawn|
  {
    var chars := new char[|drawn|](i requires 0 <= i < |drawn| => drawn[i]);
    assert chars[..] == drawn;
    var draws := Draw(chars.Length);
    ShuffleInPlace(chars, draws);
    ShuffleKeeps(drawn, draws);
    password := chars[..];
  }

  predicate Apart(a: set<char>, b: set<char>) { forall c :: c in a ==> c !in b }

  lemma {:induction false} PoolConcat(x: seq<Need>, y: seq<Need>)
    ensures Pool(x + y) == Pool(x) + Pool(y)
  {
    if x == [] {
      assert x + y == y;
    } else {
      assert (x + y)[1..] == x[1..] + y;
      PoolConcat(x[1..], y);
    }
  }

  lemma WantedPool(on: bool, bucket: set<char>, count: int)
    ensures Pool(Wanted(on, bucket, count)) == if on && count > 0 then bucket else {}
  {
    var w := Wanted(on, bucket, count);
    if w != [] { assert w[1..] == []; }
  }

  /** The pool of what is needed holds exactly the categories that are wanted. */
  lemma NeedsPool(r: Request)
    ensures Pool(Needs(r)) == Pool(Wanted(true, UPPER, r.minUpper)) + Pool(Wanted(true, LOWER, r.minLower))
                              + Pool(Wanted(!r.excludeNumbers, DIGIT, r.minNumbers))
                              + Pool(Wanted(!r.excludeSpecials, SPECIALS, r.minSpecials))
  {
    var a, b := Wanted(true, UPPER, r.minUpper), Wanted(true, LOWER, r.minLower);
    var c, d := Wanted(!r.excludeNumbers, DIGIT, r.minNumbers), Wanted(!r.excludeSpecials, SPECIALS, r.minSpecials);
    PoolConcat(a, b);
    PoolConcat(a + b, c);
    PoolConcat(a + b + c, d);
  }

  /** Special characters are kept out whenever they are excluded; digits are if and only if some
      category is still required, because the fallback pool holds digits whatever is excluded. */
  lemma Excluded(r: Request)
    ensures r.excludeSpecials ==> Apart(SPECIALS, Pool(Effective(r)))
    ensures r.excludeNumbers ==> (Apart(DIGIT, Pool(Effective(r))) <==> Needs(r) != [])
    ensures Needs(r) != [] <==> r.minUpper > 0 || r.minLower > 0 || (!r.excludeNumbers && r.minNumbers > 0)
                                || (!r.excludeSpecials && r.minSpecials > 0)
  {
    if Needs(r) == [] {
      assert Effective(r)[1..] == [];
      assert Pool(Effective(r)) == UPPER + LOWER + DIGIT;
      assert '0' in DIGIT;
    } else {
      NeedsPool(r);
      WantedPool(true, UPPER, r.minUpper);
      WantedPool(true, LOWER, r.minLower);
      WantedPool(!r.excludeNumbers, DIGIT, r.minNumbers);
      WantedPool(!r.excludeSpecials, SPECIALS, r.minSpecials);
    }
  }

  /** An accepted request that excludes digits, requires nothing, and can get digits. */
  lemma ExcludedDigits(r: Request)
    requires r == Request(12, true, false, 0, 0, 0, 0)
    ensures FromSchema(r) && Valid(r) && DIGIT <= Pool(Effective(r))
  {
    assert Effective(r)[1..] == [];
  }

  /** Filling up and rearranging keeps the requirements met and the characters in the pool. */
  lemma Arranged(required: string, drawn: string, password: string, needs: seq<Need>)
    requires Met(multiset(required), needs) && required <= drawn && multiset(password) == multiset(drawn)
    requires forall c :: c in drawn ==> c in Pool(needs)
    ensures Met(multiset(password), needs) && forall c :: c in password ==> c in Pool(needs)
  {
    forall c | c in password ensures c in Pool(needs) {
      assert c in multiset(password);
      assert c in drawn;
    }
    forall k | 0 <= k < |needs| ensures Count(multiset(password), needs[k].bucket) >= needs[k].count {
      assert drawn == required + drawn[|required|..];
      CountGrows(required, drawn[|required|..], needs[k].bucket);
    }
  }

  /** The closing check: some character of every required bucket is there. */
  method SelfCheck(password: string, needs: seq<Need>) returns (ok: bool)
    ensures ok <==> forall k :: 0 <= k < |needs| && needs[k].count > 0 ==>
                      exists c :: c in password && c in needs[k].bucket
    ensures Met(multiset(password), needs) ==> ok
  {
    for k := 0 to |needs|
      invariant forall l :: 0 <= l < k && needs[l].count > 0 ==> exists c :: c in password && c in needs[l].bucket
    {
      if needs[k].count > 0 && !(exists c | c in password :: c in needs[k].bucket) {
        NoneCounted(password, needs[k].bucket);
        return false;
      }
    }
    return true;
  }

  lemma {:induction false} NoneCounted(s: seq<char>, bucket: set<char>)
    requires forall c :: c in s ==> c !in bucket
    ensures Count(multiset(s), bucket) == 0
    decreases bucket
  {
    if bucket != {} {
      var c :| c in bucket && Count(multiset(s), bucket) == multiset(s)[c] + Count(multiset(s), bucket - {c});
      NoneCounted(s, bucket - {c});
      assert c !in multiset(s);
    }
  }

  /** The service-level check of a request. */
  method ValidateRequest(r: Request) returns (err: Option<PasswordError>)
    ensures err.None? <==> Valid(r)
  {
    if r.length < MIN_LENGTH || r.length > MAX_LENGTH { return Some(LengthOutOfRange); }
    if r.excludeNumbers && r.excludeSpecials && r.minNumbers + r.minSpecials > 0 { return Some(RequiredExcluded); }
    var required := r.minUpper + r.minLower;
    if !r.excludeNumbers { required := required + r.minNumbers; }
    if !r.excludeSpecials { required := required + r.minSpecials; }
    if required > r.length { return Some(TooShortForMix); }
    return None;
  }

  predicate Valid(r: Request) {
    && MIN_LENGTH <= r.length <= MAX_LENGTH
    && !(r.excludeNumbers && r.excludeSpecials && r.minNumbers + r.minSpecials > 0)
    && r.minUpper + r.minLower + (if r.excludeNumbers then 0 else r.minNumbers)
       + (if r.excludeSpecials then 0 else r.minSpecials) <= r.length
  }

  /** The bounds the request schema puts on each minimum. */
  predicate FromSchema(r: Request) {
    0 <= r.minUpper <= 8 && 0 <= r.minLower <= 8 && 0 <= r.minNumbers <= 8 && 0 <= r.minSpecials <= 8
  }

  lemma {:induction false} TotalConcat(x: seq<Need>, y: seq<Need>)
    ensures Total(x + y) == Total(x) + Total(y)
  {
    if x == [] {
      assert x + y == y;
    } else {
      assert (x + y)[1..] == x[1..] + y;
      TotalConcat(x[1..], y);
    }
  }

  /** A request that passes the check is never refused by generation. */
  lemma ValidNeverRefused(r: Request)
    requires FromSchema(r) && Valid(r)
    ensures 4 <= r.length <= 256 && Minimum(r) <= r.length
  {
    NeedsMinimum(r);
  }

  lemma WantedTotal(on: bool, bucket: set<char>, count: int)
    ensures Total(Wanted(on, bucket, count)) == if on && count > 0 then count else 0
  {
    var w := Wanted(on, bucket, count);
    if w != [] { assert w[1..] == []; }
  }
}
