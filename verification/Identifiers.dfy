/** ULIDs as base-32 text, with their validator; shifts and masks are written as arithmetic. */
module Identifiers {
  import opened Text
  import opened Calendar

  const ALPHABET: string := "0123456789ABCDEFGHJKMNPQRSTVWXYZ"

  /** Python's `value >> shift` on a value that is not negative: halved `shift` times. */
  function ShiftRight(value: nat, shift: nat): nat {
    if shift == 0 then value else ShiftRight(value, shift - 1) / 2
  }

  // ---- The alphabet ----

  /** The ranges of the validator's pattern. */
  predicate Allowed(c: char) {
    IsDigit(c) || 'A' <= c <= 'H' || 'J' <= c <= 'K' || 'M' <= c <= 'N' || 'P' <= c <= 'T' || 'V' <= c <= 'Z'
  }

  /** The place of an allowed character among the allowed ones. */
  function Worth(c: char): (d: nat)
    requires Allowed(c)
    ensures d < 32
  {
    if c <= '9' then c as int - 48 else if c <= 'H' then c as int - 55 else if c <= 'K' then c as int - 56
    else if c <= 'N' then c as int - 57 else if c <= 'T' then c as int - 58 else c as int - 59
  }

  function Symbol(d: nat): (c: char)
    requires d < 32
    ensures Allowed(c) && Worth(c) == d
  {
    if d < 10 then (d + 48) as char else if d < 18 then (d + 55) as char else if d < 20 then (d + 56) as char
    else if d < 22 then (d + 57) as char else if d < 27 then (d + 58) as char else (d + 59) as char
  }

  lemma SymbolOrder(a: char, b: char)
    requires Allowed(a) && Allowed(b)
    ensures Worth(a) < Worth(b) <==> a < b
  {
  }

  /** The alphabet lists exactly the characters the pattern allows, in ascending order. */
  lemma AlphabetIs(d: nat)
    requires d < 32
    ensures |ALPHABET| == 32 && ALPHABET[d] == Symbol(d)
  {
  }

  /** `ALPHABET.index(c)`. */
  method IndexOf(c: char) returns (k: nat)
    requires Allowed(c)
    ensures k == Worth(c)
  {
    AlphabetIs(0);
    k := 0;
    while ALPHABET[k] != c
      invariant k <= Worth(c)
      decreases 32 - k
    {
      AlphabetIs(k);
      AlphabetIs(Worth(c));
      k := k + 1;
    }
    AlphabetIs(k);
  }

  // ---- Text of a number ----

  /** The last n base-32 digits of value, the highest first. */
  function Encode(value: nat, n: nat): (s: string)
    ensures |s| == n
    ensures forall i :: 0 <= i < n ==> Allowed(s[i])
  {
    if n == 0 then "" else Encode(value / 32, n - 1) + [Symbol(value % 32)]
  }

  predicate Spelled(s: string) { forall i :: 0 <= i < |s| ==> Allowed(s[i]) }

  function Decode(s: string): nat
    requires Spelled(s)
  {
    if s == "" then 0 else 32 * Decode(s[..|s| - 1]) + Worth(s[|s| - 1])
  }

  function Pow32(n: nat): (p: nat)
    ensures p >= 1
  {
    if n == 0 then 1 else 32 * Pow32(n - 1)
  }

  lemma {:induction false} DecodeBound(s: string)
    requires Spelled(s)
    ensures Decode(s) < Pow32(|s|)
    decreases |s|
  {
    if s != "" { DecodeBound(s[..|s| - 1]); }
  }

  lemma {:induction false} DecodeEncode(value: nat, n: nat)
    requires value < Pow32(n)
    ensures Decode(Encode(value, n)) == value
    decreases n
  {
    if n > 0 {
      DecodeEncode(value / 32, n - 1);
      var s := Encode(value, n);
      assert s[..n - 1] == Encode(value / 32, n - 1);
    }
  }

  lemma LastDigit(d: nat, w: nat)
    requires w < 32
    ensures (32 * d + w) / 32 == d && (32 * d + w) % 32 == w
  {
  }

  lemma {:induction false} EncodeDecode(s: string)
    requires Spelled(s)
    ensures Encode(Decode(s), |s|) == s
    decreases |s|
  {
    if s != "" {
      var init, last := s[..|s| - 1], s[|s| - 1];
      EncodeDecode(init);
      LastDigit(Decode(init), Worth(last));
      assert s == init + [last];
    }
  }

  /** Spelled strings of one length are ordered as their numbers are. */
  lemma {:induction false} TextOrder(s: string, t: string)
    requires Spelled(s) && Spelled(t) && |s| == |t|
    ensures StrLess(s, t) <==> Decode(s) < Decode(t)
    decreases |s|
  {
    if s != "" {
      var s', t' := s[..|s| - 1], t[..|t| - 1];
      var a, b := s[|s| - 1], t[|t| - 1];
      assert s == s' + [a] && t == t' + [b];
      TextOrder(s', t');
      TextOrder(t', s');
      StrLessTotal(s', t');
      SymbolOrder(a, b);
      if s' == t' {
        LessLast(s', a, b);
      } else if StrLess(s', t') {
        LessPrefix(s', a, t', b);
      } else {
        LessPrefix(t', b, s', a);
        LessNotBoth(t, s);
      }
    }
  }

  lemma {:induction false} LessLast(p: string, a: char, b: char)
    ensures StrLess(p + [a], p + [b]) <==> a < b
    decreases |p|
  {
    if p != "" {
      assert (p + [a])[1..] == p[1..] + [a] && (p + [b])[1..] == p[1..] + [b];
      LessLast(p[1..], a, b);
    }
  }

  lemma {:induction false} LessPrefix(s: string, a: char, t: string, b: char)
    requires |s| == |t| && StrLess(s, t)
    ensures StrLess(s + [a], t + [b])
    decreases |s|
  {
    assert (s + [a])[1..] == s[1..] + [a] && (t + [b])[1..] == t[1..] + [b];
    if s[0] == t[0] { LessPrefix(s[1..], a, t[1..], b); }
  }

  lemma LessNotBoth(s: string, t: string)
    requires StrLess(s, t)
    ensures !StrLess(t, s)
  {
    if StrLess(t, s) {
      StrLessTransitive(s, t, s);
      StrLessIrreflexive(s);
    }
  }

  // ---- ULIDs ----

  const MS_LIMIT: nat := 0x1_0000_0000_0000
  const RANDOM_LIMIT: nat := 0x1_0000_0000_0000_0000_0000

  /** The 128-bit number of a ULID: the milliseconds above 80 random bits. */
  function Packed(ms: nat, random: nat): nat { ms * RANDOM_LIMIT + random }

  lemma Shifted(value: nat, k: nat)
    ensures ShiftRight(value, k) / 32 == ShiftRight(value, k + 5)
  {
    assert ShiftRight(value, k) / 4 == ShiftRight(value, k + 2);
    assert ShiftRight(value, k + 2) / 4 == ShiftRight(value, k + 4);
  }

  lemma Quotient(x: nat, d: nat, b: nat, low: nat)
    requires d > 0 && x == d * b + low && low < d
    ensures x / d == b
  {
    var c := x / d;
    assert d * (c - b) == low - x % d;
    if c < b { Scaled(d, b - c); }
    if c > b { Scaled(d, c - b); }
  }

  lemma Scaled(d: nat, k: nat)
    requires k >= 1
    ensures d * k >= d
  {
  }

  /** The text holds the number's digits, five bits each, from the top. */
  method UlidGenerate(ms: nat, random: nat) returns (ulid: string)
    requires random < RANDOM_LIMIT
    ensures ulid == Encode(Packed(ms, random), 26)
  {
    AlphabetIs(0);
    var value := Packed(ms, random);
    var shift := 125;
    ulid := "";
    while shift > -1
      invariant -5 <= shift <= 125 && shift % 5 == 0
      invariant ulid == Encode(ShiftRight(value, shift + 5), 25 - shift / 5)
    {
      Shifted(value, shift);
      AlphabetIs(ShiftRight(value, shift) % 32);
      ulid := ulid + [ALPHABET[ShiftRight(value, shift) % 32]];
      shift := shift - 5;
    }
    assert ShiftRight(value, 0) == value;
  }

  // ---- The validator ----

  /** The first millisecond of the year 10000, which the calendar library cannot show. */
  const CALENDAR_END: nat := 253_402_300_800_000

  datatype Verdict = Invalid | OutOfCalendar | Valid(ulid: string, ms: nat)

  function UpperChar(c: char): char { if 'a' <= c <= 'z' then c - 'a' + 'A' else c }

  function Upper(s: string): (r: string)
    ensures |r| == |s| && forall i :: 0 <= i < |s| ==> r[i] == UpperChar(s[i])
  {
    if s == "" then "" else [UpperChar(s[0])] + Upper(s[1..])
  }

  predicate WellFormed(v: string) {
    |v| == 26 && v[0] <= '7' && Spelled(v)
  }

  /** The validator's answer: text of another form is invalid; otherwise the time is shown, or the
      calendar library raises. */
  function Judge(value: string): Verdict {
    var v := Upper(value);
    if !WellFormed(v) then Invalid
    else
      var ms := Decode(v) / RANDOM_LIMIT;
      if ms < CALENDAR_END then Valid(v, ms) else OutOfCalendar
  }

  method UlidValidate(value: string) returns (r: Verdict)
    ensures r == Judge(value)
  {
    var v := Upper(value);
    if |v| != 26 { return Invalid; }
    for i := 0 to 26
      invariant forall j :: 0 <= j < i ==> Allowed(v[j])
    {
      if !Allowed(v[i]) { return Invalid; }
    }
    if v[0] > '7' { return Invalid; }
    var n := 0;
    for i := 0 to 26
      invariant Spelled(v[..i]) && n == Decode(v[..i])
    {
      assert v[..i + 1][..i] == v[..i];
      var k := IndexOf(v[i]);
      n := n * 32 + k;
    }
    assert v[..26] == v;
    var ms := n / RANDOM_LIMIT;
    return if ms < CALENDAR_END then Valid(v, ms) else OutOfCalendar;
  }

  lemma {:induction false} DecodeFirst(s: string)
    requires s != "" && Spelled(s)
    ensures Decode(s) == Worth(s[0]) * Pow32(|s| - 1) + Decode(s[1..])
    decreases |s|
  {
    var n := |s| - 1;
    if n > 0 {
      var init := s[..n];
      DecodeFirst(init);
      assert init[1..] == s[1..][..n - 1];
      Widened(Worth(s[0]), Pow32(n - 1), Decode(init[1..]));
    }
  }

  lemma Widened(w: nat, p: nat, d: nat)
    ensures 32 * (w * p + d) == w * (32 * p) + 32 * d
  {
  }

  lemma Sizes(n: nat)
    requires n == 24
    ensures Pow32(n + 1) == 32 * Pow32(n) && Pow32(n + 2) == 1024 * Pow32(n)
    ensures 8 * Pow32(n + 1) == MS_LIMIT * RANDOM_LIMIT
  {
    Squares(6);
    Squares(12);
    assert Pow32(6) == 0x4000_0000;
  }

  lemma {:induction false} PowAdd(a: nat, b: nat)
    ensures Pow32(a + b) == Pow32(a) * Pow32(b)
  {
    if a > 0 { PowAdd(a - 1, b); }
  }

  lemma Squares(n: nat)
    ensures Pow32(n + n) == Pow32(n) * Pow32(n)
  {
    PowAdd(n, n);
  }

  lemma LeadingDigit(d: nat, p: nat, rest: nat)
    requires rest < p
    ensures d < 8 <==> d * p + rest < 8 * p
  {
    if d < 8 {
      Scaled(p, 8 - d);
      assert p * (8 - d) == 8 * p - d * p;
    } else {
      Scaled(p, d - 7);
      assert p * (d - 7) == d * p - 7 * p;
    }
  }

  /** The leading-character rule is exactly the 128-bit bound. */
  lemma FirstSmall(v: string)
    requires |v| == 26 && Spelled(v)
    ensures v[0] <= '7' <==> Decode(v) < MS_LIMIT * RANDOM_LIMIT
  {
    Sizes(24);
    DecodeFirst(v);
    DecodeBound(v[1..]);
    LeadingDigit(Worth(v[0]), Pow32(25), Decode(v[1..]));
  }

  /** For every time of 48 bits the generated ULID is well formed and holds its milliseconds. */
  lemma GeneratedWellFormed(ms: nat, random: nat)
    requires ms < MS_LIMIT && random < RANDOM_LIMIT
    ensures var ulid := Encode(Packed(ms, random), 26);
            Upper(ulid) == ulid && WellFormed(ulid) && Decode(ulid) / RANDOM_LIMIT == ms
  {
    var value := Packed(ms, random);
    var ulid := Encode(value, 26);
    Sizes(24);
    DecodeEncode(value, 26);
    FirstSmall(ulid);
    Quotient(value, RANDOM_LIMIT, ms, random);
  }

  /** The validator answers a generated ULID with exactly its time if and only if that time is one
      the calendar has. */
  lemma GeneratedAccepted(ms: nat, random: nat)
    requires ms < MS_LIMIT && random < RANDOM_LIMIT
    ensures var ulid := Encode(Packed(ms, random), 26);
            && (Judge(ulid) == Valid(ulid, ms) <==> ms < CALENDAR_END)
            && (Judge(ulid) == OutOfCalendar <==> ms >= CALENDAR_END)
  {
    GeneratedWellFormed(ms, random);
  }

  /** The same text, with any of its capital letters written small. */
  predicate AnyCase(s: string, capital: string) {
    |s| == |capital| && forall i :: 0 <= i < |s| ==>
      s[i] == capital[i] || ('A' <= capital[i] <= 'Z' && s[i] as int == capital[i] as int + 32)
  }

  /** The case of letters makes no difference to the verdict. */
  lemma CaseIgnored(ms: nat, random: nat, s: string)
    requires ms < MS_LIMIT && random < RANDOM_LIMIT
    requires AnyCase(s, Encode(Packed(ms, random), 26))
    ensures Judge(s) == Judge(Encode(Packed(ms, random), 26))
  {
    var ulid := Encode(Packed(ms, random), 26);
    GeneratedWellFormed(ms, random);
    forall i | 0 <= i < |s| ensures UpperChar(s[i]) == ulid[i] { assert Upper(ulid)[i] == ulid[i]; }
    assert Upper(s) == ulid;
  }

  /** The end of the calendar is the first millisecond of the year 10000, counted from 1970. */
  lemma CalendarEnds()
    ensures CALENDAR_END == (Ordinal(Date(10_000, 1, 1)) - Ordinal(Date(1970, 1, 1))) * 86_400_000
  {
    assert DaysBeforeYear(10_000) == 3_652_059 && DaysBeforeYear(1970) == 719_162;
  }

  /** The first millisecond of the year 10000 makes a ULID that the validator cannot show. */
  lemma YearTenThousandRaises(ms: nat, random: nat)
    requires ms == 253_402_300_800_000 && random < RANDOM_LIMIT
    ensures Judge(Encode(Packed(ms, random), 26)) == OutOfCalendar
  {
    GeneratedAccepted(ms, random);
  }

  /** Every accepted text is the ULID of exactly one time and random part. */
  lemma AcceptedGenerated(v: string, ms: nat, random: nat)
    requires WellFormed(v) && ms < MS_LIMIT && random < RANDOM_LIMIT
    ensures v == Encode(Packed(ms, random), 26) <==>
            ms == Decode(v) / RANDOM_LIMIT && random == Decode(v) % RANDOM_LIMIT
    ensures Decode(v) / RANDOM_LIMIT < MS_LIMIT
  {
    FirstSmall(v);
    EncodeDecode(v);
    Sizes(24);
    DecodeEncode(Packed(ms, random), 26);
    Unpacked(Decode(v), ms, random);
  }

  lemma Unpacked(n: nat, ms: nat, random: nat)
    requires random < RANDOM_LIMIT
    ensures n == Packed(ms, random) <==> ms == n / RANDOM_LIMIT && random == n % RANDOM_LIMIT
  {
    if n == Packed(ms, random) { Quotient(n, RANDOM_LIMIT, ms, random); }
  }

  lemma UlidOrder(ms: nat, random: nat, ms': nat, random': nat)
    requires ms < MS_LIMIT && random < RANDOM_LIMIT && ms' < MS_LIMIT && random' < RANDOM_LIMIT
    ensures StrLess(Encode(Packed(ms, random), 26), Encode(Packed(ms', random'), 26)) <==>
            ms < ms' || (ms == ms' && random < random')
  {
    Sizes(24);
    DecodeEncode(Packed(ms, random), 26);
    DecodeEncode(Packed(ms', random'), 26);
    TextOrder(Encode(Packed(ms, random), 26), Encode(Packed(ms', random'), 26));
  }
}
