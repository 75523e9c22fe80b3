/** Fixed-window limiting: table, unbounded counter and script; times in milliseconds, windows in seconds. */
module RateLimit {
  import opened Text

  datatype Decision = Decision(allowed: bool, limit: nat, remaining: nat, resetAfter: nat)

  /** How often a key was granted since its window began. */
  datatype Window = Window(count: nat, start: int)

  datatype Request = Request(key: string, limit: int, window: int, now: int)

  function Span(window: int): int { window * 1000 }

  predicate Refused(r: Request) { r.limit <= 0 || r.window <= 0 }

  function Refusal(r: Request): Decision {
    Decision(false, if r.limit > 0 then r.limit else 0, 0, 0)
  }

  // ---- One key's counter ----

  /** The window a request at `now` falls in: the stored one, or a new one. */
  function Current(w: Option<Window>, window: int, now: int): Window {
    match w
    case None => Window(0, now)
    case Some(v) => if now - v.start >= Span(window) then Window(0, now) else v
  }

  function Granted(w: Window, limit: int): bool { w.count < limit }

  function After(w: Window, limit: int): Window {
    if Granted(w, limit) then Window(w.count + 1, w.start) else w
  }

  /** Whole seconds until the window ends, rounded up, and at least one. */
  function ResetAfter(w: Window, window: int, now: int): nat {
    var left := (Span(window) - (now - w.start) + 999) / 1000;
    if left > 1 then left else 1
  }

  function Decide(w: Window, r: Request): Decision {
    if Refused(r) then Refusal(r)
    else Decision(Granted(w, r.limit), r.limit,
                  if Granted(w, r.limit) then r.limit - w.count - 1 else 0,
                  ResetAfter(w, r.window, r.now))
  }

  function Lookup<V>(m: map<string, V>, k: string): Option<V> {
    if k in m then Some(m[k]) else None
  }

  // ---- The reference: one counter per key, never cleaned ----

  function RefStep(u: map<string, Window>, r: Request): map<string, Window> {
    if Refused(r) then u
    else u[r.key := After(Current(Lookup(u, r.key), r.window, r.now), r.limit)]
  }

  function RefDecision(u: map<string, Window>, r: Request): Decision {
    Decide(Current(Lookup(u, r.key), r.window, r.now), r)
  }

  // ---- The bounded table ----

  datatype Table = Table(counts: map<string, Window>, operations: nat)

  function Unexpired(counts: map<string, Window>, cutoff: int): map<string, Window> {
    map k | k in counts && counts[k].start > cutoff :: counts[k]
  }

  predicate Oldest(counts: map<string, Window>, k: string) {
    k in counts && forall o :: o in counts ==> counts[k].start <= counts[o].start
  }

  /** Every 256th operation drops expired entries. */
  function Cleaned(t: Table, maxKeys: pos, r: Request): map<string, Window> {
    if (t.operations + 1) % 256 == 0 || |t.counts| > maxKeys
    then Unexpired(t.counts, r.now - Span(r.window)) else t.counts
  }

  /** A new key that finds the table full takes the place of an oldest entry. */
  ghost predicate Roomed(c: map<string, Window>, maxKeys: pos, key: string, c': map<string, Window>) {
    if key !in c && |c| >= maxKeys then exists k :: Oldest(c, k) && c' == c - {k}
    else c' == c
  }

  /** One atomic check: t becomes t' and d is returned. */
  ghost predicate Checks(maxKeys: pos, t: Table, r: Request, t': Table, d: Decision) {
    if Refused(r) then t' == t && d == Refusal(r)
    else
      exists c :: Roomed(Cleaned(t, maxKeys, r), maxKeys, r.key, c)
        && var w := Current(Lookup(c, r.key), r.window, r.now);
           t' == Table(c[r.key := After(w, r.limit)], t.operations + 1) && d == Decide(w, r)
  }

  class MemoryRateLimiter {
    var counts: map<string, Window>
    var operations: nat
    const maxKeys: pos

    ghost function State(): Table
      reads this
    {
      Table(counts, operations)
    }

    constructor (maxKeys: int)
      ensures State() == Table(map[], 0)
      ensures this.maxKeys == if maxKeys > 1 then maxKeys else 1
    {
      counts, operations := map[], 0;
      this.maxKeys := if maxKeys > 1 then maxKeys else 1;
    }

    method Check(r: Request) returns (d: Decision)
      modifies this
      ensures Checks(maxKeys, old(State()), r, State(), d)
    {
      if r.limit <= 0 || r.window <= 0 {
        return Refusal(r);
      }
      operations := operations + 1;
      if operations % 256 == 0 || |counts| > maxKeys {
        counts := Unexpired(counts, r.now - Span(r.window));
      }
      ghost var c := counts;
      if r.key !in counts && |counts| >= maxKeys {
        var oldest := FindOldest();
        counts := counts - {oldest};
      }
      assert Roomed(c, maxKeys, r.key, counts);
      ghost var roomed := counts;
      var w := Current(Lookup(counts, r.key), r.window, r.now);
      counts := counts[r.key := After(w, r.limit)];
      d := Decide(w, r);
      assert Roomed(Cleaned(old(State()), maxKeys, r), maxKeys, r.key, roomed);
    }

    method FindOldest() returns (k: string)
      requires counts != map[]
      ensures Oldest(counts, k)
    {
      k :| k in counts;
      var todo := counts.Keys - {k};
      while todo != {}
        invariant k in counts && todo <= counts.Keys
        invariant forall o :: o in counts.Keys - todo ==> counts[k].start <= counts[o].start
        decreases todo
      {
        var o :| o in todo;
        if counts[o].start < counts[k].start { k := o; }
        todo := todo - {o};
      }
    }
  }

  // ---- The table is always bounded ----

  lemma UnexpiredSmaller(c: map<string, Window>, cutoff: int)
    ensures |Unexpired(c, cutoff)| <= |c|
  {
    SubsetSize(Unexpired(c, cutoff).Keys, c.Keys);
  }

  lemma UpdateSize<V>(m: map<string, V>, k: string, v: V)
    ensures |m[k := v]| == if k in m then |m| else |m| + 1
  {
    if k in m {
      assert m[k := v].Keys == m.Keys;
    } else {
      assert m[k := v].Keys == m.Keys + {k};
    }
  }

  lemma BoundKept(maxKeys: pos, t: Table, r: Request, t': Table, d: Decision)
    requires |t.counts| <= maxKeys
    requires Checks(maxKeys, t, r, t', d)
    ensures |t'.counts| <= maxKeys
  {
    if !Refused(r) {
      var base := Cleaned(t, maxKeys, r);
      UnexpiredSmaller(t.counts, r.now - Span(r.window));
      var c :| Roomed(base, maxKeys, r.key, c)
        && var w := Current(Lookup(c, r.key), r.window, r.now);
           t' == Table(c[r.key := After(w, r.limit)], t.operations + 1) && d == Decide(w, r);
      RoomLeft(base, maxKeys, r.key, c);
      UpdateSize(c, r.key, After(Current(Lookup(c, r.key), r.window, r.now), r.limit));
    }
  }

  lemma RoomLeft(base: map<string, Window>, maxKeys: pos, key: string, c: map<string, Window>)
    requires |base| <= maxKeys && Roomed(base, maxKeys, key, c)
    ensures |c.Keys + {key}| <= maxKeys
  {
    if key !in base && |base| >= maxKeys {
      var k :| Oldest(base, k) && c == base - {k};
      assert c.Keys == base.Keys - {k};
      assert |c.Keys| == |base.Keys| - 1;
    }
    if key in c { assert c.Keys + {key} == c.Keys; }
  }

  /** A run of the table: ts[i] is the state before request i, ds[i] its decision. */
  ghost predicate IsRun(maxKeys: pos, ts: seq<Table>, rs: seq<Request>, ds: seq<Decision>) {
    && |ts| == |rs| + 1 && |ds| == |rs|
    && ts[0] == Table(map[], 0)
    && forall i :: 0 <= i < |rs| ==> Checks(maxKeys, ts[i], rs[i], ts[i + 1], ds[i])
  }

  /** In every run whatsoever the table never exceeds its bound. */
  lemma {:induction false} AlwaysBounded(maxKeys: pos, ts: seq<Table>, rs: seq<Request>, ds: seq<Decision>, i: nat)
    requires IsRun(maxKeys, ts, rs, ds) && i < |ts|
    ensures |ts[i].counts| <= maxKeys
  {
    if i == 0 {
      assert ts[0].counts == map[];
    } else {
      var j := i - 1;
      AlwaysBounded(maxKeys, ts, rs, ds, j);
      assert Checks(maxKeys, ts[j], rs[j], ts[j + 1], ds[j]);
      BoundKept(maxKeys, ts[j], rs[j], ts[i], ds[j]);
    }
  }

  // ---- The bounded table agrees with the reference ----

  predicate Live(w: Window, window: int, now: int) { now - w.start < Span(window) }

  function LiveKeys(u: map<string, Window>, window: int, now: int): set<string> {
    set k | k in u && Live(u[k], window, now)
  }

  /** The table holds only what the reference holds, and everything of it that is still live. */
  ghost predicate Agrees(c: map<string, Window>, u: map<string, Window>, window: int, now: int) {
    && (forall k :: k in c ==> k in u && c[k] == u[k])
    && (forall k :: k in u && Live(u[k], window, now) ==> k in c)
  }

  lemma AgreesLater(c: map<string, Window>, u: map<string, Window>, window: int, now: int, later: int)
    requires Agrees(c, u, window, now) && now <= later
    ensures Agrees(c, u, window, later)
  {
    forall k | k in u && Live(u[k], window, later) ensures k in c { assert Live(u[k], window, now); }
  }

  /** A cleanup keeps exactly the entries that a window of the request's length still covers. */
  lemma CleanupDrops(maxKeys: pos, t: Table, r: Request, k: string)
    requires (t.operations + 1) % 256 == 0 || |t.counts| > maxKeys
    ensures k in Cleaned(t, maxKeys, r) <==> k in t.counts && r.now < t.counts[k].start + 1000 * r.window
    ensures k in Cleaned(t, maxKeys, r) ==> Cleaned(t, maxKeys, r)[k] == t.counts[k]
  {
  }

  /** With fewer live keys than places, the entry that makes room has expired. */
  lemma EvictsExpired(c: map<string, Window>, u: map<string, Window>, window: int, now: int, key: string,
                      maxKeys: pos, k: string)
    requires Agrees(c, u, window, now)
    requires key !in c && |c| >= maxKeys && Oldest(c, k)
    requires |LiveKeys(u, window, now) - {key}| < maxKeys
    ensures !Live(c[k], window, now)
  {
    if Live(c[k], window, now) {
      // then every entry of c would be live, and c is no smaller than maxKeys
      SubsetOfLive(c, u, window, now, key, k);
      SubsetSize(c.Keys, LiveKeys(u, window, now) - {key});
    }
  }

  lemma RoomAgrees(c: map<string, Window>, u: map<string, Window>, window: int, now: int, key: string, maxKeys: pos,
                   c': map<string, Window>)
    requires Agrees(c, u, window, now) && Roomed(c, maxKeys, key, c')
    requires |LiveKeys(u, window, now) - {key}| < maxKeys
    ensures Agrees(c', u, window, now)
  {
    if key !in c && |c| >= maxKeys {
      var k :| Oldest(c, k) && c' == c - {k};
      EvictsExpired(c, u, window, now, key, maxKeys, k);
    }
  }

  /** One check decides as the reference does and leaves the two in agreement. */
  lemma StepAgrees(maxKeys: pos, t: Table, u: map<string, Window>, r: Request, t': Table, d: Decision, before: int)
    requires Agrees(t.counts, u, r.window, before) && before <= r.now
    requires Checks(maxKeys, t, r, t', d)
    requires |LiveKeys(u, r.window, r.now) - {r.key}| < maxKeys
    ensures d == RefDecision(u, r)
    ensures Agrees(t'.counts, RefStep(u, r), r.window, r.now)
  {
    AgreesLater(t.counts, u, r.window, before, r.now);
    if !Refused(r) {
      var base := Cleaned(t, maxKeys, r);
      var c :| Roomed(base, maxKeys, r.key, c)
        && var w := Current(Lookup(c, r.key), r.window, r.now);
           t' == Table(c[r.key := After(w, r.limit)], t.operations + 1) && d == Decide(w, r);
      assert Agrees(base, u, r.window, r.now);
      RoomAgrees(base, u, r.window, r.now, r.key, maxKeys, c);
      SameCurrent(c, u, r);
    }
  }

  lemma SubsetOfLive(c: map<string, Window>, u: map<string, Window>, window: int, now: int, key: string, k: string)
    requires Agrees(c, u, window, now) && key !in c && Oldest(c, k) && Live(c[k], window, now)
    ensures c.Keys <= LiveKeys(u, window, now) - {key}
  {
  }

  /** An entry missing from the table is absent or expired in the reference: either way both
      start a new window. */
  lemma SameCurrent(c: map<string, Window>, u: map<string, Window>, r: Request)
    requires Agrees(c, u, r.window, r.now)
    ensures Current(Lookup(c, r.key), r.window, r.now) == Current(Lookup(u, r.key), r.window, r.now)
  {
  }

  function RefRun(rs: seq<Request>): map<string, Window> {
    if rs == [] then map[] else RefStep(RefRun(rs[..|rs| - 1]), rs[|rs| - 1])
  }

  /** The clock does not go back, and all requests use one window length. */
  ghost predicate Steady(rs: seq<Request>, window: int) {
    && (forall i :: 0 <= i < |rs| ==> rs[i].window == window)
    && (forall i, j :: 0 <= i <= j < |rs| ==> rs[i].now <= rs[j].now)
  }

  /** At each request fewer than maxKeys other keys are inside their window. */
  ghost predicate Uncrowded(rs: seq<Request>, maxKeys: pos) {
    forall i :: 0 <= i < |rs| ==>
      |LiveKeys(RefRun(rs[..i]), rs[i].window, rs[i].now) - {rs[i].key}| < maxKeys
  }

  /** While the table is uncrowded, its decisions are exactly the reference's. */
  lemma {:induction false} BoundedAgrees(maxKeys: pos, window: int, ts: seq<Table>, rs: seq<Request>,
                                         ds: seq<Decision>, i: nat)
    requires IsRun(maxKeys, ts, rs, ds) && Steady(rs, window) && Uncrowded(rs, maxKeys) && i < |rs|
    ensures ds[i] == RefDecision(RefRun(rs[..i]), rs[i])
    ensures Agrees(ts[i + 1].counts, RefRun(rs[..i + 1]), window, rs[i].now)
    decreases i
  {
    assert rs[..i + 1][..i] == rs[..i];
    if i == 0 {
      assert rs[..0] == [];
      StepAgrees(maxKeys, ts[0], map[], rs[0], ts[1], ds[0], rs[0].now);
    } else {
      BoundedAgrees(maxKeys, window, ts, rs, ds, i - 1);
      StepAgrees(maxKeys, ts[i], RefRun(rs[..i]), rs[i], ts[i + 1], ds[i], rs[i - 1].now);
    }
  }

  // ---- The shared backend ----

  /** The script's key: a counter that disappears when its time to live runs out. */
  datatype Counter = Counter(count: nat, expires: int)

  /** INCR, and EXPIRE when the count is one, as one atomic step. */
  function ScriptStep(v: Option<Counter>, window: int, now: int): (c: Counter)
    ensures c.count >= 1
  {
    match v
    case Some(c) => if now < c.expires then Counter(c.count + 1, c.expires) else Counter(1, now + Span(window))
    case None => Counter(1, now + Span(window))
  }

  function ScriptRun(rs: seq<Request>): map<string, Counter> {
    if rs == [] then map[]
    else
      var r := rs[|rs| - 1];
      var m := ScriptRun(rs[..|rs| - 1]);
      if Refused(r) then m else m[r.key := ScriptStep(Lookup(m, r.key), r.window, r.now)]
  }

  /** Allowed and remaining, as the backend's caller computes them from the script's count. */
  function ScriptDecision(m: map<string, Counter>, r: Request): (bool, nat) {
    if Refused(r) then (false, 0)
    else
      var c := ScriptStep(Lookup(m, r.key), r.window, r.now);
      (c.count <= r.limit, if c.count < r.limit then r.limit - c.count else 0)
  }

  /** Every request for a key carries that key's limit and window. */
  ghost predicate FixedPerKey(rs: seq<Request>, limits: map<string, int>, windows: map<string, int>) {
    forall i :: 0 <= i < |rs| ==>
      rs[i].key in limits && rs[i].limit == limits[rs[i].key] &&
      rs[i].key in windows && rs[i].window == windows[rs[i].key]
  }

  function Min(a: int, b: int): int { if a < b then a else b }

  /** Same keys, windows that end when counters expire, and counts equal up to the limit. */
  ghost predicate Bisimilar(u: map<string, Window>, m: map<string, Counter>, limits: map<string, int>,
                            windows: map<string, int>) {
    && u.Keys == m.Keys
    && forall k :: k in u ==>
         && k in limits && k in windows && limits[k] > 0 && windows[k] > 0
         && m[k].expires == u[k].start + Span(windows[k])
         && u[k].count == Min(m[k].count, limits[k])
  }

  lemma BisimilarStep(u: map<string, Window>, m: map<string, Counter>, r: Request, limits: map<string, int>,
                      windows: map<string, int>)
    requires Bisimilar(u, m, limits, windows)
    requires r.key in limits && r.limit == limits[r.key] && r.key in windows && r.window == windows[r.key]
    requires !Refused(r)
    ensures var u' := RefStep(u, r);
            var m' := m[r.key := ScriptStep(Lookup(m, r.key), r.window, r.now)];
            Bisimilar(u', m', limits, windows)
    ensures (RefDecision(u, r).allowed, RefDecision(u, r).remaining) == ScriptDecision(m, r)
  {
  }

  /** On every request of every run the two backends allow alike and report the same remainder. */
  lemma {:induction false} BackendsAgree(rs: seq<Request>, limits: map<string, int>, windows: map<string, int>)
    requires FixedPerKey(rs, limits, windows)
    ensures Bisimilar(RefRun(rs), ScriptRun(rs), limits, windows)
    ensures rs != [] ==>
              var before := rs[..|rs| - 1];
              var r := rs[|rs| - 1];
              var d := RefDecision(RefRun(before), r);
              (d.allowed, d.remaining) == ScriptDecision(ScriptRun(before), r)
    decreases |rs|
  {
    if rs != [] {
      var before := rs[..|rs| - 1];
      var r := rs[|rs| - 1];
      BackendsAgree(before, limits, windows);
      if !Refused(r) { BisimilarStep(RefRun(before), ScriptRun(before), r, limits, windows); }
    }
  }

  // ---- How many grants a key can get ----

  /** Grants to `key` at times in [from, from + span), continuing from reference state u. */
  function GrantsIn(u: map<string, Window>, rs: seq<Request>, key: string, from: int, span: int): nat
    decreases |rs|
  {
    if rs == [] then 0
    else
      var r := rs[0];
      (if r.key == key && RefDecision(u, r).allowed && from <= r.now < from + span then 1 else 0)
      + GrantsIn(RefStep(u, r), rs[1..], key, from, span)
  }

  /** Grants still possible for a key in the span: what a window begun in it has left; what a
      window reaching into it has left and one window more; or, with no window reaching into
      it, two windows of which the first spends a grant before the span. */
  function Room(w: Option<Window>, limit: nat, from: int, span: int): int {
    match w
    case None => 2 * limit - 1
    case Some(v) =>
      if v.start >= from then limit - v.count
      else if v.start + span > from then 2 * limit - v.count
      else 2 * limit - 1
  }

  ghost predicate KeySteady(rs: seq<Request>, key: string, limit: nat, window: int, now: int) {
    && (forall i :: 0 <= i < |rs| && rs[i].key == key ==> rs[i].limit == limit && rs[i].window == window)
    && (forall i :: 0 <= i < |rs| ==> now <= rs[i].now)
    && (forall i, j :: 0 <= i <= j < |rs| ==> rs[i].now <= rs[j].now)
  }

  lemma {:induction false} SpanBound(u: map<string, Window>, rs: seq<Request>, key: string, limit: nat, window: int,
                                     now: int, from: int)
    requires limit >= 1 && window >= 1 && KeySteady(rs, key, limit, window, now)
    requires key in u ==> 1 <= u[key].count <= limit && u[key].start <= now
    ensures GrantsIn(u, rs, key, from, Span(window)) <= Room(Lookup(u, key), limit, from, Span(window))
    decreases |rs|
  {
    if rs != [] {
      var r := rs[0];
      var u' := RefStep(u, r);
      assert KeySteady(rs[1..], key, limit, window, r.now);
      SpanBound(u', rs[1..], key, limit, window, r.now, from);
      if r.now >= from + Span(window) {
        NothingAfter(u', rs[1..], key, from, Span(window), r.now);
      }
    }
  }

  lemma {:induction false} NothingAfter(u: map<string, Window>, rs: seq<Request>, key: string, from: int, span: int,
                                        now: int)
    requires now >= from + span
    requires forall i :: 0 <= i < |rs| ==> now <= rs[i].now
    ensures GrantsIn(u, rs, key, from, span) == 0
    decreases |rs|
  {
    if rs != [] { NothingAfter(RefStep(u, rs[0]), rs[1..], key, from, span, now); }
  }

  /** In any span of one window's length a key is granted at most 2 * limit - 1 times. */
  lemma AnySpan(rs: seq<Request>, key: string, limit: nat, window: int, now: int, from: int)
    requires limit >= 1 && window >= 1 && KeySteady(rs, key, limit, window, now)
    ensures GrantsIn(map[], rs, key, from, Span(window)) <= 2 * limit - 1
  {
    SpanBound(map[], rs, key, limit, window, now, from);
  }

  /** The bound is met: with limit 2 and a one-second window, three grants fall within one second. */
  lemma SpanBoundMet()
    ensures var rs := [Request("k", 2, 1, 0), Request("k", 2, 1, 999),
                       Request("k", 2, 1, 1000), Request("k", 2, 1, 1001)];
            GrantsIn(map[], rs, "k", 999, Span(1)) == 3
  {
    var r0, r1 := Request("k", 2, 1, 0), Request("k", 2, 1, 999);
    var r2, r3 := Request("k", 2, 1, 1000), Request("k", 2, 1, 1001);
    var u1 := RefStep(map[], r0);
    assert u1["k"] == Window(1, 0);
    var u2 := RefStep(u1, r1);
    assert u2["k"] == Window(2, 0);
    var u3 := RefStep(u2, r2);
    assert u3["k"] == Window(1, 1000);
    var u4 := RefStep(u3, r3);
    assert [r0, r1, r2, r3][1..] == [r1, r2, r3] && [r1, r2, r3][1..] == [r2, r3];
    assert [r2, r3][1..] == [r3] && [r3][1..] == [];
    assert GrantsIn(u4, [], "k", 999, 1000) == 0;
    assert GrantsIn(u3, [r3], "k", 999, 1000) == 1;
    assert GrantsIn(u2, [r2, r3], "k", 999, 1000) == 2;
    assert GrantsIn(u1, [r1, r2, r3], "k", 999, 1000) == 3;
  }

  // ---- Which limit a key carries ----

  datatype Policy = Security | Network | Expensive | General

  function PolicyName(p: Policy): string {
    match p
    case Security => "security"
    case Network => "network"
    case Expensive => "expensive"
    case General => "general"
  }

  function RateKey(p: Policy, client: string): string {
    "rl:" + PolicyName(p) + ":" + client
  }

  /** A rate key names its policy, whatever the client text is, so one key always carries one limit. */
  lemma KeyPinsPolicy(p: Policy, c: string, q: Policy, d: string)
    requires RateKey(p, c) == RateKey(q, d)
    ensures p == q && c == d
  {
    assert RateKey(p, c)[3] == PolicyName(p)[0] && RateKey(q, d)[3] == PolicyName(q)[0];
    var n := |PolicyName(p)| + 4;
    assert RateKey(p, c)[n..] == c && RateKey(p, d)[n..] == d;
  }
}
