/** Fixed windows in the terms of a client: requests, their times, and what was answered. */
module RateLimitWindows {
  import opened Text
  import opened RateLimit
  import opened RateLimitRuns
  import opened RateLimitExact

  // ---- What the reset time promises ----

  /** d answers r, and e answers the same key's next request at `later`. Once the reset time has
      passed, a new window begins; a second before that, the old one goes on. */
  predicate ResetKept(r: Request, d: Decision, later: int, e: Decision) {
    && d.resetAfter >= 1
    && (later >= r.now + 1000 * d.resetAfter ==> e.allowed && e.remaining == r.limit - 1)
    && (d.resetAfter > 1 && r.now <= later <= r.now + 1000 * (d.resetAfter - 1) ==>
          if d.remaining > 0 then e.allowed && e.remaining == d.remaining - 1 else !e.allowed && e.remaining == 0)
  }

  /** A check leaves the counter from which the key's next request is answered. */
  lemma CounterLeft(maxKeys: pos, t: Table, r: Request, t': Table, d: Decision)
    requires Checks(maxKeys, t, r, t', d) && !Refused(r)
    ensures r.key in t'.counts
    ensures t'.counts[r.key] == After(Current(Lookup(t.counts, r.key), r.window, r.now), r.limit)
  {
    var c :| Roomed(Cleaned(t, maxKeys, r), maxKeys, r.key, c)
      && var w := Current(Lookup(c, r.key), r.window, r.now);
         t' == Table(c[r.key := After(w, r.limit)], t.operations + 1) && d == Decide(w, r);
    assert Current(Lookup(c, r.key), r.window, r.now) == Current(Lookup(t.counts, r.key), r.window, r.now);
  }

  /** One counter: its answer now and its answer later. */
  lemma CounterKeeps(w: Window, r: Request, later: int)
    requires !Refused(r) && r.now - w.start < 1000 * r.window
    ensures ResetKept(r, Decide(w, r), later,
                      Decide(Current(Some(After(w, r.limit)), r.window, later), r.(now := later)))
  {
  }

  /** In any state of the limiter: two checks of one key in a row. */
  lemma ResetOfChecks(maxKeys: pos, t: Table, r: Request, t': Table, d: Decision, later: int, t'': Table, e: Decision)
    requires Checks(maxKeys, t, r, t', d) && !Refused(r) && Checks(maxKeys, t', r.(now := later), t'', e)
    ensures ResetKept(r, d, later, e)
  {
    OwnDecision(maxKeys, t, r, t', d);
    OwnDecision(maxKeys, t', r.(now := later), t'', e);
    CounterLeft(maxKeys, t, r, t', d);
    CounterKeeps(Current(Lookup(t.counts, r.key), r.window, r.now), r, later);
  }

  lemma {:induction false} KeyUntouched(rs: seq<Request>, i: nat, j: nat)
    requires i < j <= |rs| && !Refused(rs[i])
    requires forall m :: i < m < j ==> rs[m].key != rs[i].key
    ensures var u := RefRun(rs[..j]);
            rs[i].key in u && u[rs[i].key] ==
              After(Current(Lookup(RefRun(rs[..i]), rs[i].key), rs[i].window, rs[i].now), rs[i].limit)
    decreases j
  {
    assert rs[..j][..j - 1] == rs[..j - 1] && rs[..j][j - 1] == rs[j - 1];
    if i < j - 1 { KeyUntouched(rs, i, j - 1); }
  }

  /** In runs that drop no live entry: two requests of one key with none of that key between. */
  lemma ResetInRun(maxKeys: pos, ts: seq<Table>, rs: seq<Request>, ds: seq<Decision>,
                   limits: map<string, int>, windows: map<string, int>, i: nat, j: nat)
    requires IsRun(maxKeys, ts, rs, ds) && FixedPerKey(rs, limits, windows)
    requires Monotone(rs) && KeepsLive(ts, rs, windows)
    requires i < j < |rs| && rs[j].key == rs[i].key && !Refused(rs[i])
    requires forall m :: i < m < j ==> rs[m].key != rs[i].key
    ensures ResetKept(rs[i], ds[i], rs[j].now, ds[j])
  {
    var r := rs[i];
    LimiterAgrees(maxKeys, ts, rs, ds, limits, windows, i);
    LimiterAgrees(maxKeys, ts, rs, ds, limits, windows, j);
    KeyUntouched(rs, i, j);
    assert rs[j] == r.(now := rs[j].now);
    CounterKeeps(Current(Lookup(RefRun(rs[..i]), r.key), r.window, r.now), r, rs[j].now);
  }

  // ---- Every answer of a key, from its requests and the clock ----

  /** The answer to a request that begins a window. */
  predicate Opens(r: Request, d: Decision) {
    d.allowed && d.limit == r.limit && d.remaining == r.limit - 1 && d.resetAfter == r.window
  }

  /** The answer inside a window that ends at `end`, after n requests of it. */
  predicate Inside(r: Request, d: Decision, end: int, n: nat) {
    && (d.allowed <==> n < r.limit)
    && d.limit == r.limit
    && d.remaining == (if n < r.limit then r.limit - 1 - n else 0)
    && r.now + 1000 * (d.resetAfter - 1) < end <= r.now + 1000 * d.resetAfter
  }

  /** How many of the requests i, ..., j - 1 are for the key. */
  function Asked(rs: seq<Request>, key: string, i: nat, j: nat): nat
    requires i <= j <= |rs|
    decreases j
  {
    if i == j then 0 else Asked(rs, key, i, j - 1) + if rs[j - 1].key == key then 1 else 0
  }

  /** Requests of the key after i stay inside the window that i began. */
  ghost predicate WithinWindow(rs: seq<Request>, i: nat, j: nat)
    requires i < j <= |rs|
  {
    forall m :: i < m < j && rs[m].key == rs[i].key ==> rs[m].now < rs[i].now + 1000 * rs[i].window
  }

  /** The counter since a request that began a window. */
  lemma {:induction false} CounterSince(rs: seq<Request>, limits: map<string, int>, windows: map<string, int>, i: nat,
                                        j: nat)
    requires FixedPerKey(rs, limits, windows) && i < j <= |rs| && !Refused(rs[i]) && WithinWindow(rs, i, j)
    requires Current(Lookup(RefRun(rs[..i]), rs[i].key), rs[i].window, rs[i].now) == Window(0, rs[i].now)
    ensures var u := RefRun(rs[..j]);
            rs[i].key in u && u[rs[i].key] == Window(Min(Asked(rs, rs[i].key, i, j), rs[i].limit), rs[i].now)
    decreases j
  {
    var h := j - 1;
    assert rs[..j][..h] == rs[..h] && rs[..j][h] == rs[h];
    if i < h {
      CounterSince(rs, limits, windows, i, h);
    } else {
      assert Asked(rs, rs[i].key, i, i) == 0;
    }
  }

  /** With an empty counter, and only then, a request begins a window. */
  lemma OpensExactly(rs: seq<Request>, limits: map<string, int>, windows: map<string, int>, i: nat)
    requires FixedPerKey(rs, limits, windows) && i < |rs| && !Refused(rs[i])
    ensures var w := Current(Lookup(RefRun(rs[..i]), rs[i].key), rs[i].window, rs[i].now);
            Opens(rs[i], RefDecision(RefRun(rs[..i]), rs[i])) <==> w == Window(0, rs[i].now)
  {
    RefSound(rs[..i], limits, windows);
  }

  /** A window that request i began decides every later answer of its key: while it lasts, by how
      many requests it has had; the first request after its end begins the next one. */
  lemma WindowExact(maxKeys: pos, ts: seq<Table>, rs: seq<Request>, ds: seq<Decision>,
                    limits: map<string, int>, windows: map<string, int>, i: nat, j: nat)
    requires IsRun(maxKeys, ts, rs, ds) && FixedPerKey(rs, limits, windows)
    requires Monotone(rs) && KeepsLive(ts, rs, windows)
    requires i < j < |rs| && rs[j].key == rs[i].key && !Refused(rs[i]) && Opens(rs[i], ds[i]) && WithinWindow(rs, i, j)
    ensures var end := rs[i].now + 1000 * rs[i].window;
            if rs[j].now < end then Inside(rs[j], ds[j], end, Asked(rs, rs[i].key, i, j)) else Opens(rs[j], ds[j])
  {
    LimiterAgrees(maxKeys, ts, rs, ds, limits, windows, i);
    LimiterAgrees(maxKeys, ts, rs, ds, limits, windows, j);
    OpensExactly(rs, limits, windows, i);
    CounterSince(rs, limits, windows, i, j);
    AskedFirst(rs, rs[i].key, i, j);
  }

  lemma {:induction false} AskedFirst(rs: seq<Request>, key: string, i: nat, j: nat)
    requires i < j <= |rs| && rs[i].key == key
    ensures Asked(rs, key, i, j) >= 1
    decreases j
  {
    if i < j - 1 { AskedFirst(rs, key, i, j - 1); }
  }

  /** The first request of a key begins a window, which lasts as long as its policy says. */
  lemma FirstOpens(maxKeys: pos, ts: seq<Table>, rs: seq<Request>, ds: seq<Decision>, i: nat)
    requires IsRun(maxKeys, ts, rs, ds) && i < |rs| && !Refused(rs[i])
    requires forall m :: 0 <= m < i ==> rs[m].key != rs[i].key
    ensures Opens(rs[i], ds[i])
  {
    NeverCounted(maxKeys, ts, rs, ds, i, rs[i].key);
    assert Checks(maxKeys, ts[i], rs[i], ts[i + 1], ds[i]);
    OwnDecision(maxKeys, ts[i], rs[i], ts[i + 1], ds[i]);
  }

  lemma {:induction false} NeverCounted(maxKeys: pos, ts: seq<Table>, rs: seq<Request>, ds: seq<Decision>, i: nat,
                                        key: string)
    requires IsRun(maxKeys, ts, rs, ds) && i < |ts|
    requires forall m :: 0 <= m < i ==> rs[m].key != key
    ensures key !in ts[i].counts
  {
    if i > 0 {
      NeverCounted(maxKeys, ts, rs, ds, i - 1, key);
      assert Checks(maxKeys, ts[i - 1], rs[i - 1], ts[i - 1 + 1], ds[i - 1]);
    }
  }
}
