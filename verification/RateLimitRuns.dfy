/** What the limiter's own runs promise while no live entry is dropped; a crowded table breaks it. */
module RateLimitRuns {
  import opened Text
  import opened RateLimit

  ghost predicate Monotone(rs: seq<Request>) {
    forall i, j :: 0 <= i <= j < |rs| ==> rs[i].now <= rs[j].now
  }

  /** No step drops an entry of another key that is still inside its own window. */
  ghost predicate KeepsLive(ts: seq<Table>, rs: seq<Request>, windows: map<string, int>)
    requires |ts| == |rs| + 1
  {
    forall i, k ::
      (0 <= i < |rs| && k in ts[i].counts && k != rs[i].key && k in windows
       && Live(ts[i].counts[k], windows[k], rs[i].now))
      ==> k in ts[i + 1].counts
  }

  /** The table holds only what the reference holds, and everything still live there. */
  ghost predicate AgreesEach(c: map<string, Window>, u: map<string, Window>, windows: map<string, int>, now: int) {
    && (forall k :: k in c ==> k in u && c[k] == u[k])
    && (forall k :: k in u && k in windows && Live(u[k], windows[k], now) ==> k in c)
  }

  /** The entry used for the request's own key is live in the table if it is live at all. */
  lemma OwnEntry(t: Table, u: map<string, Window>, maxKeys: pos, r: Request, c: map<string, Window>,
                 windows: map<string, int>, before: int)
    requires AgreesEach(t.counts, u, windows, before) && before <= r.now && !Refused(r)
    requires r.key in windows && r.window == windows[r.key]
    requires Roomed(Cleaned(t, maxKeys, r), maxKeys, r.key, c)
    ensures Current(Lookup(c, r.key), r.window, r.now) == Current(Lookup(u, r.key), r.window, r.now)
    ensures forall k :: k in c ==> k in t.counts && c[k] == t.counts[k]
  {
    if r.key in u && r.key !in c {
      if r.key !in t.counts { assert !Live(u[r.key], windows[r.key], before); }
      assert !Live(u[r.key], r.window, r.now);
    }
  }

  lemma StepKept(maxKeys: pos, t: Table, u: map<string, Window>, r: Request, t': Table, d: Decision,
                 windows: map<string, int>, before: int)
    requires AgreesEach(t.counts, u, windows, before) && before <= r.now
    requires Checks(maxKeys, t, r, t', d)
    requires r.key in windows && r.window == windows[r.key]
    requires forall k :: k in t.counts && k != r.key && k in windows && Live(t.counts[k], windows[k], r.now) ==>
             k in t'.counts
    ensures d == RefDecision(u, r)
    ensures AgreesEach(t'.counts, RefStep(u, r), windows, r.now)
  {
    forall k | k in u && k in windows && Live(u[k], windows[k], r.now) ensures k in t.counts {
      assert Live(u[k], windows[k], before);
    }
    if !Refused(r) {
      var c :| Roomed(Cleaned(t, maxKeys, r), maxKeys, r.key, c)
        && var w := Current(Lookup(c, r.key), r.window, r.now);
           t' == Table(c[r.key := After(w, r.limit)], t.operations + 1) && d == Decide(w, r);
      OwnEntry(t, u, maxKeys, r, c, windows, before);
    }
  }

  /** With limit and window fixed per key, a monotone clock and no live entry dropped, every
      decision of a run is the unbounded counter's. */
  lemma {:induction false} LimiterAgrees(maxKeys: pos, ts: seq<Table>, rs: seq<Request>, ds: seq<Decision>,
                                         limits: map<string, int>, windows: map<string, int>, i: nat)
    requires IsRun(maxKeys, ts, rs, ds) && FixedPerKey(rs, limits, windows)
    requires Monotone(rs) && KeepsLive(ts, rs, windows)
    requires i < |rs|
    ensures ds[i] == RefDecision(RefRun(rs[..i]), rs[i])
    ensures AgreesEach(ts[i + 1].counts, RefRun(rs[..i + 1]), windows, rs[i].now)
    decreases i
  {
    assert rs[..i + 1][..i] == rs[..i];
    if i == 0 {
      assert rs[..0] == [];
      StepKept(maxKeys, ts[0], map[], rs[0], ts[1], ds[0], windows, rs[0].now);
    } else {
      LimiterAgrees(maxKeys, ts, rs, ds, limits, windows, i - 1);
      StepKept(maxKeys, ts[i], RefRun(rs[..i]), rs[i], ts[i + 1], ds[i], windows, rs[i - 1].now);
    }
  }

  /** One window for all and fewer other live keys than places: then no live entry is dropped. */
  lemma UncrowdedKeepsLive(maxKeys: pos, window: int, ts: seq<Table>, rs: seq<Request>, ds: seq<Decision>,
                           limits: map<string, int>, windows: map<string, int>)
    requires IsRun(maxKeys, ts, rs, ds) && FixedPerKey(rs, limits, windows)
    requires Steady(rs, window) && Uncrowded(rs, maxKeys)
    requires forall k :: k in windows ==> windows[k] == window
    ensures Monotone(rs) && KeepsLive(ts, rs, windows)
  {
    forall i, k | 0 <= i < |rs| && k in ts[i].counts && k != rs[i].key && k in windows
      && Live(ts[i].counts[k], windows[k], rs[i].now)
      ensures k in ts[i + 1].counts
    {
      LiveStays(maxKeys, window, ts, rs, ds, i, k);
    }
  }

  lemma LiveStays(maxKeys: pos, window: int, ts: seq<Table>, rs: seq<Request>, ds: seq<Decision>, i: nat, k: string)
    requires IsRun(maxKeys, ts, rs, ds) && Steady(rs, window) && Uncrowded(rs, maxKeys)
    requires i < |rs| && k in ts[i].counts && k != rs[i].key && Live(ts[i].counts[k], window, rs[i].now)
    ensures k in ts[i + 1].counts
  {
    BoundedAgrees(maxKeys, window, ts, rs, ds, i);
    assert rs[..i + 1][..i] == rs[..i] && rs[..i + 1][i] == rs[i];
    if i > 0 { BoundedAgrees(maxKeys, window, ts, rs, ds, i - 1); }
    assert k in RefRun(rs[..i]) && RefRun(rs[..i])[k] == ts[i].counts[k];
  }

  /** Then the limiter and the script allow alike and report the same remainder on every request
      of every run. */
  lemma LimiterMatchesScript(maxKeys: pos, ts: seq<Table>, rs: seq<Request>, ds: seq<Decision>,
                             limits: map<string, int>, windows: map<string, int>, i: nat)
    requires IsRun(maxKeys, ts, rs, ds) && FixedPerKey(rs, limits, windows)
    requires Monotone(rs) && KeepsLive(ts, rs, windows)
    requires i < |rs|
    ensures (ds[i].allowed, ds[i].remaining) == ScriptDecision(ScriptRun(rs[..i]), rs[i])
  {
    LimiterAgrees(maxKeys, ts, rs, ds, limits, windows, i);
    var upTo := rs[..i + 1];
    assert upTo[..i] == rs[..i] && upTo[i] == rs[i];
    BackendsAgree(upTo, limits, windows);
  }

  /** Grants that the run gave `key` at times in [from, from + span). */
  function GrantsTo(rs: seq<Request>, ds: seq<Decision>, key: string, from: int, span: int): nat
    requires |rs| == |ds|
  {
    if rs == [] then 0
    else (if rs[0].key == key && ds[0].allowed && from <= rs[0].now < from + span then 1 else 0)
         + GrantsTo(rs[1..], ds[1..], key, from, span)
  }

  lemma {:induction false} GrantsMatch(rs: seq<Request>, ds: seq<Decision>, n: nat, key: string, from: int, span: int)
    requires |rs| == |ds| && n <= |rs|
    requires forall i :: 0 <= i < |rs| ==> ds[i] == RefDecision(RefRun(rs[..i]), rs[i])
    ensures GrantsTo(rs[n..], ds[n..], key, from, span) == GrantsIn(RefRun(rs[..n]), rs[n..], key, from, span)
    decreases |rs| - n
  {
    if n < |rs| {
      GrantsMatch(rs, ds, n + 1, key, from, span);
      assert rs[n..][0] == rs[n] && ds[n..][0] == ds[n];
      assert rs[n..][1..] == rs[n + 1..] && ds[n..][1..] == ds[n + 1..];
      assert rs[..n + 1][..n] == rs[..n];
    }
  }

  /** And no span of one window's length holds more than 2 * limit - 1 grants of the limiter. */
  lemma LimiterSpan(maxKeys: pos, ts: seq<Table>, rs: seq<Request>, ds: seq<Decision>,
                    limits: map<string, int>, windows: map<string, int>, key: string, from: int)
    requires IsRun(maxKeys, ts, rs, ds) && FixedPerKey(rs, limits, windows)
    requires Monotone(rs) && KeepsLive(ts, rs, windows)
    requires key in limits && key in windows && limits[key] >= 1 && windows[key] >= 1
    ensures GrantsTo(rs, ds, key, from, Span(windows[key])) <= 2 * limits[key] - 1
  {
    forall i | 0 <= i < |rs| ensures ds[i] == RefDecision(RefRun(rs[..i]), rs[i]) {
      LimiterAgrees(maxKeys, ts, rs, ds, limits, windows, i);
    }
    GrantsMatch(rs, ds, 0, key, from, Span(windows[key]));
    assert rs[0..] == rs && ds[0..] == ds && rs[..0] == [];
    AnySpan(rs, key, limits[key], windows[key], if rs == [] then 0 else rs[0].now, from);
  }

  /** A crowded table exceeds the bound: with one place, a request of another key drops the first
      key's live entry, and limit 1 grants twice at the same instant. */
  lemma CrowdedExceeds() returns (ts: seq<Table>, ds: seq<Decision>)
    ensures var rs := [Request("a", 1, 1, 0), Request("b", 1, 1, 0), Request("a", 1, 1, 0)];
            && IsRun(1, ts, rs, ds) && FixedPerKey(rs, map["a" := 1, "b" := 1], map["a" := 1, "b" := 1]) && Monotone(rs)
            && GrantsTo(rs, ds, "a", 0, Span(1)) == 2
            && ds[2].allowed && !ScriptDecision(ScriptRun(rs[..2]), rs[2]).0
  {
    var rs := [Request("a", 1, 1, 0), Request("b", 1, 1, 0), Request("a", 1, 1, 0)];
    ts, ds := CrowdedRun(rs[0], rs[1]);
    CountThree(rs, ds);
    ScriptRefuses(rs);
  }

  /** With one place, the second key's request drops the first key's window. */
  lemma CrowdedRun(a: Request, b: Request) returns (ts: seq<Table>, ds: seq<Decision>)
    requires a.limit == 1 && a.window == 1 && a.now == 0 && b == a.(key := b.key) && a.key != b.key
    ensures IsRun(1, ts, [a, b, a], ds) && |ds| == 3 && forall i :: 0 <= i < 3 ==> ds[i].allowed
  {
    var w := Window(1, 0);
    var yes := Decision(true, 1, 0, 1);
    var t0, t1 := Table(map[], 0), Table(map[a.key := w], 1);
    var t2, t3 := Table(map[b.key := w], 2), Table(map[a.key := w], 3);
    OneStep(t0, a, t1, yes, map[]);
    OnePlace(a.key, b.key, w);
    OneStep(t1, b, t2, yes, map[]);
    OnePlace(b.key, a.key, w);
    OneStep(t2, a, t3, yes, map[]);
    RunSnoc(1, [t0], [], [], t1, a, yes);
    RunSnoc(1, [t0] + [t1], [] + [a], [] + [yes], t2, b, yes);
    RunSnoc(1, [t0] + [t1] + [t2], [] + [a] + [b], [] + [yes] + [yes], t3, a, yes);
    ts := [t0] + [t1] + [t2] + [t3];
    ds := [] + [yes] + [yes] + [yes];
    assert [] + [a] + [b] + [a] == [a, b, a];
  }

  lemma RunSnoc(maxKeys: pos, ts: seq<Table>, rs: seq<Request>, ds: seq<Decision>, t: Table, r: Request, d: Decision)
    requires IsRun(maxKeys, ts, rs, ds) && Checks(maxKeys, ts[|ts| - 1], r, t, d)
    ensures IsRun(maxKeys, ts + [t], rs + [r], ds + [d])
  {
    forall i | 0 <= i < |rs| + 1
      ensures Checks(maxKeys, (ts + [t])[i], (rs + [r])[i], (ts + [t])[i + 1], (ds + [d])[i])
    {
      if i < |rs| { assert Checks(maxKeys, ts[i], rs[i], ts[i + 1], ds[i]); }
    }
  }

  lemma OnePlace(k: string, other: string, w: Window)
    requires k != other
    ensures |map[k := w]| == 1 && Roomed(map[k := w], 1, other, map[])
  {
    var c := map[k := w];
    assert |c.Keys| == 1 by { assert c.Keys == {k}; }
    assert |c| == 1;
    assert Oldest(c, k) && map[] == c - {k};
  }

  /** A first request of a key that finds or makes room. */
  lemma OneStep(t: Table, r: Request, t': Table, d: Decision, c: map<string, Window>)
    requires r.limit == 1 && r.window == 1 && r.now == 0 && (t.operations + 1) % 256 != 0 && |t.counts| <= 1
    requires Roomed(t.counts, 1, r.key, c) && r.key !in c
    requires t' == Table(c[r.key := Window(1, 0)], t.operations + 1) && d == Decision(true, 1, 0, 1)
    ensures Checks(1, t, r, t', d)
  {
    assert Roomed(Cleaned(t, 1, r), 1, r.key, c);
    assert Current(Lookup(c, r.key), r.window, r.now) == Window(0, 0);
  }

  lemma CountThree(rs: seq<Request>, ds: seq<Decision>)
    requires rs == [Request("a", 1, 1, 0), Request("b", 1, 1, 0), Request("a", 1, 1, 0)]
    requires |ds| == 3 && forall i :: 0 <= i < 3 ==> ds[i].allowed
    ensures GrantsTo(rs, ds, "a", 0, Span(1)) == 2
  {
    assert rs[1..][1..] == rs[2..] && ds[1..][1..] == ds[2..] && rs[2..][1..] == [] && ds[2..][1..] == [];
    assert GrantsTo([], [], "a", 0, Span(1)) == 0;
    assert GrantsTo(rs[2..], ds[2..], "a", 0, Span(1)) == 1;
    assert GrantsTo(rs[1..], ds[1..], "a", 0, Span(1)) == 1;
  }

  lemma ScriptRefuses(rs: seq<Request>)
    requires rs == [Request("a", 1, 1, 0), Request("b", 1, 1, 0), Request("a", 1, 1, 0)]
    ensures !ScriptDecision(ScriptRun(rs[..2]), rs[2]).0
  {
    assert rs[..2][..1] == rs[..1] && rs[..1][..0] == [];
    assert ScriptRun(rs[..1])["a"] == Counter(1, 1000);
    assert ScriptRun(rs[..2])["a"] == Counter(1, 1000);
  }
}
