/** When the limiter answers every possible next request as a limiter that forgets nothing would. */
module RateLimitExact {
  import opened Text
  import opened RateLimit
  import opened RateLimitRuns

  /** A request that may come next: with its key's limit and window, and not before `now`. */
  predicate Possible(q: Request, limits: map<string, int>, windows: map<string, int>, now: int) {
    && q.key in limits && q.limit == limits[q.key] && q.key in windows && q.window == windows[q.key]
    && now <= q.now
  }

  /** Whatever request comes next, the limiter allows and reports what the unbounded counter would. */
  ghost predicate NextAsCounter(maxKeys: pos, t: Table, u: map<string, Window>,
                                limits: map<string, int>, windows: map<string, int>, now: int)
  {
    forall q, t', d :: Possible(q, limits, windows, now) && Checks(maxKeys, t, q, t', d) ==>
      (d.allowed, d.remaining) == (RefDecision(u, q).allowed, RefDecision(u, q).remaining)
  }

  /** The same against the shared backend's script. */
  ghost predicate NextAsScript(maxKeys: pos, t: Table, m: map<string, Counter>,
                               limits: map<string, int>, windows: map<string, int>, now: int)
  {
    forall q, t', d :: Possible(q, limits, windows, now) && Checks(maxKeys, t, q, t', d) ==>
      (d.allowed, d.remaining) == ScriptDecision(m, q)
  }

  function LiveEntry(c: map<string, Window>, k: string, window: int, now: int): Option<Window> {
    if k in c && Live(c[k], window, now) then Some(c[k]) else None
  }

  /** Both hold the same entries that are still inside their window. */
  ghost predicate SameLive(c: map<string, Window>, u: map<string, Window>, windows: map<string, int>, now: int) {
    forall k :: k in windows ==> LiveEntry(c, k, windows[k], now) == LiveEntry(u, k, windows[k], now)
  }

  // ---- What counters look like ----

  /** Entries belong to keys that can be granted, and count at least one grant and at most the limit. */
  ghost predicate Sound(c: map<string, Window>, limits: map<string, int>, windows: map<string, int>) {
    forall k :: k in c ==>
      k in limits && k in windows && windows[k] > 0 && 1 <= c[k].count <= limits[k]
  }

  lemma SoundStep(c: map<string, Window>, q: Request, limits: map<string, int>, windows: map<string, int>)
    requires Sound(c, limits, windows) && Possible(q, limits, windows, q.now) && !Refused(q)
    ensures Sound(c[q.key := After(Current(Lookup(c, q.key), q.window, q.now), q.limit)], limits, windows)
  {
  }

  lemma {:induction false} RefSound(rs: seq<Request>, limits: map<string, int>, windows: map<string, int>)
    requires FixedPerKey(rs, limits, windows)
    ensures Sound(RefRun(rs), limits, windows)
    decreases |rs|
  {
    if rs != [] {
      var before, r := rs[..|rs| - 1], rs[|rs| - 1];
      RefSound(before, limits, windows);
      if !Refused(r) { SoundStep(RefRun(before), r, limits, windows); }
    }
  }

  lemma TableSoundStep(maxKeys: pos, t: Table, r: Request, t': Table, d: Decision,
                       limits: map<string, int>, windows: map<string, int>)
    requires Sound(t.counts, limits, windows) && Possible(r, limits, windows, r.now) && Checks(maxKeys, t, r, t', d)
    ensures Sound(t'.counts, limits, windows)
  {
    if !Refused(r) {
      var c :| Roomed(Cleaned(t, maxKeys, r), maxKeys, r.key, c)
        && var w := Current(Lookup(c, r.key), r.window, r.now);
           t' == Table(c[r.key := After(w, r.limit)], t.operations + 1) && d == Decide(w, r);
      SoundStep(c, r, limits, windows);
    }
  }

  lemma {:induction false} TableSound(maxKeys: pos, ts: seq<Table>, rs: seq<Request>, ds: seq<Decision>,
                                      limits: map<string, int>, windows: map<string, int>, n: nat)
    requires IsRun(maxKeys, ts, rs, ds) && FixedPerKey(rs, limits, windows) && n < |ts|
    ensures Sound(ts[n].counts, limits, windows)
  {
    if n > 0 {
      TableSound(maxKeys, ts, rs, ds, limits, windows, n - 1);
      assert Checks(maxKeys, ts[n - 1], rs[n - 1], ts[n - 1 + 1], ds[n - 1]);
      TableSoundStep(maxKeys, ts[n - 1], rs[n - 1], ts[n], ds[n - 1], limits, windows);
    }
  }

  // ---- One request ----

  /** Cleanup and eviction do not touch what the request's own key is answered from. */
  lemma OwnDecision(maxKeys: pos, t: Table, q: Request, t': Table, d: Decision)
    requires Checks(maxKeys, t, q, t', d)
    ensures d == RefDecision(t.counts, q)
  {
    if !Refused(q) {
      var c :| Roomed(Cleaned(t, maxKeys, q), maxKeys, q.key, c)
        && var w := Current(Lookup(c, q.key), q.window, q.now);
           t' == Table(c[q.key := After(w, q.limit)], t.operations + 1) && d == Decide(w, q);
      assert Current(Lookup(c, q.key), q.window, q.now) == Current(Lookup(t.counts, q.key), q.window, q.now);
    }
  }

  lemma {:induction false} OldestExists(c: map<string, Window>)
    requires c != map[]
    ensures exists k :: Oldest(c, k)
    decreases |c|
  {
    var k :| k in c;
    var rest := c - {k};
    if rest == map[] {
      assert Oldest(c, k) by { assert forall o :: o in c && o != k ==> o in rest; }
    } else {
      assert rest.Keys == c.Keys - {k};
      OldestExists(rest);
      var o :| Oldest(rest, o);
      var best := if c[k].start <= c[o].start then k else o;
      assert forall e :: e in c ==> e == k || e in rest;
      assert Oldest(c, best);
    }
  }

  /** The limiter answers every request. */
  lemma SomeDecision(maxKeys: pos, t: Table, q: Request) returns (t': Table, d: Decision)
    ensures Checks(maxKeys, t, q, t', d)
  {
    if Refused(q) { return t, Refusal(q); }
    var base := Cleaned(t, maxKeys, q);
    var c := base;
    if q.key !in base && |base| >= maxKeys {
      OldestExists(base);
      var k :| Oldest(base, k);
      c := base - {k};
    }
    assert Roomed(base, maxKeys, q.key, c);
    var w := Current(Lookup(c, q.key), q.window, q.now);
    t', d := Table(c[q.key := After(w, q.limit)], t.operations + 1), Decide(w, q);
  }

  lemma LiveDecides(c: map<string, Window>, u: map<string, Window>, q: Request,
                    limits: map<string, int>, windows: map<string, int>, now: int)
    requires SameLive(c, u, windows, now) && Possible(q, limits, windows, now)
    ensures RefDecision(c, q) == RefDecision(u, q)
  {
    assert LiveEntry(c, q.key, q.window, now) == LiveEntry(u, q.key, q.window, now);
  }

  /** Tables that differ in a live entry answer some request of that key differently: at once if
      the counts differ, otherwise when the earlier of the two windows ends. */
  lemma Distinguished(c: map<string, Window>, u: map<string, Window>, k: string,
                      limits: map<string, int>, windows: map<string, int>, now: int) returns (q: Request)
    requires Sound(c, limits, windows) && Sound(u, limits, windows) && k in windows
    requires LiveEntry(c, k, windows[k], now) != LiveEntry(u, k, windows[k], now)
    ensures q.key == k && Possible(q, limits, windows, now)
    ensures (RefDecision(c, q).allowed, RefDecision(c, q).remaining) !=
            (RefDecision(u, q).allowed, RefDecision(u, q).remaining)
  {
    var window := windows[k];
    var x, y := LiveEntry(c, k, window, now), LiveEntry(u, k, window, now);
    var at := now;
    if x.Some? && y.Some? && x.value.count == y.value.count {
      at := Span(window) + if x.value.start < y.value.start then x.value.start else y.value.start;
    }
    q := Request(k, limits[k], window, at);
  }

  /** In any state: every possible next request is answered as by the unbounded counter if and
      only if the two hold the same live entries. */
  lemma NextExactly(maxKeys: pos, t: Table, u: map<string, Window>,
                    limits: map<string, int>, windows: map<string, int>, now: int)
    requires Sound(t.counts, limits, windows) && Sound(u, limits, windows)
    ensures NextAsCounter(maxKeys, t, u, limits, windows, now) <==> SameLive(t.counts, u, windows, now)
  {
    if SameLive(t.counts, u, windows, now) {
      forall q, t', d | Possible(q, limits, windows, now) && Checks(maxKeys, t, q, t', d)
        ensures (d.allowed, d.remaining) == (RefDecision(u, q).allowed, RefDecision(u, q).remaining)
      {
        OwnDecision(maxKeys, t, q, t', d);
        LiveDecides(t.counts, u, q, limits, windows, now);
      }
    } else {
      var k :| k in windows && LiveEntry(t.counts, k, windows[k], now) != LiveEntry(u, k, windows[k], now);
      var q := Distinguished(t.counts, u, k, limits, windows, now);
      var t', d := SomeDecision(maxKeys, t, q);
      OwnDecision(maxKeys, t, q, t', d);
    }
  }

  lemma CounterOrScript(maxKeys: pos, t: Table, u: map<string, Window>, m: map<string, Counter>,
                        limits: map<string, int>, windows: map<string, int>, now: int)
    requires Bisimilar(u, m, limits, windows)
    ensures NextAsCounter(maxKeys, t, u, limits, windows, now) <==> NextAsScript(maxKeys, t, m, limits, windows, now)
  {
    forall q | Possible(q, limits, windows, now)
      ensures (RefDecision(u, q).allowed, RefDecision(u, q).remaining) == ScriptDecision(m, q)
    {
      if !Refused(q) { BisimilarStep(u, m, q, limits, windows); }
    }
  }

  // ---- Whole runs ----

  /** The time of the last request before the n-th. */
  function Since(rs: seq<Request>, n: nat): int
    requires n <= |rs|
  {
    if n == 0 then 0 else rs[n - 1].now
  }

  /** In every run, crowded or not, and after every request of it: the limiter answers whatever
      comes next as the script would if and only if it holds the live entries of the unbounded
      counter. */
  lemma NextOfRun(maxKeys: pos, ts: seq<Table>, rs: seq<Request>, ds: seq<Decision>,
                  limits: map<string, int>, windows: map<string, int>, n: nat)
    requires IsRun(maxKeys, ts, rs, ds) && FixedPerKey(rs, limits, windows) && n <= |rs|
    ensures NextAsScript(maxKeys, ts[n], ScriptRun(rs[..n]), limits, windows, Since(rs, n)) <==>
            SameLive(ts[n].counts, RefRun(rs[..n]), windows, Since(rs, n))
  {
    TableSound(maxKeys, ts, rs, ds, limits, windows, n);
    RefSound(rs[..n], limits, windows);
    BackendsAgree(rs[..n], limits, windows);
    NextExactly(maxKeys, ts[n], RefRun(rs[..n]), limits, windows, Since(rs, n));
    CounterOrScript(maxKeys, ts[n], RefRun(rs[..n]), ScriptRun(rs[..n]), limits, windows, Since(rs, n));
  }

  /** A dropped live entry is missing afterwards. */
  lemma DropShows(maxKeys: pos, ts: seq<Table>, rs: seq<Request>, ds: seq<Decision>, windows: map<string, int>,
                  i: nat, k: string)
    requires IsRun(maxKeys, ts, rs, ds) && Monotone(rs) && i < |rs|
    requires k in ts[i].counts && k != rs[i].key && k in windows && Live(ts[i].counts[k], windows[k], rs[i].now)
    requires k !in ts[i + 1].counts
    requires SameLive(ts[i].counts, RefRun(rs[..i]), windows, Since(rs, i))
    ensures !SameLive(ts[i + 1].counts, RefRun(rs[..i + 1]), windows, Since(rs, i + 1))
  {
    assert rs[..i + 1][..i] == rs[..i] && rs[..i + 1][i] == rs[i];
    var window := windows[k];
    assert i > 0;
    assert Since(rs, i) <= rs[i].now;
    assert LiveEntry(ts[i].counts, k, window, Since(rs, i)) == LiveEntry(RefRun(rs[..i]), k, window, Since(rs, i));
    assert LiveEntry(RefRun(rs[..i + 1]), k, window, rs[i].now).Some?;
    assert LiveEntry(ts[i + 1].counts, k, window, rs[i].now).None?;
  }

  lemma KeptMeansSame(maxKeys: pos, ts: seq<Table>, rs: seq<Request>, ds: seq<Decision>,
                      limits: map<string, int>, windows: map<string, int>, n: nat)
    requires IsRun(maxKeys, ts, rs, ds) && FixedPerKey(rs, limits, windows) && Monotone(rs) && n <= |rs|
    requires KeepsLive(ts, rs, windows)
    ensures SameLive(ts[n].counts, RefRun(rs[..n]), windows, Since(rs, n))
  {
    if n > 0 { LimiterAgrees(maxKeys, ts, rs, ds, limits, windows, n - 1); }
  }

  /** The limiter answers every possible request after every beginning of a run as the script
      would if and only if the run never drops an entry of another key inside its window. */
  lemma LimiterExact(maxKeys: pos, ts: seq<Table>, rs: seq<Request>, ds: seq<Decision>,
                     limits: map<string, int>, windows: map<string, int>)
    requires IsRun(maxKeys, ts, rs, ds) && FixedPerKey(rs, limits, windows) && Monotone(rs)
    ensures (forall n: nat :: n <= |rs| ==>
               NextAsScript(maxKeys, ts[n], ScriptRun(rs[..n]), limits, windows, Since(rs, n)))
            <==> KeepsLive(ts, rs, windows)
  {
    forall n: nat | n <= |rs|
      ensures NextAsScript(maxKeys, ts[n], ScriptRun(rs[..n]), limits, windows, Since(rs, n)) <==>
              SameLive(ts[n].counts, RefRun(rs[..n]), windows, Since(rs, n))
      ensures KeepsLive(ts, rs, windows) ==> SameLive(ts[n].counts, RefRun(rs[..n]), windows, Since(rs, n))
    {
      NextOfRun(maxKeys, ts, rs, ds, limits, windows, n);
      if KeepsLive(ts, rs, windows) { KeptMeansSame(maxKeys, ts, rs, ds, limits, windows, n); }
    }
    if !KeepsLive(ts, rs, windows) {
      var i: nat, k :| i < |rs| && k in ts[i].counts && k != rs[i].key && k in windows
        && Live(ts[i].counts[k], windows[k], rs[i].now) && k !in ts[i + 1].counts;
      if SameLive(ts[i].counts, RefRun(rs[..i]), windows, Since(rs, i)) {
        DropShows(maxKeys, ts, rs, ds, windows, i, k);
      }
      assert i + 1 <= |rs|;
    }
  }
}
