/** Concurrent `get_or_set` callers, interleaved at every look-up, lock and store. */
module CacheProtocol {
  import opened Text
  import opened Cache

  /** Where a caller stands. */
  datatype Pc =
    | Start
    | Fetching              // looked up and missed; the lock is not fetched yet
    | Waiting(id: nat)      // holds a reference to a lock object
    | Holding(id: nat)      // inside the lock, before the second lookup
    | Running(id: nat)      // the factory is running
    | Storing(id: nat, v: Value)
    | Finished(v: Value)
    | Failed

  datatype Caller = Caller(key: string, ttl: int, pc: Pc)

  /** Shared state. `made` records, per key, every value a factory produced or a caller set;
      `runs` how often a factory was started for the key. */
  datatype State = State(
    store: Store,
    registry: map<string, nat>,
    nextLock: nat,
    held: map<nat, nat>,
    callers: map<nat, Caller>,
    now: int,
    made: map<string, set<Value>>,
    runs: map<string, nat>)

  datatype Step =
    | Arrive(p: nat, key: string, ttl: int)
    | FirstLookup(p: nat)
    | FetchLock(p: nat)
    | Acquire(p: nat)
    | SecondLookup(p: nat)
    | Produce(p: nat, outcome: Option<Value>)  // None: the factory raised
    | StoreValue(p: nat)
    | ExternalSet(key: string, value: Value, ttl: int)
    | ExternalDelete(key: string)
    | Tick(ms: nat)

  const INITIAL := State(map[], map[], 0, map[], map[], 0, map[], map[])

  predicate InCritical(pc: Pc) { pc.Holding? || pc.Running? || pc.Storing? }

  function MadeOf(s: State, key: string): set<Value> { if key in s.made then s.made[key] else {} }

  function RunsOf(s: State, key: string): nat { if key in s.runs then s.runs[key] else 0 }

  function Moved(s: State, p: nat, pc: Pc): map<nat, Caller>
    requires p in s.callers
  {
    s.callers[p := s.callers[p].(pc := pc)]
  }

  /** One interleaved step. Leaving the locked block, by a return or by an exception, frees the lock. */
  ghost predicate Next(max: pos, s: State, step: Step, s': State) {
    match step
    case Arrive(p, key, ttl) =>
      p !in s.callers && s' == s.(callers := s.callers[p := Caller(key, ttl, Start)])
    case FirstLookup(p) =>
      p in s.callers && s.callers[p].pc.Start? &&
      (var v := Read(s.store, s.callers[p].key, s.now);
       s' == s.(store := AfterRead(s.store, s.callers[p].key, s.now),
                callers := Moved(s, p, if v != Nil then Finished(v) else Fetching)))
    case FetchLock(p) =>
      p in s.callers && s.callers[p].pc.Fetching? &&
      (var key := s.callers[p].key;
       if key in s.registry then s' == s.(callers := Moved(s, p, Waiting(s.registry[key])))
       else s' == s.(registry := s.registry[key := s.nextLock], nextLock := s.nextLock + 1,
                     callers := Moved(s, p, Waiting(s.nextLock))))
    case Acquire(p) =>
      p in s.callers && s.callers[p].pc.Waiting? && s.callers[p].pc.id !in s.held &&
      s' == s.(held := s.held[s.callers[p].pc.id := p], callers := Moved(s, p, Holding(s.callers[p].pc.id)))
    case SecondLookup(p) =>
      p in s.callers && s.callers[p].pc.Holding? &&
      (var c := s.callers[p];
       var v := Read(s.store, c.key, s.now);
       var store := AfterRead(s.store, c.key, s.now);
       if v != Nil then s' == s.(store := store, held := s.held - {c.pc.id}, callers := Moved(s, p, Finished(v)))
       else s' == s.(store := store, callers := Moved(s, p, Running(c.pc.id)),
                     runs := s.runs[c.key := RunsOf(s, c.key) + 1]))
    case Produce(p, outcome) =>
      p in s.callers && s.callers[p].pc.Running? &&
      (var c := s.callers[p];
       match outcome
       case None => s' == s.(held := s.held - {c.pc.id}, callers := Moved(s, p, Failed))
       case Some(v) => s' == s.(callers := Moved(s, p, Storing(c.pc.id, v)),
                                made := s.made[c.key := MadeOf(s, c.key) + {v}]))
    case StoreValue(p) =>
      p in s.callers && s.callers[p].pc.Storing? &&
      (var c := s.callers[p];
       if c.ttl <= 0 then s' == s.(held := s.held - {c.pc.id}, callers := Moved(s, p, Failed))
       else
         && Stores(max, s.store, c.key, Entry(s.now + c.ttl, c.pc.v), s'.store)
         && s' == s.(store := s'.store, held := s.held - {c.pc.id}, callers := Moved(s, p, Finished(c.pc.v))))
    case ExternalSet(key, value, ttl) =>
      && ttl > 0
      && Stores(max, s.store, key, Entry(s.now + ttl, value), s'.store)
      && s' == s.(store := s'.store, made := s.made[key := MadeOf(s, key) + {value}])
    case ExternalDelete(key) => s' == s.(store := s.store - {key})
    case Tick(ms) => s' == s.(now := s.now + ms)
  }

  ghost predicate IsTrace(max: pos, ss: seq<State>, steps: seq<Step>) {
    && |ss| == |steps| + 1 && ss[0] == INITIAL
    && forall i :: 0 <= i < |steps| ==> Next(max, ss[i], steps[i], ss[i + 1])
  }

  // ---- Locks: one object per key, one caller inside ----

  ghost predicate LocksOk(s: State) {
    && (forall k :: k in s.registry ==> s.registry[k] < s.nextLock)
    && (forall k, l :: k in s.registry && l in s.registry && s.registry[k] == s.registry[l] ==> k == l)
    && (forall p :: p in s.callers && (s.callers[p].pc.Waiting? || InCritical(s.callers[p].pc)) ==>
          s.callers[p].key in s.registry && s.registry[s.callers[p].key] == s.callers[p].pc.id)
    && (forall p :: p in s.callers && InCritical(s.callers[p].pc) ==>
          s.callers[p].pc.id in s.held && s.held[s.callers[p].pc.id] == p)
  }

  predicate Refers(pc: Pc) { pc.Waiting? || InCritical(pc) }

  lemma LocksKept(max: pos, s: State, step: Step, s': State)
    requires LocksOk(s) && Next(max, s, step, s')
    ensures LocksOk(s')
  {
    match step
    case Arrive(p, key, ttl) => OutsideKept(s, p, s');
    case FirstLookup(p) => OutsideKept(s, p, s');
    case FetchLock(p) => FetchKept(s, p, s');
    case Acquire(p) => AcquireKept(s, p, s');
    case SecondLookup(p) => SecondLookupLocks(max, s, p, s');
    case Produce(p, outcome) => ProduceLocks(max, s, p, outcome, s');
    case StoreValue(p) => StoreLocks(max, s, p, s');
    case _ =>
      assert s'.registry == s.registry && s'.nextLock == s.nextLock && s'.held == s.held && s'.callers == s.callers;
  }

  lemma SecondLookupLocks(max: pos, s: State, p: nat, s': State)
    requires LocksOk(s) && Next(max, s, SecondLookup(p), s')
    ensures LocksOk(s')
  {
    InsideOrLeave(s, p, s');
  }

  lemma ProduceLocks(max: pos, s: State, p: nat, outcome: Option<Value>, s': State)
    requires LocksOk(s) && Next(max, s, Produce(p, outcome), s')
    ensures LocksOk(s')
  {
    InsideOrLeave(s, p, s');
  }

  lemma StoreLocks(max: pos, s: State, p: nat, s': State)
    requires LocksOk(s) && Next(max, s, StoreValue(p), s')
    ensures LocksOk(s')
  {
    InsideOrLeave(s, p, s');
  }

  /** A caller without a lock moves to another place without one. */
  lemma OutsideKept(s: State, p: nat, s': State)
    requires LocksOk(s) && s'.registry == s.registry && s'.nextLock == s.nextLock && s'.held == s.held
    requires p in s'.callers && s'.callers == s.callers[p := s'.callers[p]] && !Refers(s'.callers[p].pc)
    ensures LocksOk(s')
  {
  }

  /** The first caller of a key makes its lock; later ones get the same. */
  lemma FetchKept(s: State, p: nat, s': State)
    requires LocksOk(s) && p in s.callers && s.callers[p].pc.Fetching? && s'.held == s.held
    requires var key := s.callers[p].key;
             if key in s.registry then
               s'.registry == s.registry && s'.nextLock == s.nextLock &&
               s'.callers == Moved(s, p, Waiting(s.registry[key]))
             else
               s'.registry == s.registry[key := s.nextLock] && s'.nextLock == s.nextLock + 1
               && s'.callers == Moved(s, p, Waiting(s.nextLock))
    ensures LocksOk(s')
  {
    forall k, l | k in s'.registry && l in s'.registry && s'.registry[k] == s'.registry[l] ensures k == l {
    }
  }

  lemma AcquireKept(s: State, p: nat, s': State)
    requires LocksOk(s) && p in s.callers && s.callers[p].pc.Waiting? && s.callers[p].pc.id !in s.held
    requires s' == s.(held := s.held[s.callers[p].pc.id := p], callers := Moved(s, p, Holding(s.callers[p].pc.id)))
    ensures LocksOk(s')
  {
  }

  /** A caller inside its lock stays inside, or leaves and frees it. */
  lemma InsideOrLeave(s: State, p: nat, s': State)
    requires LocksOk(s) && p in s.callers && InCritical(s.callers[p].pc)
    requires s'.registry == s.registry && s'.nextLock == s.nextLock
    requires p in s'.callers && s'.callers == s.callers[p := s'.callers[p]] && s'.callers[p].key == s.callers[p].key
    requires
      || (s'.held == s.held && InCritical(s'.callers[p].pc) && s'.callers[p].pc.id == s.callers[p].pc.id)
      || (s'.held == s.held - {s.callers[p].pc.id} && !Refers(s'.callers[p].pc))
    ensures LocksOk(s')
  {
    ReleaseSafe(s, p);
  }

  /** No other caller is inside a lock that p holds, so freeing it takes nothing from anyone. */
  lemma ReleaseSafe(s: State, p: nat)
    requires LocksOk(s) && p in s.callers && InCritical(s.callers[p].pc)
    ensures forall q :: q in s.callers && q != p && InCritical(s.callers[q].pc) ==>
              s.callers[q].pc.id != s.callers[p].pc.id
  {
  }

  lemma {:induction false} LocksAlways(max: pos, ss: seq<State>, steps: seq<Step>, i: nat)
    requires IsTrace(max, ss, steps) && i < |ss|
    ensures LocksOk(ss[i])
  {
    if i > 0 {
      LocksAlways(max, ss, steps, i - 1);
      var j := i - 1;
      assert Next(max, ss[j], steps[j], ss[j + 1]);
      LocksKept(max, ss[j], steps[j], ss[i]);
    }
  }

  /** In every interleaving at most one caller per key is between taking the lock and leaving
      it, so at most one factory runs for a key at any time. */
  lemma OneFactoryPerKey(max: pos, ss: seq<State>, steps: seq<Step>, i: nat, p: nat, q: nat)
    requires IsTrace(max, ss, steps) && i < |ss|
    requires p in ss[i].callers && q in ss[i].callers && ss[i].callers[p].key == ss[i].callers[q].key
    requires InCritical(ss[i].callers[p].pc) && InCritical(ss[i].callers[q].pc)
    ensures p == q
  {
    LocksAlways(max, ss, steps, i);
  }

  // ---- Provenance: values never cross keys ----

  ghost predicate SourcesOk(s: State) {
    && (forall k :: k in s.store ==> s.store[k].value in MadeOf(s, k))
    && (forall p :: p in s.callers && (s.callers[p].pc.Storing? || s.callers[p].pc.Finished?) ==>
          s.callers[p].pc.v in MadeOf(s, s.callers[p].key))
  }

  lemma StoredFrom(max: pos, s: Store, key: string, e: Entry, s': Store, k: string)
    requires Stores(max, s, key, e, s') && k in s'
    ensures if k == key then s'[k] == e else k in s && s'[k] == s[k]
  {
  }

  lemma SourcesKept(max: pos, s: State, step: Step, s': State)
    requires SourcesOk(s) && Next(max, s, step, s')
    ensures SourcesOk(s')
  {
    match step
    case Arrive(p, key, ttl) => ReleasedSources(s, p, s');
    case FirstLookup(p) => LookupSources(s, p, s');
    case FetchLock(p) => ReleasedSources(s, p, s');
    case Acquire(p) => ReleasedSources(s, p, s');
    case SecondLookup(p) => LookupSources(s, p, s');
    case Produce(p, outcome) => ProduceSources(max, s, p, outcome, s');
    case StoreValue(p) => StoreValueSources(max, s, p, s');
    case ExternalSet(key, value, ttl) => ExternalSetSources(max, s, key, value, ttl, s');
    case ExternalDelete(key) =>
    case Tick(ms) =>
  }

  lemma StoreValueSources(max: pos, s: State, p: nat, s': State)
    requires SourcesOk(s) && Next(max, s, StoreValue(p), s')
    ensures SourcesOk(s')
  {
    var c := s.callers[p];
    if c.ttl > 0 {
      StoreSources(max, s, c.key, Entry(s.now + c.ttl, c.pc.v), s');
    } else {
      ReleasedSources(s, p, s');
    }
  }

  /** A caller that leaves without a value adds nothing. */
  lemma ReleasedSources(s: State, p: nat, s': State)
    requires SourcesOk(s) && p in s'.callers && s'.callers == s.callers[p := s'.callers[p]]
    requires s'.store == s.store && s'.made == s.made
    requires !s'.callers[p].pc.Storing? && !s'.callers[p].pc.Finished?
    ensures SourcesOk(s')
  {
  }

  lemma ProduceSources(max: pos, s: State, p: nat, outcome: Option<Value>, s': State)
    requires SourcesOk(s) && Next(max, s, Produce(p, outcome), s')
    ensures SourcesOk(s')
  {
    if outcome.None? { ReleasedSources(s, p, s'); }
  }

  lemma ExternalSetSources(max: pos, s: State, key: string, value: Value, ttl: int, s': State)
    requires SourcesOk(s) && Next(max, s, ExternalSet(key, value, ttl), s')
    ensures SourcesOk(s')
  {
    StoreSources(max, s, key, Entry(s.now + ttl, value), s');
  }

  /** What a lookup returns was stored under its key. */
  lemma LookupSources(s: State, p: nat, s': State)
    requires SourcesOk(s) && p in s.callers && p in s'.callers
    requires s'.store == AfterRead(s.store, s.callers[p].key, s.now) && s'.made == s.made
    requires s'.callers == s.callers[p := s'.callers[p]] && s'.callers[p].key == s.callers[p].key
    requires var v := Read(s.store, s.callers[p].key, s.now);
             if v != Nil then s'.callers[p].pc == Finished(v)
             else !s'.callers[p].pc.Storing? && !s'.callers[p].pc.Finished?
    ensures SourcesOk(s')
  {
  }

  lemma StoreSources(max: pos, s: State, key: string, e: Entry, s': State)
    requires SourcesOk(s) && Stores(max, s.store, key, e, s'.store)
    requires forall k :: MadeOf(s, k) <= MadeOf(s', k)
    requires e.value in MadeOf(s', key)
    requires forall p :: p in s'.callers && (s'.callers[p].pc.Storing? || s'.callers[p].pc.Finished?) ==>
               s'.callers[p].pc.v in MadeOf(s', s'.callers[p].key)
    ensures SourcesOk(s')
  {
    forall k | k in s'.store ensures s'.store[k].value in MadeOf(s', k) {
      StoredFrom(max, s.store, key, e, s'.store, k);
    }
  }

  /** Every value a caller returns was produced by a factory, or set, for that caller's key. */
  lemma {:induction false} ReturnsOwnKey(max: pos, ss: seq<State>, steps: seq<Step>, i: nat)
    requires IsTrace(max, ss, steps) && i < |ss|
    ensures SourcesOk(ss[i])
  {
    if i > 0 {
      var j := i - 1;
      ReturnsOwnKey(max, ss, steps, j);
      assert Next(max, ss[j], steps[j], ss[j + 1]);
      SourcesKept(max, ss[j], steps[j], ss[i]);
    }
  }

  // ---- Quiet runs: one factory run per key ----

  /** Nothing expires under a lookup, nothing is evicted, deleted or set from outside, no
      factory fails or produces None. */
  ghost predicate Quiet(max: pos, s: State, step: Step) {
    match step
    case FirstLookup(p) => p in s.callers ==> Fresh(s, s.callers[p].key)
    case SecondLookup(p) => p in s.callers ==> Fresh(s, s.callers[p].key)
    case Produce(_, outcome) => outcome.Some? && outcome.value != Nil
    case StoreValue(p) => p in s.callers ==> s.callers[p].ttl > 0 && (|s.store| < max || s.callers[p].key in s.store)
    case ExternalSet(_, _, _) => false
    case ExternalDelete(_) => false
    case _ => true
  }

  predicate Fresh(s: State, key: string) {
    key in s.store ==> Live(s.store[key], s.now)
  }

  predicate Active(pc: Pc) { pc.Running? || pc.Storing? }

  /** For one key: no run yet; or one run under way with nothing stored and nobody finished; or
      one run over, its value stored, and returned by everyone who has finished. */
  ghost predicate Single(s: State, k: string) {
    && (k in s.store ==>
          s.store[k].value != Nil && RunsOf(s, k) == 1
          && (forall p :: p in s.callers && s.callers[p].key == k ==> !Active(s.callers[p].pc))
          && forall p :: p in s.callers && s.callers[p].key == k && s.callers[p].pc.Finished? ==>
               s.callers[p].pc.v == s.store[k].value)
    && (k !in s.store ==>
          RunsOf(s, k) <= 1
          && (RunsOf(s, k) == 1 ==> exists p :: p in s.callers && s.callers[p].key == k && Active(s.callers[p].pc))
          && (RunsOf(s, k) == 0 ==> forall p :: p in s.callers && s.callers[p].key == k ==> !Active(s.callers[p].pc))
          && forall p :: p in s.callers && s.callers[p].key == k ==> !s.callers[p].pc.Finished?)
    && (forall p :: p in s.callers && s.callers[p].pc.Storing? ==> s.callers[p].pc.v != Nil)
  }

  lemma SingleKept(max: pos, s: State, step: Step, s': State, k: string)
    requires LocksOk(s) && Next(max, s, step, s') && Quiet(max, s, step) && Single(s, k)
    ensures Single(s', k)
  {
    match step
    case Arrive(p, key, ttl) => SameCallers(s, s', p, k);
    case FirstLookup(p) => SameCallers(s, s', p, k);
    case FetchLock(p) => SameCallers(s, s', p, k);
    case Acquire(p) => SameCallers(s, s', p, k);
    case SecondLookup(p) => SecondLookupKept(max, s, p, s', k);
    case Produce(p, outcome) => ProduceKept(max, s, p, outcome, s', k);
    case StoreValue(p) => StoreKept(max, s, p, s', k);
    case ExternalSet(key, value, ttl) =>
    case ExternalDelete(key) =>
    case Tick(ms) =>
      if k !in s.store && RunsOf(s, k) == 1 {
        var q :| q in s.callers && s.callers[q].key == k && Active(s.callers[q].pc);
        assert q in s'.callers;
      }
  }

  /** Steps that neither start nor end a factory run keep the picture of the key. */
  lemma SameCallers(s: State, s': State, p: nat, k: string)
    requires Single(s, k)
    requires s'.store == s.store && s'.runs == s.runs
    requires p in s'.callers && s'.callers == s.callers[p := s'.callers[p]]
    requires p in s.callers ==> s.callers[p].key == s'.callers[p].key && !Active(s.callers[p].pc)
    requires !Active(s'.callers[p].pc)
    requires s'.callers[p].pc.Finished? ==>
               s'.callers[p].key in s.store && s'.callers[p].pc.v == s.store[s'.callers[p].key].value
    ensures Single(s', k)
  {
    if k !in s.store && RunsOf(s, k) == 1 {
      var q :| q in s.callers && s.callers[q].key == k && Active(s.callers[q].pc);
      assert q != p && q in s'.callers;
    }
  }

  lemma SecondLookupKept(max: pos, s: State, p: nat, s': State, k: string)
    requires LocksOk(s) && Single(s, k)
    requires Next(max, s, SecondLookup(p), s') && Quiet(max, s, SecondLookup(p))
    ensures Single(s', k)
  {
    var c := s.callers[p];
    if c.key == k && k !in s.store {
      // p is inside the lock and not active, so no one is active on this key
      ReleaseSafe(s, p);
      assert RunsOf(s, k) == 0;
      assert p in s'.callers && Active(s'.callers[p].pc);
    } else if Read(s.store, c.key, s.now) != Nil {
      SameCallers(s, s', p, k);
    } else {
      OtherKeyKept(s, s', p, k);
    }
  }

  lemma OtherKeyKept(s: State, s': State, p: nat, k: string)
    requires Single(s, k) && p in s.callers && p in s'.callers
    requires k in s.store <==> k in s'.store
    requires k in s.store ==> s'.store[k] == s.store[k]
    requires RunsOf(s', k) == RunsOf(s, k)
    requires s'.callers == s.callers[p := s'.callers[p]]
    requires s.callers[p].key == s'.callers[p].key != k
    requires s'.callers[p].pc.Storing? ==> s'.callers[p].pc.v != Nil
    ensures Single(s', k)
  {
    if k !in s.store && RunsOf(s, k) == 1 {
      var q :| q in s.callers && s.callers[q].key == k && Active(s.callers[q].pc);
      assert q != p && q in s'.callers;
    }
  }

  lemma ProduceKept(max: pos, s: State, p: nat, outcome: Option<Value>, s': State, k: string)
    requires LocksOk(s) && Single(s, k)
    requires Next(max, s, Produce(p, outcome), s') && Quiet(max, s, Produce(p, outcome))
    ensures Single(s', k)
  {
    if s.callers[p].key == k {
      assert p in s'.callers && Active(s'.callers[p].pc);
    } else {
      OtherKeyKept(s, s', p, k);
    }
  }

  /** The only active caller of a key has stored the key's first value. */
  lemma FinishedKey(s: State, s': State, p: nat, k: string)
    requires Single(s, k) && k !in s.store && s'.runs == s.runs
    requires p in s.callers && s.callers[p].key == k && s.callers[p].pc.Storing?
    requires forall q :: q in s.callers && q != p && s.callers[q].key == k ==> !Active(s.callers[q].pc)
    requires s'.callers == Moved(s, p, Finished(s.callers[p].pc.v))
    requires k in s'.store && s'.store[k].value == s.callers[p].pc.v
    ensures Single(s', k)
  {
  }

  lemma StoreKept(max: pos, s: State, p: nat, s': State, k: string)
    requires LocksOk(s) && Single(s, k)
    requires Next(max, s, StoreValue(p), s') && Quiet(max, s, StoreValue(p))
    ensures Single(s', k)
  {
    var c := s.callers[p];
    if c.key == k {
      ReleaseSafe(s, p);
      assert k !in s.store;
      FinishedKey(s, s', p, k);
    } else {
      OtherKeyKept(s, s', p, k);
    }
  }

  /** In a quiet run each key's factory starts at most once and all callers of the key that
      have returned, returned the same value. */
  lemma {:induction false} SingleFlight(max: pos, ss: seq<State>, steps: seq<Step>, i: nat, k: string)
    requires IsTrace(max, ss, steps) && i < |ss|
    requires forall j :: 0 <= j < |steps| ==> Quiet(max, ss[j], steps[j])
    ensures Single(ss[i], k)
    ensures RunsOf(ss[i], k) <= 1
    ensures forall p, q :: p in ss[i].callers && q in ss[i].callers
              && ss[i].callers[p].key == k && ss[i].callers[q].key == k
              && ss[i].callers[p].pc.Finished? && ss[i].callers[q].pc.Finished?
              ==> ss[i].callers[p].pc.v == ss[i].callers[q].pc.v
  {
    if i > 0 {
      var j := i - 1;
      SingleFlight(max, ss, steps, j, k);
      LocksAlways(max, ss, steps, j);
      assert Next(max, ss[j], steps[j], ss[j + 1]) && Quiet(max, ss[j], steps[j]);
      SingleKept(max, ss[j], steps[j], ss[i], k);
    }
  }
}
