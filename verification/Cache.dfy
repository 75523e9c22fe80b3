/** The in-process TTL cache: a bounded table that evicts the entry expiring soonest. */
module Cache {
  import opened Text

  /** Cached values; Nil is Python's None, which a lookup cannot tell from absence. */
  datatype Value = Nil | Val(id: int)

  datatype Entry = Entry(expires: int, value: Value)

  type Store = map<string, Entry>

  predicate Live(e: Entry, now: int) { now < e.expires }

  /** What a lookup returns. */
  function Read(s: Store, key: string, now: int): Value {
    if key in s && Live(s[key], now) then s[key].value else Nil
  }

  /** A lookup drops the entry it finds expired. */
  function AfterRead(s: Store, key: string, now: int): Store {
    if key in s && !Live(s[key], now) then s - {key} else s
  }

  predicate Soonest(s: Store, k: string) {
    k in s && forall o :: o in s ==> s[k].expires <= s[o].expires
  }

  /** Storing under a new key in a full table first evicts an entry that expires soonest. */
  ghost predicate Stores(max: pos, s: Store, key: string, e: Entry, s': Store) {
    if |s| >= max && key !in s then exists k :: Soonest(s, k) && s' == (s - {k})[key := e]
    else s' == s[key := e]
  }

  class MemoryCache {
    var store: Store
    const max: pos

    constructor (maxEntries: int)
      ensures store == map[] && max == if maxEntries > 1 then maxEntries else 1
    {
      store := map[];
      max := if maxEntries > 1 then maxEntries else 1;
    }

    method GetRaw(key: string, now: int) returns (v: Value)
      modifies this
      ensures v == Read(old(store), key, now)
      ensures store == AfterRead(old(store), key, now)
    {
      if key !in store { return Nil; }
      var item := store[key];
      if item.expires <= now {
        store := store - {key};
        return Nil;
      }
      return item.value;
    }

    /** A non-positive time to live is refused before anything changes. */
    method Set(key: string, value: Value, ttl: int, now: int) returns (ok: bool)
      modifies this
      ensures ok == (ttl > 0)
      ensures if ok then Stores(max, old(store), key, Entry(now + ttl, value), store) else store == old(store)
    {
      if ttl <= 0 { return false; }
      if |store| >= max && key !in store {
        var oldest := FindSoonest();
        store := store - {oldest};
      }
      store := store[key := Entry(now + ttl, value)];
      return true;
    }

    method Delete(key: string)
      modifies this
      ensures store == old(store) - {key}
    {
      store := store - {key};
    }

    method FindSoonest() returns (k: string)
      requires |store| > 0
      ensures Soonest(store, k)
    {
      assert store != map[];
      k :| k in store;
      var todo := store.Keys - {k};
      while todo != {}
        invariant k in store && todo <= store.Keys
        invariant forall o :: o in store.Keys - todo ==> store[k].expires <= store[o].expires
        decreases todo
      {
        var o :| o in todo;
        if store[o].expires < store[k].expires { k := o; }
        todo := todo - {o};
      }
    }
  }

  // ---- The table against an unbounded one ----

  datatype Call = Get(key: string) | Put(key: string, value: Value, ttl: int) | Drop(key: string)

  datatype Timed = Timed(call: Call, now: int)

  /** The table before and after a call, and what the call returned. */
  ghost predicate CallStep(max: pos, s: Store, c: Timed, s': Store, got: Value) {
    match c.call
    case Get(k) => got == Read(s, k, c.now) && s' == AfterRead(s, k, c.now)
    case Put(k, v, ttl) =>
      got == Nil && if ttl > 0 then Stores(max, s, k, Entry(c.now + ttl, v), s') else s' == s
    case Drop(k) => got == Nil && s' == s - {k}
  }

  /** The unbounded reference: entries leave only by being replaced or deleted. */
  function RefStep(u: Store, c: Timed): Store {
    match c.call
    case Get(_) => u
    case Put(k, v, ttl) => if ttl > 0 then u[k := Entry(c.now + ttl, v)] else u
    case Drop(k) => u - {k}
  }

  function RefRun(cs: seq<Timed>): Store {
    if cs == [] then map[] else RefStep(RefRun(cs[..|cs| - 1]), cs[|cs| - 1])
  }

  ghost predicate IsRun(max: pos, ss: seq<Store>, cs: seq<Timed>, gots: seq<Value>) {
    && |ss| == |cs| + 1 && |gots| == |cs| && ss[0] == map[]
    && (forall i :: 0 <= i < |cs| ==> CallStep(max, ss[i], cs[i], ss[i + 1], gots[i]))
    && forall i, j :: 0 <= i <= j < |cs| ==> cs[i].now <= cs[j].now
  }

  function LiveKeys(u: Store, now: int): set<string> {
    set k | k in u && Live(u[k], now)
  }

  /** At each insertion fewer than max other keys are live. */
  ghost predicate Uncrowded(cs: seq<Timed>, max: pos) {
    forall i :: 0 <= i < |cs| && cs[i].call.Put? ==>
      |LiveKeys(RefRun(cs[..i]), cs[i].now) - {cs[i].call.key}| < max
  }

  ghost predicate Agrees(s: Store, u: Store, now: int) {
    && (forall k :: k in s ==> k in u && s[k] == u[k])
    && (forall k :: k in u && Live(u[k], now) ==> k in s)
  }

  lemma StoreSize(max: pos, s: Store, key: string, e: Entry, s': Store)
    requires |s| <= max && Stores(max, s, key, e, s')
    ensures |s'| <= max
  {
    if |s| >= max && key !in s {
      var k :| Soonest(s, k) && s' == (s - {k})[key := e];
      assert s'.Keys == s.Keys - {k} + {key};
    } else if key in s {
      assert s'.Keys == s.Keys;
    } else {
      assert s'.Keys == s.Keys + {key};
    }
  }

  lemma ReadSize(s: Store, key: string, now: int)
    ensures |AfterRead(s, key, now)| <= |s|
  {
    SubsetSize(AfterRead(s, key, now).Keys, s.Keys);
  }

  /** In every run the table stays within its bound, and a call returns only what the last write to
      its key inserted, before its time to live is over. */
  lemma {:induction false} AlwaysBounded(max: pos, ss: seq<Store>, cs: seq<Timed>, gots: seq<Value>, i: nat)
    requires IsRun(max, ss, cs, gots) && i < |ss|
    ensures |ss[i]| <= max
    ensures i < |cs| && gots[i] != Nil ==>
              var k := cs[i].call.key;
              k in ss[i] && Live(ss[i][k], cs[i].now) && gots[i] == ss[i][k].value && StillStored(cs, i, k, gots[i])
  {
    if i == 0 {
      assert ss[0] == map[];
    } else {
      var j := i - 1;
      AlwaysBounded(max, ss, cs, gots, j);
      assert CallStep(max, ss[j], cs[j], ss[j + 1], gots[j]);
      match cs[j].call
      case Get(k) => ReadSize(ss[j], k, cs[j].now);
      case Put(k, v, ttl) => if ttl > 0 { StoreSize(max, ss[j], k, Entry(cs[j].now + ttl, v), ss[i]); }
      case Drop(k) => SubsetSize((ss[j] - {k}).Keys, ss[j].Keys);
    }
    if i < |cs| {
      assert CallStep(max, ss[i], cs[i], ss[i + 1], gots[i]);
      if gots[i] != Nil { ReturnedIsStored(max, ss, cs, gots, i); }
    }
  }

  /** With fewer live keys than places, the entry that makes room has expired. */
  lemma EvictsExpired(max: pos, s: Store, u: Store, now: int, key: string, k: string)
    requires Agrees(s, u, now) && key !in s && |s| >= max && Soonest(s, k)
    requires |LiveKeys(u, now) - {key}| < max
    ensures !Live(s[k], now)
  {
    if Live(s[k], now) {
      AllLive(s, u, now, key, k);
      SubsetSize(s.Keys, LiveKeys(u, now) - {key});
    }
  }

  lemma AllLive(s: Store, u: Store, now: int, key: string, k: string)
    requires Agrees(s, u, now) && key !in s && Soonest(s, k) && Live(s[k], now)
    ensures s.Keys <= LiveKeys(u, now) - {key}
  {
  }

  lemma AgreesLater(s: Store, u: Store, now: int, later: int)
    requires Agrees(s, u, now) && now <= later
    ensures Agrees(s, u, later)
  {
    forall k | k in u && Live(u[k], later) ensures k in s { assert Live(u[k], now); }
  }

  lemma StepAgrees(max: pos, s: Store, u: Store, c: Timed, s': Store, got: Value, before: int)
    requires Agrees(s, u, before) && before <= c.now && CallStep(max, s, c, s', got)
    requires c.call.Put? ==> |LiveKeys(u, c.now) - {c.call.key}| < max
    ensures Agrees(s', RefStep(u, c), c.now)
    ensures c.call.Get? ==> got == Read(u, c.call.key, c.now)
  {
    AgreesLater(s, u, before, c.now);
    match c.call
    case Get(k) => ReadAgrees(s, u, k, c.now);
    case Put(k, v, ttl) => if ttl > 0 { StoreAgrees(max, s, u, k, Entry(c.now + ttl, v), s', c.now); }
    case Drop(k) => DropAgrees(s, u, k, c.now);
  }

  lemma ReadAgrees(s: Store, u: Store, k: string, now: int)
    requires Agrees(s, u, now)
    ensures Agrees(AfterRead(s, k, now), u, now) && Read(s, k, now) == Read(u, k, now)
  {
  }

  lemma DropAgrees(s: Store, u: Store, k: string, now: int)
    requires Agrees(s, u, now)
    ensures Agrees(s - {k}, u - {k}, now)
  {
  }

  lemma StoreAgrees(max: pos, s: Store, u: Store, key: string, e: Entry, s': Store, now: int)
    requires Agrees(s, u, now) && Stores(max, s, key, e, s')
    requires |LiveKeys(u, now) - {key}| < max
    ensures Agrees(s', u[key := e], now)
  {
    if |s| >= max && key !in s {
      var k :| Soonest(s, k) && s' == (s - {k})[key := e];
      EvictsExpired(max, s, u, now, key, k);
      DropExpired(s, u, now, k);
      OverwriteAgrees(s - {k}, u, now, key, e);
    } else {
      OverwriteAgrees(s, u, now, key, e);
    }
  }

  lemma DropExpired(s: Store, u: Store, now: int, k: string)
    requires Agrees(s, u, now) && k in s && !Live(s[k], now)
    ensures Agrees(s - {k}, u, now)
  {
  }

  lemma OverwriteAgrees(s: Store, u: Store, now: int, key: string, e: Entry)
    requires Agrees(s, u, now)
    ensures Agrees(s[key := e], u[key := e], now)
  {
  }

  /** While the table is uncrowded, every lookup returns what the unbounded table would. */
  lemma {:induction false} BoundedAgrees(max: pos, ss: seq<Store>, cs: seq<Timed>, gots: seq<Value>, i: nat)
    requires IsRun(max, ss, cs, gots) && Uncrowded(cs, max) && i < |cs|
    ensures cs[i].call.Get? ==> gots[i] == Read(RefRun(cs[..i]), cs[i].call.key, cs[i].now)
    ensures Agrees(ss[i + 1], RefRun(cs[..i + 1]), cs[i].now)
    decreases i
  {
    assert cs[..i + 1][..i] == cs[..i];
    assert CallStep(max, ss[i], cs[i], ss[i + 1], gots[i]);
    if i == 0 {
      assert cs[..0] == [];
      StepAgrees(max, ss[0], map[], cs[0], ss[1], gots[0], cs[0].now);
    } else {
      BoundedAgrees(max, ss, cs, gots, i - 1);
      StepAgrees(max, ss[i], RefRun(cs[..i]), cs[i], ss[i + 1], gots[i], cs[i - 1].now);
    }
  }

  // ---- What a lookup returns, in terms of the calls alone ----

  /** The call stores under the key or removes it: an accepted insertion or a deletion. */
  predicate Writes(c: Call, key: string) {
    (c.Put? && c.key == key && c.ttl > 0) || (c.Drop? && c.key == key)
  }

  /** Call j is the last write to the key before call i, an insertion of v. */
  ghost predicate LastPut(cs: seq<Timed>, j: nat, i: nat, key: string, v: Value) {
    && j < i <= |cs|
    && cs[j].call.Put? && cs[j].call.key == key && cs[j].call.value == v && cs[j].call.ttl > 0
    && forall m :: j < m < i ==> !Writes(cs[m].call, key)
  }

  /** The last write to the key before call i inserted v, and its time to live is not over. */
  ghost predicate StillStored(cs: seq<Timed>, i: nat, key: string, v: Value)
    requires i < |cs|
  {
    exists j: nat :: LastPut(cs, j, i, key, v) && cs[j].now <= cs[i].now < cs[j].now + cs[j].call.ttl
  }

  ghost predicate FromPut(cs: seq<Timed>, i: nat, key: string, e: Entry) {
    exists j: nat :: LastPut(cs, j, i, key, e.value) && e.expires == cs[j].now + cs[j].call.ttl
  }

  lemma LastPutLater(cs: seq<Timed>, j: nat, i: nat, key: string, v: Value)
    requires LastPut(cs, j, i, key, v) && i < |cs| && !Writes(cs[i].call, key)
    ensures LastPut(cs, j, i + 1, key, v)
  {
  }

  /** Every entry of the table is the last insertion under its key. */
  lemma {:induction false} EntriesFromPuts(max: pos, ss: seq<Store>, cs: seq<Timed>, gots: seq<Value>, i: nat,
                                           key: string)
    requires IsRun(max, ss, cs, gots) && i < |ss| && key in ss[i]
    ensures FromPut(cs, i, key, ss[i][key])
    decreases i
  {
    if i > 0 {
      var h := i - 1;
      assert CallStep(max, ss[h], cs[h], ss[h + 1], gots[h]);
      if Writes(cs[h].call, key) {
        assert LastPut(cs, h, i, key, cs[h].call.value);
      } else {
        EntryKept(max, ss[h], cs[h], ss[i], gots[h], key);
        EntriesFromPuts(max, ss, cs, gots, h, key);
        var j: nat :| LastPut(cs, j, h, key, ss[h][key].value) && ss[h][key].expires == cs[j].now + cs[j].call.ttl;
        LastPutLater(cs, j, h, key, ss[h][key].value);
      }
    }
  }

  /** A call that does not write to the key leaves its entry alone or drops it. */
  lemma EntryKept(max: pos, s: Store, c: Timed, s': Store, got: Value, key: string)
    requires CallStep(max, s, c, s', got) && !Writes(c.call, key) && key in s'
    ensures key in s && s[key] == s'[key]
  {
  }

  /** In every run, crowded or not: a value that a lookup returns was inserted by the last write to
      its key, and its time to live is not over. */
  lemma ReturnedIsStored(max: pos, ss: seq<Store>, cs: seq<Timed>, gots: seq<Value>, i: nat)
    requires IsRun(max, ss, cs, gots) && i < |cs| && gots[i] != Nil
    ensures cs[i].call.Get? && StillStored(cs, i, cs[i].call.key, gots[i])
  {
    assert CallStep(max, ss[i], cs[i], ss[i + 1], gots[i]);
    var key := cs[i].call.key;
    EntriesFromPuts(max, ss, cs, gots, i, key);
    var j: nat :| LastPut(cs, j, i, key, ss[i][key].value) && ss[i][key].expires == cs[j].now + cs[j].call.ttl;
    assert cs[j].now <= cs[i].now;
  }

  /** The unbounded table holds the last insertion under a key. */
  lemma {:induction false} RefHolds(cs: seq<Timed>, j: nat, i: nat, key: string, v: Value)
    requires LastPut(cs, j, i, key, v)
    ensures var u := RefRun(cs[..i]); key in u && u[key] == Entry(cs[j].now + cs[j].call.ttl, v)
    decreases i
  {
    assert cs[..i][..i - 1] == cs[..i - 1] && cs[..i][i - 1] == cs[i - 1];
    if j < i - 1 { RefHolds(cs, j, i - 1, key, v); }
  }

  /** In an uncrowded run a lookup returns a value if and only if the last write to its key inserted
      that value and its time to live is not over. */
  lemma LookupExactly(max: pos, ss: seq<Store>, cs: seq<Timed>, gots: seq<Value>, i: nat, v: Value)
    requires IsRun(max, ss, cs, gots) && Uncrowded(cs, max) && i < |cs| && cs[i].call.Get? && v != Nil
    ensures gots[i] == v <==> StillStored(cs, i, cs[i].call.key, v)
  {
    var key := cs[i].call.key;
    if gots[i] == v {
      ReturnedIsStored(max, ss, cs, gots, i);
    } else if StillStored(cs, i, key, v) {
      var j: nat :| LastPut(cs, j, i, key, v) && cs[j].now <= cs[i].now < cs[j].now + cs[j].call.ttl;
      RefHolds(cs, j, i, key, v);
      BoundedAgrees(max, ss, cs, gots, i);
      assert false;
    }
  }
}
