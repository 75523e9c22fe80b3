/** The diff service: the recursive walker that appends entries to a shared list, and the report
    with its counts.

    The walker is proved against the changes of the diff module. */
module JsonDiffService {
  import opened Text
  import opened Json
  import opened JsonPointer
  import opened JsonPatch
  import opened JsonPatchTheorem
  import opened JsonPatchConverse
  import opened JsonDiff
  import opened JsonLimits
  import opened JsonService

  /** A change with its location printed. */
  datatype Entry = Entry(path: string, what: What)

  function Printed(path: seq<string>, cs: seq<Change>): seq<Entry> {
    if cs == [] then [] else [Entry(Pointer(path + cs[0].parts), cs[0].what)] + Printed(path, cs[1..])
  }

  lemma {:induction false} PrintedConcat(path: seq<string>, x: seq<Change>, y: seq<Change>)
    ensures Printed(path, x + y) == Printed(path, x) + Printed(path, y)
    decreases |x|
  {
    if x == [] {
      assert x + y == y;
    } else {
      assert (x + y)[1..] == x[1..] + y;
      PrintedConcat(path, x[1..], y);
    }
  }

  lemma {:induction false} PrintedUnder(path: seq<string>, k: string, cs: seq<Change>)
    ensures Printed(path, Under(k, cs)) == Printed(path + [k], cs)
    decreases |cs|
  {
    if cs != [] {
      assert path + ([k] + cs[0].parts) == path + [k] + cs[0].parts;
      assert Under(k, cs)[1..] == Under(k, cs[1..]);
      PrintedUnder(path, k, cs[1..]);
    }
  }

  lemma {:induction false} PrintedLength(path: seq<string>, cs: seq<Change>)
    ensures |Printed(path, cs)| == |cs|
    ensures forall i :: 0 <= i < |cs| ==> Printed(path, cs)[i].what == cs[i].what
    decreases |cs|
  {
    if cs != [] { PrintedLength(path, cs[1..]); }
  }

  lemma OnePrinted(path: seq<string>, what: What)
    ensures Printed(path, [Change([], what)]) == [Entry(Pointer(path), what)]
  {
    assert path + [] == path;
    assert [Change([], what)][1..] == [];
  }

  // ---- The walker ----

  class EntryList {
    var entries: seq<Entry>

    constructor ()
      ensures entries == []
    {
      entries := [];
    }

    method Append(entry: Entry)
      modifies this
      ensures entries == old(entries) + [entry]
    {
      entries := entries + [entry];
    }
  }

  ghost predicate Extended(before: seq<Entry>, after: seq<Entry>, path: seq<string>, cs: seq<Change>) {
    after == before + Printed(path, cs)
  }

  /** Append the changes between a and b. The walk stops with an error only when the documents are
      nested too deeply, or when the list is already full on entering a pair. */
  method DiffWalk(a: Json, b: Json, path: seq<string>, out: EntryList, depth: nat) returns (err: Option<WalkError>)
    modifies out
    ensures err.None? ==> Extended(old(out.entries), out.entries, path, Changes(a, b))
    ensures depth > MAX_DEPTH ==> err == Some(NestedTooDeeply)
    ensures depth <= MAX_DEPTH && |old(out.entries)| >= MAX_JSON_NODES ==> err == Some(TooManyOperations)
    ensures err == Some(NestedTooDeeply) ==> depth + Height(a) > MAX_DEPTH
    ensures err == Some(TooManyOperations) ==> |old(out.entries)| + |Changes(a, b)| >= MAX_JSON_NODES
    decreases a, 1
  {
    if depth > MAX_DEPTH { return Some(NestedTooDeeply); }
    if |out.entries| >= MAX_JSON_NODES { return Some(TooManyOperations); }
    if DeepEqual(a, b) {
      assert Printed(path, []) == [];
      return None;
    }
    if a.Obj? && b.Obj? {
      err := DiffKeys(a, b, path, out, depth);
    } else if a.Arr? && b.Arr? {
      err := DiffItems(a, b, path, out, depth);
    } else {
      OnePrinted(path, Modified(a, b));
      out.Append(Entry(Pointer(path), Modified(a, b)));
      return None;
    }
  }

  ghost function AllKeyChanges(a: Json, b: Json): seq<Change>
    requires a.Obj? && b.Obj?
  {
    KeyChanges(a, b, SortedKeys(a.fields.Keys + b.fields.Keys))
  }

  /** What is still to be appended, seen at one key: that key's entries, then the rest. */
  lemma KeyPrinted(path: seq<string>, a: Json, b: Json, ks: seq<string>)
    requires a.Obj? && b.Obj? && ks != [] && (ks[0] in a.fields || ks[0] in b.fields)
    ensures Printed(path, KeyChanges(a, b, ks)) ==
            Printed(path + [ks[0]], ChangesAtKey(a, b, ks[0])) + Printed(path, KeyChanges(a, b, ks[1..]))
    ensures |KeyChanges(a, b, ks)| >= |ChangesAtKey(a, b, ks[0])|
  {
    var cs := ChangesAtKey(a, b, ks[0]);
    PrintedUnder(path, ks[0], cs);
    PrintedConcat(path, Under(ks[0], cs), KeyChanges(a, b, ks[1..]));
  }

  method DiffKeys(a: Json, b: Json, path: seq<string>, out: EntryList, depth: nat) returns (err: Option<WalkError>)
    requires a.Obj? && b.Obj?
    modifies out
    ensures err.None? ==> Extended(old(out.entries), out.entries, path, AllKeyChanges(a, b))
    ensures err == Some(NestedTooDeeply) ==> depth + Height(a) > MAX_DEPTH
    ensures err == Some(TooManyOperations) ==> |old(out.entries)| + |AllKeyChanges(a, b)| >= MAX_JSON_NODES
    decreases a, 0
  {
    var ks := Sort(a.fields.Keys + b.fields.Keys);
    SortedKeysSorted(a.fields.Keys + b.fields.Keys);
    ghost var goal := out.entries + Printed(path, KeyChanges(a, b, ks));
    PrintedLength(path, KeyChanges(a, b, ks));
    for i := 0 to |ks|
      invariant out.entries + Printed(path, KeyChanges(a, b, ks[i..])) == goal
    {
      assert ks[i] in ks && ks[i..][1..] == ks[i + 1..];
      PrintedLength(path, KeyChanges(a, b, ks[i..]));
      err := DiffKey(a, b, ks[i..], path, out, depth);
      if err.Some? { return; }
    }
    assert goal == out.entries + [];
    return None;
  }

  /** The first pending key: its entries move from the pending ones to the list. */
  method DiffKey(a: Json, b: Json, ks: seq<string>, path: seq<string>, out: EntryList, depth: nat)
    returns (err: Option<WalkError>)
    requires a.Obj? && b.Obj? && ks != [] && (ks[0] in a.fields || ks[0] in b.fields)
    modifies out
    ensures err.None? ==>
              out.entries + Printed(path, KeyChanges(a, b, ks[1..])) ==
              old(out.entries) + Printed(path, KeyChanges(a, b, ks))
    ensures err == Some(NestedTooDeeply) ==> depth + Height(a) > MAX_DEPTH
    ensures err == Some(TooManyOperations) ==> |old(out.entries)| + |KeyChanges(a, b, ks)| >= MAX_JSON_NODES
    decreases a, 0, 0
  {
    var key := ks[0];
    KeyPrinted(path, a, b, ks);
    ghost var before := out.entries;
    ghost var here := Printed(path + [key], ChangesAtKey(a, b, key));
    ghost var rest := Printed(path, KeyChanges(a, b, ks[1..]));
    assert before + (here + rest) == (before + here) + rest;
    if key !in b.fields {
      OnePrinted(path + [key], Removed(a.fields[key]));
      out.Append(Entry(Pointer(path + [key]), Removed(a.fields[key])));
    } else if key !in a.fields {
      OnePrinted(path + [key], Added(b.fields[key]));
      out.Append(Entry(Pointer(path + [key]), Added(b.fields[key])));
    } else {
      ChildHeight(a, key);
      err := DiffWalk(a.fields[key], b.fields[key], path + [key], out, depth + 1);
      return;
    }
    return None;
  }

  /** The changes of two arrays from the shared index i on. */
  ghost function ArrayChanges(a: Json, b: Json, i: nat): seq<Change>
    requires a.Arr? && b.Arr? && i <= Shared(a, b)
  {
    ItemChanges(a, b, i) + RemovedItems(a.items, Shared(a, b)) + AddedItems(b.items, Shared(a, b))
  }

  lemma ItemPrinted(path: seq<string>, a: Json, b: Json, i: nat)
    requires a.Arr? && b.Arr? && i < Shared(a, b)
    ensures Printed(path, ArrayChanges(a, b, i)) ==
            Printed(path + [Dec(i)], Changes(a.items[i], b.items[i])) + Printed(path, ArrayChanges(a, b, i + 1))
    ensures |ArrayChanges(a, b, i)| >= |Changes(a.items[i], b.items[i])|
  {
    var cs := Changes(a.items[i], b.items[i]);
    assert ArrayChanges(a, b, i) == Under(Dec(i), cs) + ArrayChanges(a, b, i + 1);
    PrintedUnder(path, Dec(i), cs);
    PrintedConcat(path, Under(Dec(i), cs), ArrayChanges(a, b, i + 1));
  }

  method DiffItems(a: Json, b: Json, path: seq<string>, out: EntryList, depth: nat) returns (err: Option<WalkError>)
    requires a.Arr? && b.Arr?
    modifies out
    ensures err.None? ==> Extended(old(out.entries), out.entries, path, ArrayChanges(a, b, 0))
    ensures err == Some(NestedTooDeeply) ==> depth + Height(a) > MAX_DEPTH
    ensures err == Some(TooManyOperations) ==> |old(out.entries)| + |ArrayChanges(a, b, 0)| >= MAX_JSON_NODES
    decreases a, 0
  {
    var shared := if |a.items| < |b.items| then |a.items| else |b.items|;
    ghost var goal := out.entries + Printed(path, ArrayChanges(a, b, 0));
    PrintedLength(path, ArrayChanges(a, b, 0));
    for i := 0 to shared
      invariant out.entries + Printed(path, ArrayChanges(a, b, i)) == goal
    {
      PrintedLength(path, ArrayChanges(a, b, i));
      err := DiffItem(a, b, i, path, out, depth);
      if err.Some? { return; }
    }
    DiffExtras(a, b, path, out);
    return None;
  }

  method DiffItem(a: Json, b: Json, i: nat, path: seq<string>, out: EntryList, depth: nat)
    returns (err: Option<WalkError>)
    requires a.Arr? && b.Arr? && i < Shared(a, b)
    modifies out
    ensures err.None? ==>
              out.entries + Printed(path, ArrayChanges(a, b, i + 1)) ==
              old(out.entries) + Printed(path, ArrayChanges(a, b, i))
    ensures err == Some(NestedTooDeeply) ==> depth + Height(a) > MAX_DEPTH
    ensures err == Some(TooManyOperations) ==> |old(out.entries)| + |ArrayChanges(a, b, i)| >= MAX_JSON_NODES
    decreases a, 0, 0
  {
    ghost var before := out.entries;
    ghost var here := Printed(path + [Dec(i)], Changes(a.items[i], b.items[i]));
    ghost var rest := Printed(path, ArrayChanges(a, b, i + 1));
    assert before + (here + rest) == (before + here) + rest;
    ItemPrinted(path, a, b, i);
    ItemLower(a, i);
    err := DiffWalk(a.items[i], b.items[i], path + [Dec(i)], out, depth + 1);
  }

  /** Extra items of the first array, then those of the second; both upwards. */
  method DiffExtras(a: Json, b: Json, path: seq<string>, out: EntryList)
    requires a.Arr? && b.Arr?
    modifies out
    ensures out.entries == old(out.entries) + Printed(path, ArrayChanges(a, b, Shared(a, b)))
  {
    var shared := if |a.items| < |b.items| then |a.items| else |b.items|;
    ghost var mid := out.entries;
    ghost var removed, added := RemovedItems(a.items, shared), AddedItems(b.items, shared);
    assert ItemChanges(a, b, shared) == [];
    assert ArrayChanges(a, b, shared) == removed + added;
    PrintedConcat(path, removed, added);
    AppendRemoved(a.items, shared, path, out);
    AppendAdded(b.items, shared, path, out);
    assert mid + (Printed(path, removed) + Printed(path, added)) ==
        (mid + Printed(path, removed)) + Printed(path, added);
  }

  method AppendRemoved(xs: seq<Json>, shared: nat, path: seq<string>, out: EntryList)
    requires shared <= |xs|
    modifies out
    ensures Extended(old(out.entries), out.entries, path, RemovedItems(xs, shared))
  {
    ghost var goal := out.entries + Printed(path, RemovedItems(xs, shared));
    for i := shared to |xs|
      invariant out.entries + Printed(path, RemovedItems(xs, i)) == goal
    {
      ExtraPrinted(path, Dec(i), Removed(xs[i]), RemovedItems(xs, i + 1), out.entries);
      out.Append(Entry(Pointer(path + [Dec(i)]), Removed(xs[i])));
    }
    assert goal == out.entries + [];
  }

  method AppendAdded(ys: seq<Json>, shared: nat, path: seq<string>, out: EntryList)
    requires shared <= |ys|
    modifies out
    ensures Extended(old(out.entries), out.entries, path, AddedItems(ys, shared))
  {
    ghost var goal := out.entries + Printed(path, AddedItems(ys, shared));
    for i := shared to |ys|
      invariant out.entries + Printed(path, AddedItems(ys, i)) == goal
    {
      ExtraPrinted(path, Dec(i), Added(ys[i]), AddedItems(ys, i + 1), out.entries);
      out.Append(Entry(Pointer(path + [Dec(i)]), Added(ys[i])));
    }
    assert goal == out.entries + [];
  }

  lemma ExtraPrinted(path: seq<string>, k: string, what: What, rest: seq<Change>, done: seq<Entry>)
    ensures done + Printed(path, [Change([k], what)] + rest) ==
            done + [Entry(Pointer(path + [k]), what)] + Printed(path, rest)
  {
    assert ([Change([k], what)] + rest)[1..] == rest;
  }

  // ---- The report ----

  datatype Counts = Counts(added: nat, removed: nat, modified: nat)

  function Counted(c: Counts, act: Act): Counts {
    match act
    case Add(_) => c.(added := c.added + 1)
    case Remove => c.(removed := c.removed + 1)
    case Replace(_) => c.(modified := c.modified + 1)
  }

  /** How many operations of a patch are adds, removes and replaces. */
  function Tally(es: seq<Edit>): Counts {
    if es == [] then Counts(0, 0, 0) else Counted(Tally(es[..|es| - 1]), es[|es| - 1].act)
  }

  lemma TallySnoc(es: seq<Edit>, e: Edit)
    ensures Tally(es + [e]) == Counted(Tally(es), e.act)
  {
    assert (es + [e])[..|es|] == es;
  }

  /** An operation counts the same wherever it stands. */
  lemma {:induction false} TallyMiddle(x: seq<Edit>, e: Edit, y: seq<Edit>)
    ensures Tally(x + [e] + y) == Counted(Tally(x + y), e.act)
    decreases |y|
  {
    if y == [] {
      assert x + [e] + y == x + [e] && x + y == x;
      TallySnoc(x, e);
    } else {
      var init, last := y[..|y| - 1], y[|y| - 1];
      assert x + [e] + y == x + [e] + init + [last] && x + y == x + init + [last];
      TallySnoc(x + [e] + init, last);
      TallySnoc(x + init, last);
      TallyMiddle(x, e, init);
    }
  }

  lemma {:induction false} TallyTotal(es: seq<Edit>)
    ensures var c := Tally(es); c.added + c.removed + c.modified == |es|
    decreases |es|
  {
    if es != [] { TallyTotal(es[..|es| - 1]); }
  }

  /** The order of the operations does not matter. */
  lemma {:induction false} TallySame(x: seq<Edit>, y: seq<Edit>)
    requires multiset(x) == multiset(y)
    ensures Tally(x) == Tally(y)
    decreases |x|
  {
    if x == [] {
      assert |multiset(y)| == 0;
    } else {
      var e, rest := x[|x| - 1], x[..|x| - 1];
      assert x == rest + [e];
      assert e in multiset(y);
      var j :| 0 <= j < |y| && y[j] == e;
      var before, after := y[..j], y[j + 1..];
      assert y == before + [e] + after;
      Without(rest, e, before, after);
      TallySame(rest, before + after);
      TallySnoc(rest, e);
      TallyMiddle(before, e, after);
    }
  }

  lemma Without(rest: seq<Edit>, e: Edit, before: seq<Edit>, after: seq<Edit>)
    requires multiset(rest + [e]) == multiset(before + [e] + after)
    ensures multiset(rest) == multiset(before + after)
  {
    assert multiset(rest + [e]) == multiset(rest) + multiset{e};
    assert multiset(before + [e] + after) == multiset(before + after) + multiset{e};
    assert multiset(rest) == multiset(rest) + multiset{e} - multiset{e};
    assert multiset(before + after) == multiset(before + after) + multiset{e} - multiset{e};
  }

  datatype Report = Report(equal: bool, counts: Counts, total: nat, changes: seq<Entry>)

  method CountEntries(entries: seq<Entry>, ghost es: seq<Edit>) returns (c: Counts)
    requires |entries| == |es| && forall i :: 0 <= i < |es| ==> ActOf(entries[i].what) == es[i].act
    ensures c == Tally(es)
  {
    c := Counts(0, 0, 0);
    for i := 0 to |entries|
      invariant c == Tally(es[..i])
    {
      assert es[..i + 1][..i] == es[..i];
      match entries[i].what {
        case Added(_) => c := c.(added := c.added + 1);
        case Removed(_) => c := c.(removed := c.removed + 1);
        case Modified(_, _) => c := c.(modified := c.modified + 1);
      }
    }
    assert es[..|es|] == es;
  }

  /** What the report says about the two documents. */
  ghost predicate Reports(r: Report, a: Json, b: Json) {
    && r.changes == Printed([], Changes(a, b))
    && (r.equal <==> Canonical(a) == Canonical(b))
    && r.counts == Tally(Edits(a, b))
    && r.total == |Edits(a, b)|
    && r.total == r.counts.added + r.counts.removed + r.counts.modified
  }

  method Summary(a: Json, b: Json, entries: seq<Entry>) returns (r: Report)
    requires entries == Printed([], Changes(a, b))
    ensures Reports(r, a, b)
  {
    PrintedLength([], Changes(a, b));
    var counts := CountEntries(entries, AsEdits(Changes(a, b)));
    ChangesMatchEdits(a, b);
    TallySame(AsEdits(Changes(a, b)), Edits(a, b));
    TallyTotal(Edits(a, b));
    DiffReport(a, b);
    EqualMeans(a, b);
    return Report(entries == [], counts, |entries|, entries);
  }

  /** Both documents pass the structural check, so the walker's own depth guard stays silent. The
      report lists the changes; its counts are those of the adds, removes and replaces of the
      patch for the same two documents, and they sum to the total. */
  method CompareDiff(a: Json, b: Json) returns (r: Result<Report, PatchError>)
    ensures r.Success? ==> Reports(r.value, a, b)
    ensures r.Failure? && r.error.Walk? ==>
              r.error.error == TooManyOperations && |Changes(a, b)| >= MAX_JSON_NODES
    ensures r.Failure? && r.error.Load? <==>
              Height(a) > MAX_DEPTH || Nodes(a) > MAX_JSON_NODES || Height(b) > MAX_DEPTH || Nodes(b) > MAX_JSON_NODES
  {
    var bad := ValidateJsonStructure(a, MAX_DEPTH, MAX_JSON_NODES);
    if bad.Some? { return Failure(Load(bad.value)); }
    bad := ValidateJsonStructure(b, MAX_DEPTH, MAX_JSON_NODES);
    if bad.Some? { return Failure(Load(bad.value)); }
    var out := new EntryList();
    var err := DiffWalk(a, b, [], out, 0);
    if err.Some? { return Failure(Walk(err.value)); }
    assert out.entries == Printed([], Changes(a, b));
    var report := Summary(a, b, out.entries);
    return Success(report);
  }
}
