/** The diff report, what each of its entries says about the two documents, and how it lines up
    with the patch. */
module JsonDiff {
  import opened Text
  import opened Json
  import opened JsonPointer
  import opened JsonPatch
  import opened JsonPatchTheorem
  import opened JsonPatchConverse
  import opened JsonPatchExact

  datatype What = Removed(before: Json) | Added(after: Json) | Modified(was: Json, now: Json)

  datatype Change = Change(parts: seq<string>, what: What)

  function Under(k: string, cs: seq<Change>): (r: seq<Change>)
    ensures |r| == |cs|
    ensures forall i :: 0 <= i < |cs| ==> r[i] == Change([k] + cs[i].parts, cs[i].what)
  {
    if cs == [] then [] else [Change([k] + cs[0].parts, cs[0].what)] + Under(k, cs[1..])
  }

  /** The diff walk: like the patch walk, but removed items come first and upwards. */
  ghost function Changes(a: Json, b: Json): seq<Change>
    decreases a, 3
  {
    if DeepEqual(a, b) then []
    else if a.Obj? && b.Obj? then KeyChanges(a, b, SortedKeys(a.fields.Keys + b.fields.Keys))
    else if a.Arr? && b.Arr? then
      ItemChanges(a, b, 0) + RemovedItems(a.items, Shared(a, b)) + AddedItems(b.items, Shared(a, b))
    else [Change([], Modified(a, b))]
  }

  ghost function ChangesAtKey(a: Json, b: Json, k: string): seq<Change>
    requires a.Obj? && b.Obj? && (k in a.fields || k in b.fields)
    decreases a, 1
  {
    if k !in b.fields then [Change([], Removed(a.fields[k]))]
    else if k !in a.fields then [Change([], Added(b.fields[k]))]
    else Changes(a.fields[k], b.fields[k])
  }

  ghost function KeyChanges(a: Json, b: Json, ks: seq<string>): seq<Change>
    requires a.Obj? && b.Obj?
    decreases a, 2, |ks|
  {
    if ks == [] then []
    else (if ks[0] in a.fields || ks[0] in b.fields then Under(ks[0], ChangesAtKey(a, b, ks[0])) else [])
         + KeyChanges(a, b, ks[1..])
  }

  ghost function ItemChanges(a: Json, b: Json, i: nat): seq<Change>
    requires a.Arr? && b.Arr? && i <= Shared(a, b)
    decreases a, 0, Shared(a, b) - i
  {
    if i == Shared(a, b) then []
    else Under(Dec(i), Changes(a.items[i], b.items[i])) + ItemChanges(a, b, i + 1)
  }

  function RemovedItems(xs: seq<Json>, i: nat): seq<Change>
    decreases |xs| - i
  {
    if i >= |xs| then [] else [Change([Dec(i)], Removed(xs[i]))] + RemovedItems(xs, i + 1)
  }

  function AddedItems(ys: seq<Json>, i: nat): seq<Change>
    decreases |ys| - i
  {
    if i >= |ys| then [] else [Change([Dec(i)], Added(ys[i]))] + AddedItems(ys, i + 1)
  }

  // ---- What an entry says ----

  /** Each entry describes what really stands at its location in the two documents. */
  ghost predicate Tells(a: Json, b: Json, c: Change) {
    match c.what
    case Removed(v) => Resolve(a, c.parts) == Some(v) && Resolve(b, c.parts) == None
    case Added(v) => Resolve(a, c.parts) == None && Resolve(b, c.parts) == Some(v)
    case Modified(v, w) =>
      Resolve(a, c.parts) == Some(v) && Resolve(b, c.parts) == Some(w) && !DeepEqual(v, w) && !Containers(v, w)
  }

  ghost predicate AllTell(a: Json, b: Json, cs: seq<Change>) {
    forall i :: 0 <= i < |cs| ==> Tells(a, b, cs[i])
  }

  lemma UnderTells(a: Json, b: Json, k: string, cs: seq<Change>)
    requires Child(a, k).Some? && Child(b, k).Some?
    requires AllTell(Child(a, k).value, Child(b, k).value, cs)
    ensures AllTell(a, b, Under(k, cs))
  {
    forall i | 0 <= i < |cs| ensures Tells(a, b, Under(k, cs)[i]) {
      assert Tells(Child(a, k).value, Child(b, k).value, cs[i]);
      assert ([k] + cs[i].parts)[1..] == cs[i].parts;
    }
  }

  /** Every entry of a diff is true of the two documents. */
  lemma {:induction false} ChangesTell(a: Json, b: Json)
    ensures AllTell(a, b, Changes(a, b))
    decreases a, 3
  {
    if DeepEqual(a, b) {
    } else if a.Obj? && b.Obj? {
      KeyChangesTell(a, b, SortedKeys(a.fields.Keys + b.fields.Keys));
    } else if a.Arr? && b.Arr? {
      ItemChangesTell(a, b, 0);
      RemovedTell(a, b, Shared(a, b));
      AddedTell(a, b, Shared(a, b));
    }
  }

  lemma ResolveOne(a: Json, k: string)
    ensures Resolve(a, [k]) == Child(a, k)
  {
    var parts := [k];
    assert parts[0] == k && parts[1..] == [];
  }

  lemma OneSidedTells(a: Json, b: Json, k: string)
    requires a.Obj? && b.Obj? && (k in a.fields <==> k !in b.fields)
    ensures AllTell(a, b, Under(k, ChangesAtKey(a, b, k)))
  {
    ResolveOne(a, k);
    ResolveOne(b, k);
    var cs := ChangesAtKey(a, b, k);
    assert [k] + cs[0].parts == [k];
  }

  lemma {:induction false} KeyChangesTell(a: Json, b: Json, ks: seq<string>)
    requires a.Obj? && b.Obj?
    ensures AllTell(a, b, KeyChanges(a, b, ks))
    decreases a, 2, |ks|
  {
    if ks != [] {
      var k := ks[0];
      if k in a.fields && k in b.fields {
        ChangesTell(a.fields[k], b.fields[k]);
        UnderTells(a, b, k, ChangesAtKey(a, b, k));
      } else if k in a.fields || k in b.fields {
        OneSidedTells(a, b, k);
      }
      KeyChangesTell(a, b, ks[1..]);
    }
  }

  lemma {:induction false} ItemChangesTell(a: Json, b: Json, i: nat)
    requires a.Arr? && b.Arr? && i <= Shared(a, b)
    ensures AllTell(a, b, ItemChanges(a, b, i))
    decreases a, 2, Shared(a, b) - i
  {
    if i < Shared(a, b) {
      PyIntOfDec(i);
      ChangesTell(a.items[i], b.items[i]);
      UnderTells(a, b, Dec(i), Changes(a.items[i], b.items[i]));
      ItemChangesTell(a, b, i + 1);
    }
  }

  lemma ExtraResolves(a: Json, b: Json, i: nat)
    requires a.Arr? && b.Arr? && Shared(a, b) <= i
    ensures Resolve(a, [Dec(i)]) == if i < |a.items| then Some(a.items[i]) else None
    ensures Resolve(b, [Dec(i)]) == if i < |b.items| then Some(b.items[i]) else None
  {
    PyIntOfDec(i);
    ResolveOne(a, Dec(i));
    ResolveOne(b, Dec(i));
  }

  lemma ConsTells(a: Json, b: Json, c: Change, cs: seq<Change>)
    ensures AllTell(a, b, [c] + cs) <==> Tells(a, b, c) && AllTell(a, b, cs)
  {
    var all := [c] + cs;
    assert all[0] == c;
    assert forall i :: 0 <= i < |cs| ==> all[i + 1] == cs[i];
  }

  lemma {:induction false} RemovedTell(a: Json, b: Json, i: nat)
    requires a.Arr? && b.Arr? && Shared(a, b) <= i
    ensures AllTell(a, b, RemovedItems(a.items, i))
    decreases |a.items| - i
  {
    if i < |a.items| {
      ExtraResolves(a, b, i);
      ConsTells(a, b, Change([Dec(i)], Removed(a.items[i])), RemovedItems(a.items, i + 1));
      RemovedTell(a, b, i + 1);
    } else {
      assert RemovedItems(a.items, i) == [];
    }
  }

  lemma {:induction false} AddedTell(a: Json, b: Json, i: nat)
    requires a.Arr? && b.Arr? && Shared(a, b) <= i
    ensures AllTell(a, b, AddedItems(b.items, i))
    decreases |b.items| - i
  {
    if i < |b.items| {
      ExtraResolves(a, b, i);
      ConsTells(a, b, Change([Dec(i)], Added(b.items[i])), AddedItems(b.items, i + 1));
      AddedTell(a, b, i + 1);
    } else {
      assert AddedItems(b.items, i) == [];
    }
  }

  // ---- One entry per operation ----

  function ActOf(w: What): Act {
    match w
    case Removed(_) => Remove
    case Added(v) => Add(v)
    case Modified(_, v) => Replace(v)
  }

  function AsEdits(cs: seq<Change>): (r: seq<Edit>)
    ensures |r| == |cs|
    ensures forall i :: 0 <= i < |cs| ==> r[i] == Edit(cs[i].parts, ActOf(cs[i].what))
  {
    if cs == [] then [] else [Edit(cs[0].parts, ActOf(cs[0].what))] + AsEdits(cs[1..])
  }

  lemma AsEditsUnder(k: string, cs: seq<Change>)
    ensures AsEdits(Under(k, cs)) == Prefixed(k, AsEdits(cs))
  {
  }

  lemma AsEditsConcat(x: seq<Change>, y: seq<Change>)
    ensures AsEdits(x + y) == AsEdits(x) + AsEdits(y)
  {
  }

  /** How often an edit occurs below k depends only on how often its remainder occurs. */
  lemma {:induction false} PrefixedCount(k: string, es: seq<Edit>, e: Edit)
    ensures multiset(Prefixed(k, es))[e] ==
            if e.parts != [] && e.parts[0] == k then multiset(es)[Edit(e.parts[1..], e.act)] else 0
    decreases |es|
  {
    if es != [] {
      PrefixedCount(k, es[1..], e);
      var first := Edit([k] + es[0].parts, es[0].act);
      CountCons(first, Prefixed(k, es[1..]), e);
      if e.parts != [] && e.parts[0] == k {
        var below := Edit(e.parts[1..], e.act);
        assert [es[0]] + es[1..] == es;
        CountCons(es[0], es[1..], below);
        SameBelowKey(k, es[0], e);
      }
    }
  }

  lemma SameBelowKey(k: string, x: Edit, e: Edit)
    requires e.parts != [] && e.parts[0] == k
    ensures Edit([k] + x.parts, x.act) == e <==> x == Edit(e.parts[1..], e.act)
  {
    assert ([k] + x.parts)[1..] == x.parts;
    assert e.parts == [k] + e.parts[1..];
  }

  lemma CountCons(x: Edit, rest: seq<Edit>, e: Edit)
    ensures multiset([x] + rest)[e] == (if x == e then 1 else 0) + multiset(rest)[e]
  {
    assert multiset([x] + rest) == multiset{x} + multiset(rest);
  }

  lemma PrefixedSame(k: string, x: seq<Edit>, y: seq<Edit>)
    requires multiset(x) == multiset(y)
    ensures multiset(Prefixed(k, x)) == multiset(Prefixed(k, y))
  {
    forall e ensures multiset(Prefixed(k, x))[e] == multiset(Prefixed(k, y))[e] {
      PrefixedCount(k, x, e);
      PrefixedCount(k, y, e);
    }
  }

  /** Diff entries and patch operations are the same edits, each occurring equally often. */
  lemma {:induction false} ChangesMatchEdits(a: Json, b: Json)
    ensures multiset(AsEdits(Changes(a, b))) == multiset(Edits(a, b))
    decreases a, 3
  {
    if DeepEqual(a, b) {
    } else if a.Obj? && b.Obj? {
      var keys := a.fields.Keys + b.fields.Keys;
      SortedKeysSorted(keys);
      KeyChangesMatch(a, b, SortedKeys(keys));
    } else if a.Arr? && b.Arr? {
      ItemChangesMatch(a, b, 0);
      RemovedMatch(a.items, Shared(a, b));
      AddedMatch(b.items, Shared(a, b));
      Reordered(ItemChanges(a, b, 0), RemovedItems(a.items, Shared(a, b)), AddedItems(b.items, Shared(a, b)),
                ItemEdits(a, b, 0), AddEdits(b.items, Shared(a, b)), RemoveEdits(|a.items|, Shared(a, b)));
    } else {
      assert AsEdits([Change([], Modified(a, b))]) == [Edit([], Replace(b))];
    }
  }

  lemma Reordered(x: seq<Change>, y: seq<Change>, z: seq<Change>, u: seq<Edit>, v: seq<Edit>, w: seq<Edit>)
    requires multiset(AsEdits(x)) == multiset(u)
    requires multiset(AsEdits(y)) == multiset(w)
    requires multiset(AsEdits(z)) == multiset(v)
    ensures multiset(AsEdits(x + y + z)) == multiset(u + v + w)
  {
    AsEditsConcat(x, y);
    AsEditsConcat(x + y, z);
  }

  lemma {:induction false} KeyChangesMatch(a: Json, b: Json, ks: seq<string>)
    requires a.Obj? && b.Obj?
    requires forall k :: k in ks ==> k in a.fields || k in b.fields
    ensures multiset(AsEdits(KeyChanges(a, b, ks))) == multiset(KeyEdits(a, b, ks))
    decreases a, 2, |ks|
  {
    if ks != [] {
      var k := ks[0];
      assert k in ks;
      var cs, es := ChangesAtKey(a, b, k), EditsAtKey(a, b, k);
      if k in a.fields && k in b.fields {
        ChangesMatchEdits(a.fields[k], b.fields[k]);
      } else {
        assert AsEdits(cs) == es;
      }
      PrefixedSame(k, AsEdits(cs), es);
      AsEditsUnder(k, cs);
      AsEditsConcat(Under(k, cs), KeyChanges(a, b, ks[1..]));
      KeyChangesMatch(a, b, ks[1..]);
    }
  }

  lemma {:induction false} ItemChangesMatch(a: Json, b: Json, i: nat)
    requires a.Arr? && b.Arr? && i <= Shared(a, b)
    ensures multiset(AsEdits(ItemChanges(a, b, i))) == multiset(ItemEdits(a, b, i))
    decreases a, 2, Shared(a, b) - i
  {
    if i < Shared(a, b) {
      var cs := Changes(a.items[i], b.items[i]);
      ChangesMatchEdits(a.items[i], b.items[i]);
      PrefixedSame(Dec(i), AsEdits(cs), Edits(a.items[i], b.items[i]));
      AsEditsUnder(Dec(i), cs);
      AsEditsConcat(Under(Dec(i), cs), ItemChanges(a, b, i + 1));
      ItemChangesMatch(a, b, i + 1);
    }
  }

  lemma {:induction false} AddedMatch(ys: seq<Json>, i: nat)
    ensures AsEdits(AddedItems(ys, i)) == AddEdits(ys, i)
    decreases |ys| - i
  {
    if i < |ys| {
      AddedMatch(ys, i + 1);
      assert AddedItems(ys, i)[1..] == AddedItems(ys, i + 1);
    }
  }

  lemma {:induction false} RemovedMatch(xs: seq<Json>, i: nat)
    ensures multiset(AsEdits(RemovedItems(xs, i))) == multiset(RemoveEdits(|xs|, i))
    decreases |xs| - i
  {
    if i < |xs| {
      RemovedMatch(xs, i + 1);
      assert RemovedItems(xs, i)[1..] == RemovedItems(xs, i + 1);
      assert AsEdits(RemovedItems(xs, i)) == [Edit([Dec(i)], Remove)] + AsEdits(RemovedItems(xs, i + 1));
      LastRemove(|xs|, i);
    }
  }

  lemma {:induction false} LastRemove(n: nat, keep: nat)
    requires keep < n
    ensures RemoveEdits(n, keep) == RemoveEdits(n, keep + 1) + [Edit([Dec(keep)], Remove)]
    decreases n
  {
    if n > keep + 1 { LastRemove(n - 1, keep); }
  }

  /** The report says "equal" exactly for equal documents, and has one entry per operation. */
  lemma DiffReport(a: Json, b: Json)
    ensures Changes(a, b) == [] <==> DeepEqual(a, b)
    ensures |Changes(a, b)| == |Edits(a, b)|
  {
    ChangesMatchEdits(a, b);
    UnequalHasEdits(a, b);
    assert |multiset(AsEdits(Changes(a, b)))| == |multiset(Edits(a, b))|;
  }
}
