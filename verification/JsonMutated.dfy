/** The second document after a patch was applied in memory: what has become of the values that
    the operations shared with the patched document. */
module JsonMutated {
  import opened Text
  import opened Json
  import opened JsonPointer
  import opened JsonPatch
  import opened JsonPatchTheorem
  import opened JsonPatchConverse
  import opened JsonShared
  import opened JsonSharedFrames

  /** What the value v that stands at p is now. */
  function Now(vals: Values, p: Place, v: Json): Json { if p in vals then vals[p] else v }

  /** The second document of a pair at `base`: only values that some operation carries can have
      changed. */
  function Mutated(a: Json, b: Json, base: Place, vals: Values): Json
    decreases a
  {
    if DeepEqual(a, b) then b
    else if a.Obj? && b.Obj? then
      Obj(map k | k in b.fields ::
            if k in a.fields then Mutated(a.fields[k], b.fields[k], base + [k], vals)
            else Now(vals, base + [k], b.fields[k]))
    else if a.Arr? && b.Arr? then
      Arr(seq(|b.items|, i requires 0 <= i < |b.items| =>
            if i < |a.items| then Mutated(a.items[i], b.items[i], base + [Dec(i)], vals)
            else Now(vals, base + [Dec(i)], b.items[i])))
    else Now(vals, base, b)
  }

  lemma BelowPlace(base: Place, k: string, vals: Values, vals': Values)
    requires SameBelow(vals, vals', base)
    ensures SameBelow(vals, vals', base + [k])
  {
    forall q | base + [k] <= q ensures (q in vals <==> q in vals') && (q in vals ==> vals[q] == vals'[q]) {
      assert q[..|base|] == (base + [k])[..|base|] == base;
    }
  }

  /** Only the values at and below the pair's place matter. */
  lemma {:induction false} MutatedFrame(a: Json, b: Json, base: Place, vals: Values, vals': Values)
    requires SameBelow(vals, vals', base)
    ensures Mutated(a, b, base, vals) == Mutated(a, b, base, vals')
    decreases a
  {
    if DeepEqual(a, b) {
    } else if a.Obj? && b.Obj? {
      forall k | k in b.fields
        ensures k in a.fields ==>
                Mutated(a.fields[k], b.fields[k], base + [k], vals) ==
                Mutated(a.fields[k], b.fields[k], base + [k], vals')
        ensures Now(vals, base + [k], b.fields[k]) == Now(vals', base + [k], b.fields[k])
      {
        BelowPlace(base, k, vals, vals');
        if k in a.fields { MutatedFrame(a.fields[k], b.fields[k], base + [k], vals, vals'); }
      }
      assert Mutated(a, b, base, vals).fields == Mutated(a, b, base, vals').fields;
    } else if a.Arr? && b.Arr? {
      forall i | 0 <= i < |b.items|
        ensures i < |a.items| ==>
                Mutated(a.items[i], b.items[i], base + [Dec(i)], vals) ==
                Mutated(a.items[i], b.items[i], base + [Dec(i)], vals')
        ensures Now(vals, base + [Dec(i)], b.items[i]) == Now(vals', base + [Dec(i)], b.items[i])
      {
        BelowPlace(base, Dec(i), vals, vals');
        if i < |a.items| { MutatedFrame(a.items[i], b.items[i], base + [Dec(i)], vals, vals'); }
      }
      assert Mutated(a, b, base, vals).items == Mutated(a, b, base, vals').items;
    }
  }

  // ---- A value is found as deep in the second document as its place says ----

  lemma {:induction false} ValueInside(a: Json, b: Json, n: nat, base: Place, vals: Values)
    requires n < |Edits(a, b)| && CarriesValue(Edits(a, b)[n].act)
    ensures var e := Edits(a, b)[n];
            Height(Now(vals, base + e.parts, e.act.value)) + |e.parts| <= Height(Mutated(a, b, base, vals))
    decreases a, 3
  {
    if a.Obj? && b.Obj? {
      var keys := a.fields.Keys + b.fields.Keys;
      SortedKeysSorted(keys);
      KeysValueInside(a, b, SortedKeys(keys), n, base, vals);
    } else if a.Arr? && b.Arr? {
      ItemsValueInside(a, b, 0, n, base, vals);
    } else {
      assert base + [] == base;
    }
  }

  lemma {:induction false} KeysValueInside(a: Json, b: Json, ks: seq<string>, n: nat, base: Place, vals: Values)
    requires a.Obj? && b.Obj? && !DeepEqual(a, b)
    requires forall k :: k in ks ==> k in a.fields || k in b.fields
    requires n < |KeyEdits(a, b, ks)| && CarriesValue(KeyEdits(a, b, ks)[n].act)
    ensures var e := KeyEdits(a, b, ks)[n];
            Height(Now(vals, base + e.parts, e.act.value)) + |e.parts| <= Height(Mutated(a, b, base, vals))
    decreases a, 2, |ks|
  {
    var k := ks[0];
    var es := EditsAtKey(a, b, k);
    if n < |es| {
      assert k in ks;
      assert KeyEdits(a, b, ks)[n] == Prefixed(k, es)[n];
      HomeBelow(base, k, es[n].parts);
      var m := Mutated(a, b, base, vals);
      assert k in b.fields && k in m.fields;
      MemberLower(m, k);
      if k in a.fields {
        ValueInside(a.fields[k], b.fields[k], n, base + [k], vals);
      } else {
        assert base + [k] + [] == base + [k];
      }
    } else {
      KeysValueInside(a, b, ks[1..], n - |es|, base, vals);
    }
  }

  lemma {:induction false} ItemsValueInside(a: Json, b: Json, i: nat, n: nat, base: Place, vals: Values)
    requires a.Arr? && b.Arr? && !DeepEqual(a, b) && i <= Shared(a, b)
    requires n < |ArrayTail(a, b, i)| && CarriesValue(ArrayTail(a, b, i)[n].act)
    ensures LiesInside(ArrayTail(a, b, i)[n], a, b, base, vals)
    decreases a, 2, Shared(a, b) - i
  {
    if i < Shared(a, b) {
      var es := Edits(a.items[i], b.items[i]);
      ArrayTailStep(a, b, i);
      ConcatFrom(Prefixed(Dec(i), es), ArrayTail(a, b, i + 1), n);
      if n < |es| {
        ItemValueInside(a, b, i, n, base, vals);
      } else {
        ItemsValueInside(a, b, i + 1, n - |es|, base, vals);
      }
    } else {
      ExtraValueInside(a, b, n, base, vals);
    }
  }

  /** The value of an edit, as it is now, is no higher than the room below its place. */
  ghost predicate LiesInside(e: Edit, a: Json, b: Json, base: Place, vals: Values)
    requires CarriesValue(e.act)
  {
    Height(Now(vals, base + e.parts, e.act.value)) + |e.parts| <= Height(Mutated(a, b, base, vals))
  }

  lemma ExtraValueInside(a: Json, b: Json, n: nat, base: Place, vals: Values)
    requires a.Arr? && b.Arr? && !DeepEqual(a, b)
    requires n < |ArrayTail(a, b, Shared(a, b))| && CarriesValue(ArrayTail(a, b, Shared(a, b))[n].act)
    ensures LiesInside(ArrayTail(a, b, Shared(a, b))[n], a, b, base, vals)
  {
    ExtrasFrom(a, b, n);
    MutatedItem(a, b, Shared(a, b) + n, base, vals);
  }

  lemma {:induction false} ItemValueInside(a: Json, b: Json, i: nat, n: nat, base: Place, vals: Values)
    requires a.Arr? && b.Arr? && !DeepEqual(a, b) && i < Shared(a, b)
    requires n < |Edits(a.items[i], b.items[i])| && CarriesValue(Edits(a.items[i], b.items[i])[n].act)
    ensures LiesInside(Prefixed(Dec(i), Edits(a.items[i], b.items[i]))[n], a, b, base, vals)
    decreases a, 1
  {
    HomeBelow(base, Dec(i), Edits(a.items[i], b.items[i])[n].parts);
    ValueInside(a.items[i], b.items[i], n, base + [Dec(i)], vals);
    MutatedItem(a, b, i, base, vals);
  }

  lemma MutatedItem(a: Json, b: Json, i: nat, base: Place, vals: Values)
    requires a.Arr? && b.Arr? && !DeepEqual(a, b) && i < |b.items|
    ensures var item := if i < |a.items| then Mutated(a.items[i], b.items[i], base + [Dec(i)], vals)
                        else Now(vals, base + [Dec(i)], b.items[i]);
            Height(item) + 1 <= Height(Mutated(a, b, base, vals))
  {
    ItemLower(Mutated(a, b, base, vals), i);
  }
}
