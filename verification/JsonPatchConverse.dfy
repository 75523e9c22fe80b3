/** Where the edits of a walk point, what they leave alone, and how far a walk that lost an item
    falls behind.

    The lemmas here follow single edits and the rest of a walk after them, on documents whose
    values are copied; the theorem itself is in the module that decides the whole patch. */
module JsonPatchConverse {
  import opened Text
  import opened Json
  import opened JsonPointer
  import opened JsonPatch
  import opened JsonPatchTheorem

  // ---- Heights tell unequal documents apart ----

  lemma {:induction false} HeightOfBound(cs: seq<Json>, parent: Json, i: nat)
    requires forall j :: 0 <= j < |cs| ==> cs[j] < parent
    requires i < |cs|
    ensures Height(cs[i]) < HeightOf(cs, parent)
    decreases |cs|
  {
    if i > 0 { HeightOfBound(cs[1..], parent, i - 1); }
  }

  lemma MemberLower(x: Json, k: string)
    requires x.Obj? && k in x.fields
    ensures Height(x.fields[k]) < Height(x)
  {
    var ks := FieldOrder(x.fields);
    assert k in ks;
    var i :| 0 <= i < |ks| && ks[i] == k;
    HeightOfBound(Children(x), x, i);
  }

  lemma ItemLower(x: Json, i: nat)
    requires x.Arr? && i < |x.items|
    ensures Height(x.items[i]) < Height(x)
  {
    HeightOfBound(Children(x), x, i);
  }

  lemma {:induction false} EqualHeights(x: Json, y: Json)
    requires DeepEqual(x, y)
    ensures Height(x) == Height(y)
    decreases x, |Children(x)| + 1
  {
    EqualChildren(x, y);
    EqualHeightsOf(Children(x), Children(y), x, y);
  }

  lemma EqualChildren(x: Json, y: Json)
    requires DeepEqual(x, y)
    ensures |Children(x)| == |Children(y)|
    ensures forall i :: 0 <= i < |Children(x)| ==> DeepEqual(Children(x)[i], Children(y)[i])
  {
  }

  lemma {:induction false} EqualHeightsOf(cs: seq<Json>, ds: seq<Json>, x: Json, y: Json)
    requires |cs| == |ds| && forall i :: 0 <= i < |cs| ==> DeepEqual(cs[i], ds[i])
    requires forall i :: 0 <= i < |cs| ==> cs[i] < x
    requires forall i :: 0 <= i < |ds| ==> ds[i] < y
    ensures HeightOf(cs, x) == HeightOf(ds, y)
    decreases x, |cs|
  {
    if cs != [] {
      EqualHeights(cs[0], ds[0]);
      EqualHeightsOf(cs[1..], ds[1..], x, y);
    }
  }

  // ---- Edits elsewhere leave a member alone ----

  predicate SameMember(f: map<string, Json>, g: map<string, Json>, k: string) {
    (k in f <==> k in g) && (k in f ==> f[k] == g[k])
  }

  lemma KeyFrame(f: map<string, Json>, parts: seq<string>, act: Act, k: string)
    requires parts != [] && parts[0] != k
    ensures var o := EditAt(Obj(f), parts, act);
            o.Done? ==> o.doc.Obj? && SameMember(f, o.doc.fields, k)
  {
    if |parts| > 1 {
      Descend(Obj(f), parts[0], parts[1..], act);
      assert [parts[0]] + parts[1..] == parts;
    }
  }

  lemma ItemFrame(xs: seq<Json>, k: string, i: nat, rest: seq<string>, act: Act, j: nat)
    requires PyInt(k) == Some(i) && j < i && j < |xs|
    ensures var o := EditAt(Arr(xs), [k] + rest, act);
            o.Done? ==> o.doc.Arr? && j < |o.doc.items| && o.doc.items[j] == xs[j]
  {
    if rest != [] { Descend(Arr(xs), k, rest, act); }
  }

  ghost predicate AllAvoid(es: seq<Edit>, k: string) {
    forall i :: 0 <= i < |es| ==> Located(es[i]) && DropEmpty(es[i].parts)[0] != k
  }

  lemma {:induction false} KeyFrames(f: map<string, Json>, es: seq<Edit>, k: string)
    requires AllAvoid(es, k)
    ensures var o := RunEdits(Obj(f), es);
            o.Done? ==> o.doc.Obj? && SameMember(f, o.doc.fields, k)
    decreases |es|
  {
    if es != [] {
      var parts := DropEmpty(es[0].parts);
      KeyFrame(f, parts, es[0].act, k);
      var o := EditAt(Obj(f), parts, es[0].act);
      if o.Done? { KeyFrames(o.doc.fields, es[1..], k); }
    }
  }

  /** The path starts with the index of an item after j. */
  predicate After(e: Edit, j: nat) {
    Located(e) && PyInt(DropEmpty(e.parts)[0]).Some? && PyInt(DropEmpty(e.parts)[0]).value > j
  }

  predicate AllAfter(es: seq<Edit>, j: nat) {
    es == [] || (After(es[0], j) && AllAfter(es[1..], j))
  }

  lemma {:induction false} ConcatAfter(x: seq<Edit>, y: seq<Edit>, j: nat)
    requires AllAfter(x, j) && AllAfter(y, j)
    ensures AllAfter(x + y, j)
  {
    if x == [] {
      assert x + y == y;
    } else {
      assert (x + y)[1..] == x[1..] + y;
      ConcatAfter(x[1..], y, j);
    }
  }

  lemma ConsAfter(i: nat, act: Act, es: seq<Edit>, j: nat)
    requires j < i && AllAfter(es, j)
    ensures AllAfter([Edit([Dec(i)], act)] + es, j)
  {
    OneComponent(Dec(i));
    PyIntOfDec(i);
    assert ([Edit([Dec(i)], act)] + es)[1..] == es;
  }

  lemma {:induction false} ItemFrames(xs: seq<Json>, es: seq<Edit>, j: nat)
    requires AllAfter(es, j) && j < |xs|
    ensures var o := RunEdits(Arr(xs), es);
            o.Done? ==> o.doc.Arr? && j < |o.doc.items| && o.doc.items[j] == xs[j]
    decreases |es|
  {
    if es != [] {
      var parts := DropEmpty(es[0].parts);
      assert After(es[0], j);
      assert parts == [parts[0]] + parts[1..];
      ItemFrame(xs, parts[0], PyInt(parts[0]).value, parts[1..], es[0].act, j);
      var o := EditAt(Arr(xs), parts, es[0].act);
      if o.Done? { ItemFrames(o.doc.items, es[1..], j); }
    }
  }

  /** Edits inside an item that is missing raise at once. */
  lemma MissingItem(xs: seq<Json>, i: nat, es: seq<Edit>)
    requires i >= |xs| && AllLocated(es) && es != []
    ensures RunEdits(Arr(xs), Prefixed(Dec(i), es)) == Raised
  {
    PyIntOfDec(i);
    assert Located(es[0]);
    var rest := DropEmpty(es[0].parts);
    assert DropEmpty([Dec(i)] + es[0].parts) == [Dec(i)] + rest by {
      assert ([Dec(i)] + es[0].parts)[1..] == es[0].parts;
    }
    Descend(Arr(xs), Dec(i), rest, es[0].act);
  }

  lemma MissingKey(f: map<string, Json>, k: string, es: seq<Edit>)
    requires k != "" && k !in f && AllLocated(es) && es != []
    ensures RunEdits(Obj(f), Prefixed(k, es)) == Raised
  {
    assert Located(es[0]);
    var rest := DropEmpty(es[0].parts);
    assert DropEmpty([k] + es[0].parts) == [k] + rest by { assert ([k] + es[0].parts)[1..] == es[0].parts; }
    Descend(Obj(f), k, rest, es[0].act);
  }

  // ---- Where the edits of a walk point ----

  lemma PrefixedParts(k: string, es: seq<Edit>, i: nat)
    requires i < |es|
    ensures DropEmpty(Prefixed(k, es)[i].parts) ==
            (if k == "" then [] else [k]) + DropEmpty(es[i].parts)
  {
    assert ([k] + es[i].parts)[1..] == es[i].parts;
  }

  lemma PrefixedAvoids(k: string, es: seq<Edit>, o: string)
    requires k != "" && k != o
    ensures AllAvoid(Prefixed(k, es), o)
  {
    forall i | 0 <= i < |es| { PrefixedParts(k, es, i); }
  }

  lemma {:induction false} KeyEditsAvoid(a: Json, b: Json, ks: seq<string>, o: string)
    requires a.Obj? && b.Obj? && o !in ks && "" !in ks
    ensures AllAvoid(KeyEdits(a, b, ks), o)
    decreases |ks|
  {
    if ks != [] {
      assert ks[0] in ks;
      PrefixedAvoids(ks[0], EditsAtKey(a, b, ks[0]), o);
      KeyEditsAvoid(a, b, ks[1..], o);
    }
  }

  lemma {:induction false} PrefixedAfter(i: nat, es: seq<Edit>, j: nat)
    requires j < i
    ensures AllAfter(Prefixed(Dec(i), es), j)
  {
    if es != [] {
      PyIntOfDec(i);
      PrefixedParts(Dec(i), es, 0);
      PrefixedAfter(i, es[1..], j);
      assert Prefixed(Dec(i), es)[1..] == Prefixed(Dec(i), es[1..]);
    }
  }

  lemma {:induction false} AddsAfter(ys: seq<Json>, i: nat, j: nat)
    requires j < i
    ensures AllAfter(AddEdits(ys, i), j)
    decreases |ys| - i
  {
    if i < |ys| {
      AddsAfter(ys, i + 1, j);
      ConsAfter(i, Add(ys[i]), AddEdits(ys, i + 1), j);
    }
  }

  lemma {:induction false} RemovesAfter(n: nat, keep: nat, j: nat)
    requires j < keep
    ensures AllAfter(RemoveEdits(n, keep), j)
    decreases n
  {
    if n > keep {
      RemovesAfter(n - 1, keep, j);
      ConsAfter(n - 1, Remove, RemoveEdits(n - 1, keep), j);
    }
  }

  lemma {:induction false} ItemEditsAfter(a: Json, b: Json, i: nat, j: nat)
    requires a.Arr? && b.Arr? && j < i <= Shared(a, b)
    ensures AllAfter(ItemEdits(a, b, i), j)
    decreases Shared(a, b) - i
  {
    if i < Shared(a, b) {
      ItemEditsAfter(a, b, i + 1, j);
      ItemsAfterStep(a, b, i, j);
    } else {
      ItemsAfterEnd(a, b, j);
    }
  }

  lemma ItemsAfterEnd(a: Json, b: Json, j: nat)
    requires a.Arr? && b.Arr?
    ensures AllAfter(ItemEdits(a, b, Shared(a, b)), j)
  {
    assert ItemEdits(a, b, Shared(a, b)) == [];
  }

  lemma ItemsAfterStep(a: Json, b: Json, i: nat, j: nat)
    requires a.Arr? && b.Arr? && j < i < Shared(a, b) && AllAfter(ItemEdits(a, b, i + 1), j)
    ensures AllAfter(ItemEdits(a, b, i), j)
  {
    ItemAfter(i, Edits(a.items[i], b.items[i]), ItemEdits(a, b, i + 1), j);
  }

  lemma ItemAfter(i: nat, es: seq<Edit>, later: seq<Edit>, j: nat)
    requires j < i && AllAfter(later, j)
    ensures AllAfter(Prefixed(Dec(i), es) + later, j)
  {
    PrefixedAfter(i, es, j);
    ConcatAfter(Prefixed(Dec(i), es), later, j);
  }

  /** The edits of an array walk from index i on. */
  ghost function ArrayTail(a: Json, b: Json, i: nat): seq<Edit>
    requires a.Arr? && b.Arr? && i <= Shared(a, b)
  {
    ItemEdits(a, b, i) + AddEdits(b.items, Shared(a, b)) + RemoveEdits(|a.items|, Shared(a, b))
  }

  lemma ArrayTailAfter(a: Json, b: Json, i: nat, j: nat)
    requires a.Arr? && b.Arr? && j < i <= Shared(a, b)
    ensures AllAfter(ArrayTail(a, b, i), j)
  {
    ItemEditsAfter(a, b, i, j);
    AddsAfter(b.items, Shared(a, b), j);
    RemovesAfter(|a.items|, Shared(a, b), j);
    ConcatAfter(ItemEdits(a, b, i), AddEdits(b.items, Shared(a, b)), j);
    ConcatAfter(ItemEdits(a, b, i) + AddEdits(b.items, Shared(a, b)), RemoveEdits(|a.items|, Shared(a, b)), j);
  }

  lemma ArrayTailStep(a: Json, b: Json, i: nat)
    requires a.Arr? && b.Arr? && i < Shared(a, b)
    ensures ArrayTail(a, b, i) == Prefixed(Dec(i), Edits(a.items[i], b.items[i])) + ArrayTail(a, b, i + 1)
  {
  }

  /** The item's own edits run first, then the rest of the walk. */
  lemma RunArrayTail(doc: Json, a: Json, b: Json, i: nat)
    requires a.Arr? && b.Arr? && i < Shared(a, b)
    ensures var o := RunEdits(doc, Prefixed(Dec(i), Edits(a.items[i], b.items[i])));
            RunEdits(doc, ArrayTail(a, b, i)) == if o.Done? then RunEdits(o.doc, ArrayTail(a, b, i + 1)) else o
  {
    ArrayTailStep(a, b, i);
    RunEditsConcat(doc, Prefixed(Dec(i), Edits(a.items[i], b.items[i])), ArrayTail(a, b, i + 1));
  }

  /** Only the first edit of a walk can lose its whole path to the reader. */
  lemma {:induction false} OnlyFirstUnlocated(a: Json, b: Json, n: nat)
    requires 0 < n < |Edits(a, b)|
    ensures Located(Edits(a, b)[n])
    decreases a, 3
  {
    if a.Obj? && b.Obj? {
      var keys := a.fields.Keys + b.fields.Keys;
      SortedKeysSorted(keys);
      KeysOnlyFirst(a, b, SortedKeys(keys), n);
    } else if a.Arr? && b.Arr? {
      ArrayLocated(a, b);
    }
  }

  lemma ArrayLocated(a: Json, b: Json)
    requires a.Arr? && b.Arr?
    ensures AllLocated(Edits(a, b))
  {
    ItemsLocated(a, b, 0);
    AddsLocated(b.items, Shared(a, b));
    RemovesLocated(|a.items|, Shared(a, b));
  }

  lemma {:induction false} KeysOnlyFirst(a: Json, b: Json, ks: seq<string>, n: nat)
    requires a.Obj? && b.Obj? && Ascending(ks)
    requires forall k :: k in ks ==> k in a.fields || k in b.fields
    requires 0 < n < |KeyEdits(a, b, ks)|
    ensures Located(KeyEdits(a, b, ks)[n])
    decreases a, 2
  {
    var es := EditsAtKey(a, b, ks[0]);
    NoEmptyAfterFirst(ks);
    if n < |es| {
      assert ks[0] in ks;
      PrefixedParts(ks[0], es, n);
      if ks[0] == "" { OnlyFirstUnlocated(a.fields[""], b.fields[""], n); }
    } else {
      KeyEditsAvoid(a, b, ks[1..], "");
      assert KeyEdits(a, b, ks)[n] == KeyEdits(a, b, ks[1..])[n - |es|];
    }
  }

  lemma NoEmptyAfterFirst(ks: seq<string>)
    requires Ascending(ks) && ks != []
    ensures "" !in ks[1..] && ks[0] !in ks[1..] && Ascending(ks[1..])
  {
    forall j | 0 < j < |ks| ensures ks[j] != "" && ks[j] != ks[0] { StrLessIrreflexive(ks[0]); }
  }

  lemma TailLocated(a: Json, b: Json, n: nat)
    requires n < |Edits(a, b)|
    ensures AllLocated(Edits(a, b)[n + 1..])
  {
    var es := Edits(a, b);
    forall m | n < m < |es| ensures Located(es[m]) { OnlyFirstUnlocated(a, b, m); }
  }

  // ---- The value an edit carries is found that deep in the second document ----

  predicate CarriesValue(act: Act) { !act.Remove? }

  lemma {:induction false} AddEditsAt(ys: seq<Json>, i: nat)
    ensures |AddEdits(ys, i)| == if i <= |ys| then |ys| - i else 0
    ensures forall n :: 0 <= n < |AddEdits(ys, i)| ==> AddEdits(ys, i)[n] == Edit([Dec(i + n)], Add(ys[i + n]))
    decreases |ys| - i
  {
    if i < |ys| {
      AddEditsAt(ys, i + 1);
      var rest := AddEdits(ys, i + 1);
      assert AddEdits(ys, i) == [Edit([Dec(i)], Add(ys[i]))] + rest;
      forall n | 1 <= n <= |rest| ensures AddEdits(ys, i)[n] == Edit([Dec(i + n)], Add(ys[i + n])) {
        assert AddEdits(ys, i)[n] == rest[n - 1] && i + 1 + (n - 1) == i + n;
      }
    }
  }

  lemma {:induction false} RemoveEditsRemove(n: nat, keep: nat)
    ensures forall m :: 0 <= m < |RemoveEdits(n, keep)| ==> RemoveEdits(n, keep)[m].act.Remove?
    decreases n
  {
    if n > keep { RemoveEditsRemove(n - 1, keep); }
  }

  // ---- Starting the rest of a walk from too shallow a document ----

  lemma RemoveBeyond(xs: seq<Json>, i: nat)
    requires |xs| <= i
    ensures Step(Arr(xs), DropEmpty([Dec(i)]), Remove) == Raised
  {
    PyIntOfDec(i);
    StepOne(Arr(xs), Dec(i), Remove);
  }

  /** An array that has already fallen behind index i cannot catch up. */
  lemma ShortAdds(xs: seq<Json>, ys: seq<Json>, i: nat)
    requires |xs| < i <= |ys|
    ensures TooShort(RunEdits(Arr(xs), AddEdits(ys, i)), |ys|)
  {
    AddsRun(xs, ys, i);
  }

  /** Removing past the end raises. */
  lemma ShortRemoves(xs: seq<Json>, n: nat, keep: nat)
    requires n > keep ==> |xs| < n
    ensures RunEdits(Arr(xs), RemoveEdits(n, keep)) == if n > keep then Raised else Done(Arr(xs))
  {
    if n > keep { RemoveBeyond(xs, n - 1); }
  }

  /** The edits of one item, on an array that is too short to hold it, can at most append one. */
  lemma ShortItem(xs: seq<Json>, i: nat, es: seq<Edit>)
    requires |xs| < i
    requires es != [] ==> AllLocated(es[1..])
    ensures var o := RunEdits(Arr(xs), Prefixed(Dec(i), es));
            o.Done? ==> o.doc.Arr? && |xs| <= |o.doc.items| <= |xs| + 1
  {
    if es != [] {
      if Located(es[0]) {
        assert AllLocated(es) by { assert forall n :: 0 < n < |es| ==> es[n] == es[1..][n - 1]; }
        MissingItem(xs, i, es);
      } else {
        UnlocatedFirst(Arr(xs), Dec(i), es);
        var o := EditLeaf(Arr(xs), Dec(i), es[0].act);
        ShortLeaf(xs, i, es[0].act);
        if o.Done? && es[1..] != [] { MissingItem(o.doc.items, i, es[1..]); }
      }
    }
  }

  lemma ShortLeaf(xs: seq<Json>, i: nat, act: Act)
    requires |xs| < i
    ensures var o := EditLeaf(Arr(xs), Dec(i), act);
            o.Done? ==> o.doc.Arr? && |o.doc.items| == |xs| + 1
  {
    PyIntOfDec(i);
  }

  /** An edit that lost its own path acts, under a component, on that component's slot. */
  lemma UnlocatedFirst(node: Json, k: string, es: seq<Edit>)
    requires k != "" && es != [] && !Located(es[0])
    ensures RunEdits(node, Prefixed(k, es)) ==
            var o := EditLeaf(node, k, es[0].act);
            if o.Done? then RunEdits(o.doc, Prefixed(k, es[1..])) else o
  {
    PrefixedParts(k, es, 0);
    var p := Prefixed(k, es);
    assert p[1..] == Prefixed(k, es[1..]);
    assert DropEmpty(p[0].parts) == [k];
  }

  lemma FirstUnlocatedOnly(a: Json, b: Json)
    requires Edits(a, b) != []
    ensures AllLocated(Edits(a, b)[1..])
  {
    TailLocated(a, b, 0);
  }

  ghost predicate TooShort(o: Outcome, n: nat) {
    o.Done? ==> o.doc.Arr? && |o.doc.items| < n
  }

  ghost predicate StaysShort(a: Json, b: Json, i: nat, xs: seq<Json>)
    requires a.Arr? && b.Arr? && i <= Shared(a, b)
  {
    TooShort(RunEdits(Arr(xs), ArrayTail(a, b, i)), |b.items|)
  }

  /** Walking on from index i, the array never becomes long enough again. */
  lemma {:induction false} ShortArray(a: Json, b: Json, i: nat, xs: seq<Json>)
    requires a.Arr? && b.Arr? && |xs| < i <= Shared(a, b)
    ensures StaysShort(a, b, i, xs)
    decreases Shared(a, b) - i
  {
    if i == Shared(a, b) {
      ShortExtras(a, b, xs);
    } else {
      forall ys | |ys| <= |xs| + 1 ensures StaysShort(a, b, i + 1, ys) { ShortArray(a, b, i + 1, ys); }
      ShortFrom(a, b, i, xs);
    }
  }

  lemma ShortFrom(a: Json, b: Json, i: nat, xs: seq<Json>)
    requires a.Arr? && b.Arr? && |xs| < i < Shared(a, b)
    requires forall ys :: |ys| <= |xs| + 1 ==> StaysShort(a, b, i + 1, ys)
    ensures StaysShort(a, b, i, xs)
  {
    var o := RunEdits(Arr(xs), Prefixed(Dec(i), Edits(a.items[i], b.items[i])));
    RunArrayTail(Arr(xs), a, b, i);
    ShortHere(a.items[i], b.items[i], i, xs);
    if o.Done? { assert StaysShort(a, b, i + 1, o.doc.items); }
  }

  lemma ShortHere(x: Json, y: Json, i: nat, xs: seq<Json>)
    requires |xs| < i
    ensures var o := RunEdits(Arr(xs), Prefixed(Dec(i), Edits(x, y)));
            o.Done? ==> o.doc.Arr? && |o.doc.items| <= |xs| + 1
  {
    if Edits(x, y) != [] { FirstUnlocatedOnly(x, y); }
    ShortItem(xs, i, Edits(x, y));
  }

  lemma ShortExtras(a: Json, b: Json, xs: seq<Json>)
    requires a.Arr? && b.Arr? && |xs| < Shared(a, b)
    ensures StaysShort(a, b, Shared(a, b), xs)
  {
    var s := Shared(a, b);
    var adds, removes := AddEdits(b.items, s), RemoveEdits(|a.items|, s);
    assert ArrayTail(a, b, s) == adds + removes;
    RunEditsConcat(Arr(xs), adds, removes);
    if s == |b.items| {
      assert adds == [];
      ShortRemoves(xs, |a.items|, s);
    } else {
      assert removes == [];
      ShortAdds(xs, b.items, s);
    }
  }

  lemma ConcatFrom(x: seq<Edit>, y: seq<Edit>, n: nat)
    requires n < |x| + |y|
    ensures (x + y)[n] == if n < |x| then x[n] else y[n - |x|]
  {
  }

  lemma ExtrasFrom(a: Json, b: Json, n: nat)
    requires a.Arr? && b.Arr?
    requires n < |ArrayTail(a, b, Shared(a, b))| && CarriesValue(ArrayTail(a, b, Shared(a, b))[n].act)
    ensures var i := Shared(a, b) + n;
            i < |b.items| && ArrayTail(a, b, Shared(a, b))[n] == Edit([Dec(i)], Add(b.items[i]))
  {
    ExtrasShape(a, b, n);
    AddEditsAt(b.items, Shared(a, b));
  }

  /** After the shared items come the adds, which are the only edits there with a value. */
  lemma ExtrasShape(a: Json, b: Json, n: nat)
    requires a.Arr? && b.Arr?
    requires n < |ArrayTail(a, b, Shared(a, b))| && CarriesValue(ArrayTail(a, b, Shared(a, b))[n].act)
    ensures Shared(a, b) + n < |b.items| && ArrayTail(a, b, Shared(a, b)) == AddEdits(b.items, Shared(a, b))
  {
    var s := Shared(a, b);
    var adds, removes := AddEdits(b.items, s), RemoveEdits(|a.items|, s);
    AddEditsAt(b.items, s);
    assert ArrayTail(a, b, s) == adds + removes;
    if |a.items| < |b.items| {
      assert removes == [];
    } else {
      assert ArrayTail(a, b, s) == removes;
      RemoveEditsRemove(|a.items|, s);
    }
  }

  // ---- Walks that meet a difference under an empty key ----

  lemma AllLocatedFromFirst(es: seq<Edit>)
    requires es != [] ==> Located(es[0]) && AllLocated(es[1..])
    ensures AllLocated(es)
  {
    forall n | 0 <= n < |es| ensures Located(es[n]) {
      if n > 0 { assert es[n] == es[1..][n - 1]; }
    }
  }

  lemma DirtyMember(a: Json, b: Json) returns (k: string)
    requires a.Obj? && b.Obj? && !Clean(a, b) && SameAt(a, b, "")
    ensures k != "" && k in a.fields && k in b.fields && !Clean(a.fields[k], b.fields[k])
  {
    k :| k != "" && k in a.fields && k in b.fields && !Clean(a.fields[k], b.fields[k]);
  }

  lemma DirtyPosition(a: Json, b: Json) returns (d: nat)
    requires a.Arr? && b.Arr? && !Clean(a, b)
    ensures d < Shared(a, b) && !Clean(a.items[d], b.items[d])
  {
    d :| 0 <= d < Shared(a, b) && !Clean(a.items[d], b.items[d]);
  }

  lemma KeysInOrder(a: Json, b: Json) returns (ks: seq<string>)
    requires a.Obj? && b.Obj? && !Clean(a, b)
    ensures Ascending(ks) && forall k :: k in ks <==> k in a.fields || k in b.fields
    ensures Edits(a, b) == KeyEdits(a, b, ks)
  {
    SortedKeysSorted(a.fields.Keys + b.fields.Keys);
    ks := SortedKeys(a.fields.Keys + b.fields.Keys);
  }

  /** Unequal documents have an edit, so a walk over a difference has a first one. */
  lemma {:induction false} DirtyHasEdits(a: Json, b: Json)
    requires !Clean(a, b)
    ensures Edits(a, b) != [] && Containers(a, b)
  {
    UnequalHasEdits(a, b);
  }

  lemma {:induction false} UnequalHasEdits(a: Json, b: Json)
    ensures DeepEqual(a, b) <==> Edits(a, b) == []
    decreases a, 3
  {
    if DeepEqual(a, b) {
    } else if a.Obj? && b.Obj? {
      var keys := a.fields.Keys + b.fields.Keys;
      SortedKeysSorted(keys);
      var k :| k in keys && !SameAt(a, b, k);
      assert k in SortedKeys(keys);
      KeysHaveEdits(a, b, SortedKeys(keys), k);
    } else if a.Arr? && b.Arr? {
      if |a.items| == |b.items| {
        var i :| 0 <= i < |a.items| && !DeepEqual(a.items[i], b.items[i]);
        ItemsHaveEdits(a, b, 0, i);
      }
    }
  }

  lemma {:induction false} KeysHaveEdits(a: Json, b: Json, ks: seq<string>, k: string)
    requires a.Obj? && b.Obj? && k in ks && !SameAt(a, b, k)
    ensures KeyEdits(a, b, ks) != []
    decreases a, 2, |ks|
  {
    if ks[0] == k {
      if k in a.fields && k in b.fields { UnequalHasEdits(a.fields[k], b.fields[k]); }
    } else {
      KeysHaveEdits(a, b, ks[1..], k);
    }
  }

  lemma {:induction false} ItemsHaveEdits(a: Json, b: Json, i: nat, d: nat)
    requires a.Arr? && b.Arr? && i <= d < Shared(a, b) && !DeepEqual(a.items[d], b.items[d])
    ensures ItemEdits(a, b, i) != []
    decreases a, 2, d - i
  {
    var here := Prefixed(Dec(i), Edits(a.items[i], b.items[i]));
    assert ItemEdits(a, b, i) == here + ItemEdits(a, b, i + 1);
    if i == d {
      UnequalHasEdits(a.items[i], b.items[i]);
      assert |here| > 0;
    } else {
      ItemsHaveEdits(a, b, i + 1, d);
    }
  }

  /** No path the reader produces has an empty component. */
  lemma EmptyKeyUntouched(f: map<string, Json>, es: seq<Edit>)
    requires AllLocated(es)
    ensures var o := RunEdits(Obj(f), es);
            o.Done? ==> o.doc.Obj? && SameMember(f, o.doc.fields, "")
  {
    forall i | 0 <= i < |es| ensures Located(es[i]) && DropEmpty(es[i].parts)[0] != "" {
      assert Located(es[i]);
      var p := DropEmpty(es[i].parts);
      assert p[0] in p;
    }
    KeyFrames(f, es, "");
  }

  /** Between containers every edit is emitted below the root. */
  lemma ValueBelowRoot(a: Json, b: Json, n: nat)
    requires Containers(a, b) && n < |Edits(a, b)|
    ensures Edits(a, b)[n].parts != []
  {
    if a.Obj? {
      KeyPartsNonEmpty(a, b, SortedKeys(a.fields.Keys + b.fields.Keys), n);
    } else {
      ArrayLocated(a, b);
      assert Located(Edits(a, b)[n]);
    }
  }

  lemma {:induction false} KeyPartsNonEmpty(a: Json, b: Json, ks: seq<string>, n: nat)
    requires a.Obj? && b.Obj? && n < |KeyEdits(a, b, ks)|
    ensures KeyEdits(a, b, ks)[n].parts != []
    decreases |ks|
  {
    var here := Prefixed(ks[0], EditsAtKey(a, b, ks[0]));
    if n >= |here| { KeyPartsNonEmpty(a, b, ks[1..], n - |here|); }
  }

  lemma DeficitExtras(a: Json, b: Json, xs: seq<Json>)
    requires a.Arr? && b.Arr? && |xs| < |a.items|
    ensures TooShort(RunEdits(Arr(xs), ArrayTail(a, b, Shared(a, b))), |b.items|)
  {
    var s := Shared(a, b);
    var adds, removes := AddEdits(b.items, s), RemoveEdits(|a.items|, s);
    assert ItemEdits(a, b, s) == [];
    assert ArrayTail(a, b, s) == adds + removes;
    if s == |a.items| {
      assert adds + removes == adds;
      ShortAdds(xs, b.items, s);
    } else {
      assert adds + removes == removes;
      ShortRemoves(xs, |a.items|, s);
    }
  }

  function RunAll(doc: Json, es: seq<Edit>): Option<Json>
    decreases |es|
  {
    if es == [] then Some(doc)
    else match ApplyOp(doc, DropEmpty(es[0].parts), es[0].act)
      case None => None
      case Some(d) => RunAll(d, es[1..])
  }

  ghost predicate Yields(r: Option<Json>, b: Json) {
    r.Some? && DeepEqual(r.value, b)
  }

  lemma {:induction false} RunAllPlain(doc: Json, es: seq<Edit>)
    requires RunEdits(doc, es).Done?
    ensures RunAll(doc, es) == Some(RunEdits(doc, es).doc)
    decreases |es|
  {
    if es != [] { RunAllPlain(Step(doc, DropEmpty(es[0].parts), es[0].act).doc, es[1..]); }
  }

  lemma EscapeCarriesValue(doc: Json, parts: seq<string>, act: Act)
    requires Step(doc, parts, act).Escaped?
    ensures CarriesValue(act)
  {
  }

  lemma CleanYields(a: Json, b: Json)
    requires Clean(a, b)
    ensures Yields(RunAll(a, Edits(a, b)), b)
  {
    if Containers(a, b) {
      CleanRuns(a, b);
      RunAllPlain(a, Edits(a, b));
    } else if !DeepEqual(a, b) {
      assert Edits(a, b) == [Edit([], Replace(b))];
      assert Edits(a, b)[1..] == [];
      DeepEqualReflexive(b);
    }
  }

  lemma RootEmptyKeyDiffers(a: Json, b: Json)
    requires a.Obj? && b.Obj? && Edits(a, b) != [] && !Located(Edits(a, b)[0])
    ensures !SameAt(a, b, "")
  {
    var keys := a.fields.Keys + b.fields.Keys;
    SortedKeysSorted(keys);
    if SameAt(a, b, "") { KeysLocated(a, b, SortedKeys(keys)); }
  }
}
