/** Applying the generated edit script to the first document yields the second. */
module JsonPatchTheorem {
  import opened Text
  import opened Json
  import opened JsonPointer
  import opened JsonPatch

  /** No difference sits under an empty key: wherever the two documents are walked together,
      an empty key is in neither object or its values are equal. Only such a difference makes
      an emitted path name an empty component. */
  ghost predicate Clean(a: Json, b: Json)
    decreases a
  {
    DeepEqual(a, b)
    || (a.Obj? && b.Obj?
        && SameAt(a, b, "")
        && forall k :: k != "" && k in a.fields && k in b.fields ==> Clean(a.fields[k], b.fields[k]))
    || (a.Arr? && b.Arr?
        && forall i :: 0 <= i < Shared(a, b) ==> Clean(a.items[i], b.items[i]))
    || (!(a.Obj? && b.Obj?) && !(a.Arr? && b.Arr?))
  }

  predicate SameAt(a: Json, b: Json, k: string)
    requires a.Obj? && b.Obj?
  {
    (k in a.fields <==> k in b.fields) && (k in a.fields ==> DeepEqual(a.fields[k], b.fields[k]))
  }

  /** The edits run without raising and without taking over the whole document. */
  function RunEdits(doc: Json, es: seq<Edit>): Outcome
    decreases |es|
  {
    if es == [] then Done(doc)
    else match Step(doc, DropEmpty(es[0].parts), es[0].act)
      case Done(d) => RunEdits(d, es[1..])
      case o => o
  }

  lemma {:induction false} RunEditsConcat(doc: Json, x: seq<Edit>, y: seq<Edit>)
    ensures RunEdits(doc, x + y) ==
            match RunEdits(doc, x) { case Done(d) => RunEdits(d, y) case o => o }
    decreases |x|
  {
    if x == [] {
      assert x + y == y;
    } else {
      assert (x + y)[1..] == x[1..] + y;
      match Step(doc, DropEmpty(x[0].parts), x[0].act)
      case Done(d) => RunEditsConcat(d, x[1..], y);
      case _ =>
    }
  }

  // ---- One level of descent ----

  /** The first component selects the member that the rest of the path acts on. */
  lemma Descend(node: Json, k: string, rest: seq<string>, act: Act)
    requires rest != []
    ensures EditAt(node, [k] + rest, act) ==
            match Child(node, k) {
              case None => Raised
              case Some(c) =>
                match EditAt(c, rest, act) { case Done(d) => Done(WithChild(node, k, d)) case o => o }
            }
  {
    var parts := [k] + rest;
    var init := parts[..|parts| - 1];
    assert init[0] == k && init[1..] == rest[..|rest| - 1];
    assert parts[|parts| - 1] == rest[|rest| - 1];
  }

  /** The reader finds at least one component in the edit's path. */
  predicate Located(e: Edit) { DropEmpty(e.parts) != [] }

  ghost predicate AllLocated(es: seq<Edit>) {
    forall i :: 0 <= i < |es| ==> Located(es[i])
  }

  /** What running edits on a member leaves of its container. */
  function Within(node: Json, k: string, o: Outcome): Outcome
    requires Child(node, k).Some?
  {
    match o
    case Done(c) => Done(WithChild(node, k, c))
    case _ => o
  }

  /** Edits under one component change that member only: the container ends as it was, with
      the member's own result in its place. */
  lemma {:induction false} Locality(node: Json, k: string, es: seq<Edit>)
    requires k != "" && Child(node, k).Some?
    requires AllLocated(es)
    ensures RunEdits(node, Prefixed(k, es)) == Within(node, k, RunEdits(Child(node, k).value, es))
    decreases |es|
  {
    var c := Child(node, k).value;
    if es == [] {
      assert WithChild(node, k, c) == node;
    } else {
      FirstBelow(node, k, es);
      var o := EditAt(c, DropEmpty(es[0].parts), es[0].act);
      if o.Done? {
        var next := WithChild(node, k, o.doc);
        WithChildTwice(node, k, o.doc);
        Locality(next, k, es[1..]);
        WithinTwice(node, k, o.doc, RunEdits(o.doc, es[1..]));
      }
    }
  }

  /** The first edit under a component, and the run that follows it. */
  lemma FirstBelow(node: Json, k: string, es: seq<Edit>)
    requires k != "" && Child(node, k).Some? && es != [] && Located(es[0])
    ensures var o := EditAt(Child(node, k).value, DropEmpty(es[0].parts), es[0].act);
            RunEdits(node, Prefixed(k, es)) ==
            if o.Done? then RunEdits(WithChild(node, k, o.doc), Prefixed(k, es[1..])) else o
  {
    var e := es[0];
    assert DropEmpty([k] + e.parts) == [k] + DropEmpty(e.parts) by { assert ([k] + e.parts)[1..] == e.parts; }
    Descend(node, k, DropEmpty(e.parts), e.act);
    assert Prefixed(k, es)[1..] == Prefixed(k, es[1..]);
  }

  lemma WithinTwice(node: Json, k: string, d: Json, o: Outcome)
    requires Child(node, k).Some?
    ensures Child(WithChild(node, k, d), k).Some? && Within(WithChild(node, k, d), k, o) == Within(node, k, o)
  {
    if o.Done? { assert WithChild(WithChild(node, k, d), k, o.doc) == WithChild(node, k, o.doc); }
  }

  lemma WithChildTwice(node: Json, k: string, c: Json)
    requires Child(node, k).Some?
    ensures Child(WithChild(node, k, c), k) == Some(c)
  {
  }

  // ---- Clean pairs ----

  predicate Containers(a: Json, b: Json) {
    (a.Obj? && b.Obj?) || (a.Arr? && b.Arr?)
  }

  /** In a clean pair of containers every edit names at least one component to the reader. */
  lemma {:induction false} CleanLocated(a: Json, b: Json)
    requires Containers(a, b) && Clean(a, b)
    ensures AllLocated(Edits(a, b))
  {
    if DeepEqual(a, b) {
    } else if a.Obj? {
      var keys := a.fields.Keys + b.fields.Keys;
      SortedKeysSorted(keys);
      KeysLocated(a, b, SortedKeys(keys));
    } else {
      ItemsLocated(a, b, 0);
      AddsLocated(b.items, Shared(a, b));
      RemovesLocated(|a.items|, Shared(a, b));
    }
  }

  lemma {:induction false} PrefixedLocated(k: string, es: seq<Edit>)
    requires k != "" || es == []
    ensures AllLocated(Prefixed(k, es))
  {
    if es != [] { PrefixedLocated(k, es[1..]); }
  }

  lemma {:induction false} KeysLocated(a: Json, b: Json, ks: seq<string>)
    requires a.Obj? && b.Obj? && SameAt(a, b, "")
    requires forall k :: k in ks ==> k in a.fields || k in b.fields
    ensures AllLocated(KeyEdits(a, b, ks))
    decreases |ks|
  {
    if ks != [] {
      assert ks[0] in ks;
      if ks[0] == "" { assert EditsAtKey(a, b, "") == Edits(a.fields[""], b.fields[""]) == []; }
      PrefixedLocated(ks[0], EditsAtKey(a, b, ks[0]));
      KeysLocated(a, b, ks[1..]);
    }
  }

  lemma {:induction false} ItemsLocated(a: Json, b: Json, i: nat)
    requires a.Arr? && b.Arr? && i <= Shared(a, b)
    ensures AllLocated(ItemEdits(a, b, i))
    decreases Shared(a, b) - i
  {
    if i < Shared(a, b) {
      PrefixedLocated(Dec(i), Edits(a.items[i], b.items[i]));
      ItemsLocated(a, b, i + 1);
    }
  }

  lemma {:induction false} AddsLocated(ys: seq<Json>, i: nat)
    ensures AllLocated(AddEdits(ys, i))
    decreases |ys| - i
  {
    if i < |ys| {
      OneComponent(Dec(i));
      AddsLocated(ys, i + 1);
    }
  }

  lemma {:induction false} RemovesLocated(n: nat, keep: nat)
    ensures AllLocated(RemoveEdits(n, keep))
    decreases n
  {
    if n > keep {
      OneComponent(Dec(n - 1));
      RemovesLocated(n - 1, keep);
    }
  }

  /** The edits between two clean containers turn the first into the second. */
  lemma {:induction false} CleanRuns(a: Json, b: Json)
    requires Containers(a, b) && Clean(a, b)
    ensures RunEdits(a, Edits(a, b)).Done? && DeepEqual(RunEdits(a, Edits(a, b)).doc, b)
    decreases a, 3
  {
    if DeepEqual(a, b) {
    } else if a.Obj? {
      var keys := a.fields.Keys + b.fields.Keys;
      var ks := SortedKeys(keys);
      SortedKeysSorted(keys);
      KeysRun(a, b, ks, a.fields);
    } else {
      ItemsRun(a, b, 0, a.items);
      ArrayRuns(a, b, RunEdits(a, ItemEdits(a, b, 0)).doc.items);
    }
  }

  lemma ArrayRuns(a: Json, b: Json, mid: seq<Json>)
    requires a.Arr? && b.Arr? && !DeepEqual(a, b) && |mid| == |a.items|
    requires RunEdits(a, ItemEdits(a, b, 0)) == Done(Arr(mid))
    requires forall i :: 0 <= i < Shared(a, b) ==> DeepEqual(mid[i], b.items[i])
    ensures RunEdits(a, Edits(a, b)).Done? && DeepEqual(RunEdits(a, Edits(a, b)).doc, b)
  {
    ExtrasRun(a, ItemEdits(a, b, 0), mid, b.items, Shared(a, b));
    SettledItems(mid, b.items, Shared(a, b));
    assert Arr(b.items) == b;
  }

  lemma SettledItems(mid: seq<Json>, ys: seq<Json>, s: nat)
    requires s <= |mid| && s <= |ys|
    requires forall i :: 0 <= i < s ==> DeepEqual(mid[i], ys[i])
    ensures DeepEqual(Arr(mid[..s] + ys[s..]), Arr(ys))
  {
    var r := mid[..s] + ys[s..];
    forall i | 0 <= i < |r| ensures DeepEqual(r[i], ys[i]) { DeepEqualReflexive(ys[i]); }
  }

  /** Once the shared items are settled, the extra adds and removes finish the array. */
  lemma ExtrasRun(doc: Json, shared: seq<Edit>, mid: seq<Json>, ys: seq<Json>, s: nat)
    requires RunEdits(doc, shared) == Done(Arr(mid))
    requires s == if |mid| < |ys| then |mid| else |ys|
    ensures RunEdits(doc, shared + AddEdits(ys, s) + RemoveEdits(|mid|, s)) == Done(Arr(mid[..s] + ys[s..]))
  {
    var adds := AddEdits(ys, s);
    var removes := RemoveEdits(|mid|, s);
    RunEditsConcat(doc, shared, adds);
    RunEditsConcat(doc, shared + adds, removes);
    if s == |mid| {
      AddsRun(mid, ys, s);
      assert mid[..s] == mid;
    } else {
      RemovesRun(mid, s);
      assert mid[..s] + ys[s..] == mid[..s];
    }
  }

  /** What a key's member should be after its edits. */
  ghost predicate Settled(f: map<string, Json>, b: Json, k: string)
    requires b.Obj?
  {
    if k in b.fields then k in f && DeepEqual(f[k], b.fields[k]) else k !in f
  }

  lemma {:induction false} KeyRun(a: Json, b: Json, k: string, f: map<string, Json>)
    requires a.Obj? && b.Obj? && Clean(a, b) && !DeepEqual(a, b)
    requires k in a.fields || k in b.fields
    requires (k in f <==> k in a.fields) && (k in f ==> f[k] == a.fields[k])
    ensures var r := RunEdits(Obj(f), Prefixed(k, EditsAtKey(a, b, k)));
            r.Done? && r.doc.Obj? && Settled(r.doc.fields, b, k)
            && forall o :: o != k ==> (o in r.doc.fields <==> o in f) && (o in f ==> r.doc.fields[o] == f[o])
    decreases a, 1
  {
    var es := EditsAtKey(a, b, k);
    if k in a.fields && k in b.fields && DeepEqual(a.fields[k], b.fields[k]) {
      assert es == Edits(a.fields[k], b.fields[k]) == [];
    } else if k in a.fields && k in b.fields && Containers(a.fields[k], b.fields[k]) {
      CleanRuns(a.fields[k], b.fields[k]);
      CleanLocated(a.fields[k], b.fields[k]);
      Locality(Obj(f), k, es);
    } else {
      assert k != "";
      if k in a.fields && k in b.fields {
        assert es == Edits(a.fields[k], b.fields[k]) == [Edit([], Replace(b.fields[k]))];
      }
      if k in b.fields { DeepEqualReflexive(b.fields[k]); }
      assert es == [Edit([], es[0].act)];
      SingleEdit(Obj(f), k, es[0].act);
    }
  }

  lemma OnePrefixed(k: string, act: Act)
    ensures Prefixed(k, [Edit([], act)]) == [Edit([k], act)]
  {
    assert [k] + [] == [k];
  }

  lemma SingleEdit(node: Json, k: string, act: Act)
    requires k != ""
    ensures RunEdits(node, Prefixed(k, [Edit([], act)])) == EditLeaf(node, k, act)
  {
    assert DropEmpty([k]) == [k];
    OnePrefixed(k, act);
    assert [Edit([k], act)][1..] == [];
  }

  lemma {:induction false} KeysRun(a: Json, b: Json, ks: seq<string>, f: map<string, Json>)
    requires a.Obj? && b.Obj? && Clean(a, b) && !DeepEqual(a, b)
    requires forall k :: k in ks ==> k in a.fields || k in b.fields
    requires forall i, j :: 0 <= i < j < |ks| ==> ks[i] != ks[j]
    requires forall k :: k in ks ==> (k in f <==> k in a.fields) && (k in f ==> f[k] == a.fields[k])
    ensures var r := RunEdits(Obj(f), KeyEdits(a, b, ks));
            r.Done? && r.doc.Obj?
            && (forall k :: k in ks ==> Settled(r.doc.fields, b, k))
            && forall o :: o !in ks ==> (o in r.doc.fields <==> o in f) && (o in f ==> r.doc.fields[o] == f[o])
    decreases a, 2, |ks|
  {
    if ks != [] {
      var k := ks[0];
      assert k in ks;
      KeyRun(a, b, k, f);
      var here := Prefixed(k, EditsAtKey(a, b, k));
      var g := RunEdits(Obj(f), here).doc.fields;
      KeysRun(a, b, ks[1..], g);
      RunEditsConcat(Obj(f), here, KeyEdits(a, b, ks[1..]));
      forall o | o in ks ensures o == k || o in ks[1..] { }
    }
  }

  lemma {:induction false} ItemsRun(a: Json, b: Json, i: nat, xs: seq<Json>)
    requires a.Arr? && b.Arr? && Clean(a, b) && !DeepEqual(a, b) && i <= Shared(a, b)
    requires |xs| == |a.items| && forall j :: i <= j < |xs| ==> xs[j] == a.items[j]
    ensures var r := RunEdits(Arr(xs), ItemEdits(a, b, i));
            r.Done? && r.doc.Arr? && |r.doc.items| == |xs|
            && (forall j :: 0 <= j < i || Shared(a, b) <= j < |xs| ==> r.doc.items[j] == xs[j])
            && forall j :: i <= j < Shared(a, b) ==> DeepEqual(r.doc.items[j], b.items[j])
    decreases a, 2, Shared(a, b) - i
  {
    if i < Shared(a, b) {
      var here := Prefixed(Dec(i), Edits(a.items[i], b.items[i]));
      ItemRun(a, b, i, xs);
      var ys := RunEdits(Arr(xs), here).doc.items;
      ItemsRun(a, b, i + 1, ys);
      RunEditsConcat(Arr(xs), here, ItemEdits(a, b, i + 1));
    }
  }

  lemma {:induction false} ItemRun(a: Json, b: Json, i: nat, xs: seq<Json>)
    requires a.Arr? && b.Arr? && i < Shared(a, b) && Clean(a.items[i], b.items[i])
    requires i < |xs| && xs[i] == a.items[i]
    ensures var r := RunEdits(Arr(xs), Prefixed(Dec(i), Edits(a.items[i], b.items[i])));
            r.Done? && r.doc.Arr? && |r.doc.items| == |xs| && r.doc.items == xs[i := r.doc.items[i]]
            && DeepEqual(r.doc.items[i], b.items[i])
    decreases a, 1
  {
    var es := Edits(a.items[i], b.items[i]);
    PyIntOfDec(i);
    if DeepEqual(a.items[i], b.items[i]) {
      assert Prefixed(Dec(i), es) == [];
    } else if Containers(a.items[i], b.items[i]) {
      CleanRuns(a.items[i], b.items[i]);
      CleanLocated(a.items[i], b.items[i]);
      Locality(Arr(xs), Dec(i), es);
    } else {
      SingleEdit(Arr(xs), Dec(i), Replace(b.items[i]));
      DeepEqualReflexive(b.items[i]);
    }
  }

  /** A path of one component acts on the document's own member. */
  lemma StepOne(node: Json, k: string, act: Act)
    requires k != ""
    ensures DropEmpty([k]) == [k] && Step(node, [k], act) == EditLeaf(node, k, act)
  {
    OneComponent(k);
    assert [k][..0] == [];
  }

  lemma OneComponent(k: string)
    requires k != ""
    ensures DropEmpty([k]) == [k]
  {
    assert [k][1..] == [];
  }

  lemma RunCons(doc: Json, e: Edit, rest: seq<Edit>, next: Json)
    requires Step(doc, DropEmpty(e.parts), e.act) == Done(next)
    ensures RunEdits(doc, [e] + rest) == RunEdits(next, rest)
  {
    assert ([e] + rest)[1..] == rest;
  }

  lemma AddAtEnd(xs: seq<Json>, k: string, n: nat, y: Json)
    requires k != "" && PyInt(k) == Some(n) && |xs| <= n
    ensures EditLeaf(Arr(xs), k, Add(y)) == Done(Arr(xs + [y]))
  {
    assert xs[..|xs|] == xs && xs[|xs|..] == [] && xs + [y] + [] == xs + [y];
  }

  lemma AddStep(xs: seq<Json>, i: nat, y: Json, rest: seq<Edit>)
    requires |xs| <= i
    ensures RunEdits(Arr(xs), [Edit([Dec(i)], Add(y))] + rest) == RunEdits(Arr(xs + [y]), rest)
  {
    PyIntOfDec(i);
    StepOne(Arr(xs), Dec(i), Add(y));
    AddAtEnd(xs, Dec(i), i, y);
    RunCons(Arr(xs), Edit([Dec(i)], Add(y)), rest, Arr(xs + [y]));
  }

  lemma TakeOne(xs: seq<Json>, ys: seq<Json>, i: nat)
    requires i < |ys|
    ensures xs + [ys[i]] + ys[i + 1..] == xs + ys[i..]
  {
  }

  ghost predicate AddsWork(xs: seq<Json>, ys: seq<Json>, i: nat)
    requires i <= |ys|
  {
    RunEdits(Arr(xs), AddEdits(ys, i)) == Done(Arr(xs + ys[i..]))
  }

  lemma AddsWorkStep(xs: seq<Json>, ys: seq<Json>, i: nat)
    requires |xs| <= i < |ys| && AddsWork(xs + [ys[i]], ys, i + 1)
    ensures AddsWork(xs, ys, i)
  {
    TakeOne(xs, ys, i);
    AddStep(xs, i, ys[i], AddEdits(ys, i + 1));
  }

  lemma AddsWorkEnd(xs: seq<Json>, ys: seq<Json>)
    ensures AddsWork(xs, ys, |ys|)
  {
    assert AddEdits(ys, |ys|) == [] && xs + ys[|ys|..] == xs;
  }

  /** Adding upwards at the end, or beyond it, appends the items. */
  lemma {:induction false} AddsRun(xs: seq<Json>, ys: seq<Json>, i: nat)
    requires |xs| <= i <= |ys|
    ensures AddsWork(xs, ys, i)
    decreases |ys| - i
  {
    if i < |ys| {
      AddsRun(xs + [ys[i]], ys, i + 1);
      AddsWorkStep(xs, ys, i);
    } else {
      AddsWorkEnd(xs, ys);
    }
  }

  /** Removing downwards from the end leaves the first `keep` items. */
  lemma {:induction false} RemovesRun(xs: seq<Json>, keep: nat)
    requires keep <= |xs|
    ensures RunEdits(Arr(xs), RemoveEdits(|xs|, keep)) == Done(Arr(xs[..keep]))
    decreases |xs|
  {
    if |xs| > keep {
      var n := |xs| - 1;
      PyIntOfDec(n);
      StepOne(Arr(xs), Dec(n), Remove);
      assert xs[..n] + xs[n + 1..] == xs[..n];
      RunCons(Arr(xs), Edit([Dec(n)], Remove), RemoveEdits(n, keep), Arr(xs[..n]));
      RemovesRun(xs[..n], keep);
      assert xs[..n][..keep] == xs[..keep];
    } else {
      assert xs[..keep] == xs;
    }
  }

  // ---- Indices as they are written ----

  lemma NegativeText(n: nat)
    ensures PyInt("-" + Dec(n)) == Some(0 - n)
  {
    var t := "-" + Dec(n);
    var d := Dec(n);
    DigitsOfDec(n, "");
    assert d + "" == d;
    assert t[|t| - 1] == d[|d| - 1] && d[|d| - 1] in d && IsDigit(d[|d| - 1]);
    assert Strip(t) == t && t[1..] == d;
  }

  /** Written indices count from the start, negative ones from the end; an insertion beyond either
      end is made at that end. */
  lemma IndexTexts<T>(xs: seq<T>, n: nat)
    ensures ItemIndex(xs, Dec(n)) == if n < |xs| then Some(n) else None
    ensures n > 0 ==> ItemIndex(xs, "-" + Dec(n)) == if n <= |xs| then Some(|xs| - n) else None
    ensures PyInt(Dec(n)) == Some(n) && InsertIndex(xs, n) == if n < |xs| then n else |xs|
    ensures PyInt("-" + Dec(n)) == Some(0 - n)
    ensures n > 0 ==> InsertIndex(xs, 0 - n) == if n < |xs| then |xs| - n else 0
  {
    PyIntOfDec(n);
    NegativeText(n);
  }
}
