/** Values never change their kind, so wherever two documents differ they still differ after a
    patch has changed the second one's values.

    The kind of a value at a place is that of what the second document held there at first. */
module JsonSharedKinds {
  import opened Text
  import opened Json
  import opened JsonPointer
  import opened JsonPatch
  import opened JsonPatchTheorem
  import opened JsonPatchConverse
  import opened JsonShared
  import opened JsonSharedFrames
  import opened JsonMutated

  /** Both arrays, both objects, or the same scalar. */
  predicate SameKind(x: Json, y: Json) {
    (x.Arr? && y.Arr?) || (x.Obj? && y.Obj?) || (x == y && !x.Arr? && !x.Obj?)
  }

  predicate Original(top: Json, p: Place, now: Json) {
    Resolve(top, p).Some? && SameKind(Resolve(top, p).value, now)
  }

  ghost predicate Conform(vals: Values, top: Json) {
    forall p :: p in vals ==> Original(top, p, vals[p])
  }

  predicate Rooted(n: Node, top: Json)
    decreases n
  {
    && (Owner(n).Some? ==> Original(top, Owner(n).value, Erase(n)))
    && match n
       case Leaf(_) => true
       case List(items, _) => forall i | 0 <= i < |items| :: Rooted(items[i], top)
       case Dict(fields, _) => forall k | k in fields :: Rooted(fields[k], top)
  }

  lemma {:induction false} FreshRooted(v: Json, top: Json)
    ensures Rooted(Fresh(v), top)
  {
    match v
    case Arr(xs) => forall i | 0 <= i < |xs| { FreshRooted(xs[i], top); }
    case Obj(f) => forall k | k in f { FreshRooted(f[k], top); }
    case _ =>
  }

  lemma NamedRooted(v: Json, p: Place, top: Json)
    requires Resolve(top, p) == Some(v)
    ensures Rooted(Named(v, p), top)
  {
    FreshRooted(v, top);
    EraseNamed(v, p);
  }

  predicate GivenAt(act: Act, home: Place, top: Json) { !act.Remove? ==> Resolve(top, home) == Some(act.value) }

  lemma LeafConforms(n: Node, tail: string, act: Act, home: Place, vals: Values, top: Json)
    requires Rooted(n, top) && Conform(vals, top) && GivenAt(act, home, top)
    ensures var e := EditLeafNode(n, tail, act, home, vals);
            e.Leaves? ==> Rooted(e.node, top) && Conform(e.vals, top)
  {
    match n
    case Leaf(_) =>
    case Dict(f, o) => LeafDictConforms(f, o, tail, act, home, vals, top);
    case List(xs, o) => LeafListConforms(xs, o, tail, act, home, vals, top);
  }

  lemma LeafDictConforms(f: map<string, Node>, o: Option<Place>, tail: string, act: Act, home: Place, vals: Values,
                         top: Json)
    requires Rooted(Dict(f, o), top) && Conform(vals, top) && GivenAt(act, home, top)
    ensures var e := EditLeafNode(Dict(f, o), tail, act, home, vals);
            e.Leaves? ==> Rooted(e.node, top) && Conform(e.vals, top)
  {
    if act.Remove? {
      if tail in f { DictConforms(f, o, f - {tail}, vals, top); }
    } else {
      NamedRooted(act.value, home, top);
      PutConforms(vals, home, act.value, top);
      DictConforms(f, o, f[tail := Named(act.value, home)], vals[home := act.value], top);
    }
  }

  lemma LeafListConforms(xs: seq<Node>, o: Option<Place>, tail: string, act: Act, home: Place, vals: Values, top: Json)
    requires Rooted(List(xs, o), top) && Conform(vals, top) && GivenAt(act, home, top)
    ensures var e := EditLeafNode(List(xs, o), tail, act, home, vals);
            e.Leaves? ==> Rooted(e.node, top) && Conform(e.vals, top)
  {
    if act.Remove? {
      match ItemIndex(xs, tail)
      case None =>
      case Some(i) => ListConforms(xs, o, xs[..i] + xs[i + 1..], vals, top);
    } else {
      NamedRooted(act.value, home, top);
      PutConforms(vals, home, act.value, top);
      var x, now := Named(act.value, home), vals[home := act.value];
      match act
      case Add(_) =>
        match PyInt(tail) {
          case None =>
          case Some(n) => var i := InsertIndex(xs, n); ListConforms(xs, o, xs[..i] + [x] + xs[i..], now, top);
        }
      case Replace(_) =>
        match ItemIndex(xs, tail) {
          case None =>
          case Some(i) => ListConforms(xs, o, xs[i := x], now, top);
        }
    }
  }

  lemma PutConforms(vals: Values, p: Place, v: Json, top: Json)
    requires Conform(vals, top) && Resolve(top, p) == Some(v)
    ensures Conform(vals[p := v], top)
  {
  }

  lemma DictConforms(f: map<string, Node>, o: Option<Place>, g: map<string, Node>, vals: Values, top: Json)
    requires Rooted(Dict(f, o), top) && forall k :: k in g ==> Rooted(g[k], top)
    ensures Rooted(Dict(g, o), top)
    ensures Conform(vals, top) ==> Conform(Record(Dict(g, o), vals), top)
  {
  }

  lemma ListConforms(xs: seq<Node>, o: Option<Place>, ys: seq<Node>, vals: Values, top: Json)
    requires Rooted(List(xs, o), top) && forall i :: 0 <= i < |ys| ==> Rooted(ys[i], top)
    ensures Rooted(List(ys, o), top)
    ensures Conform(vals, top) ==> Conform(Record(List(ys, o), vals), top)
  {
  }

  lemma ChildRooted(n: Node, k: string, c: Node, vals: Values, top: Json)
    requires Rooted(n, top) && ChildNode(n, k).Some?
    ensures Rooted(ChildNode(n, k).value, top)
    ensures Rooted(c, top) ==> Rooted(WithChildNode(n, k, c), top)
    ensures Rooted(c, top) && Conform(vals, top) ==> Conform(Record(WithChildNode(n, k, c), vals), top)
  {
  }

  lemma {:induction false} EditConforms(n: Node, parts: seq<string>, act: Act, home: Place, vals: Values, top: Json)
    requires parts != [] && Rooted(n, top) && Conform(vals, top) && GivenAt(act, home, top)
    ensures var e := EditNode(n, parts, act, home, vals);
            e.Leaves? ==> Rooted(e.node, top) && Conform(e.vals, top)
    decreases |parts|
  {
    if |parts| == 1 {
      LeafConforms(n, parts[0], act, home, vals, top);
    } else if ChildNode(n, parts[0]).Some? {
      var c := ChildNode(n, parts[0]).value;
      ChildRooted(n, parts[0], c, vals, top);
      EditConforms(c, parts[1..], act, home, vals, top);
      var e := EditNode(c, parts[1..], act, home, vals);
      if e.Leaves? { ChildRooted(n, parts[0], e.node, e.vals, top); }
    }
  }

  /** Every edit carries the value that stands at its place. */
  ghost predicate AllGiven(es: seq<Edit>, base: Place, top: Json) {
    forall n :: 0 <= n < |es| ==> GivenAt(es[n].act, base + es[n].parts, top)
  }

  lemma {:induction false} RunConforms(n: Node, es: seq<Edit>, base: Place, vals: Values, top: Json)
    requires Rooted(n, top) && Conform(vals, top) && AllGiven(es, base, top)
    ensures var e := RunNode(n, es, base, vals);
            e.Leaves? ==> Rooted(e.node, top) && Conform(e.vals, top)
    decreases |es|
  {
    if es != [] {
      var parts, home := DropEmpty(es[0].parts), base + es[0].parts;
      assert GivenAt(es[0].act, home, top);
      if parts != [] { EditConforms(n, parts, es[0].act, home, vals, top); }
      var e := StepNode(n, parts, es[0].act, home, vals);
      if e.Leaves? { RunConforms(e.node, es[1..], base, e.vals, top); }
    }
  }

  // ---- The generated edits carry the second document's own values ----

  lemma {:induction false} ResolveBelow(top: Json, base: Place, parts: seq<string>)
    requires Resolve(top, base).Some?
    ensures Resolve(top, base + parts) == Resolve(Resolve(top, base).value, parts)
    decreases |base|
  {
    if base == [] {
      assert base + parts == parts;
    } else {
      assert (base + parts)[0] == base[0] && (base + parts)[1..] == base[1..] + parts;
      ResolveBelow(Child(top, base[0]).value, base[1..], parts);
    }
  }

  lemma {:induction false} ValueAt(a: Json, b: Json, n: nat)
    requires n < |Edits(a, b)|
    ensures GivenAt(Edits(a, b)[n].act, Edits(a, b)[n].parts, b)
    decreases a, 3
  {
    if a.Obj? && b.Obj? {
      var keys := a.fields.Keys + b.fields.Keys;
      SortedKeysSorted(keys);
      KeysValueAt(a, b, SortedKeys(keys), n);
    } else if a.Arr? && b.Arr? {
      ItemsValueAt(a, b, 0, n);
    }
  }

  lemma {:induction false} KeysValueAt(a: Json, b: Json, ks: seq<string>, n: nat)
    requires a.Obj? && b.Obj?
    requires forall k :: k in ks ==> k in a.fields || k in b.fields
    requires n < |KeyEdits(a, b, ks)|
    ensures GivenAt(KeyEdits(a, b, ks)[n].act, KeyEdits(a, b, ks)[n].parts, b)
    decreases a, 2, |ks|
  {
    var k := ks[0];
    var es := EditsAtKey(a, b, k);
    if n < |es| {
      assert k in ks;
      assert KeyEdits(a, b, ks)[n] == Prefixed(k, es)[n] && ([k] + es[n].parts)[1..] == es[n].parts;
      if k in a.fields && k in b.fields { ValueAt(a.fields[k], b.fields[k], n); }
    } else {
      assert KeyEdits(a, b, ks)[n] == KeyEdits(a, b, ks[1..])[n - |es|];
      KeysValueAt(a, b, ks[1..], n - |es|);
    }
  }

  lemma {:induction false} ItemsValueAt(a: Json, b: Json, i: nat, n: nat)
    requires a.Arr? && b.Arr? && i <= Shared(a, b)
    requires n < |ArrayTail(a, b, i)|
    ensures GivenAt(ArrayTail(a, b, i)[n].act, ArrayTail(a, b, i)[n].parts, b)
    decreases a, 2, Shared(a, b) - i
  {
    if i < Shared(a, b) {
      var es := Edits(a.items[i], b.items[i]);
      ArrayTailStep(a, b, i);
      ConcatFrom(Prefixed(Dec(i), es), ArrayTail(a, b, i + 1), n);
      if n < |es| {
        ItemValueAt(a, b, i, n);
      } else {
        ItemsValueAt(a, b, i + 1, n - |es|);
      }
    } else if !ArrayTail(a, b, i)[n].act.Remove? {
      ExtraValueAt(a, b, n);
    }
  }

  lemma {:induction false} ItemValueAt(a: Json, b: Json, i: nat, n: nat)
    requires a.Arr? && b.Arr? && i < Shared(a, b) && n < |Edits(a.items[i], b.items[i])|
    ensures var e := Edits(a.items[i], b.items[i])[n]; GivenAt(e.act, [Dec(i)] + e.parts, b)
    decreases a, 1
  {
    var e := Edits(a.items[i], b.items[i])[n];
    PyIntOfDec(i);
    assert ([Dec(i)] + e.parts)[1..] == e.parts;
    ValueAt(a.items[i], b.items[i], n);
  }

  lemma ExtraValueAt(a: Json, b: Json, n: nat)
    requires a.Arr? && b.Arr?
    requires n < |ArrayTail(a, b, Shared(a, b))| && CarriesValue(ArrayTail(a, b, Shared(a, b))[n].act)
    ensures GivenAt(ArrayTail(a, b, Shared(a, b))[n].act, ArrayTail(a, b, Shared(a, b))[n].parts, b)
  {
    ExtrasFrom(a, b, n);
    ItemResolves(b, Shared(a, b) + n);
  }

  lemma ItemResolves(b: Json, i: nat)
    requires b.Arr? && i < |b.items|
    ensures Resolve(b, [Dec(i)]) == Some(b.items[i])
  {
    var k := Dec(i);
    PyIntOfDec(i);
    assert [k][1..] == [];
  }

  lemma EditsGiven(a: Json, b: Json, base: Place, top: Json)
    requires Resolve(top, base) == Some(b)
    ensures AllGiven(Edits(a, b), base, top)
  {
    forall n | 0 <= n < |Edits(a, b)| ensures GivenAt(Edits(a, b)[n].act, base + Edits(a, b)[n].parts, top) {
      ValueAt(a, b, n);
      ResolveBelow(top, base, Edits(a, b)[n].parts);
    }
  }

  // ---- What differed still differs ----

  lemma {:induction false} MutatedDiffers(a: Json, b: Json, base: Place, vals: Values, top: Json)
    requires !DeepEqual(a, b) && Conform(vals, top) && Resolve(top, base) == Some(b)
    ensures !DeepEqual(a, Mutated(a, b, base, vals))
    decreases a
  {
    var m := Mutated(a, b, base, vals);
    if a.Obj? && b.Obj? {
      assert m.fields.Keys == b.fields.Keys;
      if a.fields.Keys == b.fields.Keys {
        var k :| k in a.fields && !DeepEqual(a.fields[k], b.fields[k]);
        ResolveBelow(top, base, [k]);
        assert [k][1..] == [];
        MutatedDiffers(a.fields[k], b.fields[k], base + [k], vals, top);
        assert m.fields[k] == Mutated(a.fields[k], b.fields[k], base + [k], vals);
      }
    } else if a.Arr? && b.Arr? {
      if |a.items| == |b.items| {
        var i :| 0 <= i < |a.items| && !DeepEqual(a.items[i], b.items[i]);
        ResolveBelow(top, base, [Dec(i)]);
        PyIntOfDec(i);
        assert [Dec(i)][1..] == [];
        MutatedDiffers(a.items[i], b.items[i], base + [Dec(i)], vals, top);
        assert m.items[i] == Mutated(a.items[i], b.items[i], base + [Dec(i)], vals);
      }
    }
  }
}
