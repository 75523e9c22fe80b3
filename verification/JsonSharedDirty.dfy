/** A difference under an empty key defeats the patch, also when values are shared: the document
    never ends equal to what has become of the second one.

    Either an array ends too short, or a member is overwritten by a value from inside its own
    counterpart and then changes along with it, or the difference at the empty key stays. */
module JsonSharedDirty {
  import opened Text
  import opened Json
  import opened JsonPointer
  import opened JsonPatch
  import opened JsonPatchTheorem
  import opened JsonPatchConverse
  import opened JsonShared
  import opened JsonSharedFrames
  import opened JsonMutated
  import opened JsonSharedKinds

  /** The node is not what has become of b. */
  ghost predicate Off(n: Node, a: Json, b: Json, base: Place, vals: Values) {
    !DeepEqual(Erase(n), Mutated(a, b, base, vals))
  }

  ghost predicate RunOff(e: Effect, a: Json, b: Json, base: Place) {
    e.Leaves? ==> Off(e.node, a, b, base, e.vals)
  }

  // ---- A slot overwritten by a value from inside its own counterpart ----

  /** Whatever the rest of the pair's edits do to that value they do to the second document too,
      where it lies deeper. */
  lemma SlotOverwritten(c: Node, x: Json, y: Json, base: Place, vals: Values)
    requires Containers(x, y) && Edits(x, y) != [] && CarriesValue(Edits(x, y)[0].act)
    requires Holds(c, base + Edits(x, y)[0].parts, vals)
    ensures RunOff(RunNode(c, Edits(x, y)[1..], base, vals), x, y, base)
  {
    var es := Edits(x, y);
    var p := base + es[0].parts;
    FirstUnlocatedOnly(x, y);
    RunHolds(c, es[1..], base, p, vals);
    var e := RunNode(c, es[1..], base, vals);
    if e.Leaves? {
      ValueBelowRoot(x, y, 0);
      ValueInside(x, y, 0, base, e.vals);
      if DeepEqual(Erase(e.node), Mutated(x, y, base, e.vals)) {
        EqualHeights(Erase(e.node), Mutated(x, y, base, e.vals));
      }
    }
  }

  /** An edit that lost its own path acts, under a component, on that component's slot. */
  lemma UnlocatedFirstNode(node: Node, k: string, es: seq<Edit>, base: Place, vals: Values)
    requires k != "" && es != [] && !Located(es[0])
    ensures var e := EditLeafNode(node, k, es[0].act, base + [k] + es[0].parts, vals);
            RunNode(node, Prefixed(k, es), base, vals) ==
            if e.Leaves? then RunNode(e.node, Prefixed(k, es[1..]), base, e.vals) else e
  {
    PrefixedParts(k, es, 0);
    HomeBelow(base, k, es[0].parts);
    var p := Prefixed(k, es);
    assert p[1..] == Prefixed(k, es[1..]);
    assert DropEmpty(p[0].parts) == [k];
  }

  // ---- Objects ----

  lemma BothPlaces(top: Json, base: Place, b: Json, k: string)
    requires Resolve(top, base) == Some(b) && Child(b, k).Some?
    ensures Resolve(top, base + [k]) == Child(b, k)
  {
    ResolveBelow(top, base, [k]);
    assert [k][1..] == [];
  }

  /** The member under the empty key is out of reach, and its counterpart keeps differing from it. */
  lemma EmptyKeyOff(a: Json, b: Json, e: Effect, base: Place, top: Json)
    requires a.Obj? && b.Obj? && !SameAt(a, b, "") && e.Leaves?
    requires Erase(e.node).Obj? && SameMember(a.fields, Erase(e.node).fields, "")
    requires Conform(e.vals, top) && Resolve(top, base) == Some(b)
    ensures RunOff(e, a, b, base)
  {
    var m := Mutated(a, b, base, e.vals);
    assert m.fields.Keys == b.fields.Keys;
    if "" in a.fields && "" in b.fields {
      BothPlaces(top, base, b, "");
      MutatedDiffers(a.fields[""], b.fields[""], base + [""], e.vals, top);
      assert m.fields[""] == Mutated(a.fields[""], b.fields[""], base + [""], e.vals);
    }
  }

  lemma EmptyKeyStaysOff(a: Json, b: Json, es: seq<Edit>, base: Place, vals: Values, top: Json)
    requires a.Obj? && b.Obj? && !SameAt(a, b, "") && AllLocated(es) && AllGiven(es, base, top)
    requires Conform(vals, top) && Resolve(top, base) == Some(b)
    ensures RunOff(RunNode(Fresh(a), es, base, vals), a, b, base)
  {
    var e := RunNode(Fresh(a), es, base, vals);
    if e.Leaves? {
      EraseFresh(a);
      EraseRun(Fresh(a), es, base, vals);
      EmptyKeyUntouched(a.fields, es);
      FreshRooted(a, top);
      RunConforms(Fresh(a), es, base, vals, top);
      EmptyKeyOff(a, b, e, base, top);
    }
  }

  /** The member at k of what is left is not what has become of b's member. */
  ghost predicate KeyOff(e: Effect, a: Json, b: Json, k: string, base: Place)
    requires a.Obj? && b.Obj? && k in a.fields && k in b.fields
  {
    e.Leaves? ==>
      e.node.Dict? && e.node.owner.None? && OthersAvoid(e.node.fields, k, base + [k])
      && (k in e.node.fields ==> Off(e.node.fields[k], a.fields[k], b.fields[k], base + [k], e.vals))
  }

  lemma KeyOffWhole(e: Effect, a: Json, b: Json, k: string, base: Place)
    requires a.Obj? && b.Obj? && !DeepEqual(a, b) && k in a.fields && k in b.fields && KeyOff(e, a, b, k, base)
    ensures RunOff(e, a, b, base)
  {
    if e.Leaves? {
      var m := Mutated(a, b, base, e.vals);
      assert m.fields[k] == Mutated(a.fields[k], b.fields[k], base + [k], e.vals);
      assert Erase(e.node).fields.Keys == e.node.fields.Keys;
    }
  }

  /** Later edits of other keys do not repair it. */
  lemma KeyStaysOff(e: Effect, es: seq<Edit>, a: Json, b: Json, k: string, base: Place)
    requires a.Obj? && b.Obj? && k in a.fields && k in b.fields && k != ""
    requires e.Leaves? && KeyOff(e, a, b, k, base) && AllAvoid(es, k)
    ensures KeyOff(RunNode(e.node, es, base, e.vals), a, b, k, base)
  {
    KeyNodeFrames(e.node.fields, es, base, e.vals, k);
    var r := RunNode(e.node, es, base, e.vals);
    if r.Leaves? { MutatedFrame(a.fields[k], b.fields[k], base + [k], e.vals, r.vals); }
  }

  lemma {:induction false} DirtyKeysOff(a: Json, b: Json, ks: seq<string>, k: string, f: map<string, Node>,
                                        base: Place, vals: Values, top: Json)
    requires a.Obj? && b.Obj? && SameAt(a, b, "") && Ascending(ks)
    requires k in ks && k != "" && k in a.fields && k in b.fields && !Clean(a.fields[k], b.fields[k])
    requires forall o :: o in ks ==> o in a.fields || o in b.fields
    requires k in f && f[k] == Fresh(a.fields[k]) && OthersAvoid(f, k, base + [k])
    requires Rooted(Dict(f, None), top) && Conform(vals, top) && Resolve(top, base) == Some(b)
    ensures KeyOff(RunNode(Dict(f, None), KeyEdits(a, b, ks), base, vals), a, b, k, base)
    decreases a, 2, |ks|
  {
    var o := ks[0];
    assert o in ks;
    var here := Prefixed(o, EditsAtKey(a, b, o));
    var later := KeyEdits(a, b, ks[1..]);
    NoEmptyAfterFirst(ks);
    RunNodeConcat(Dict(f, None), here, later, base, vals);
    var r := RunNode(Dict(f, None), here, base, vals);
    if o == k {
      DirtyKeyOff(a, b, k, f, base, vals, top);
      if r.Leaves? {
        KeyEditsAvoid(a, b, ks[1..], k);
        KeyStaysOff(r, later, a, b, k, base);
      }
    } else {
      OtherKeyFirst(a, b, o, k, f, base, vals, top);
      if r.Leaves? { DirtyKeysOff(a, b, ks[1..], k, r.node.fields, base, r.vals, top); }
    }
  }

  /** The edits of another key change nothing that matters for k. */
  lemma OtherKeyFirst(a: Json, b: Json, o: string, k: string, f: map<string, Node>, base: Place, vals: Values,
                      top: Json)
    requires a.Obj? && b.Obj? && SameAt(a, b, "") && o != k && k != "" && (o in a.fields || o in b.fields)
    requires OthersAvoid(f, k, base + [k])
    requires Rooted(Dict(f, None), top) && Conform(vals, top) && Resolve(top, base) == Some(b)
    ensures var r := RunNode(Dict(f, None), Prefixed(o, EditsAtKey(a, b, o)), base, vals);
            r.Leaves? ==> r.node.Dict? && r.node.owner.None? && SameNode(f, r.node.fields, k)
                          && OthersAvoid(r.node.fields, k, base + [k]) && Rooted(r.node, top) && Conform(r.vals, top)
  {
    var here := Prefixed(o, EditsAtKey(a, b, o));
    if o == "" {
      assert EditsAtKey(a, b, "") == Edits(a.fields[""], b.fields[""]) == [];
    } else {
      PrefixedAvoids(o, EditsAtKey(a, b, o), k);
    }
    KeyNodeFrames(f, here, base, vals, k);
    KeyGiven(a, b, o, base, top);
    RunConforms(Dict(f, None), here, base, vals, top);
  }

  lemma KeyGiven(a: Json, b: Json, k: string, base: Place, top: Json)
    requires a.Obj? && b.Obj? && (k in a.fields || k in b.fields) && Resolve(top, base) == Some(b)
    ensures AllGiven(Prefixed(k, EditsAtKey(a, b, k)), base, top)
  {
    var es := EditsAtKey(a, b, k);
    forall n | 0 <= n < |es| ensures GivenAt(Prefixed(k, es)[n].act, base + Prefixed(k, es)[n].parts, top) {
      assert [k][1..] == [];
      KeysValueAt(a, b, [k], n);
      assert KeyEdits(a, b, [k]) == Prefixed(k, es) + [];
      ResolveBelow(top, base, Prefixed(k, es)[n].parts);
    }
  }

  lemma {:induction false} DirtyKeyOff(a: Json, b: Json, k: string, f: map<string, Node>, base: Place, vals: Values,
                                       top: Json)
    requires a.Obj? && b.Obj?
    requires k != "" && k in a.fields && k in b.fields && !Clean(a.fields[k], b.fields[k])
    requires k in f && f[k] == Fresh(a.fields[k]) && OthersAvoid(f, k, base + [k])
    requires Conform(vals, top) && Resolve(top, base) == Some(b)
    ensures KeyOff(RunNode(Dict(f, None), Prefixed(k, EditsAtKey(a, b, k)), base, vals), a, b, k, base)
    decreases a, 1
  {
    var x, y := a.fields[k], b.fields[k];
    var es := EditsAtKey(a, b, k);
    assert es == Edits(x, y);
    DirtyHasEdits(x, y);
    FirstUnlocatedOnly(x, y);
    if Located(es[0]) {
      AllLocatedFromFirst(es);
      BothPlaces(top, base, b, k);
      DirtyOff(x, y, base + [k], vals, top);
      NodeLocality(Dict(f, None), k, es, base, vals);
    } else {
      DirtySlotOff(f, k, x, y, base, vals);
    }
  }

  /** The first edit removed or overwrote the member it should have gone into. */
  lemma DirtySlotOff(f: map<string, Node>, k: string, x: Json, y: Json, base: Place, vals: Values)
    requires k != "" && k in f && Containers(x, y) && OthersAvoid(f, k, base + [k])
    requires Edits(x, y) != [] && !Located(Edits(x, y)[0])
    ensures var e := RunNode(Dict(f, None), Prefixed(k, Edits(x, y)), base, vals);
            e.Leaves? ==> e.node.Dict? && e.node.owner.None? && OthersAvoid(e.node.fields, k, base + [k])
                          && (k in e.node.fields ==> Off(e.node.fields[k], x, y, base + [k], e.vals))
  {
    var es := Edits(x, y);
    var rest := es[1..];
    var home := base + [k] + es[0].parts;
    FirstUnlocatedOnly(x, y);
    UnlocatedFirstNode(Dict(f, None), k, es, base, vals);
    if es[0].act.Remove? {
      var g := f - {k};
      EraseRun(Dict(g, None), Prefixed(k, rest), base, vals);
      if rest != [] { MissingKey(Erase(Dict(g, None)).fields, k, rest); }
    } else {
      var v := es[0].act.value;
      var g := f[k := Named(v, home)];
      NamedHolds(v, home, vals);
      SlotOverwritten(Named(v, home), x, y, base + [k], vals[home := v]);
      NodeLocality(Dict(g, None), k, rest, base, vals[home := v]);
    }
  }

  lemma {:induction false} DirtyObjectOff(a: Json, b: Json, base: Place, vals: Values, top: Json)
    requires a.Obj? && b.Obj? && !Clean(a, b) && SameAt(a, b, "")
    requires Conform(vals, top) && Resolve(top, base) == Some(b)
    ensures RunOff(RunNode(Fresh(a), Edits(a, b), base, vals), a, b, base)
    decreases a, 3
  {
    var k := DirtyMember(a, b);
    var ks := KeysInOrder(a, b);
    var f := Fresh(a).fields;
    FreshRooted(a, top);
    forall o | o in f ensures Avoids(f[o], base + [k]) { FreshAvoids(a.fields[o], base + [k]); }
    DirtyKeysOff(a, b, ks, k, f, base, vals, top);
    KeyOffWhole(RunNode(Fresh(a), Edits(a, b), base, vals), a, b, k, base);
  }

  /** When every edit keeps part of its path, the whole walk misses what b becomes. */
  lemma {:induction false} DirtyOff(a: Json, b: Json, base: Place, vals: Values, top: Json)
    requires !Clean(a, b) && Containers(a, b)
    requires Edits(a, b) != [] && Located(Edits(a, b)[0])
    requires Conform(vals, top) && Resolve(top, base) == Some(b)
    ensures RunOff(RunNode(Fresh(a), Edits(a, b), base, vals), a, b, base)
    decreases a, 4
  {
    if a.Arr? {
      DirtyArrayOff(a, b, base, vals, top);
    } else if SameAt(a, b, "") {
      DirtyObjectOff(a, b, base, vals, top);
    } else {
      FirstUnlocatedOnly(a, b);
      AllLocatedFromFirst(Edits(a, b));
      EditsGiven(a, b, base, top);
      EmptyKeyStaysOff(a, b, Edits(a, b), base, vals, top);
    }
  }

  // ---- Arrays ----

  /** No part of the node is a value of an operation. */
  predicate Unowned(n: Node)
    decreases n
  {
    && Owner(n).None?
    && match n
       case Leaf(_) => true
       case List(items, _) => forall i | 0 <= i < |items| :: Unowned(items[i])
       case Dict(fields, _) => forall k | k in fields :: Unowned(fields[k])
  }

  lemma {:induction false} UnownedAvoids(n: Node, p: Place)
    requires Unowned(n)
    ensures Avoids(n, p)
    decreases n
  {
    match n
    case Leaf(_) =>
    case List(items, _) => forall i | 0 <= i < |items| { UnownedAvoids(items[i], p); }
    case Dict(fields, _) => forall k | k in fields { UnownedAvoids(fields[k], p); }
  }

  lemma {:induction false} FreshUnowned(v: Json)
    ensures Unowned(Fresh(v))
  {
    match v
    case Arr(xs) => forall i | 0 <= i < |xs| { FreshUnowned(xs[i]); }
    case Obj(f) => forall k | k in f { FreshUnowned(f[k]); }
    case _ =>
  }

  ghost predicate UnownedFrom(xs: seq<Node>, i: nat) {
    forall j :: i <= j < |xs| ==> Unowned(xs[j])
  }

  lemma LaterUnowned(xs: seq<Node>, i: nat, p: Place)
    requires UnownedFrom(xs, i + 1)
    ensures LaterAvoid(xs, i, p)
  {
    forall j | i < j < |xs| ensures Avoids(xs[j], p) { UnownedAvoids(xs[j], p); }
  }

  lemma {:induction false} DirtyArrayOff(a: Json, b: Json, base: Place, vals: Values, top: Json)
    requires a.Arr? && b.Arr? && !Clean(a, b)
    requires Conform(vals, top) && Resolve(top, base) == Some(b)
    ensures RunOff(RunNode(Fresh(a), Edits(a, b), base, vals), a, b, base)
    decreases a, 3
  {
    var d := DirtyPosition(a, b);
    FreshRooted(a, top);
    assert ArrayTail(a, b, 0) == Edits(a, b);
    DirtyItemsOff(a, b, 0, Fresh(a).items, d, base, vals, top);
  }

  /** Items before the dirty one are settled in place; the dirty one ends wrong or shifts the rest. */
  lemma {:induction false} DirtyItemsOff(a: Json, b: Json, i: nat, xs: seq<Node>, d: nat, base: Place, vals: Values,
                                         top: Json)
    requires a.Arr? && b.Arr? && !DeepEqual(a, b) && i <= d < Shared(a, b) && !Clean(a.items[d], b.items[d])
    requires |xs| == |a.items| && forall j :: i <= j < |xs| ==> xs[j] == Fresh(a.items[j])
    requires Rooted(List(xs, None), top) && Conform(vals, top) && Resolve(top, base) == Some(b)
    ensures RunOff(RunNode(List(xs, None), ArrayTail(a, b, i), base, vals), a, b, base)
    decreases a, 2, d - i
  {
    if Clean(a.items[i], b.items[i]) {
      var ys, v := SettleNode(a, b, i, xs, base, vals, top);
      DirtyItemsOff(a, b, i + 1, ys, d, base, v, top);
    } else {
      DirtyItemOff(a, b, i, xs, base, vals, top);
    }
  }

  lemma RunNodeTail(node: Node, a: Json, b: Json, i: nat, base: Place, vals: Values)
    requires a.Arr? && b.Arr? && i < Shared(a, b)
    ensures var e := RunNode(node, Prefixed(Dec(i), Edits(a.items[i], b.items[i])), base, vals);
            RunNode(node, ArrayTail(a, b, i), base, vals) ==
            if e.Leaves? then RunNode(e.node, ArrayTail(a, b, i + 1), base, e.vals) else e
  {
    ArrayTailStep(a, b, i);
    RunNodeConcat(node, Prefixed(Dec(i), Edits(a.items[i], b.items[i])), ArrayTail(a, b, i + 1), base, vals);
  }

  lemma ItemGiven(a: Json, b: Json, i: nat, base: Place, top: Json)
    requires a.Arr? && b.Arr? && i < Shared(a, b) && Resolve(top, base) == Some(b)
    ensures AllGiven(Prefixed(Dec(i), Edits(a.items[i], b.items[i])), base, top)
  {
    var es := Edits(a.items[i], b.items[i]);
    ArrayTailStep(a, b, i);
    forall n | 0 <= n < |es| ensures GivenAt(Prefixed(Dec(i), es)[n].act, base + Prefixed(Dec(i), es)[n].parts, top) {
      ItemsValueAt(a, b, i, n);
      assert ArrayTail(a, b, i)[n] == Prefixed(Dec(i), es)[n];
      ResolveBelow(top, base, Prefixed(Dec(i), es)[n].parts);
    }
  }

  /** Edits that keep part of their path, or replace the item whole, change that item only. */
  lemma ItemOnly(xs: seq<Node>, i: nat, es: seq<Edit>, base: Place, vals: Values)
    requires AllLocated(es) || exists v :: es == [Edit([], Replace(v))]
    ensures var e := RunNode(List(xs, None), Prefixed(Dec(i), es), base, vals);
            e.Leaves? ==> e.node.List? && e.node.owner.None? && |e.node.items| == |xs|
                          && forall j :: 0 <= j < |xs| && j != i ==> e.node.items[j] == xs[j]
  {
    PyIntOfDec(i);
    if AllLocated(es) {
      if i < |xs| {
        NodeLocality(List(xs, None), Dec(i), es, base, vals);
      } else if es != [] {
        EraseRun(List(xs, None), Prefixed(Dec(i), es), base, vals);
        MissingItem(Erase(List(xs, None)).items, i, es);
      }
    } else {
      UnlocatedFirstNode(List(xs, None), Dec(i), es, base, vals);
      assert es[1..] == [];
    }
  }

  lemma SettleNode(a: Json, b: Json, i: nat, xs: seq<Node>, base: Place, vals: Values, top: Json)
    returns (ys: seq<Node>, v: Values)
    requires a.Arr? && b.Arr? && i < Shared(a, b) && Clean(a.items[i], b.items[i])
    requires i < |xs| && xs[i] == Fresh(a.items[i])
    requires Rooted(List(xs, None), top) && Conform(vals, top) && Resolve(top, base) == Some(b)
    ensures |ys| == |xs| && forall j :: i < j < |xs| ==> ys[j] == xs[j]
    ensures Rooted(List(ys, None), top) && Conform(v, top)
    ensures RunNode(List(xs, None), ArrayTail(a, b, i), base, vals) ==
            RunNode(List(ys, None), ArrayTail(a, b, i + 1), base, v)
  {
    var x, y := a.items[i], b.items[i];
    var here := Prefixed(Dec(i), Edits(x, y));
    var e := RunNode(List(xs, None), here, base, vals);
    RunNodeTail(List(xs, None), a, b, i, base, vals);
    SettledLeaves(a, b, i, xs, base, vals);
    if Containers(x, y) {
      CleanLocated(x, y);
    } else if !DeepEqual(x, y) {
      assert Edits(x, y) == [Edit([], Replace(y))];
    }
    ItemOnly(xs, i, Edits(x, y), base, vals);
    ItemGiven(a, b, i, base, top);
    RunConforms(List(xs, None), here, base, vals, top);
    ys, v := e.node.items, e.vals;
  }

  lemma SettledLeaves(a: Json, b: Json, i: nat, xs: seq<Node>, base: Place, vals: Values)
    requires a.Arr? && b.Arr? && i < Shared(a, b) && Clean(a.items[i], b.items[i])
    requires i < |xs| && xs[i] == Fresh(a.items[i])
    ensures RunNode(List(xs, None), Prefixed(Dec(i), Edits(a.items[i], b.items[i])), base, vals).Leaves?
  {
    EraseFresh(a.items[i]);
    EraseRun(List(xs, None), Prefixed(Dec(i), Edits(a.items[i], b.items[i])), base, vals);
    ItemRun(a, b, i, Erase(List(xs, None)).items);
  }

  /** An item that is off and already behind the walk stays off. */
  lemma StuckItemOff(a: Json, b: Json, i: nat, xs: seq<Node>, j: nat, base: Place, vals: Values)
    requires a.Arr? && b.Arr? && !DeepEqual(a, b) && j < i <= Shared(a, b) && j < |xs|
    requires Off(xs[j], a.items[j], b.items[j], base + [Dec(j)], vals) && LaterAvoid(xs, j, base + [Dec(j)])
    ensures RunOff(RunNode(List(xs, None), ArrayTail(a, b, i), base, vals), a, b, base)
  {
    ArrayTailAfter(a, b, i, j);
    ItemNodeFrames(xs, ArrayTail(a, b, i), base, vals, j);
    var e := RunNode(List(xs, None), ArrayTail(a, b, i), base, vals);
    if e.Leaves? {
      MutatedFrame(a.items[j], b.items[j], base + [Dec(j)], vals, e.vals);
      var m := Mutated(a, b, base, e.vals);
      assert m.items[j] == Mutated(a.items[j], b.items[j], base + [Dec(j)], e.vals);
      assert Erase(e.node).items[j] == Erase(xs[j]);
    }
  }

  lemma {:induction false} DirtyItemOff(a: Json, b: Json, i: nat, xs: seq<Node>, base: Place, vals: Values, top: Json)
    requires a.Arr? && b.Arr? && !DeepEqual(a, b) && i < Shared(a, b) && !Clean(a.items[i], b.items[i])
    requires |xs| == |a.items| && forall j :: i <= j < |xs| ==> xs[j] == Fresh(a.items[j])
    requires Conform(vals, top) && Resolve(top, base) == Some(b)
    ensures RunOff(RunNode(List(xs, None), ArrayTail(a, b, i), base, vals), a, b, base)
    decreases a, 1
  {
    var x, y := a.items[i], b.items[i];
    var es := Edits(x, y);
    forall j | i <= j < |xs| ensures Unowned(xs[j]) { FreshUnowned(a.items[j]); }
    DirtyHasEdits(x, y);
    FirstUnlocatedOnly(x, y);
    PyIntOfDec(i);
    if Located(es[0]) {
      AllLocatedFromFirst(es);
      BothPlaces(top, base, b, Dec(i));
      DirtyOff(x, y, base + [Dec(i)], vals, top);
      LocatedItemOff(a, b, i, xs, base, vals);
    } else {
      BehindItemOff(a, b, i, xs, base, vals);
    }
  }

  lemma LocatedItemOff(a: Json, b: Json, i: nat, xs: seq<Node>, base: Place, vals: Values)
    requires a.Arr? && b.Arr? && !DeepEqual(a, b) && i < Shared(a, b) && i < |xs| && UnownedFrom(xs, i + 1)
    requires AllLocated(Edits(a.items[i], b.items[i]))
    requires RunOff(RunNode(xs[i], Edits(a.items[i], b.items[i]), base + [Dec(i)], vals),
                    a.items[i], b.items[i], base + [Dec(i)])
    ensures RunOff(RunNode(List(xs, None), ArrayTail(a, b, i), base, vals), a, b, base)
  {
    var es := Edits(a.items[i], b.items[i]);
    PyIntOfDec(i);
    RunNodeTail(List(xs, None), a, b, i, base, vals);
    NodeLocality(List(xs, None), Dec(i), es, base, vals);
    var e := RunNode(List(xs, None), Prefixed(Dec(i), es), base, vals);
    if e.Leaves? {
      LaterUnowned(xs, i, base + [Dec(i)]);
      StuckItemOff(a, b, i + 1, e.node.items, i, base, e.vals);
    }
  }

  /** An item whose first edit lost its path: a remove pops the item, an add inserts before it,
      a replace overwrites it. Afterwards the array is one short or holds a wrong item. */
  lemma {:induction false} BehindItemOff(a: Json, b: Json, i: nat, xs: seq<Node>, base: Place, vals: Values)
    requires a.Arr? && b.Arr? && !DeepEqual(a, b) && i < Shared(a, b)
    requires Containers(a.items[i], b.items[i])
    requires Edits(a.items[i], b.items[i]) != [] && !Located(Edits(a.items[i], b.items[i])[0])
    requires |xs| <= |a.items| && i <= |xs| && UnownedFrom(xs, i)
    ensures RunOff(RunNode(List(xs, None), ArrayTail(a, b, i), base, vals), a, b, base)
    decreases Shared(a, b) - i, 0
  {
    var es := Edits(a.items[i], b.items[i]);
    RunNodeTail(List(xs, None), a, b, i, base, vals);
    UnlocatedFirstNode(List(xs, None), Dec(i), es, base, vals);
    FirstUnlocatedOnly(a.items[i], b.items[i]);
    var e := EditLeafNode(List(xs, None), Dec(i), es[0].act, base + [Dec(i)] + es[0].parts, vals);
    SlotActNode(xs, i, es[0].act, base + [Dec(i)] + es[0].parts, vals);
    if e.Leaves? {
      var ys := e.node.items;
      var rest := Prefixed(Dec(i), es[1..]);
      if es[0].act.Remove? {
        ItemOnly(ys, i, es[1..], base, e.vals);
        var r := RunNode(List(ys, None), rest, base, e.vals);
        if r.Leaves? { DeficitItemsOff(a, b, i + 1, r.node.items, base, r.vals); }
      } else {
        WrongItemOff(a, b, i, ys, base, e.vals);
      }
    }
  }

  lemma SlotActNode(xs: seq<Node>, i: nat, act: Act, home: Place, vals: Values)
    requires i <= |xs| && UnownedFrom(xs, i)
    ensures var e := EditLeafNode(List(xs, None), Dec(i), act, home, vals);
            e.Leaves? ==> e.node.List? && e.node.owner.None? && UnownedFrom(e.node.items, i + 1)
                          && (act.Remove? ==> |e.node.items| < |xs|)
                          && (!act.Remove? ==> i < |e.node.items| && Holds(e.node.items[i], home, e.vals))
  {
    PyIntOfDec(i);
    if !act.Remove? { NamedHolds(act.value, home, vals); }
  }

  /** Item i was set to the value of its own first edit. */
  lemma WrongItemOff(a: Json, b: Json, i: nat, ys: seq<Node>, base: Place, vals: Values)
    requires a.Arr? && b.Arr? && !DeepEqual(a, b) && i < Shared(a, b) && i < |ys| && UnownedFrom(ys, i + 1)
    requires Containers(a.items[i], b.items[i])
    requires var es := Edits(a.items[i], b.items[i]);
             es != [] && CarriesValue(es[0].act) && Holds(ys[i], base + [Dec(i)] + es[0].parts, vals)
    ensures var e := RunNode(List(ys, None), Prefixed(Dec(i), Edits(a.items[i], b.items[i])[1..]), base, vals);
            RunOff(if e.Leaves? then RunNode(e.node, ArrayTail(a, b, i + 1), base, e.vals) else e, a, b, base)
  {
    var x, y := a.items[i], b.items[i];
    var rest := Edits(x, y)[1..];
    PyIntOfDec(i);
    FirstUnlocatedOnly(x, y);
    SlotOverwritten(ys[i], x, y, base + [Dec(i)], vals);
    NodeLocality(List(ys, None), Dec(i), rest, base, vals);
    var e := RunNode(List(ys, None), Prefixed(Dec(i), rest), base, vals);
    if e.Leaves? {
      LaterUnowned(ys, i, base + [Dec(i)]);
      StuckItemOff(a, b, i + 1, e.node.items, i, base, e.vals);
    }
  }

  /** An array of the wrong length is off. */
  lemma ShortOff(e: Effect, a: Json, b: Json, base: Place)
    requires a.Arr? && b.Arr? && !DeepEqual(a, b) && TooShort(Erased(e), |b.items|)
    ensures RunOff(e, a, b, base)
  {
  }

  /** An array that has lost an item never regains its length in time. */
  lemma {:induction false} DeficitItemsOff(a: Json, b: Json, i: nat, xs: seq<Node>, base: Place, vals: Values)
    requires a.Arr? && b.Arr? && !DeepEqual(a, b) && i <= Shared(a, b) && |xs| < |a.items| && UnownedFrom(xs, i)
    ensures RunOff(RunNode(List(xs, None), ArrayTail(a, b, i), base, vals), a, b, base)
    decreases Shared(a, b) - i, 1
  {
    if i == Shared(a, b) || |xs| < i {
      DeficitEndOff(a, b, i, xs, base, vals);
    } else {
      var x, y := a.items[i], b.items[i];
      var es := Edits(x, y);
      if es != [] { FirstUnlocatedOnly(x, y); }
      if es != [] && !Located(es[0]) && Containers(x, y) {
        BehindItemOff(a, b, i, xs, base, vals);
      } else {
        if es == [] || Located(es[0]) { AllLocatedFromFirst(es); } else { assert es == [Edit([], Replace(y))]; }
        RunNodeTail(List(xs, None), a, b, i, base, vals);
        ItemOnly(xs, i, es, base, vals);
        var e := RunNode(List(xs, None), Prefixed(Dec(i), es), base, vals);
        if e.Leaves? { DeficitItemsOff(a, b, i + 1, e.node.items, base, e.vals); }
      }
    }
  }

  /** Only extra items are left, or the array is already too short to catch up. */
  lemma DeficitEndOff(a: Json, b: Json, i: nat, xs: seq<Node>, base: Place, vals: Values)
    requires a.Arr? && b.Arr? && !DeepEqual(a, b) && i <= Shared(a, b) && |xs| < |a.items|
    requires i == Shared(a, b) || |xs| < i
    ensures RunOff(RunNode(List(xs, None), ArrayTail(a, b, i), base, vals), a, b, base)
  {
    var ys := Erase(List(xs, None)).items;
    EraseRun(List(xs, None), ArrayTail(a, b, i), base, vals);
    if |xs| < i { ShortArray(a, b, i, ys); } else { DeficitExtras(a, b, ys); }
    ShortOff(RunNode(List(xs, None), ArrayTail(a, b, i), base, vals), a, b, base);
  }
}
