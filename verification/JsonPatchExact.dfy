/** When a patch applied in memory turns the first document into what the second has become. */
module JsonPatchExact {
  import opened Text
  import opened Json
  import opened JsonPointer
  import opened JsonPatch
  import opened JsonPatchTheorem
  import opened JsonPatchConverse
  import opened JsonShared
  import opened JsonSharedFrames
  import opened JsonMutated
  import opened JsonSharedKinds
  import opened JsonSharedDirty

  // ---- A clean pair: every value is put in place once and left alone ----

  /** The values as the edits carry them. */
  function Given(es: seq<Edit>, base: Place): Values {
    if es == [] then map[] else GivenBy(es[0], base) + Given(es[1..], base)
  }

  function GivenBy(e: Edit, base: Place): Values {
    if e.act.Remove? then map[] else map[base + e.parts := e.act.value]
  }

  lemma Merged(x: Values, y: Values, z: Values)
    ensures x + y + z == x + (y + z)
  {
  }

  lemma {:induction false} GivenConcat(x: seq<Edit>, y: seq<Edit>, base: Place)
    ensures Given(x + y, base) == Given(x, base) + Given(y, base)
  {
    if x == [] {
      assert x + y == y;
    } else {
      assert (x + y)[0] == x[0] && (x + y)[1..] == x[1..] + y;
      GivenConcat(x[1..], y, base);
      Merged(GivenBy(x[0], base), Given(x[1..], base), Given(y, base));
    }
  }

  lemma {:induction false} GivenPrefixed(k: string, es: seq<Edit>, base: Place)
    ensures Given(Prefixed(k, es), base) == Given(es, base + [k])
  {
    if es != [] {
      assert Prefixed(k, es)[1..] == Prefixed(k, es[1..]);
      HomeBelow(base, k, es[0].parts);
      GivenPrefixed(k, es[1..], base);
    }
  }

  lemma {:induction false} GivenIsOriginal(es: seq<Edit>, base: Place, top: Json)
    requires AllGiven(es, base, top)
    ensures forall p :: p in Given(es, base) ==> Resolve(top, p) == Some(Given(es, base)[p])
  {
    if es != [] {
      assert GivenAt(es[0].act, base + es[0].parts, top);
      forall n | 0 <= n < |es[1..]| ensures GivenAt(es[1..][n].act, base + es[1..][n].parts, top) {
        assert es[1..][n] == es[n + 1];
      }
      GivenIsOriginal(es[1..], base, top);
    }
  }

  /** The run leaves a document and has entered exactly the values given. */
  ghost predicate Quiet(e: Effect, es: seq<Edit>, base: Place, vals: Values) {
    e.Leaves? && e.vals == vals + Given(es, base)
  }

  lemma QuietThen(e: Effect, x: seq<Edit>, r: Effect, y: seq<Edit>, base: Place, vals: Values)
    requires Quiet(e, x, base, vals) && Quiet(r, y, base, e.vals)
    ensures Quiet(r, x + y, base, vals)
  {
    GivenConcat(x, y, base);
    Merged(vals, Given(x, base), Given(y, base));
  }

  lemma {:induction false} CleanQuiet(a: Json, b: Json, base: Place, vals: Values)
    requires Containers(a, b) && Clean(a, b)
    ensures Quiet(RunNode(Fresh(a), Edits(a, b), base, vals), Edits(a, b), base, vals)
    decreases a, 3
  {
    if DeepEqual(a, b) {
    } else if a.Obj? {
      var keys := a.fields.Keys + b.fields.Keys;
      SortedKeysSorted(keys);
      KeysQuiet(a, b, SortedKeys(keys), Fresh(a).fields, base, vals);
    } else {
      ArrayQuiet(a, b, base, vals);
    }
  }

  /** An untouched member of a, or none. */
  ghost predicate Pending(a: Json, k: string, f: map<string, Node>)
    requires a.Obj?
  {
    (k in f <==> k in a.fields) && (k in f ==> f[k] == Fresh(a.fields[k]))
  }

  ghost predicate AllPending(a: Json, ks: seq<string>, f: map<string, Node>)
    requires a.Obj?
  {
    forall i :: 0 <= i < |ks| ==> Pending(a, ks[i], f)
  }

  lemma StillPending(a: Json, ks: seq<string>, f: map<string, Node>, g: map<string, Node>)
    requires a.Obj? && ks != [] && AllPending(a, ks, f)
    requires forall i, j :: 0 <= i < j < |ks| ==> ks[i] != ks[j]
    requires forall o :: o != ks[0] ==> SameNode(f, g, o)
    ensures AllPending(a, ks[1..], g)
  {
    forall i | 0 <= i < |ks[1..]| ensures Pending(a, ks[1..][i], g) {
      assert ks[1..][i] == ks[i + 1] != ks[0];
      assert Pending(a, ks[i + 1], f) && SameNode(f, g, ks[i + 1]);
    }
  }

  lemma {:induction false} KeysQuiet(a: Json, b: Json, ks: seq<string>, f: map<string, Node>, base: Place, vals: Values)
    requires a.Obj? && b.Obj? && Clean(a, b) && !DeepEqual(a, b)
    requires forall k :: k in ks ==> k in a.fields || k in b.fields
    requires forall i, j :: 0 <= i < j < |ks| ==> ks[i] != ks[j]
    requires AllPending(a, ks, f)
    ensures Quiet(RunNode(Dict(f, None), KeyEdits(a, b, ks), base, vals), KeyEdits(a, b, ks), base, vals)
    decreases a, 2, |ks|
  {
    if ks != [] {
      var k := ks[0];
      assert k in ks;
      var here, later := Prefixed(k, EditsAtKey(a, b, k)), KeyEdits(a, b, ks[1..]);
      KeyQuiet(a, b, k, f, base, vals);
      var e := RunNode(Dict(f, None), here, base, vals);
      RunNodeConcat(Dict(f, None), here, later, base, vals);
      StillPending(a, ks, f, e.node.fields);
      KeysQuiet(a, b, ks[1..], e.node.fields, base, e.vals);
      QuietThen(e, here, RunNode(e.node, later, base, e.vals), later, base, vals);
    }
  }

  lemma {:induction false} KeyQuiet(a: Json, b: Json, k: string, f: map<string, Node>, base: Place, vals: Values)
    requires a.Obj? && b.Obj? && Clean(a, b) && !DeepEqual(a, b)
    requires (k in a.fields || k in b.fields) && Pending(a, k, f)
    ensures var es := Prefixed(k, EditsAtKey(a, b, k));
            var e := RunNode(Dict(f, None), es, base, vals);
            Quiet(e, es, base, vals) && e.node.Dict? && e.node.owner.None?
            && forall o :: o != k ==> SameNode(f, e.node.fields, o)
    decreases a, 1
  {
    var es := EditsAtKey(a, b, k);
    GivenPrefixed(k, es, base);
    if k in a.fields && k in b.fields && DeepEqual(a.fields[k], b.fields[k]) {
      assert es == Edits(a.fields[k], b.fields[k]) == [];
    } else if k in a.fields && k in b.fields && Containers(a.fields[k], b.fields[k]) {
      CleanQuiet(a.fields[k], b.fields[k], base + [k], vals);
      CleanLocated(a.fields[k], b.fields[k]);
      NodeLocality(Dict(f, None), k, es, base, vals);
    } else {
      assert k != "";
      if k in a.fields && k in b.fields {
        assert es == Edits(a.fields[k], b.fields[k]) == [Edit([], Replace(b.fields[k]))];
      }
      assert es == [Edit([], es[0].act)];
      WholeQuiet(Dict(f, None), k, es[0].act, base, vals);
    }
  }

  /** One operation on a member as a whole. */
  lemma WholeQuiet(node: Node, k: string, act: Act, base: Place, vals: Values)
    requires k != "" && Owner(node).None?
    requires EditLeafNode(node, k, act, base + [k], vals).Leaves? && !node.Leaf?
    ensures var es := Prefixed(k, [Edit([], act)]);
            var e := RunNode(node, es, base, vals);
            e == EditLeafNode(node, k, act, base + [k], vals) && Quiet(e, es, base, vals)
  {
    var es := Prefixed(k, [Edit([], act)]);
    assert base + [k] + [] == base + [k];
    UnlocatedFirstNode(node, k, [Edit([], act)], base, vals);
    OnePrefixed(k, act);
    assert [Edit([], act)][1..] == [] && es[1..] == [];
    assert Given([], base) == map[];
    if act.Remove? {
      assert Given(es, base) == map[];
    } else {
      assert Given(es, base) == map[base + [k] := act.value];
    }
  }

  lemma {:induction false} ArrayQuiet(a: Json, b: Json, base: Place, vals: Values)
    requires a.Arr? && b.Arr? && Clean(a, b) && !DeepEqual(a, b)
    ensures Quiet(RunNode(Fresh(a), Edits(a, b), base, vals), Edits(a, b), base, vals)
    decreases a, 2, |a.items| + |b.items| + 1
  {
    var s := Shared(a, b);
    var items, adds, removes := ItemEdits(a, b, 0), AddEdits(b.items, s), RemoveEdits(|a.items|, s);
    ItemsQuiet(a, b, 0, Fresh(a).items, base, vals);
    var e := RunNode(Fresh(a), items, base, vals);
    AddsQuiet(e.node.items, b.items, s, base, e.vals);
    var f := RunNode(e.node, adds, base, e.vals);
    RunNodeConcat(Fresh(a), items, adds, base, vals);
    QuietThen(e, items, f, adds, base, vals);
    RemovesQuiet(f.node.items, |a.items|, s, base, f.vals);
    RunNodeConcat(Fresh(a), items + adds, removes, base, vals);
    QuietThen(f, items + adds, RunNode(f.node, removes, base, f.vals), removes, base, vals);
  }

  lemma {:induction false} ItemsQuiet(a: Json, b: Json, i: nat, xs: seq<Node>, base: Place, vals: Values)
    requires a.Arr? && b.Arr? && Clean(a, b) && !DeepEqual(a, b) && i <= Shared(a, b)
    requires |xs| == |a.items| && forall j :: i <= j < |xs| ==> xs[j] == Fresh(a.items[j])
    ensures var e := RunNode(List(xs, None), ItemEdits(a, b, i), base, vals);
            Quiet(e, ItemEdits(a, b, i), base, vals) && e.node.List? && e.node.owner.None? && |e.node.items| == |xs|
    decreases a, 2, Shared(a, b) - i
  {
    if i < Shared(a, b) {
      var here, later := Prefixed(Dec(i), Edits(a.items[i], b.items[i])), ItemEdits(a, b, i + 1);
      ItemQuiet(a, b, i, xs, base, vals);
      var e := RunNode(List(xs, None), here, base, vals);
      RunNodeConcat(List(xs, None), here, later, base, vals);
      ItemsQuiet(a, b, i + 1, e.node.items, base, e.vals);
      QuietThen(e, here, RunNode(e.node, later, base, e.vals), later, base, vals);
    }
  }

  lemma {:induction false} ItemQuiet(a: Json, b: Json, i: nat, xs: seq<Node>, base: Place, vals: Values)
    requires a.Arr? && b.Arr? && i < Shared(a, b) && Clean(a.items[i], b.items[i])
    requires i < |xs| && xs[i] == Fresh(a.items[i])
    ensures var es := Prefixed(Dec(i), Edits(a.items[i], b.items[i]));
            var e := RunNode(List(xs, None), es, base, vals);
            Quiet(e, es, base, vals) && e.node.List? && e.node.owner.None? && |e.node.items| == |xs|
            && forall j :: 0 <= j < |xs| && j != i ==> e.node.items[j] == xs[j]
    decreases a, 1
  {
    var x, y := a.items[i], b.items[i];
    var es := Edits(x, y);
    PyIntOfDec(i);
    GivenPrefixed(Dec(i), es, base);
    if DeepEqual(x, y) {
      assert Prefixed(Dec(i), es) == [];
    } else if Containers(x, y) {
      CleanQuiet(x, y, base + [Dec(i)], vals);
      CleanLocated(x, y);
      NodeLocality(List(xs, None), Dec(i), es, base, vals);
    } else {
      WholeQuiet(List(xs, None), Dec(i), Replace(y), base, vals);
    }
  }

  lemma {:induction false} AddsQuiet(xs: seq<Node>, ys: seq<Json>, i: nat, base: Place, vals: Values)
    ensures var e := RunNode(List(xs, None), AddEdits(ys, i), base, vals);
            Quiet(e, AddEdits(ys, i), base, vals) && e.node.List? && e.node.owner.None?
            && |e.node.items| == |xs| + |AddEdits(ys, i)|
    decreases |ys| - i
  {
    if i < |ys| {
      var here, later := Prefixed(Dec(i), [Edit([], Add(ys[i]))]), AddEdits(ys, i + 1);
      PyIntOfDec(i);
      WholeQuiet(List(xs, None), Dec(i), Add(ys[i]), base, vals);
      OnePrefixed(Dec(i), Add(ys[i]));
      var e := RunNode(List(xs, None), here, base, vals);
      RunNodeConcat(List(xs, None), here, later, base, vals);
      AddsQuiet(e.node.items, ys, i + 1, base, e.vals);
      QuietThen(e, here, RunNode(e.node, later, base, e.vals), later, base, vals);
    }
  }

  lemma {:induction false} RemovesQuiet(xs: seq<Node>, n: nat, keep: nat, base: Place, vals: Values)
    requires n > keep ==> |xs| == n
    ensures Quiet(RunNode(List(xs, None), RemoveEdits(n, keep), base, vals), RemoveEdits(n, keep), base, vals)
    decreases n
  {
    if n > keep {
      var here, later := Prefixed(Dec(n - 1), [Edit([], Remove)]), RemoveEdits(n - 1, keep);
      PyIntOfDec(n - 1);
      WholeQuiet(List(xs, None), Dec(n - 1), Remove, base, vals);
      OnePrefixed(Dec(n - 1), Remove);
      var e := RunNode(List(xs, None), here, base, vals);
      RunNodeConcat(List(xs, None), here, later, base, vals);
      RemovesQuiet(e.node.items, n - 1, keep, base, e.vals);
      QuietThen(e, here, RunNode(e.node, later, base, e.vals), later, base, vals);
    }
  }

  /** With all values as they were, the second document is what it was. */
  lemma {:induction false} NothingMutated(a: Json, b: Json, base: Place, vals: Values, top: Json)
    requires Resolve(top, base) == Some(b)
    requires forall p :: p in vals ==> Resolve(top, p) == Some(vals[p])
    ensures Mutated(a, b, base, vals) == b
    decreases a
  {
    if DeepEqual(a, b) {
    } else if a.Obj? && b.Obj? {
      forall k | k in b.fields
        ensures (if k in a.fields then Mutated(a.fields[k], b.fields[k], base + [k], vals)
                 else Now(vals, base + [k], b.fields[k])) == b.fields[k]
      {
        BothPlaces(top, base, b, k);
        if k in a.fields { NothingMutated(a.fields[k], b.fields[k], base + [k], vals, top); }
      }
      assert Mutated(a, b, base, vals).fields == b.fields;
    } else if a.Arr? && b.Arr? {
      forall i | 0 <= i < |b.items|
        ensures (if i < |a.items| then Mutated(a.items[i], b.items[i], base + [Dec(i)], vals)
                 else Now(vals, base + [Dec(i)], b.items[i])) == b.items[i]
      {
        PyIntOfDec(i);
        BothPlaces(top, base, b, Dec(i));
        if i < |a.items| { NothingMutated(a.items[i], b.items[i], base + [Dec(i)], vals, top); }
      }
      assert Mutated(a, b, base, vals).items == b.items;
    }
  }

  // ---- The whole application ----

  /** The document that is left equals what the second document has become. */
  ghost predicate Transforms(r: (Option<Node>, Values), a: Json, b: Json) {
    r.0.Some? && DeepEqual(Erase(r.0.value), Mutated(a, b, [], r.1))
  }

  /** Every value is still what the walker found. */
  ghost predicate Untouched(vals: Values, es: seq<Edit>) {
    forall n :: 0 <= n < |es| && CarriesValue(es[n].act) ==> Now(vals, es[n].parts, es[n].act.value) == es[n].act.value
  }

  lemma {:induction false} EraseShared(node: Node, es: seq<Edit>, vals: Values)
    ensures var r := RunShared(node, es, vals).0;
            RunAll(Erase(node), es) == if r.Some? then Some(Erase(r.value)) else None
    decreases |es|
  {
    if es != [] {
      var parts := DropEmpty(es[0].parts);
      EraseStep(node, parts, es[0].act, es[0].parts, vals);
      if !es[0].act.Remove? { EraseNamed(es[0].act.value, es[0].parts); }
      var n := ApplyNode(node, parts, es[0].act, es[0].parts, vals);
      if n.0.Some? { EraseShared(n.0.value, es[1..], n.1); }
    }
  }

  lemma {:induction false} SharedPlain(node: Node, es: seq<Edit>, vals: Values)
    requires RunNode(node, es, [], vals).Leaves?
    ensures var e := RunNode(node, es, [], vals); RunShared(node, es, vals) == (Some(e.node), e.vals)
    decreases |es|
  {
    if es != [] {
      assert [] + es[0].parts == es[0].parts;
      var e := StepNode(node, DropEmpty(es[0].parts), es[0].act, es[0].parts, vals);
      SharedPlain(e.node, es[1..], e.vals);
    }
  }

  lemma CleanTransforms(a: Json, b: Json)
    requires Clean(a, b)
    ensures var r := RunShared(Fresh(a), Edits(a, b), map[]);
            Transforms(r, a, b) && Untouched(r.1, Edits(a, b))
  {
    var es := Edits(a, b);
    var r := RunShared(Fresh(a), es, map[]);
    EraseFresh(a);
    EraseShared(Fresh(a), es, map[]);
    CleanYields(a, b);
    CleanValues(a, b);
    EditsGiven(a, b, [], b);
    GivenIsOriginal(es, [], b);
    NothingMutated(a, b, [], r.1, b);
    forall n | 0 <= n < |es| && CarriesValue(es[n].act)
      ensures Now(r.1, es[n].parts, es[n].act.value) == es[n].act.value
    {
      assert GivenAt(es[n].act, [] + es[n].parts, b) && [] + es[n].parts == es[n].parts;
    }
  }

  lemma CleanValues(a: Json, b: Json)
    requires Clean(a, b)
    ensures RunShared(Fresh(a), Edits(a, b), map[]).1 == Given(Edits(a, b), [])
  {
    var es := Edits(a, b);
    if Containers(a, b) {
      CleanQuiet(a, b, [], map[]);
      SharedPlain(Fresh(a), es, map[]);
      assert map[] + Given(es, []) == Given(es, []);
    } else if !DeepEqual(a, b) {
      assert es == [Edit([], Replace(b))] && es[1..] == [] && [] + [] == es[0].parts;
      assert Given([], []) == map[];
      assert Given(es, []) == map[es[0].parts := b];
    }
  }

  // ---- A dirty pair, with the document taken over when an edit asks for it ----

  lemma FirstEffect(node: Node, es: seq<Edit>, n: nat, vals: Values)
    requires n < |es|
    ensures var e := StepNode(node, DropEmpty(es[n].parts), es[n].act, es[n].parts, vals);
            && (e.Leaves? ==> RunNode(node, es[n..], [], vals) == RunNode(e.node, es[n + 1..], [], e.vals)
                              && RunShared(node, es[n..], vals) == RunShared(e.node, es[n + 1..], e.vals))
            && (e.TakesOver? ==> CarriesValue(es[n].act)
                                 && RunShared(node, es[n..], vals) ==
                                    RunShared(Named(es[n].act.value, es[n].parts), es[n + 1..],
                                              vals[es[n].parts := es[n].act.value]))
            && (e.Fails? ==> RunShared(node, es[n..], vals).0.None?)
  {
    assert es[n..][0] == es[n] && es[n..][1..] == es[n + 1..] && [] + es[n].parts == es[n].parts;
    if StepNode(node, DropEmpty(es[n].parts), es[n].act, es[n].parts, vals).TakesOver? {
      EraseStep(node, DropEmpty(es[n].parts), es[n].act, es[n].parts, vals);
      EscapeCarriesValue(Erase(node), DropEmpty(es[n].parts), es[n].act);
    }
  }

  /** A document that is the value of some edit stays one, and lies too deep to be the second. */
  lemma {:induction false} HeldMisses(a: Json, b: Json, n: nat, node: Node, vals: Values, m: nat)
    requires Containers(a, b) && m < n <= |Edits(a, b)| && CarriesValue(Edits(a, b)[m].act)
    requires Holds(node, Edits(a, b)[m].parts, vals)
    ensures Misses(a, b, n, node, vals)
    decreases |Edits(a, b)| - n
  {
    if n == |Edits(a, b)| {
      HeldAtEnd(a, b, node, vals, m);
    } else {
      var k, next := HeldStep(a, b, n, node, vals, m);
      if next.Some? { HeldMisses(a, b, n + 1, next.value.0, next.value.1, k); }
    }
  }

  /** The document and the values after one operation, which may take the document over. */
  function After(node: Node, e: Edit, vals: Values): Option<(Node, Values)> {
    match StepNode(node, DropEmpty(e.parts), e.act, e.parts, vals)
    case Leaves(n, v) => Some((n, v))
    case TakesOver =>
      if CarriesValue(e.act) then Some((Named(e.act.value, e.parts), vals[e.parts := e.act.value])) else None
    case Fails => None
  }

  /** The held value stays, or another one takes over. */
  lemma HeldStep(a: Json, b: Json, n: nat, node: Node, vals: Values, m: nat)
    returns (k: nat, next: Option<(Node, Values)>)
    requires Containers(a, b) && m < n < |Edits(a, b)| && CarriesValue(Edits(a, b)[m].act)
    requires Holds(node, Edits(a, b)[m].parts, vals)
    ensures k <= n && CarriesValue(Edits(a, b)[k].act)
    ensures next.Some? ==> Holds(next.value.0, Edits(a, b)[k].parts, next.value.1)
    ensures next.None? || Misses(a, b, n + 1, next.value.0, next.value.1) ==> Misses(a, b, n, node, vals)
  {
    var e := Edits(a, b)[n];
    next := After(node, e, vals);
    MissesStep(a, b, n, node, vals);
    OnlyFirstUnlocated(a, b, n);
    StepHolds(node, e, Edits(a, b)[m].parts, vals);
    k := m;
    if StepNode(node, DropEmpty(e.parts), e.act, e.parts, vals).TakesOver? && CarriesValue(e.act) {
      NamedHolds(e.act.value, e.parts, vals);
      k := n;
    }
  }

  /** The rest of the application, from the n-th edit on, does not reach the second document. */
  ghost predicate Misses(a: Json, b: Json, n: nat, node: Node, vals: Values)
    requires n <= |Edits(a, b)|
  {
    !Transforms(RunShared(node, Edits(a, b)[n..], vals), a, b)
  }

  lemma MissesStep(a: Json, b: Json, n: nat, node: Node, vals: Values)
    requires n < |Edits(a, b)|
    ensures var next := After(node, Edits(a, b)[n], vals);
            next.None? || Misses(a, b, n + 1, next.value.0, next.value.1) ==> Misses(a, b, n, node, vals)
  {
    FirstEffect(node, Edits(a, b), n, vals);
  }

  lemma StepHolds(node: Node, e: Edit, p: Place, vals: Values)
    requires Located(e) && Holds(node, p, vals)
    ensures var r := StepNode(node, DropEmpty(e.parts), e.act, e.parts, vals); r.Leaves? ==> Holds(r.node, p, r.vals)
  {
    EditHolds(node, DropEmpty(e.parts), e.act, e.parts, p, vals);
  }

  lemma HeldAtEnd(a: Json, b: Json, node: Node, vals: Values, m: nat)
    requires Containers(a, b) && m < |Edits(a, b)| && CarriesValue(Edits(a, b)[m].act)
    requires Holds(node, Edits(a, b)[m].parts, vals)
    ensures Misses(a, b, |Edits(a, b)|, node, vals)
  {
    var p, v := Edits(a, b)[m].parts, Edits(a, b)[m].act.value;
    ValueBelowRoot(a, b, m);
    ValueInside(a, b, m, [], vals);
    assert [] + p == p;
    assert Now(vals, p, v) == Erase(node);
    HigherDiffers(Erase(node), Mutated(a, b, [], vals));
  }

  lemma HigherDiffers(x: Json, y: Json)
    requires Height(x) < Height(y)
    ensures !DeepEqual(x, y)
  {
    if DeepEqual(x, y) { EqualHeights(x, y); }
  }

  /** From a state that misses without a takeover, a takeover does not help either. */
  lemma {:induction false} TakeoverMissesShared(a: Json, b: Json, n: nat, node: Node, vals: Values)
    requires Containers(a, b) && n <= |Edits(a, b)|
    requires RunOff(RunNode(node, Edits(a, b)[n..], [], vals), a, b, [])
    ensures Misses(a, b, n, node, vals)
    decreases |Edits(a, b)| - n
  {
    var es := Edits(a, b);
    if n < |es| {
      FirstEffect(node, es, n, vals);
      MissesStep(a, b, n, node, vals);
      var e := StepNode(node, DropEmpty(es[n].parts), es[n].act, es[n].parts, vals);
      if e.Leaves? {
        TakeoverMissesShared(a, b, n + 1, e.node, e.vals);
      } else if e.TakesOver? {
        NamedHolds(es[n].act.value, es[n].parts, vals);
        HeldMisses(a, b, n + 1, Named(es[n].act.value, es[n].parts), vals[es[n].parts := es[n].act.value], n);
      }
    }
  }

  /** The first edit lost its whole path at the root: a remove does nothing there, and nothing
      later can reach the empty key. */
  lemma RootSlotOff(a: Json, b: Json)
    requires Containers(a, b) && Edits(a, b) != [] && !Located(Edits(a, b)[0])
    ensures RunOff(RunNode(Fresh(a), Edits(a, b), [], map[]), a, b, [])
  {
    var es := Edits(a, b);
    if a.Arr? {
      ArrayLocated(a, b);
    } else if es[0].act.Remove? {
      RootEmptyKeyDiffers(a, b);
      FirstUnlocatedOnly(a, b);
      EditsGiven(a, b, [], b);
      forall n | 0 <= n < |es[1..]| ensures GivenAt(es[1..][n].act, [] + es[1..][n].parts, b) {
        assert es[1..][n] == es[n + 1];
      }
      EmptyKeyStaysOff(a, b, es[1..], [], map[], b);
    }
  }

  lemma DirtyNeverTransforms(a: Json, b: Json)
    requires !Clean(a, b)
    ensures !Transforms(RunShared(Fresh(a), Edits(a, b), map[]), a, b)
  {
    var es := Edits(a, b);
    DirtyHasEdits(a, b);
    if Located(es[0]) { DirtyOff(a, b, [], map[], b); } else { RootSlotOff(a, b); }
    assert es[0..] == es;
    TakeoverMissesShared(a, b, 0, Fresh(a), map[]);
  }

  /** Applied in memory, the edits between two documents turn the first into what the second has
      become if and only if no difference between them lies under an empty key. */
  lemma PatchExact(a: Json, b: Json)
    ensures Transforms(RunShared(Fresh(a), Edits(a, b), map[]), a, b) <==> Clean(a, b)
    ensures Clean(a, b) ==> Untouched(RunShared(Fresh(a), Edits(a, b), map[]).1, Edits(a, b))
  {
    if Clean(a, b) { CleanTransforms(a, b); } else { DirtyNeverTransforms(a, b); }
  }

  ghost predicate NoEmptyKey(x: Json)
    decreases x
  {
    match x
    case Arr(xs) => forall i :: 0 <= i < |xs| ==> NoEmptyKey(xs[i])
    case Obj(f) => "" !in f && forall k :: k in f ==> NoEmptyKey(f[k])
    case _ => true
  }

  /** Documents without empty keys are always clean. */
  lemma {:induction false} NoEmptyKeyClean(a: Json, b: Json)
    requires NoEmptyKey(a) && NoEmptyKey(b)
    ensures Clean(a, b)
    decreases a
  {
    if a.Obj? && b.Obj? {
      forall k | k in a.fields && k in b.fields { NoEmptyKeyClean(a.fields[k], b.fields[k]); }
    } else if a.Arr? && b.Arr? {
      forall i | 0 <= i < Shared(a, b) { NoEmptyKeyClean(a.items[i], b.items[i]); }
    }
  }
}
