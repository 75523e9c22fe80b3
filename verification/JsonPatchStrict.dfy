/** Edits applied as RFC 6902 has it.

    Every target must exist, and an item is inserted no further than one past the end. Located by
    their components, the generated edits always work. */
module JsonPatchStrict {
  import opened Text
  import opened Json
  import opened JsonPointer
  import opened JsonPatch
  import opened JsonPatchTheorem
  import opened JsonPatchConverse
  import opened JsonShared
  import opened JsonSharedFrames
  import opened JsonMutated

  /** An array index: digits without leading zeros (section 4 of RFC 6901). */
  function StrictIndex(token: string): Option<nat> {
    match PyInt(token)
    case Some(n) => if n >= 0 && Dec(n) == token then Some(n) else None
    case None => None
  }

  lemma StrictIndexOfDec(i: nat)
    ensures StrictIndex(Dec(i)) == Some(i)
  {
    PyIntOfDec(i);
  }

  function StrictChild(node: Json, token: string): Option<Json> {
    match node
    case Obj(f) => if token in f then Some(f[token]) else None
    case Arr(xs) =>
      (match StrictIndex(token)
       case Some(i) => if i < |xs| then Some(xs[i]) else None
       case None => None)
    case _ => None
  }

  function WithStrictChild(node: Json, token: string, c: Json): Json
    requires StrictChild(node, token).Some?
  {
    match node
    case Obj(f) => Obj(f[token := c])
    case Arr(xs) => Arr(xs[StrictIndex(token).value := c])
  }

  /** Sections 4.1 to 4.3 of RFC 6902 on a member; `-` is the place after the last item. */
  function StrictLeaf(parent: Json, token: string, act: Act): Option<Json> {
    match parent
    case Obj(f) =>
      (match act
       case Remove => if token in f then Some(Obj(f - {token})) else None
       case Add(v) => Some(Obj(f[token := v]))
       case Replace(v) => if token in f then Some(Obj(f[token := v])) else None)
    case Arr(xs) =>
      if token == "-" then if act.Add? then Some(Arr(xs + [act.value])) else None
      else
        (match StrictIndex(token)
         case None => None
         case Some(i) =>
           match act
           case Remove => if i < |xs| then Some(Arr(xs[..i] + xs[i + 1..])) else None
           case Add(v) => if i <= |xs| then Some(Arr(xs[..i] + [v] + xs[i..])) else None
           case Replace(v) => if i < |xs| then Some(Arr(xs[i := v])) else None)
    case _ => None
  }

  function StrictAt(doc: Json, parts: seq<string>, act: Act): Option<Json>
    decreases |parts|
  {
    if parts == [] then if act.Remove? then None else Some(act.value)
    else if |parts| == 1 then StrictLeaf(doc, parts[0], act)
    else
      match StrictChild(doc, parts[0])
      case None => None
      case Some(c) =>
        match StrictAt(c, parts[1..], act)
        case None => None
        case Some(d) => Some(WithStrictChild(doc, parts[0], d))
  }

  /** A patch that fails at one operation fails as a whole (section 5). */
  function StrictRun(doc: Json, es: seq<Edit>): Option<Json>
    decreases |es|
  {
    if es == [] then Some(doc)
    else match StrictAt(doc, es[0].parts, es[0].act)
      case None => None
      case Some(d) => StrictRun(d, es[1..])
  }

  lemma {:induction false} StrictConcat(doc: Json, x: seq<Edit>, y: seq<Edit>)
    ensures var r := StrictRun(doc, x);
            StrictRun(doc, x + y) == if r.Some? then StrictRun(r.value, y) else None
    decreases |x|
  {
    if x == [] {
      assert x + y == y;
    } else {
      assert (x + y)[1..] == x[1..] + y;
      var d := StrictAt(doc, x[0].parts, x[0].act);
      if d.Some? { StrictConcat(d.value, x[1..], y); }
    }
  }

  // ---- Edits with the values they have now ----

  function ActNow(act: Act, p: Place, vals: Values): Act {
    match act
    case Remove => Remove
    case Add(v) => Add(Now(vals, p, v))
    case Replace(v) => Replace(Now(vals, p, v))
  }

  function EditsNow(es: seq<Edit>, base: Place, vals: Values): (r: seq<Edit>)
    ensures |r| == |es|
    ensures forall i :: 0 <= i < |es| ==> r[i] == Edit(es[i].parts, ActNow(es[i].act, base + es[i].parts, vals))
  {
    if es == [] then []
    else [Edit(es[0].parts, ActNow(es[0].act, base + es[0].parts, vals))] + EditsNow(es[1..], base, vals)
  }

  lemma EditsNowConcat(x: seq<Edit>, y: seq<Edit>, base: Place, vals: Values)
    ensures EditsNow(x + y, base, vals) == EditsNow(x, base, vals) + EditsNow(y, base, vals)
  {
  }

  lemma EditsNowPrefixed(k: string, es: seq<Edit>, base: Place, vals: Values)
    ensures EditsNow(Prefixed(k, es), base, vals) == Prefixed(k, EditsNow(es, base + [k], vals))
  {
    forall i | 0 <= i < |es|
      ensures EditsNow(Prefixed(k, es), base, vals)[i] == Prefixed(k, EditsNow(es, base + [k], vals))[i]
    {
      HomeBelow(base, k, es[i].parts);
    }
  }

  // ---- Locality ----

  /** Edits of a member as a whole replace it. */
  ghost predicate RootReplaced(es: seq<Edit>) {
    forall i :: 0 <= i < |es| && es[i].parts == [] ==> es[i].act.Replace?
  }

  lemma StrictBelow(node: Json, k: string, e: Edit)
    requires StrictChild(node, k).Some? && k != "-" && (e.parts == [] ==> e.act.Replace?)
    ensures var d := StrictAt(StrictChild(node, k).value, e.parts, e.act);
            StrictAt(node, [k] + e.parts, e.act) == if d.Some? then Some(WithStrictChild(node, k, d.value)) else None
  {
    if e.parts == [] { assert [k] + e.parts == [k]; } else { assert ([k] + e.parts)[1..] == e.parts; }
  }

  lemma WithStrictTwice(node: Json, k: string, c: Json, d: Json)
    requires StrictChild(node, k).Some?
    ensures StrictChild(WithStrictChild(node, k, c), k) == Some(c)
    ensures WithStrictChild(WithStrictChild(node, k, c), k, d) == WithStrictChild(node, k, d)
  {
  }

  lemma WithStrictSame(node: Json, k: string)
    requires StrictChild(node, k).Some?
    ensures WithStrictChild(node, k, StrictChild(node, k).value) == node
  {
  }

  lemma {:induction false} StrictLocality(node: Json, k: string, es: seq<Edit>)
    requires StrictChild(node, k).Some? && k != "-" && RootReplaced(es)
    ensures var r := StrictRun(StrictChild(node, k).value, es);
            StrictRun(node, Prefixed(k, es)) == if r.Some? then Some(WithStrictChild(node, k, r.value)) else None
    decreases |es|
  {
    if es == [] {
      WithStrictSame(node, k);
    } else {
      var c := StrictChild(node, k).value;
      StrictBelow(node, k, es[0]);
      assert Prefixed(k, es)[1..] == Prefixed(k, es[1..]);
      var d := StrictAt(c, es[0].parts, es[0].act);
      if d.Some? {
        WithStrictTwice(node, k, d.value, d.value);
        StrictLocality(WithStrictChild(node, k, d.value), k, es[1..]);
        var r := StrictRun(d.value, es[1..]);
        if r.Some? { WithStrictTwice(node, k, d.value, r.value); }
      }
    }
  }

  lemma EditsRootReplaced(a: Json, b: Json, base: Place, vals: Values)
    ensures RootReplaced(EditsNow(Edits(a, b), base, vals))
  {
    var es := Edits(a, b);
    forall n | 0 <= n < |es| && es[n].parts == [] ensures es[n].act.Replace? {
      if Containers(a, b) { ValueBelowRoot(a, b, n); }
    }
  }

  // ---- The generated edits ----

  ghost predicate Reached(r: Option<Json>, goal: Json) { r.Some? && DeepEqual(r.value, goal) }

  /** For all documents: located by their components, the edits turn the first document into the
      second; with changed values, into the second with those values. */
  lemma {:induction false} StrictWorks(a: Json, b: Json, base: Place, vals: Values)
    ensures Reached(StrictRun(a, EditsNow(Edits(a, b), base, vals)), Mutated(a, b, base, vals))
    decreases a, 3
  {
    if DeepEqual(a, b) {
    } else if a.Obj? && b.Obj? {
      ObjectStrict(a, b, base, vals);
    } else if a.Arr? && b.Arr? {
      ArrayStrict(a, b, base, vals);
    } else {
      WholeStrict(a, b, base, vals);
    }
  }

  lemma WholeStrict(a: Json, b: Json, base: Place, vals: Values)
    requires !Containers(a, b) && !DeepEqual(a, b)
    ensures Reached(StrictRun(a, EditsNow(Edits(a, b), base, vals)), Mutated(a, b, base, vals))
  {
    var m := Mutated(a, b, base, vals);
    assert base + [] == base;
    assert EditsNow([Edit([], Replace(b))], base, vals) == [Edit([], Replace(m))];
    assert [Edit([], Replace(m))][1..] == [];
    DeepEqualReflexive(m);
  }

  lemma {:induction false} ObjectStrict(a: Json, b: Json, base: Place, vals: Values)
    requires a.Obj? && b.Obj? && !DeepEqual(a, b)
    ensures Reached(StrictRun(a, EditsNow(Edits(a, b), base, vals)), Mutated(a, b, base, vals))
    decreases a, 2, |SortedKeys(a.fields.Keys + b.fields.Keys)| + 1
  {
    var keys := a.fields.Keys + b.fields.Keys;
    SortedKeysSorted(keys);
    KeysStrict(a, b, SortedKeys(keys), a.fields, base, vals);
    var g := StrictRun(a, EditsNow(KeyEdits(a, b, SortedKeys(keys)), base, vals)).value;
    ObjectReached(a, b, g, base, vals);
  }

  lemma ObjectReached(a: Json, b: Json, g: Json, base: Place, vals: Values)
    requires a.Obj? && b.Obj? && g.Obj? && !DeepEqual(a, b)
    requires forall k :: k in a.fields || k in b.fields ==> SettledNow(g.fields, a, b, k, base, vals)
    requires forall k :: k in g.fields ==> k in a.fields || k in b.fields
    ensures DeepEqual(g, Mutated(a, b, base, vals))
  {
    var m := Mutated(a, b, base, vals);
    forall k | k in g.fields || k in m.fields
      ensures k in g.fields && k in m.fields && DeepEqual(g.fields[k], m.fields[k])
    {
      assert SettledNow(g.fields, a, b, k, base, vals);
    }
    assert g.fields.Keys == m.fields.Keys;
  }

  /** What a key's member should be after its edits. */
  ghost predicate SettledNow(g: map<string, Json>, a: Json, b: Json, k: string, base: Place, vals: Values)
    requires a.Obj? && b.Obj?
  {
    if k in b.fields then
      k in g && DeepEqual(g[k], if k in a.fields then Mutated(a.fields[k], b.fields[k], base + [k], vals)
                                else Now(vals, base + [k], b.fields[k]))
    else k !in g
  }

  lemma {:induction false} KeysStrict(a: Json, b: Json, ks: seq<string>, f: map<string, Json>, base: Place,
                                      vals: Values)
    requires a.Obj? && b.Obj?
    requires forall k :: k in ks ==> k in a.fields || k in b.fields
    requires forall i, j :: 0 <= i < j < |ks| ==> ks[i] != ks[j]
    requires forall k :: k in ks ==> (k in f <==> k in a.fields) && (k in f ==> f[k] == a.fields[k])
    ensures var r := StrictRun(Obj(f), EditsNow(KeyEdits(a, b, ks), base, vals));
            r.Some? && r.value.Obj?
            && (forall k :: k in ks ==> SettledNow(r.value.fields, a, b, k, base, vals))
            && forall o :: o !in ks ==> (o in r.value.fields <==> o in f) && (o in f ==> r.value.fields[o] == f[o])
    decreases a, 2, |ks|
  {
    if ks != [] {
      var k := ks[0];
      assert k in ks;
      var here, later := Prefixed(k, EditsAtKey(a, b, k)), KeyEdits(a, b, ks[1..]);
      KeyStrict(a, b, k, f, base, vals);
      var g := StrictRun(Obj(f), EditsNow(here, base, vals)).value.fields;
      EditsNowConcat(here, later, base, vals);
      StrictConcat(Obj(f), EditsNow(here, base, vals), EditsNow(later, base, vals));
      KeysStrict(a, b, ks[1..], g, base, vals);
      forall o | o in ks ensures o == k || o in ks[1..] {}
    }
  }

  lemma {:induction false} KeyStrict(a: Json, b: Json, k: string, f: map<string, Json>, base: Place, vals: Values)
    requires a.Obj? && b.Obj? && (k in a.fields || k in b.fields)
    requires (k in f <==> k in a.fields) && (k in f ==> f[k] == a.fields[k])
    ensures var r := StrictRun(Obj(f), EditsNow(Prefixed(k, EditsAtKey(a, b, k)), base, vals));
            r.Some? && r.value.Obj? && SettledNow(r.value.fields, a, b, k, base, vals)
            && forall o :: o != k ==> (o in r.value.fields <==> o in f) && (o in f ==> r.value.fields[o] == f[o])
    decreases a, 1
  {
    var es := EditsAtKey(a, b, k);
    EditsNowPrefixed(k, es, base, vals);
    if k in a.fields && k in b.fields {
      StrictWorks(a.fields[k], b.fields[k], base + [k], vals);
      EditsRootReplaced(a.fields[k], b.fields[k], base + [k], vals);
      StrictKeyLocality(f, k, EditsNow(es, base + [k], vals));
    } else {
      assert base + [k] + [] == base + [k];
      var act := ActNow(es[0].act, base + [k], vals);
      assert EditsNow(es, base + [k], vals) == [Edit([], act)];
      StrictSingle(Obj(f), k, act);
      if k in b.fields { DeepEqualReflexive(Now(vals, base + [k], b.fields[k])); }
    }
  }

  /** In an object the component `-` is a key like any other. */
  lemma {:induction false} StrictKeyLocality(f: map<string, Json>, k: string, es: seq<Edit>)
    requires k in f && RootReplaced(es)
    ensures var r := StrictRun(f[k], es);
            StrictRun(Obj(f), Prefixed(k, es)) == if r.Some? then Some(Obj(f[k := r.value])) else None
    decreases |es|
  {
    if es == [] {
      assert f[k := f[k]] == f;
    } else {
      if es[0].parts == [] { assert [k] + es[0].parts == [k]; } else { assert ([k] + es[0].parts)[1..] == es[0].parts; }
      assert Prefixed(k, es)[1..] == Prefixed(k, es[1..]);
      var d := StrictAt(f[k], es[0].parts, es[0].act);
      if d.Some? {
        StrictKeyLocality(f[k := d.value], k, es[1..]);
        var r := StrictRun(d.value, es[1..]);
        if r.Some? { assert f[k := d.value][k := r.value] == f[k := r.value]; }
      }
    }
  }

  lemma StrictSingle(node: Json, k: string, act: Act)
    ensures StrictRun(node, Prefixed(k, [Edit([], act)])) == StrictLeaf(node, k, act)
  {
    OnePrefixed(k, act);
    assert [Edit([k], act)][1..] == [];
  }

  // ---- Arrays ----

  lemma DecNotDash(i: nat)
    ensures Dec(i) != "-"
  {
    var d := Dec(i);
    assert d[0] in d && IsDigit(d[0]);
  }

  /** The item at i is settled. */
  ghost predicate ItemSettled(ys: seq<Json>, a: Json, b: Json, i: nat, base: Place, vals: Values)
    requires a.Arr? && b.Arr? && i < Shared(a, b)
  {
    i < |ys| && DeepEqual(ys[i], Mutated(a.items[i], b.items[i], base + [Dec(i)], vals))
  }

  ghost predicate ItemDone(r: Option<Json>, a: Json, b: Json, i: nat, xs: seq<Json>, base: Place, vals: Values)
    requires a.Arr? && b.Arr? && i < Shared(a, b)
  {
    r.Some? && r.value.Arr? && |r.value.items| == |xs| && ItemSettled(r.value.items, a, b, i, base, vals)
    && forall j :: 0 <= j < |xs| && j != i ==> r.value.items[j] == xs[j]
  }

  ghost predicate ItemsDone(r: Option<Json>, a: Json, b: Json, i: nat, xs: seq<Json>, base: Place, vals: Values)
    requires a.Arr? && b.Arr? && i <= Shared(a, b)
  {
    r.Some? && r.value.Arr? && |r.value.items| == |xs|
    && (forall j :: 0 <= j < i && j < |xs| ==> r.value.items[j] == xs[j])
    && forall j :: i <= j < Shared(a, b) ==> ItemSettled(r.value.items, a, b, j, base, vals)
  }

  lemma {:induction false} ItemStrict(a: Json, b: Json, i: nat, xs: seq<Json>, base: Place, vals: Values)
    requires a.Arr? && b.Arr? && i < Shared(a, b) && i < |xs| && xs[i] == a.items[i]
    ensures var r := StrictRun(Arr(xs), EditsNow(Prefixed(Dec(i), Edits(a.items[i], b.items[i])), base, vals));
            ItemDone(r, a, b, i, xs, base, vals)
    decreases a, 1
  {
    var x, y := a.items[i], b.items[i];
    var es := EditsNow(Edits(x, y), base + [Dec(i)], vals);
    EditsNowPrefixed(Dec(i), Edits(x, y), base, vals);
    StrictWorks(x, y, base + [Dec(i)], vals);
    EditsRootReplaced(x, y, base + [Dec(i)], vals);
    StrictIndexOfDec(i);
    DecNotDash(i);
    StrictLocality(Arr(xs), Dec(i), es);
  }

  lemma {:induction false} ItemsStrict(a: Json, b: Json, i: nat, xs: seq<Json>, base: Place, vals: Values)
    requires a.Arr? && b.Arr? && i <= Shared(a, b)
    requires |xs| == |a.items| && forall j :: i <= j < |xs| ==> xs[j] == a.items[j]
    ensures var r := StrictRun(Arr(xs), EditsNow(ItemEdits(a, b, i), base, vals));
            ItemsDone(r, a, b, i, xs, base, vals)
    decreases a, 2, Shared(a, b) - i
  {
    if i < Shared(a, b) {
      var here, later := Prefixed(Dec(i), Edits(a.items[i], b.items[i])), ItemEdits(a, b, i + 1);
      ItemStrict(a, b, i, xs, base, vals);
      var ys := StrictRun(Arr(xs), EditsNow(here, base, vals)).value.items;
      EditsNowConcat(here, later, base, vals);
      StrictConcat(Arr(xs), EditsNow(here, base, vals), EditsNow(later, base, vals));
      ItemsStrict(a, b, i + 1, ys, base, vals);
      ItemThenItems(a, b, i, xs, ys, StrictRun(Arr(ys), EditsNow(later, base, vals)), base, vals);
    }
  }

  lemma ItemThenItems(a: Json, b: Json, i: nat, xs: seq<Json>, ys: seq<Json>, r: Option<Json>, base: Place,
                      vals: Values)
    requires a.Arr? && b.Arr? && i < Shared(a, b) && |xs| == |a.items|
    requires ItemDone(Some(Arr(ys)), a, b, i, xs, base, vals) && ItemsDone(r, a, b, i + 1, ys, base, vals)
    ensures ItemsDone(r, a, b, i, xs, base, vals)
  {
    var zs := r.value.items;
    assert zs[i] == ys[i];
    forall j | i <= j < Shared(a, b) ensures ItemSettled(zs, a, b, j, base, vals) {
      if j == i { assert ItemSettled(ys, a, b, i, base, vals); }
    }
  }

  /** The values now at the places of the added items. */
  function AddedNow(ys: seq<Json>, i: nat, base: Place, vals: Values): seq<Json>
    requires i <= |ys|
  {
    seq(|ys| - i, j requires 0 <= j < |ys| - i => Now(vals, base + [Dec(i + j)], ys[i + j]))
  }

  lemma AddedNowStep(ys: seq<Json>, i: nat, base: Place, vals: Values)
    requires i < |ys|
    ensures AddedNow(ys, i, base, vals) == [Now(vals, base + [Dec(i)], ys[i])] + AddedNow(ys, i + 1, base, vals)
  {
    var rest := AddedNow(ys, i + 1, base, vals);
    forall j | 1 <= j < |ys| - i ensures AddedNow(ys, i, base, vals)[j] == rest[j - 1] {
      assert i + j == i + 1 + (j - 1);
    }
  }

  lemma {:induction false} AddsStrict(xs: seq<Json>, ys: seq<Json>, i: nat, base: Place, vals: Values)
    requires i <= |ys| && (i < |ys| ==> |xs| == i)
    ensures StrictRun(Arr(xs), EditsNow(AddEdits(ys, i), base, vals)) == Some(Arr(xs + AddedNow(ys, i, base, vals)))
    decreases |ys| - i
  {
    if i < |ys| {
      var v := Now(vals, base + [Dec(i)], ys[i]);
      var later := EditsNow(AddEdits(ys, i + 1), base, vals);
      AddedNowStep(ys, i, base, vals);
      AddStrict(xs, i, v);
      AddsNowStep(ys, i, base, vals);
      StrictCons(Arr(xs), [Dec(i)], Add(v), later);
      AddsStrict(xs + [v], ys, i + 1, base, vals);
      Associate(xs, v, AddedNow(ys, i + 1, base, vals));
    } else {
      assert xs + AddedNow(ys, i, base, vals) == xs;
    }
  }

  lemma Associate(xs: seq<Json>, v: Json, ys: seq<Json>)
    ensures xs + [v] + ys == xs + ([v] + ys)
  {
  }

  lemma AddsNowStep(ys: seq<Json>, i: nat, base: Place, vals: Values)
    requires i < |ys|
    ensures EditsNow(AddEdits(ys, i), base, vals) ==
            [Edit([Dec(i)], Add(Now(vals, base + [Dec(i)], ys[i])))] + EditsNow(AddEdits(ys, i + 1), base, vals)
  {
  }

  lemma AddStrict(xs: seq<Json>, i: nat, v: Json)
    requires |xs| == i
    ensures StrictAt(Arr(xs), [Dec(i)], Add(v)) == Some(Arr(xs + [v]))
  {
    StrictIndexOfDec(i);
    DecNotDash(i);
    assert xs[..i] + [v] + xs[i..] == xs + [v];
  }

  lemma StrictCons(doc: Json, parts: seq<string>, act: Act, es: seq<Edit>)
    ensures var d := StrictAt(doc, parts, act);
            StrictRun(doc, [Edit(parts, act)] + es) == if d.Some? then StrictRun(d.value, es) else None
  {
    assert ([Edit(parts, act)] + es)[1..] == es;
  }

  lemma {:induction false} RemovesStrict(xs: seq<Json>, n: nat, keep: nat, base: Place, vals: Values)
    requires |xs| == n >= keep
    ensures StrictRun(Arr(xs), EditsNow(RemoveEdits(n, keep), base, vals)) == Some(Arr(xs[..keep]))
    decreases n
  {
    if n > keep {
      var ys := xs[..n - 1];
      RemoveStrict(xs, n - 1);
      RemovesNowStep(n, keep, base, vals);
      StrictCons(Arr(xs), [Dec(n - 1)], Remove, EditsNow(RemoveEdits(n - 1, keep), base, vals));
      RemovesStrict(ys, n - 1, keep, base, vals);
      assert ys[..keep] == xs[..keep];
    } else {
      assert EditsNow(RemoveEdits(n, keep), base, vals) == [] && xs[..keep] == xs;
    }
  }

  /** Without surplus items there is nothing to remove. */
  lemma TrimStrict(xs: seq<Json>, n: nat, keep: nat, base: Place, vals: Values)
    requires n > keep ==> |xs| == n
    ensures StrictRun(Arr(xs), EditsNow(RemoveEdits(n, keep), base, vals)) ==
            Some(Arr(if n > keep then xs[..keep] else xs))
  {
    if n > keep {
      RemovesStrict(xs, n, keep, base, vals);
    } else {
      assert EditsNow(RemoveEdits(n, keep), base, vals) == [];
    }
  }

  lemma RemoveStrict(xs: seq<Json>, last: nat)
    requires |xs| == last + 1
    ensures StrictAt(Arr(xs), [Dec(last)], Remove) == Some(Arr(xs[..last]))
  {
    StrictIndexOfDec(last);
    DecNotDash(last);
    assert xs[..last] + xs[last + 1..] == xs[..last];
  }

  lemma RemovesNowStep(n: nat, keep: nat, base: Place, vals: Values)
    requires n > keep
    ensures EditsNow(RemoveEdits(n, keep), base, vals) ==
            [Edit([Dec(n - 1)], Remove)] + EditsNow(RemoveEdits(n - 1, keep), base, vals)
  {
  }

  lemma {:induction false} ArrayStrict(a: Json, b: Json, base: Place, vals: Values)
    requires a.Arr? && b.Arr? && !DeepEqual(a, b)
    ensures Reached(StrictRun(a, EditsNow(Edits(a, b), base, vals)), Mutated(a, b, base, vals))
    decreases a, 2, |a.items| + |b.items| + 1
  {
    var s := Shared(a, b);
    var items, adds, removes := ItemEdits(a, b, 0), AddEdits(b.items, s), RemoveEdits(|a.items|, s);
    ItemsStrict(a, b, 0, a.items, base, vals);
    var mid := StrictRun(a, EditsNow(items, base, vals)).value.items;
    var ys := mid + AddedNow(b.items, s, base, vals);
    AddsStrict(mid, b.items, s, base, vals);
    StrictParts(a, items, adds, base, vals);
    assert StrictRun(a, EditsNow(items + adds, base, vals)) == Some(Arr(ys));
    TrimStrict(ys, |a.items|, s, base, vals);
    StrictParts(a, items + adds, removes, base, vals);
    ArrayReached(a, b, mid, base, vals);
  }

  lemma StrictParts(a: Json, x: seq<Edit>, y: seq<Edit>, base: Place, vals: Values)
    ensures var r := StrictRun(a, EditsNow(x, base, vals));
            StrictRun(a, EditsNow(x + y, base, vals)) ==
            if r.Some? then StrictRun(r.value, EditsNow(y, base, vals)) else None
  {
    EditsNowConcat(x, y, base, vals);
    StrictConcat(a, EditsNow(x, base, vals), EditsNow(y, base, vals));
  }

  lemma ArrayReached(a: Json, b: Json, mid: seq<Json>, base: Place, vals: Values)
    requires a.Arr? && b.Arr? && !DeepEqual(a, b) && |mid| == |a.items|
    requires forall j :: 0 <= j < Shared(a, b) ==> ItemSettled(mid, a, b, j, base, vals)
    ensures var ys := mid + AddedNow(b.items, Shared(a, b), base, vals);
            DeepEqual(Arr(if |a.items| > Shared(a, b) then ys[..Shared(a, b)] else ys), Mutated(a, b, base, vals))
  {
    var s := Shared(a, b);
    var added := AddedNow(b.items, s, base, vals);
    var ys := mid + added;
    var r := if |a.items| > s then ys[..s] else ys;
    forall j | 0 <= j < s ensures ItemSettled(r, a, b, j, base, vals) { assert ItemSettled(mid, a, b, j, base, vals); }
    forall j | s <= j < |r| ensures r[j] == Now(vals, base + [Dec(j)], b.items[j]) {
      assert r[j] == added[j - s] && s + (j - s) == j;
    }
    ItemsReached(a, b, r, base, vals);
  }

  lemma ItemsReached(a: Json, b: Json, r: seq<Json>, base: Place, vals: Values)
    requires a.Arr? && b.Arr? && !DeepEqual(a, b) && |r| == |b.items|
    requires forall j :: 0 <= j < Shared(a, b) ==> ItemSettled(r, a, b, j, base, vals)
    requires forall j :: Shared(a, b) <= j < |r| ==> r[j] == Now(vals, base + [Dec(j)], b.items[j])
    ensures DeepEqual(Arr(r), Mutated(a, b, base, vals))
  {
    var m := Mutated(a, b, base, vals).items;
    forall j | 0 <= j < |r| ensures DeepEqual(r[j], m[j]) {
      if j < Shared(a, b) {
        assert ItemSettled(r, a, b, j, base, vals);
      } else {
        DeepEqualReflexive(m[j]);
      }
    }
  }
}
