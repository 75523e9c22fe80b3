/** The generated patch as a library applies it, by RFC 6901 and RFC 6902. */
module JsonPatchStandard {
  import opened Text
  import opened Json
  import opened JsonPointer
  import opened JsonPatch
  import opened JsonPatchTheorem
  import opened JsonPatchConverse
  import opened JsonPatchExact
  import opened JsonPatchStrict
  import opened JsonShared
  import opened JsonSharedFrames
  import opened JsonMutated
  import opened JsonService
  import opened JsonExamples

  function UnescapeAll(pieces: seq<string>): seq<string> {
    if pieces == [] then [] else [Unescape(pieces[0])] + UnescapeAll(pieces[1..])
  }

  /** Sections 3 and 4 of RFC 6901: the empty text is the whole document; otherwise every piece
      after a slash is a component, empty ones included. None for text that is no pointer. */
  function StandardParse(path: string): Option<seq<string>> {
    if path == "" then Some([])
    else if path[0] != '/' then None
    else Some(UnescapeAll(Split(path[1..], '/')))
  }

  lemma {:induction false} UnescapeEscaped(parts: seq<string>)
    ensures UnescapeAll(EscapeAll(parts)) == parts
  {
    if parts != [] {
      UnescapeEscape(parts[0]);
      UnescapeEscaped(parts[1..]);
      assert EscapeAll(parts)[1..] == EscapeAll(parts[1..]);
    }
  }

  lemma NoSlashes(parts: seq<string>)
    ensures forall e :: e in EscapeAll(parts) ==> '/' !in e
  {
    var es := EscapeAll(parts);
    forall e | e in es ensures '/' !in e {
      var i :| 0 <= i < |es| && es[i] == e;
      NoSlashAfterReplace(ReplaceChar(parts[i], '~', "~0"));
    }
  }

  /** The printer follows the standard except for the root, which it prints as one slash. */
  lemma StandardPointer(parts: seq<string>)
    ensures StandardParse(Pointer(parts)) == Some(if parts == [] then [""] else parts)
    ensures StandardParse("/" + Pointer(parts)) == Some([""] + if parts == [] then [""] else parts)
  {
    var body := Join(EscapeAll(parts), '/');
    assert Pointer(parts)[1..] == body;
    assert ("/" + Pointer(parts))[1..] == "" + ['/'] + body;
    SplitConcat("", body, '/');
    BodyPieces(parts);
    assert UnescapeAll([""] + Split(body, '/')) == [""] + UnescapeAll(Split(body, '/')) by {
      assert ([""] + Split(body, '/'))[1..] == Split(body, '/');
    }
  }

  lemma BodyPieces(parts: seq<string>)
    ensures UnescapeAll(Split(Join(EscapeAll(parts), '/'), '/')) == if parts == [] then [""] else parts
  {
    if parts != [] {
      NoSlashes(parts);
      SplitJoin(EscapeAll(parts), '/');
      UnescapeEscaped(parts);
    } else {
      assert Split("", '/') == [""];
      assert UnescapeAll([""]) == [""];
    }
  }

  /** Read by the standard, a printed path names its location unless that is the root or an item
      added to or removed from an array document. */
  lemma StandardText(arrayRoot: bool, full: seq<string>, act: Act)
    ensures StandardParse(EditText(arrayRoot, full, act)) == Some(full) <==>
            full != [] && !(arrayRoot && |full| == 1 && !act.Replace?)
  {
    StandardPointer(full);
  }

  /** An edit of a whole document replaces it. */
  lemma RootReplaces(a: Json, b: Json, n: nat)
    requires n < |Edits(a, b)| && Edits(a, b)[n].parts == []
    ensures Edits(a, b)[n].act.Replace?
  {
    if Containers(a, b) { ValueBelowRoot(a, b, n); }
  }

  /** Edits of shared items: a path of one index belongs to a replace. */
  lemma {:induction false} ItemsReplace(a: Json, b: Json, i: nat, n: nat)
    requires a.Arr? && b.Arr? && i <= Shared(a, b) && n < |ItemEdits(a, b, i)|
    ensures var e := ItemEdits(a, b, i)[n]; e.parts != [] && (|e.parts| == 1 ==> e.act.Replace?)
    decreases Shared(a, b) - i
  {
    var es := Edits(a.items[i], b.items[i]);
    if n < |es| {
      assert ItemEdits(a, b, i)[n] == Prefixed(Dec(i), es)[n];
      if es[n].parts == [] { RootReplaces(a.items[i], b.items[i], n); }
    } else {
      assert ItemEdits(a, b, i)[n] == ItemEdits(a, b, i + 1)[n - |es|];
      ItemsReplace(a, b, i + 1, n - |es|);
    }
  }

  /** Every printed path names its location when read by the standard. */
  ghost predicate AllAddressed(arrayRoot: bool, es: seq<Edit>) {
    forall n :: 0 <= n < |es| ==> StandardParse(EditText(arrayRoot, es[n].parts, es[n].act)) == Some(es[n].parts)
  }

  ghost predicate Addressed(a: Json, b: Json) { AllAddressed(a.Arr? && b.Arr?, Edits(a, b)) }

  /** Equal documents, two objects, or two arrays of one length. */
  predicate Portable(a: Json, b: Json) {
    DeepEqual(a, b) || (a.Obj? && b.Obj?) || (a.Arr? && b.Arr? && |a.items| == |b.items|)
  }

  /** A standard reader understands the whole patch exactly for portable pairs. */
  lemma AddressedExactly(a: Json, b: Json)
    ensures Addressed(a, b) <==> Portable(a, b)
  {
    if DeepEqual(a, b) {
    } else if a.Obj? && b.Obj? {
      ObjectsAddressed(a, b);
    } else if a.Arr? && b.Arr? {
      if |a.items| == |b.items| { ArraysAddressed(a, b); } else { ExtrasMisread(a, b); }
    } else {
      assert Edits(a, b)[0] == Edit([], Replace(b));
      StandardText(false, [], Replace(b));
    }
  }

  lemma ObjectsAddressed(a: Json, b: Json)
    requires a.Obj? && b.Obj?
    ensures Addressed(a, b)
  {
    forall n | 0 <= n < |Edits(a, b)|
      ensures StandardParse(EditText(false, Edits(a, b)[n].parts, Edits(a, b)[n].act)) == Some(Edits(a, b)[n].parts)
    {
      ValueBelowRoot(a, b, n);
      StandardText(false, Edits(a, b)[n].parts, Edits(a, b)[n].act);
    }
  }

  lemma ArraysAddressed(a: Json, b: Json)
    requires a.Arr? && b.Arr? && |a.items| == |b.items| && !DeepEqual(a, b)
    ensures Addressed(a, b)
  {
    assert Edits(a, b) == ItemEdits(a, b, 0);
    forall n | 0 <= n < |Edits(a, b)|
      ensures StandardParse(EditText(true, Edits(a, b)[n].parts, Edits(a, b)[n].act)) == Some(Edits(a, b)[n].parts)
    {
      ItemsReplace(a, b, 0, n);
      StandardText(true, Edits(a, b)[n].parts, Edits(a, b)[n].act);
    }
  }

  lemma ExtrasMisread(a: Json, b: Json)
    requires a.Arr? && b.Arr? && |a.items| != |b.items|
    ensures !Addressed(a, b)
  {
    var s := Shared(a, b);
    var items, adds, removes := ItemEdits(a, b, 0), AddEdits(b.items, s), RemoveEdits(|a.items|, s);
    var n := |items|;
    assert Edits(a, b) == items + adds + removes;
    if s < |b.items| {
      assert Edits(a, b)[n] == adds[0] == Edit([Dec(s)], Add(b.items[s]));
    } else {
      assert adds == [];
      assert Edits(a, b)[n] == removes[0] == Edit([Dec(|a.items| - 1)], Remove);
    }
    StandardText(true, Edits(a, b)[n].parts, Edits(a, b)[n].act);
  }

  // ---- Applying the printed patch by the standard ----

  /** A patch as a library applies it: paths are read by RFC 6901, every operation must work. */
  function StrictOps(doc: Json, ops: seq<Op>): Option<Json>
    decreases |ops|
  {
    if ops == [] then Some(doc)
    else match StrictOp(doc, ops[0])
      case None => None
      case Some(d) => StrictOps(d, ops[1..])
  }

  function Then(doc: Option<Json>, ops: seq<Op>): Option<Json> {
    if doc.Some? then StrictOps(doc.value, ops) else None
  }

  lemma StrictOpsCons(doc: Json, op: Op, ops: seq<Op>)
    ensures StrictOps(doc, [op] + ops) == Then(StrictOp(doc, op), ops)
  {
    assert ([op] + ops)[1..] == ops;
  }

  function StrictOp(doc: Json, op: Op): Option<Json> {
    var parts := StandardParse(op.path);
    if parts.Some? then StrictAt(doc, parts.value, op.act) else None
  }

  lemma {:induction false} StrictOpsConcat(doc: Json, x: seq<Op>, y: seq<Op>)
    ensures StrictOps(doc, x + y) == Then(StrictOps(doc, x), y)
    decreases |x|
  {
    if x == [] {
      assert x + y == y;
    } else {
      assert (x + y)[1..] == x[1..] + y;
      var d := StrictOp(doc, x[0]);
      if d.Some? { StrictOpsConcat(d.value, x[1..], y); }
    }
  }

  lemma ReportedConcat(x: seq<Op>, y: seq<Op>, vals: Values)
    ensures Reported(x + y, vals) == Reported(x, vals) + Reported(y, vals)
  {
  }

  lemma {:induction false} AddressedRun(arrayRoot: bool, doc: Json, es: seq<Edit>, vals: Values)
    requires AllAddressed(arrayRoot, es)
    ensures StrictOps(doc, Reported(Render(arrayRoot, [], es), vals)) == StrictRun(doc, EditsNow(es, [], vals))
    decreases |es|
  {
    if es != [] {
      var e := es[0];
      var op := OpAt(arrayRoot, e.parts, e.act);
      assert [] + e.parts == e.parts;
      var rest := Render(arrayRoot, [], es[1..]);
      assert Render(arrayRoot, [], es) == [op] + rest;
      ReportedCons(op, rest, vals);
      StrictOpsCons(doc, OpNow(op, vals), Reported(rest, vals));
      var now := ActNow(e.act, e.parts, vals);
      assert StrictOp(doc, OpNow(op, vals)) == StrictAt(doc, e.parts, now) by { AddressedOp(arrayRoot, doc, e, vals); }
      assert EditsNow(es, [], vals) == [Edit(e.parts, now)] + EditsNow(es[1..], [], vals);
      StrictCons(doc, e.parts, now, EditsNow(es[1..], [], vals));
      AddressedTail(arrayRoot, es);
      var d := StrictAt(doc, e.parts, now);
      if d.Some? { AddressedRun(arrayRoot, d.value, es[1..], vals); }
    }
  }

  lemma AddressedOp(arrayRoot: bool, doc: Json, e: Edit, vals: Values)
    requires StandardParse(EditText(arrayRoot, e.parts, e.act)) == Some(e.parts)
    ensures StrictOp(doc, OpNow(OpAt(arrayRoot, e.parts, e.act), vals)) ==
            StrictAt(doc, e.parts, ActNow(e.act, e.parts, vals))
  {
  }

  lemma AddressedTail(arrayRoot: bool, es: seq<Edit>)
    requires es != [] && AllAddressed(arrayRoot, es)
    ensures AllAddressed(arrayRoot, es[1..])
  {
    forall n | 0 <= n < |es[1..]|
      ensures StandardParse(EditText(arrayRoot, es[1..][n].parts, es[1..][n].act)) == Some(es[1..][n].parts)
    {
      assert es[1..][n] == es[n + 1];
    }
  }

  // ---- When the values were kept ----

  ghost predicate Kept(act: Act, p: Place, vals: Values) {
    CarriesValue(act) ==> DeepEqual(Now(vals, p, act.value), act.value)
  }

  /** No edit's value has become an unequal one. */
  ghost predicate AllKept(es: seq<Edit>, base: Place, vals: Values) {
    forall n :: 0 <= n < |es| ==> Kept(es[n].act, base + es[n].parts, vals)
  }

  lemma AllKeptConcat(x: seq<Edit>, y: seq<Edit>, base: Place, vals: Values)
    ensures AllKept(x + y, base, vals) <==> AllKept(x, base, vals) && AllKept(y, base, vals)
  {
    if AllKept(x + y, base, vals) {
      forall n | 0 <= n < |x| ensures Kept(x[n].act, base + x[n].parts, vals) { assert (x + y)[n] == x[n]; }
      forall n | 0 <= n < |y| ensures Kept(y[n].act, base + y[n].parts, vals) { assert (x + y)[|x| + n] == y[n]; }
    }
  }

  lemma AllKeptPrefixed(k: string, es: seq<Edit>, base: Place, vals: Values)
    ensures AllKept(Prefixed(k, es), base, vals) <==> AllKept(es, base + [k], vals)
  {
    forall n | 0 <= n < |es|
      ensures Kept(Prefixed(k, es)[n].act, base + Prefixed(k, es)[n].parts, vals) ==
              Kept(es[n].act, base + [k] + es[n].parts, vals)
    {
      HomeBelow(base, k, es[n].parts);
    }
  }

  lemma OneKept(act: Act, base: Place, vals: Values)
    ensures AllKept([Edit([], act)], base, vals) <==> Kept(act, base, vals)
  {
    assert base + [] == base;
    assert [Edit([], act)][0] == Edit([], act);
  }

  /** The second document stayed equal to itself exactly if every operation's value did. */
  lemma {:induction false} ValuesKept(a: Json, b: Json, base: Place, vals: Values)
    ensures DeepEqual(Mutated(a, b, base, vals), b) <==> AllKept(Edits(a, b), base, vals)
    decreases a, 3
  {
    if DeepEqual(a, b) {
      DeepEqualReflexive(b);
    } else if a.Obj? && b.Obj? {
      var keys := a.fields.Keys + b.fields.Keys;
      SortedKeysSorted(keys);
      KeysKept(a, b, SortedKeys(keys), base, vals);
      ObjectKept(a, b, base, vals);
    } else if a.Arr? && b.Arr? {
      ItemsKept(a, b, 0, base, vals);
      ArrayKept(a, b, base, vals);
    } else {
      OneKept(Replace(b), base, vals);
    }
  }

  ghost predicate KeyKept(a: Json, b: Json, k: string, base: Place, vals: Values)
    requires a.Obj? && b.Obj?
  {
    k in b.fields ==>
      DeepEqual(if k in a.fields then Mutated(a.fields[k], b.fields[k], base + [k], vals)
                else Now(vals, base + [k], b.fields[k]), b.fields[k])
  }

  lemma {:induction false} KeysKept(a: Json, b: Json, ks: seq<string>, base: Place, vals: Values)
    requires a.Obj? && b.Obj?
    requires forall k :: k in ks ==> k in a.fields || k in b.fields
    ensures AllKept(KeyEdits(a, b, ks), base, vals) <==> forall k :: k in ks ==> KeyKept(a, b, k, base, vals)
    decreases a, 2, |ks|
  {
    if ks != [] {
      var k := ks[0];
      assert k in ks;
      var es := EditsAtKey(a, b, k);
      AllKeptConcat(Prefixed(k, es), KeyEdits(a, b, ks[1..]), base, vals);
      AllKeptPrefixed(k, es, base, vals);
      if k in a.fields && k in b.fields {
        ValuesKept(a.fields[k], b.fields[k], base + [k], vals);
      } else {
        OneKept(es[0].act, base + [k], vals);
      }
      KeysKept(a, b, ks[1..], base, vals);
      assert forall o :: o in ks <==> o == k || o in ks[1..];
    }
  }

  lemma ObjectKept(a: Json, b: Json, base: Place, vals: Values)
    requires a.Obj? && b.Obj? && !DeepEqual(a, b)
    ensures DeepEqual(Mutated(a, b, base, vals), b) <==>
            forall k :: k in a.fields || k in b.fields ==> KeyKept(a, b, k, base, vals)
  {
    var m := Mutated(a, b, base, vals);
    assert m.fields.Keys == b.fields.Keys;
    if DeepEqual(m, b) {
      forall k | k in b.fields ensures KeyKept(a, b, k, base, vals) {
        assert k in m.fields;
        assert DeepEqual(m.fields[k], b.fields[k]);
      }
    }
    if forall k :: k in a.fields || k in b.fields ==> KeyKept(a, b, k, base, vals) {
      forall k | k in m.fields ensures DeepEqual(m.fields[k], b.fields[k]) { assert KeyKept(a, b, k, base, vals); }
    }
  }

  ghost predicate ItemKept(a: Json, b: Json, i: nat, base: Place, vals: Values)
    requires a.Arr? && b.Arr? && i < |b.items|
  {
    DeepEqual(if i < |a.items| then Mutated(a.items[i], b.items[i], base + [Dec(i)], vals)
              else Now(vals, base + [Dec(i)], b.items[i]), b.items[i])
  }

  ghost predicate KeptFrom(a: Json, b: Json, i: nat, base: Place, vals: Values)
    requires a.Arr? && b.Arr?
  {
    forall j :: i <= j < |b.items| ==> ItemKept(a, b, j, base, vals)
  }

  lemma KeptStep(a: Json, b: Json, i: nat, base: Place, vals: Values)
    requires a.Arr? && b.Arr? && i < |b.items|
    ensures KeptFrom(a, b, i, base, vals) <==> ItemKept(a, b, i, base, vals) && KeptFrom(a, b, i + 1, base, vals)
  {
  }

  lemma {:induction false} ItemsKept(a: Json, b: Json, i: nat, base: Place, vals: Values)
    requires a.Arr? && b.Arr? && i <= Shared(a, b)
    ensures AllKept(ArrayTail(a, b, i), base, vals) <==> KeptFrom(a, b, i, base, vals)
    decreases a, 2, Shared(a, b) - i
  {
    var s := Shared(a, b);
    if i < s {
      var es := Edits(a.items[i], b.items[i]);
      ArrayTailStep(a, b, i);
      AllKeptConcat(Prefixed(Dec(i), es), ArrayTail(a, b, i + 1), base, vals);
      AllKeptPrefixed(Dec(i), es, base, vals);
      ValuesKept(a.items[i], b.items[i], base + [Dec(i)], vals);
      ItemsKept(a, b, i + 1, base, vals);
      KeptStep(a, b, i, base, vals);
    } else {
      assert ItemEdits(a, b, s) == [];
      assert ArrayTail(a, b, s) == AddEdits(b.items, s) + RemoveEdits(|a.items|, s);
      AllKeptConcat(AddEdits(b.items, s), RemoveEdits(|a.items|, s), base, vals);
      AddsKept(a, b, s, base, vals);
      RemovesKept(|a.items|, s, base, vals);
    }
  }

  lemma {:induction false} AddsKept(a: Json, b: Json, i: nat, base: Place, vals: Values)
    requires a.Arr? && b.Arr? && (i < |b.items| ==> i >= |a.items|)
    ensures AllKept(AddEdits(b.items, i), base, vals) <==> KeptFrom(a, b, i, base, vals)
    decreases |b.items| - i
  {
    if i < |b.items| {
      AllKeptConcat([Edit([Dec(i)], Add(b.items[i]))], AddEdits(b.items, i + 1), base, vals);
      AddKept(a, b, i, base, vals);
      AddsKept(a, b, i + 1, base, vals);
      KeptStep(a, b, i, base, vals);
    }
  }

  lemma AddKept(a: Json, b: Json, i: nat, base: Place, vals: Values)
    requires a.Arr? && b.Arr? && |a.items| <= i < |b.items|
    ensures AllKept([Edit([Dec(i)], Add(b.items[i]))], base, vals) <==> ItemKept(a, b, i, base, vals)
  {
    var act := Add(b.items[i]);
    OnePrefixed(Dec(i), act);
    AllKeptPrefixed(Dec(i), [Edit([], act)], base, vals);
    OneKept(act, base + [Dec(i)], vals);
  }

  lemma {:induction false} RemovesKept(n: nat, keep: nat, base: Place, vals: Values)
    ensures AllKept(RemoveEdits(n, keep), base, vals)
    decreases n
  {
    if n > keep {
      RemovesKept(n - 1, keep, base, vals);
      AllKeptConcat([Edit([Dec(n - 1)], Remove)], RemoveEdits(n - 1, keep), base, vals);
    }
  }

  lemma ArrayKept(a: Json, b: Json, base: Place, vals: Values)
    requires a.Arr? && b.Arr? && !DeepEqual(a, b)
    ensures DeepEqual(Mutated(a, b, base, vals), b) <==> KeptFrom(a, b, 0, base, vals)
  {
    var m := Mutated(a, b, base, vals);
    forall j | 0 <= j < |b.items| ensures DeepEqual(m.items[j], b.items[j]) == ItemKept(a, b, j, base, vals) {}
    if DeepEqual(m, b) {
      forall j | 0 <= j < |b.items| ensures ItemKept(a, b, j, base, vals) { assert DeepEqual(m.items[j], b.items[j]); }
    }
  }

  // ---- The claim that any library can apply the patch ----

  /** The patch for a and b, with the values it has by now, applied by the standard: it yields the
      second document exactly if the pair is portable and every value is still the one given. */
  lemma StandardRun(a: Json, b: Json, vals: Values)
    ensures Reached(StrictOps(a, Reported(Render(a.Arr? && b.Arr?, [], Edits(a, b)), vals)), b) <==>
            Portable(a, b) && AllKept(Edits(a, b), [], vals)
  {
    var es := Edits(a, b);
    var arrayRoot := a.Arr? && b.Arr?;
    AddressedExactly(a, b);
    if Portable(a, b) {
      AddressedRun(arrayRoot, a, es, vals);
      StrictWorks(a, b, [], vals);
      ValuesKept(a, b, [], vals);
      SameGoal(StrictRun(a, EditsNow(es, [], vals)).value, Mutated(a, b, [], vals), b);
    } else if arrayRoot {
      ExtrasFail(a, b, vals);
    } else {
      WholeFails(a, b, vals);
    }
  }

  lemma SameGoal(r: Json, m: Json, b: Json)
    requires DeepEqual(r, m)
    ensures DeepEqual(r, b) <==> DeepEqual(m, b)
  {
    DeepEqualSymmetric(r, m);
    if DeepEqual(r, b) { DeepEqualTransitive(m, r, b); }
    if DeepEqual(m, b) { DeepEqualTransitive(r, m, b); }
  }

  /** A whole replacement is printed as acting on the member under the empty key. */
  lemma WholeFails(a: Json, b: Json, vals: Values)
    requires !Containers(a, b) && !DeepEqual(a, b)
    ensures !Reached(StrictOps(a, Reported(Render(false, [], Edits(a, b)), vals)), b)
  {
    var root: seq<string> := [];
    assert root + root == root;
    var op := OpAt(false, [], Replace(b));
    assert [Edit([], Replace(b))][1..] == [];
    assert Render(false, [], Edits(a, b)) == [op] + Render(false, [], []);
    ReportedCons(op, Render(false, [], []), vals);
    StandardPointer([]);
    var now := OpNow(op, vals);
    assert Reported(Render(false, [], Edits(a, b)), vals) == [now];
    assert [now][1..] == [];
    assert StrictOps(a, [now]) == Then(StrictOp(a, now), []);
    assert StrictOp(a, now) == StrictLeaf(a, "", now.act);
  }

  /** An extra item of an array document is printed with an empty component before its index. */
  lemma ExtrasFail(a: Json, b: Json, vals: Values)
    requires a.Arr? && b.Arr? && |a.items| != |b.items|
    ensures StrictOps(a, Reported(Render(true, [], Edits(a, b)), vals)).None?
  {
    var s := Shared(a, b);
    var items := ItemEdits(a, b, 0);
    var extras := AddEdits(b.items, s) + RemoveEdits(|a.items|, s);
    assert Edits(a, b) == items + extras;
    RenderConcat(true, [], items, extras);
    var x, y := Render(true, [], items), Render(true, [], extras);
    ReportedConcat(x, y, vals);
    StrictOpsConcat(a, Reported(x, vals), Reported(y, vals));
    ItemsAddressed(a, b);
    AddressedRun(true, a, items, vals);
    ItemsStrict(a, b, 0, a.items, [], vals);
    var mid := StrictOps(a, Reported(x, vals)).value;
    FirstExtra(a, b, extras);
    ExtraFails(mid, extras, vals);
  }

  lemma ItemsAddressed(a: Json, b: Json)
    requires a.Arr? && b.Arr?
    ensures AllAddressed(true, ItemEdits(a, b, 0))
  {
    var es := ItemEdits(a, b, 0);
    forall n | 0 <= n < |es| ensures StandardParse(EditText(true, es[n].parts, es[n].act)) == Some(es[n].parts) {
      ItemsReplace(a, b, 0, n);
      StandardText(true, es[n].parts, es[n].act);
    }
  }

  lemma FirstExtra(a: Json, b: Json, extras: seq<Edit>)
    requires a.Arr? && b.Arr? && |a.items| != |b.items|
    requires extras == AddEdits(b.items, Shared(a, b)) + RemoveEdits(|a.items|, Shared(a, b))
    ensures extras != [] && |extras[0].parts| == 1 && !extras[0].act.Replace?
  {
    var s := Shared(a, b);
    if s < |b.items| {
      assert extras[0] == AddEdits(b.items, s)[0];
    } else {
      assert AddEdits(b.items, s) == [];
      assert extras[0] == RemoveEdits(|a.items|, s)[0];
    }
  }

  lemma ExtraFails(doc: Json, es: seq<Edit>, vals: Values)
    requires doc.Arr? && es != [] && |es[0].parts| == 1 && !es[0].act.Replace?
    ensures StrictOps(doc, Reported(Render(true, [], es), vals)).None?
  {
    var parts, act := es[0].parts, es[0].act;
    var op := OpAt(true, parts, act);
    assert [] + parts == parts;
    ReportedCons(op, Render(true, [], es[1..]), vals);
    StandardPointer(parts);
    assert StandardParse(op.path) == Some([""] + parts);
    assert ([""] + parts)[1..] == parts;
    assert StrictChild(doc, "").None?;
  }

  /** The patch that the walker writes is portable exactly for portable pairs. */
  lemma WrittenPatch(a: Json, b: Json)
    ensures Reached(StrictOps(a, Render(a.Arr? && b.Arr?, [], Edits(a, b))), b) <==> Portable(a, b)
  {
    var patch := Render(a.Arr? && b.Arr?, [], Edits(a, b));
    StandardRun(a, b, map[]);
    NoneChanged(patch);
    NothingLost(Edits(a, b));
  }

  lemma NoneChanged(patch: seq<Op>)
    ensures Reported(patch, map[]) == patch
  {
  }

  lemma NothingLost(es: seq<Edit>)
    ensures AllKept(es, [], map[])
  {
    forall n | 0 <= n < |es| ensures Kept(es[n].act, [] + es[n].parts, map[]) {
      if CarriesValue(es[n].act) { DeepEqualReflexive(es[n].act.value); }
    }
  }

  /** The patch that the service returns: for a clean pair it is the one written; otherwise the
      trial application may have changed a value in it. */
  lemma ReturnedPatch(a: Json, b: Json)
    ensures var patch := Reported(Render(a.Arr? && b.Arr?, [], Edits(a, b)), FinalValues(a, b));
            && (Reached(StrictOps(a, patch), b) <==> Portable(a, b) && AllKept(Edits(a, b), [], FinalValues(a, b)))
            && (Clean(a, b) ==> (Reached(StrictOps(a, patch), b) <==> Portable(a, b)))
  {
    StandardRun(a, b, FinalValues(a, b));
    if Clean(a, b) {
      PatchExact(a, b);
      ReportedUntouched(a.Arr? && b.Arr?, Edits(a, b), FinalValues(a, b));
      WrittenPatch(a, b);
    }
  }

  /** Two objects whose returned patch no library turns into the second. */
  lemma ReturnedPatchWrong(a: Json, b: Json)
    requires a == FirstDocument() && b == SecondDocument()
    ensures Portable(a, b)
    ensures !Reached(StrictOps(a, Reported(Render(false, [], Edits(a, b)), FinalValues(a, b))), b)
  {
    var vals := FinalValues(a, b);
    ExampleEdits(a, b);
    ExampleValues(a, b);
    StandardRun(a, b, vals);
    NotKept(Edits(a, b), ["", "x"], vals);
  }

  lemma NotKept(es: seq<Edit>, p: Place, vals: Values)
    requires es != [] && es[0] == Edit(p, Add(Obj(map[]))) && p in vals && vals[p] == Obj(map["y" := Int(2)])
    ensures !AllKept(es, [], vals)
  {
    assert [] + es[0].parts == p;
    assert "y" in vals[p].fields;
    assert !Kept(es[0].act, [] + es[0].parts, vals);
  }
}
