/** Two pairs of documents on which the patch endpoint does not keep its promise. */
module JsonExamples {
  import opened Text
  import opened Json
  import opened JsonPointer
  import opened JsonPatch
  import opened JsonPatchTheorem
  import opened JsonShared
  import opened JsonMutated
  import opened JsonPatchExact
  import opened JsonService

  /** The smallest failure: removing the member under the empty key removes nothing. */
  lemma EmptyKeyFails()
    ensures var a, b := Obj(map["" := Null]), Obj(map[]);
            !Transforms(RunShared(Fresh(a), Edits(a, b), map[]), a, b)
  {
    var a, b := Obj(map["" := Null]), Obj(map[]);
    assert "" in a.fields;
    assert !SameAt(a, b, "");
    PatchExact(a, b);
  }

  // ---- A patch that its own trial application changes ----

  lemma OneKey(k: string)
    ensures SortedKeys({k}) == [k]
  {
    assert {k} - {Least({k})} == {};
  }

  lemma TwoKeys(k: string, l: string)
    requires StrLess(k, l)
    ensures SortedKeys({k, l}) == [k, l]
  {
    StrLessIrreflexive(k);
    assert IsLeast(k, {k, l});
    LeastUnique({k, l}, k);
    assert {k, l} - {k} == {l};
    OneKey(l);
  }

  /** A lone member that is added, or a lone scalar member that is replaced. */
  lemma OneMemberEdits(f: map<string, Json>, k: string, v: Json)
    requires f.Keys <= {k} && (k in f ==> f[k].Int? && v.Int? && f[k].n != v.n)
    ensures Edits(Obj(f), Obj(map[k := v])) == [Edit([k], if k in f then Replace(v) else Add(v))]
  {
    var a, b := Obj(f), Obj(map[k := v]);
    assert f.Keys + map[k := v].Keys == {k};
    OneKey(k);
    assert k in b.fields;
    var act := if k in f then Replace(v) else Add(v);
    if k in f { assert !DeepEqual(f[k], v); }
    assert EditsAtKey(a, b, k) == [Edit([], act)];
    OnePrefixed(k, act);
    assert [k][1..] == [] && KeyEdits(a, b, []) == [];
    assert KeyEdits(a, b, [k]) == Prefixed(k, EditsAtKey(a, b, k)) + KeyEdits(a, b, [k][1..]);
    assert !DeepEqual(a, b);
  }

  function FirstDocument(): Json { Obj(map["" := Obj(map[]), "x" := Obj(map["y" := Int(1)])]) }

  function SecondDocument(): Json { Obj(map["" := Obj(map["x" := Obj(map[])]), "x" := Obj(map["y" := Int(2)])]) }

  lemma ExampleEdits(a: Json, b: Json)
    requires a == FirstDocument() && b == SecondDocument()
    ensures Edits(a, b) == [Edit(["", "x"], Add(Obj(map[]))), Edit(["x", "y"], Replace(Int(2)))]
  {
    var m, n := "", "x";
    UnderEmptyKey(a, b, m);
    UnderOtherKey(a, b, n);
    assert "x" in b.fields[m].fields && !DeepEqual(a.fields[m], b.fields[m]);
    TwoMemberEdits(a, b, m, n, Edit([m, "x"], Add(Obj(map[]))), Edit([n, "y"], Replace(Int(2))));
  }

  lemma TwoMemberEdits(a: Json, b: Json, k: string, l: string, e: Edit, f: Edit)
    requires a.Obj? && b.Obj? && !DeepEqual(a, b) && StrLess(k, l) && a.fields.Keys + b.fields.Keys == {k, l}
    requires Prefixed(k, EditsAtKey(a, b, k)) == [e] && Prefixed(l, EditsAtKey(a, b, l)) == [f]
    ensures Edits(a, b) == [e, f]
  {
    TwoKeys(k, l);
    assert KeyEdits(a, b, []) == [];
    assert [l][1..] == [] && [k, l][1..] == [l];
    assert KeyEdits(a, b, [l]) == [f];
  }

  lemma UnderEmptyKey(a: Json, b: Json, k: string)
    requires k == "" && a == FirstDocument() && b == SecondDocument()
    ensures Prefixed(k, EditsAtKey(a, b, k)) == [Edit([k, "x"], Add(Obj(map[])))]
  {
    OneMemberEdits(map[], "x", Obj(map[]));
    assert a.fields[k] == Obj(map[]) && b.fields[k] == Obj(map["x" := Obj(map[])]);
    assert [k] + ["x"] == [k, "x"];
  }

  lemma UnderOtherKey(a: Json, b: Json, k: string)
    requires k == "x" && a == FirstDocument() && b == SecondDocument()
    ensures Prefixed(k, EditsAtKey(a, b, k)) == [Edit([k, "y"], Replace(Int(2)))]
  {
    OneMemberEdits(map["y" := Int(1)], "y", Int(2));
    assert a.fields[k] == Obj(map["y" := Int(1)]) && b.fields[k] == Obj(map["y" := Int(2)]);
    assert [k] + ["y"] == [k, "y"];
  }

  /** The first operation is read as adding `x`, the second as writing into what was added: the
      value of the first operation, and with it the reported patch, is changed. */
  lemma PatchChanged(a: Json, b: Json)
    requires a == FirstDocument() && b == SecondDocument()
    ensures var patch := Render(false, [], Edits(a, b));
            && Reported(patch, FinalValues(a, b)) != patch
            && Reported(patch, FinalValues(a, b))[0].act == Add(Obj(map["y" := Int(2)]))
  {
    ExampleEdits(a, b);
    ExampleValues(a, b);
    FirstChanged(Edits(a, b), ["", "x"], FinalValues(a, b));
  }

  lemma ExampleValues(a: Json, b: Json)
    requires a == FirstDocument() && b == SecondDocument()
    ensures var vals := FinalValues(a, b); ["", "x"] in vals && vals[["", "x"]] == Obj(map["y" := Int(2)])
  {
    ExampleEdits(a, b);
    ExampleRun(Fresh(a), Edits(a, b), ["", "x"], ["x", "y"]);
  }

  lemma FirstChanged(es: seq<Edit>, p: Place, vals: Values)
    requires es != [] && es[0] == Edit(p, Add(Obj(map[]))) && p in vals && vals[p] == Obj(map["y" := Int(2)])
    ensures var patch := Render(false, [], es);
            Reported(patch, vals) != patch && Reported(patch, vals)[0].act == Add(vals[p])
  {
    var patch := Render(false, [], es);
    assert [] + es[0].parts == p;
    assert patch[0] == OpAt(false, p, Add(Obj(map[])));
    assert "y" in vals[p].fields;
  }

  lemma ExampleRun(n: Node, es: seq<Edit>, p: Place, q: Place)
    requires n.Dict? && n.owner.None? && p == ["", "x"] && q == ["x", "y"]
    requires es == [Edit(p, Add(Obj(map[]))), Edit(q, Replace(Int(2)))]
    ensures var v := RunShared(n, es, map[]).1; p in v && v[p] == Obj(map["y" := Int(2)])
  {
    var empty := Obj(map[]);
    assert p[1..] == ["x"] && ["x"][1..] == [] && q[1..] == ["y"] && ["y"][1..] == [];
    assert DropEmpty(["x"]) == ["x"] && DropEmpty(p) == ["x"] && DropEmpty(["y"]) == ["y"] && DropEmpty(q) == q;
    var x := Named(empty, p);
    assert x == Dict(map[], Some(p)) by { assert Fresh(empty).fields == map[]; }
    var n1, v1 := Dict(n.fields["x" := x], None), map[p := empty];
    assert ApplyNode(n, ["x"], Add(empty), p, map[]) == (Some(n1), v1);
    var y := Dict(map["y" := Leaf(Int(2))], Some(p));
    assert Erase(y).fields == map["y" := Int(2)];
    var v2 := v1[q := Int(2)][p := Erase(y)];
    assert EditNode(x, ["y"], Replace(Int(2)), q, v1) == Leaves(y, v2);
    var n2 := WithChildNode(n1, "x", y);
    assert EditNode(n1, q, Replace(Int(2)), q, v1) == Leaves(n2, v2);
    assert es[1..] == [es[1]] && [es[1]][1..] == [];
    assert RunShared(n, es, map[]) == RunShared(n1, [es[1]], v1);
    assert RunShared(n1, [es[1]], v1) == RunShared(n2, [], v2) == (Some(n2), v2);
    assert v2[p] == Erase(y);
  }
}
