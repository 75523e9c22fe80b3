/** The patch service: the recursive walker that appends printed operations to a shared list,
    and the check that the patch transforms the first document into the second.

    The walker is proved against the edits of the patch module, the check against the theorem. */
module JsonService {
  import opened Text
  import opened Json
  import opened JsonPointer
  import opened JsonPatch
  import opened JsonPatchTheorem
  import opened JsonPatchConverse
  import opened JsonShared
  import opened JsonMutated
  import opened JsonPatchExact
  import opened JsonLimits

  const MAX_DEPTH: nat := 200
  const MAX_JSON_NODES: nat := 100_000

  datatype WalkError = NestedTooDeeply | TooManyOperations

  // ---- Printed operations ----

  /** The text of an edit's location. Items appended to or popped from an array document have
      two slashes, because the root's own pointer is a single slash. */
  function EditText(arrayRoot: bool, full: seq<string>, act: Act): string {
    if arrayRoot && |full| == 1 && !act.Replace? then "/" + Pointer(full) else Pointer(full)
  }

  /** The operation for an edit at a location, which is also where its value stands. */
  function OpAt(arrayRoot: bool, full: seq<string>, act: Act): Op { Op(EditText(arrayRoot, full, act), act, full) }

  function Render(arrayRoot: bool, path: seq<string>, es: seq<Edit>): seq<Op> {
    if es == [] then []
    else [OpAt(arrayRoot, path + es[0].parts, es[0].act)] + Render(arrayRoot, path, es[1..])
  }

  lemma {:induction false} RenderConcat(arrayRoot: bool, path: seq<string>, x: seq<Edit>, y: seq<Edit>)
    ensures Render(arrayRoot, path, x + y) == Render(arrayRoot, path, x) + Render(arrayRoot, path, y)
    decreases |x|
  {
    if x == [] {
      assert x + y == y;
    } else {
      assert (x + y)[1..] == x[1..] + y;
      RenderConcat(arrayRoot, path, x[1..], y);
    }
  }

  lemma {:induction false} RenderPrefixed(arrayRoot: bool, path: seq<string>, k: string, es: seq<Edit>)
    ensures Render(arrayRoot, path, Prefixed(k, es)) == Render(arrayRoot, path + [k], es)
    decreases |es|
  {
    if es != [] {
      assert path + ([k] + es[0].parts) == path + [k] + es[0].parts;
      assert Prefixed(k, es)[1..] == Prefixed(k, es[1..]);
      RenderPrefixed(arrayRoot, path, k, es[1..]);
    }
  }

  lemma {:induction false} RenderLength(arrayRoot: bool, path: seq<string>, es: seq<Edit>)
    ensures |Render(arrayRoot, path, es)| == |es|
    decreases |es|
  {
    if es != [] { RenderLength(arrayRoot, path, es[1..]); }
  }

  /** Printed text reads back as the location without its empty components. */
  lemma ReadText(arrayRoot: bool, full: seq<string>, act: Act)
    ensures Parse(EditText(arrayRoot, full, act)) == DropEmpty(full)
  {
    ParsePointer(full);
    SlashedPointer(full);
  }

  /** A second leading slash only adds an empty piece, which the reader drops. */
  lemma SlashedPointer(full: seq<string>)
    ensures Parse("/" + Pointer(full)) == DropEmpty(full)
  {
    var body := Join(EscapeAll(full), '/');
    var text := "/" + Pointer(full);
    assert text[1..] == "" + ['/'] + body;
    SplitConcat("", body, '/');
    ReadPiecesConcat([""], Split(body, '/'));
    assert ReadPieces([""]) == [];
    PointerPieces(full);
  }

  /** Running the printed operations is running the edits. */
  lemma {:induction false} RunRendered(arrayRoot: bool, node: Node, es: seq<Edit>, vals: Values)
    ensures RunOps(node, Render(arrayRoot, [], es), vals) == RunShared(node, es, vals)
    decreases |es|
  {
    if es != [] {
      var e := es[0];
      assert [] + e.parts == e.parts;
      ReadText(arrayRoot, e.parts, e.act);
      var r := ApplyNode(node, DropEmpty(e.parts), e.act, e.parts, vals);
      if r.0.Some? { RunRendered(arrayRoot, r.0.value, es[1..], r.1); }
    }
  }

  lemma {:induction false} JoinSnoc(parts: seq<string>, last: string, c: char)
    requires parts != []
    ensures Join(parts + [last], c) == Join(parts, c) + [c] + last
  {
    assert (parts + [last])[1..] == parts[1..] + [last];
    if |parts| > 1 { JoinSnoc(parts[1..], last, c); }
  }

  lemma {:induction false} PlainEscape(s: string, c: char, rep: string)
    requires c !in s
    ensures ReplaceChar(s, c, rep) == s
  {
    if s != "" {
      PlainEscape(s[1..], c, rep);
      assert [s[0]] + s[1..] == s;
    }
  }

  lemma EscapeAllSnoc(parts: seq<string>, last: string)
    ensures EscapeAll(parts + [last]) == EscapeAll(parts) + [Escape(last)]
  {
  }

  lemma DecEscape(i: nat)
    ensures Escape(Dec(i)) == Dec(i)
  {
    var d := Dec(i);
    forall c | c in d ensures c != '/' && c != '~' { assert IsDigit(c); }
    PlainEscape(d, '~', "~0");
    PlainEscape(d, '/', "~1");
  }

  /** The walker's text for an extra item is the edit's text. */
  lemma ItemText(arrayRoot: bool, path: seq<string>, i: nat, act: Act)
    requires path == [] ==> arrayRoot
    requires !act.Replace?
    ensures ItemPointer(path, i) == EditText(arrayRoot, path + [Dec(i)], act)
  {
    var d := Dec(i);
    DecEscape(i);
    EscapeAllSnoc(path, d);
    if path != [] {
      JoinSnoc(EscapeAll(path), d, '/');
    } else {
      assert EscapeAll([d]) == [d];
      assert [] + [d] == [d];
    }
  }

  // ---- The walker ----

  /** A list shared by all levels of the recursion. */
  class OpList {
    var entries: seq<Op>

    constructor ()
      ensures entries == []
    {
      entries := [];
    }

    method Append(op: Op)
      modifies this
      ensures entries == old(entries) + [op]
    {
      entries := entries + [op];
    }
  }

  ghost predicate Appended(before: seq<Op>, after: seq<Op>, arrayRoot: bool, path: seq<string>, es: seq<Edit>) {
    after == before + Render(arrayRoot, path, es)
  }

  /** Append the operations that turn a into b. The walk stops with an error only when the
      documents are nested too deeply, or when the list is already full on entering a pair. */
  method PatchWalk(a: Json, b: Json, path: seq<string>, out: OpList, depth: nat, ghost arrayRoot: bool)
    returns (err: Option<WalkError>)
    requires path == [] ==> arrayRoot == (a.Arr? && b.Arr?)
    modifies out
    ensures err.None? ==> Appended(old(out.entries), out.entries, arrayRoot, path, Edits(a, b))
    ensures depth > MAX_DEPTH ==> err == Some(NestedTooDeeply)
    ensures depth <= MAX_DEPTH && |old(out.entries)| >= MAX_JSON_NODES ==> err == Some(TooManyOperations)
    ensures err == Some(NestedTooDeeply) ==> depth + Height(a) > MAX_DEPTH
    ensures err == Some(TooManyOperations) ==> |old(out.entries)| + |Edits(a, b)| >= MAX_JSON_NODES
    decreases a, 1
  {
    if depth > MAX_DEPTH { return Some(NestedTooDeeply); }
    if |out.entries| >= MAX_JSON_NODES { return Some(TooManyOperations); }
    if DeepEqual(a, b) {
      assert Render(arrayRoot, path, []) == [];
      return None;
    }
    if a.Obj? && b.Obj? {
      err := WalkKeys(a, b, path, out, depth, arrayRoot);
    } else if a.Arr? && b.Arr? {
      err := WalkItems(a, b, path, out, depth, arrayRoot);
    } else {
      assert path + [] == path;
      out.Append(Op(Pointer(path), Replace(b), path));
      assert [Edit([], Replace(b))][1..] == [];
      return None;
    }
  }

  lemma ChildHeight(x: Json, k: string)
    requires x.Obj? && k in x.fields
    ensures 1 + Height(x.fields[k]) <= Height(x)
  {
    MemberLower(x, k);
  }

  /** What is still to be appended, seen at one key: that key's operations, then the rest. */
  lemma KeyStep(arrayRoot: bool, path: seq<string>, a: Json, b: Json, ks: seq<string>)
    requires a.Obj? && b.Obj? && ks != []
    ensures Render(arrayRoot, path, KeyEdits(a, b, ks)) ==
            Render(arrayRoot, path + [ks[0]], EditsAtKey(a, b, ks[0])) +
            Render(arrayRoot, path, KeyEdits(a, b, ks[1..]))
    ensures |KeyEdits(a, b, ks)| >= |EditsAtKey(a, b, ks[0])|
  {
    var es := EditsAtKey(a, b, ks[0]);
    RenderPrefixed(arrayRoot, path, ks[0], es);
    RenderConcat(arrayRoot, path, Prefixed(ks[0], es), KeyEdits(a, b, ks[1..]));
  }

  ghost function KeyWalk(a: Json, b: Json): seq<Edit>
    requires a.Obj? && b.Obj?
  {
    KeyEdits(a, b, SortedKeys(a.fields.Keys + b.fields.Keys))
  }

  method WalkKeys(a: Json, b: Json, path: seq<string>, out: OpList, depth: nat, ghost arrayRoot: bool)
    returns (err: Option<WalkError>)
    requires a.Obj? && b.Obj?
    requires path == [] ==> !arrayRoot
    modifies out
    ensures err.None? ==> Appended(old(out.entries), out.entries, arrayRoot, path, KeyWalk(a, b))
    ensures err == Some(NestedTooDeeply) ==> depth + Height(a) > MAX_DEPTH
    ensures err == Some(TooManyOperations) ==> |old(out.entries)| + |KeyWalk(a, b)| >= MAX_JSON_NODES
    decreases a, 0
  {
    var ks := Sort(a.fields.Keys + b.fields.Keys);
    SortedKeysSorted(a.fields.Keys + b.fields.Keys);
    ghost var goal := out.entries + Render(arrayRoot, path, KeyEdits(a, b, ks));
    RenderLength(arrayRoot, path, KeyEdits(a, b, ks));
    for i := 0 to |ks|
      invariant out.entries + Render(arrayRoot, path, KeyEdits(a, b, ks[i..])) == goal
    {
      assert ks[i] in ks && ks[i..][1..] == ks[i + 1..];
      RenderLength(arrayRoot, path, KeyEdits(a, b, ks[i..]));
      err := WalkKey(a, b, ks[i..], path, out, depth, arrayRoot);
      if err.Some? { return; }
    }
    assert goal == out.entries + [];
    return None;
  }

  /** The first pending key: its operations move from the pending ones to the list. */
  method WalkKey(a: Json, b: Json, ks: seq<string>, path: seq<string>, out: OpList, depth: nat, ghost arrayRoot: bool)
    returns (err: Option<WalkError>)
    requires a.Obj? && b.Obj? && ks != [] && (ks[0] in a.fields || ks[0] in b.fields)
    requires path == [] ==> !arrayRoot
    modifies out
    ensures err.None? ==>
              out.entries + Render(arrayRoot, path, KeyEdits(a, b, ks[1..])) ==
              old(out.entries) + Render(arrayRoot, path, KeyEdits(a, b, ks))
    ensures err == Some(NestedTooDeeply) ==> depth + Height(a) > MAX_DEPTH
    ensures err == Some(TooManyOperations) ==> |old(out.entries)| + |KeyEdits(a, b, ks)| >= MAX_JSON_NODES
    decreases a, 0, 0
  {
    var key := ks[0];
    KeyStep(arrayRoot, path, a, b, ks);
    ghost var before := out.entries;
    ghost var here := Render(arrayRoot, path + [key], EditsAtKey(a, b, key));
    ghost var rest := Render(arrayRoot, path, KeyEdits(a, b, ks[1..]));
    assert before + (here + rest) == (before + here) + rest;
    if key !in b.fields {
      OneRendered(arrayRoot, path + [key], Remove);
      out.Append(Op(Pointer(path + [key]), Remove, path + [key]));
    } else if key !in a.fields {
      OneRendered(arrayRoot, path + [key], Add(b.fields[key]));
      out.Append(Op(Pointer(path + [key]), Add(b.fields[key]), path + [key]));
    } else {
      ChildHeight(a, key);
      err := PatchWalk(a.fields[key], b.fields[key], path + [key], out, depth + 1, arrayRoot);
      return;
    }
    return None;
  }

  lemma OneRendered(arrayRoot: bool, path: seq<string>, act: Act)
    requires path != [] && (|path| == 1 ==> !arrayRoot)
    ensures Render(arrayRoot, path, [Edit([], act)]) == [Op(Pointer(path), act, path)]
  {
    assert path + [] == path;
    assert [Edit([], act)][1..] == [];
  }

  lemma ItemStep(arrayRoot: bool, path: seq<string>, a: Json, b: Json, i: nat)
    requires a.Arr? && b.Arr? && i < Shared(a, b)
    ensures Render(arrayRoot, path, ArrayTail(a, b, i)) ==
            Render(arrayRoot, path + [Dec(i)], Edits(a.items[i], b.items[i])) +
            Render(arrayRoot, path, ArrayTail(a, b, i + 1))
    ensures |ArrayTail(a, b, i)| >= |Edits(a.items[i], b.items[i])|
  {
    var es := Edits(a.items[i], b.items[i]);
    ArrayTailStep(a, b, i);
    RenderPrefixed(arrayRoot, path, Dec(i), es);
    RenderConcat(arrayRoot, path, Prefixed(Dec(i), es), ArrayTail(a, b, i + 1));
  }

  lemma ExtrasStep(arrayRoot: bool, path: seq<string>, a: Json, b: Json)
    requires a.Arr? && b.Arr?
    ensures Render(arrayRoot, path, ArrayTail(a, b, Shared(a, b))) ==
            Render(arrayRoot, path, AddEdits(b.items, Shared(a, b))) +
            Render(arrayRoot, path, RemoveEdits(|a.items|, Shared(a, b)))
  {
    var s := Shared(a, b);
    assert ItemEdits(a, b, s) == [];
    assert ArrayTail(a, b, s) == AddEdits(b.items, s) + RemoveEdits(|a.items|, s);
    RenderConcat(arrayRoot, path, AddEdits(b.items, s), RemoveEdits(|a.items|, s));
  }

  method WalkItems(a: Json, b: Json, path: seq<string>, out: OpList, depth: nat, ghost arrayRoot: bool)
    returns (err: Option<WalkError>)
    requires a.Arr? && b.Arr?
    requires path == [] ==> arrayRoot
    modifies out
    ensures err.None? ==> Appended(old(out.entries), out.entries, arrayRoot, path, ArrayTail(a, b, 0))
    ensures err == Some(NestedTooDeeply) ==> depth + Height(a) > MAX_DEPTH
    ensures err == Some(TooManyOperations) ==> |old(out.entries)| + |ArrayTail(a, b, 0)| >= MAX_JSON_NODES
    decreases a, 0
  {
    var shared := if |a.items| < |b.items| then |a.items| else |b.items|;
    ghost var goal := out.entries + Render(arrayRoot, path, ArrayTail(a, b, 0));
    RenderLength(arrayRoot, path, ArrayTail(a, b, 0));
    for i := 0 to shared
      invariant out.entries + Render(arrayRoot, path, ArrayTail(a, b, i)) == goal
    {
      RenderLength(arrayRoot, path, ArrayTail(a, b, i));
      err := WalkItem(a, b, i, path, out, depth, arrayRoot);
      if err.Some? { return; }
    }
    WalkExtras(a, b, path, out, arrayRoot);
    return None;
  }

  method WalkItem(a: Json, b: Json, i: nat, path: seq<string>, out: OpList, depth: nat, ghost arrayRoot: bool)
    returns (err: Option<WalkError>)
    requires a.Arr? && b.Arr? && i < Shared(a, b)
    modifies out
    ensures err.None? ==>
              out.entries + Render(arrayRoot, path, ArrayTail(a, b, i + 1)) ==
              old(out.entries) + Render(arrayRoot, path, ArrayTail(a, b, i))
    ensures err == Some(NestedTooDeeply) ==> depth + Height(a) > MAX_DEPTH
    ensures err == Some(TooManyOperations) ==> |old(out.entries)| + |ArrayTail(a, b, i)| >= MAX_JSON_NODES
    decreases a, 0, 0
  {
    ghost var before := out.entries;
    ghost var here := Render(arrayRoot, path + [Dec(i)], Edits(a.items[i], b.items[i]));
    ghost var rest := Render(arrayRoot, path, ArrayTail(a, b, i + 1));
    assert before + (here + rest) == (before + here) + rest;
    ItemStep(arrayRoot, path, a, b, i);
    ItemLower(a, i);
    err := PatchWalk(a.items[i], b.items[i], path + [Dec(i)], out, depth + 1, arrayRoot);
  }

  method WalkExtras(a: Json, b: Json, path: seq<string>, out: OpList, ghost arrayRoot: bool)
    requires a.Arr? && b.Arr?
    requires path == [] ==> arrayRoot
    modifies out
    ensures out.entries == old(out.entries) + Render(arrayRoot, path, ArrayTail(a, b, Shared(a, b)))
  {
    var shared := if |a.items| < |b.items| then |a.items| else |b.items|;
    ghost var adds := Render(arrayRoot, path, AddEdits(b.items, shared));
    ghost var removes := Render(arrayRoot, path, RemoveEdits(|a.items|, shared));
    InTurn(out.entries, adds, removes);
    ExtrasStep(arrayRoot, path, a, b);
    AppendAdds(b.items, path, out, shared, arrayRoot);
    AppendRemoves(|a.items|, path, out, shared, arrayRoot);
  }

  lemma InTurn(x: seq<Op>, y: seq<Op>, z: seq<Op>)
    ensures x + (y + z) == x + y + z
  {
  }

  /** Extra items of the second array, upwards from the shared length. */
  method AppendAdds(ys: seq<Json>, path: seq<string>, out: OpList, shared: nat, ghost arrayRoot: bool)
    requires path == [] ==> arrayRoot
    requires shared <= |ys|
    modifies out
    ensures out.entries == old(out.entries) + Render(arrayRoot, path, AddEdits(ys, shared))
  {
    ghost var goal := out.entries + Render(arrayRoot, path, AddEdits(ys, shared));
    for i := shared to |ys|
      invariant out.entries + Render(arrayRoot, path, AddEdits(ys, i)) == goal
    {
      RenderAdd(arrayRoot, path, ys, i, out.entries);
      out.Append(Op(ItemPointer(path, i), Add(ys[i]), path + [Dec(i)]));
    }
    assert goal == out.entries + [];
  }

  lemma RenderAdd(arrayRoot: bool, path: seq<string>, ys: seq<Json>, i: nat, done: seq<Op>)
    requires path == [] ==> arrayRoot
    requires i < |ys|
    ensures done + Render(arrayRoot, path, AddEdits(ys, i)) ==
            done + [Op(ItemPointer(path, i), Add(ys[i]), path + [Dec(i)])] +
            Render(arrayRoot, path, AddEdits(ys, i + 1))
  {
    ItemText(arrayRoot, path, i, Add(ys[i]));
    assert AddEdits(ys, i)[1..] == AddEdits(ys, i + 1);
  }

  lemma RenderRemove(arrayRoot: bool, path: seq<string>, n: nat, shared: nat, done: seq<Op>)
    requires path == [] ==> arrayRoot
    requires shared <= n
    ensures done + Render(arrayRoot, path, RemoveEdits(n + 1, shared)) ==
            done + [Op(ItemPointer(path, n), Remove, path + [Dec(n)])] + Render(arrayRoot, path, RemoveEdits(n, shared))
  {
    ItemText(arrayRoot, path, n, Remove);
    assert RemoveEdits(n + 1, shared)[1..] == RemoveEdits(n, shared);
  }

  /** Extra items of the first array, downwards from its end. */
  method AppendRemoves(count: nat, path: seq<string>, out: OpList, shared: nat, ghost arrayRoot: bool)
    requires path == [] ==> arrayRoot
    requires shared <= count
    modifies out
    ensures out.entries == old(out.entries) + Render(arrayRoot, path, RemoveEdits(count, shared))
  {
    ghost var goal := out.entries + Render(arrayRoot, path, RemoveEdits(count, shared));
    for n := count downto shared
      invariant out.entries + Render(arrayRoot, path, RemoveEdits(n, shared)) == goal
    {
      RenderRemove(arrayRoot, path, n, shared, out.entries);
      out.Append(Op(ItemPointer(path, n), Remove, path + [Dec(n)]));
    }
    assert goal == out.entries + [];
  }

  // ---- The service call ----

  datatype PatchError = Load(limit: LimitError) | Walk(error: WalkError)

  /** An operation with its value as it is now. */
  function OpNow(op: Op, vals: Values): Op {
    match op.act
    case Remove => op
    case Add(v) => op.(act := Add(Now(vals, op.home, v)))
    case Replace(v) => op.(act := Replace(Now(vals, op.home, v)))
  }

  /** The patch as it is reported: after the trial application, whose document shares its values. */
  function Reported(patch: seq<Op>, vals: Values): (r: seq<Op>)
    ensures |r| == |patch| && forall i :: 0 <= i < |r| ==> r[i] == OpNow(patch[i], vals)
  {
    if patch == [] then [] else [OpNow(patch[0], vals)] + Reported(patch[1..], vals)
  }

  lemma {:induction false} ReportedUntouched(arrayRoot: bool, es: seq<Edit>, vals: Values)
    requires Untouched(vals, es)
    ensures Reported(Render(arrayRoot, [], es), vals) == Render(arrayRoot, [], es)
    decreases |es|
  {
    if es != [] {
      var op := OpAt(arrayRoot, es[0].parts, es[0].act);
      assert [] + es[0].parts == es[0].parts;
      assert Render(arrayRoot, [], es) == [op] + Render(arrayRoot, [], es[1..]);
      UntouchedTail(es, vals);
      ReportedUntouched(arrayRoot, es[1..], vals);
      ReportedCons(op, Render(arrayRoot, [], es[1..]), vals);
    }
  }

  lemma UntouchedTail(es: seq<Edit>, vals: Values)
    requires es != [] && Untouched(vals, es)
    ensures Untouched(vals, es[1..])
    ensures CarriesValue(es[0].act) ==> Now(vals, es[0].parts, es[0].act.value) == es[0].act.value
  {
    forall n | 0 <= n < |es[1..]| && CarriesValue(es[1..][n].act)
      ensures Now(vals, es[1..][n].parts, es[1..][n].act.value) == es[1..][n].act.value
    {
      assert es[1..][n] == es[n + 1];
    }
  }

  lemma ReportedCons(op: Op, rest: seq<Op>, vals: Values)
    ensures Reported([op] + rest, vals) == [OpNow(op, vals)] + Reported(rest, vals)
  {
    assert ([op] + rest)[1..] == rest;
  }

  /** What the values of a pair's edits are after the trial application. */
  ghost function FinalValues(a: Json, b: Json): Values { RunShared(Fresh(a), Edits(a, b), map[]).1 }

  /** Both documents pass the structural check, so the walker's own depth guard stays silent. The
      report carries the walker's operations with the values the trial application left in them,
      and says that the patch transforms a into b exactly when the pair is clean; for a clean pair
      the reported patch is the walker's own. */
  method ComparePatch(a: Json, b: Json) returns (r: Result<(seq<Op>, bool), PatchError>)
    ensures r.Success? ==>
              && r.value.0 == Reported(Render(a.Arr? && b.Arr?, [], Edits(a, b)), FinalValues(a, b))
              && (r.value.1 <==> Clean(a, b))
              && (Clean(a, b) ==> r.value.0 == Render(a.Arr? && b.Arr?, [], Edits(a, b)))
              && (r.value.0 == [] <==> Canonical(a) == Canonical(b))
    ensures r.Failure? && r.error.Walk? ==>
              r.error.error == TooManyOperations && |Edits(a, b)| >= MAX_JSON_NODES
    ensures r.Failure? && r.error.Load? <==>
              Height(a) > MAX_DEPTH || Nodes(a) > MAX_JSON_NODES || Height(b) > MAX_DEPTH || Nodes(b) > MAX_JSON_NODES
  {
    var bad := ValidateJsonStructure(a, MAX_DEPTH, MAX_JSON_NODES);
    if bad.Some? { return Failure(Load(bad.value)); }
    bad := ValidateJsonStructure(b, MAX_DEPTH, MAX_JSON_NODES);
    if bad.Some? { return Failure(Load(bad.value)); }
    var out := new OpList();
    ghost var arrayRoot := a.Arr? && b.Arr?;
    var err := PatchWalk(a, b, [], out, 0, arrayRoot);
    if err.Some? { return Failure(Walk(err.value)); }
    assert out.entries == Render(arrayRoot, [], Edits(a, b));
    var reported, transformable := TrialApply(a, b, out.entries, arrayRoot);
    return Success((reported, transformable));
  }

  /** The walker writes nothing if and only if the documents are the same up to what equality ignores. */
  lemma NothingToDo(a: Json, b: Json, arrayRoot: bool)
    ensures Render(arrayRoot, [], Edits(a, b)) == [] <==> Canonical(a) == Canonical(b)
  {
    RenderLength(arrayRoot, [], Edits(a, b));
    EqualMeans(a, b);
    UnequalHasEdits(a, b);
  }

  /** Apply the patch to the first document and compare with what the second has become. */
  method TrialApply(a: Json, b: Json, patch: seq<Op>, ghost arrayRoot: bool)
    returns (reported: seq<Op>, transformable: bool)
    requires patch == Render(arrayRoot, [], Edits(a, b))
    ensures reported == Reported(patch, FinalValues(a, b)) && (transformable <==> Clean(a, b))
    ensures Clean(a, b) ==> reported == patch
    ensures reported == [] <==> Canonical(a) == Canonical(b)
  {
    NothingToDo(a, b, arrayRoot);
    var applied, vals := ApplyPatch(a, patch);
    RunRendered(arrayRoot, Fresh(a), Edits(a, b), map[]);
    PatchExact(a, b);
    transformable := applied.Some? && DeepEqual(Erase(applied.value), Mutated(a, b, [], vals));
    reported := Reported(patch, vals);
    if Clean(a, b) { ReportedUntouched(arrayRoot, Edits(a, b), vals); }
  }
}
