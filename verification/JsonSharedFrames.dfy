/** What the edits of one part leave alone when values are shared.

    That is: other parts of the document, other values, and the tie between a value and the part
    of the document that holds it. */
module JsonSharedFrames {
  import opened Text
  import opened Json
  import opened JsonPointer
  import opened JsonPatch
  import opened JsonPatchTheorem
  import opened JsonPatchConverse
  import opened JsonShared

  // ---- One member's edits ----

  function WithinNode(node: Node, k: string, e: Effect): Effect
    requires ChildNode(node, k).Some?
  {
    match e
    case Leaves(c, v) => Leaves(WithChildNode(node, k, c), v)
    case _ => e
  }

  lemma WithChildNodeTwice(node: Node, k: string, c: Node, d: Node)
    requires ChildNode(node, k).Some?
    ensures ChildNode(WithChildNode(node, k, c), k) == Some(c)
    ensures WithChildNode(WithChildNode(node, k, c), k, d) == WithChildNode(node, k, d)
    ensures Owner(WithChildNode(node, k, c)) == Owner(node)
  {
  }

  lemma WithSameChild(node: Node, k: string)
    requires ChildNode(node, k).Some?
    ensures WithChildNode(node, k, ChildNode(node, k).value) == node
  {
    var c := ChildNode(node, k).value;
    match node
    case Dict(f, _) => assert f[k := c] == f;
    case List(xs, _) => assert xs[ItemIndex(xs, k).value := c] == xs;
  }

  lemma HomeBelow(base: Place, k: string, parts: seq<string>)
    ensures base + ([k] + parts) == base + [k] + parts
  {
  }

  /** In a container of the document's own, edits under one component change that member and the
      values it shares, nothing else. */
  lemma {:induction false} NodeLocality(node: Node, k: string, es: seq<Edit>, base: Place, vals: Values)
    requires k != "" && ChildNode(node, k).Some? && Owner(node).None? && AllLocated(es)
    ensures RunNode(node, Prefixed(k, es), base, vals) ==
            WithinNode(node, k, RunNode(ChildNode(node, k).value, es, base + [k], vals))
    decreases |es|
  {
    var c := ChildNode(node, k).value;
    if es == [] {
      WithSameChild(node, k);
    } else {
      FirstNodeBelow(node, k, es, base, vals);
      var e := EditNode(c, DropEmpty(es[0].parts), es[0].act, base + [k] + es[0].parts, vals);
      if e.Leaves? {
        var next := WithChildNode(node, k, e.node);
        WithChildNodeTwice(node, k, e.node, e.node);
        NodeLocality(next, k, es[1..], base, e.vals);
        var r := RunNode(e.node, es[1..], base + [k], e.vals);
        if r.Leaves? { WithChildNodeTwice(node, k, e.node, r.node); }
      }
    }
  }

  lemma FirstNodeBelow(node: Node, k: string, es: seq<Edit>, base: Place, vals: Values)
    requires k != "" && ChildNode(node, k).Some? && Owner(node).None? && es != [] && Located(es[0])
    ensures var e := EditNode(ChildNode(node, k).value, DropEmpty(es[0].parts), es[0].act,
                              base + [k] + es[0].parts, vals);
            RunNode(node, Prefixed(k, es), base, vals) ==
            if e.Leaves? then RunNode(WithChildNode(node, k, e.node), Prefixed(k, es[1..]), base, e.vals) else e
  {
    var rest := DropEmpty(es[0].parts);
    PrefixedParts(k, es, 0);
    HomeBelow(base, k, es[0].parts);
    var p := Prefixed(k, es);
    assert p[1..] == Prefixed(k, es[1..]);
    assert DropEmpty(p[0].parts) == [k] + rest && ([k] + rest)[1..] == rest;
  }

  lemma {:induction false} RunNodeConcat(node: Node, x: seq<Edit>, y: seq<Edit>, base: Place, vals: Values)
    ensures var e := RunNode(node, x, base, vals);
            RunNode(node, x + y, base, vals) == if e.Leaves? then RunNode(e.node, y, base, e.vals) else e
    decreases |x|
  {
    if x == [] {
      assert x + y == y;
    } else {
      assert (x + y)[1..] == x[1..] + y;
      var e := StepNode(node, DropEmpty(x[0].parts), x[0].act, base + x[0].parts, vals);
      if e.Leaves? { RunNodeConcat(e.node, x[1..], y, base, e.vals); }
    }
  }

  // ---- A value and the part of the document that is it ----

  /** The node is the value that stands at p. */
  predicate Holds(n: Node, p: Place, vals: Values) {
    p in vals && vals[p] == Erase(n) && (n.Leaf? || Owner(n) == Some(p))
  }

  lemma NamedHolds(v: Json, p: Place, vals: Values)
    ensures Holds(Named(v, p), p, vals[p := v])
  {
    EraseNamed(v, p);
  }

  lemma EditHolds(n: Node, parts: seq<string>, act: Act, home: Place, p: Place, vals: Values)
    requires parts != [] && Holds(n, p, vals)
    ensures var e := EditNode(n, parts, act, home, vals); e.Leaves? ==> Holds(e.node, p, e.vals)
  {
  }

  /** Edits inside the value keep it so. */
  lemma {:induction false} RunHolds(n: Node, es: seq<Edit>, base: Place, p: Place, vals: Values)
    requires AllLocated(es) && Holds(n, p, vals)
    ensures var e := RunNode(n, es, base, vals); e.Leaves? ==> Holds(e.node, p, e.vals)
    decreases |es|
  {
    if es != [] {
      assert Located(es[0]);
      EditHolds(n, DropEmpty(es[0].parts), es[0].act, base + es[0].parts, p, vals);
      var e := EditNode(n, DropEmpty(es[0].parts), es[0].act, base + es[0].parts, vals);
      if e.Leaves? { RunHolds(e.node, es[1..], base, p, e.vals); }
    }
  }

  // ---- Values elsewhere ----

  /** No part of the node is a value that stands at or below p. */
  predicate Avoids(n: Node, p: Place)
    decreases n
  {
    && (Owner(n).Some? ==> !(p <= Owner(n).value))
    && match n
       case Leaf(_) => true
       case List(items, _) => forall i | 0 <= i < |items| :: Avoids(items[i], p)
       case Dict(fields, _) => forall k | k in fields :: Avoids(fields[k], p)
  }

  /** The values at and below p are the same. */
  ghost predicate SameBelow(vals: Values, vals': Values, p: Place) {
    forall q :: p <= q ==> (q in vals <==> q in vals') && (q in vals ==> vals[q] == vals'[q])
  }

  lemma {:induction false} FreshAvoids(v: Json, p: Place)
    ensures Avoids(Fresh(v), p)
  {
    match v
    case Arr(xs) => forall i | 0 <= i < |xs| { FreshAvoids(xs[i], p); }
    case Obj(f) => forall k | k in f { FreshAvoids(f[k], p); }
    case _ =>
  }

  lemma NamedAvoids(v: Json, home: Place, p: Place)
    requires !(p <= home)
    ensures Avoids(Named(v, home), p)
  {
    FreshAvoids(v, p);
  }

  lemma LeafAvoids(n: Node, tail: string, act: Act, home: Place, vals: Values, p: Place)
    requires Avoids(n, p) && !(p <= home)
    ensures var e := EditLeafNode(n, tail, act, home, vals);
            e.Leaves? ==> Avoids(e.node, p) && SameBelow(vals, e.vals, p)
  {
    if !act.Remove? {
      NamedAvoids(act.value, home, p);
      assert SameBelow(vals, vals[home := act.value], p);
    }
    match n
    case Leaf(_) =>
    case Dict(_, _) =>
    case List(xs, o) => LeafListAvoids(xs, o, tail, act, home, vals, p);
  }

  lemma LeafListAvoids(xs: seq<Node>, o: Option<Place>, tail: string, act: Act, home: Place, vals: Values, p: Place)
    requires Avoids(List(xs, o), p) && (!act.Remove? ==> Avoids(Named(act.value, home), p))
    ensures var e := EditLeafNode(List(xs, o), tail, act, home, vals);
            e.Leaves? ==> Avoids(e.node, p)
  {
    match act
    case Remove =>
      if ItemIndex(xs, tail).Some? {
        var i := ItemIndex(xs, tail).value;
        assert Avoids(List(xs[..i] + xs[i + 1..], o), p);
      }
    case Add(v) =>
      if PyInt(tail).Some? {
        var i := InsertIndex(xs, PyInt(tail).value);
        assert Avoids(List(xs[..i] + [Named(v, home)] + xs[i..], o), p);
      }
    case Replace(v) =>
      if ItemIndex(xs, tail).Some? {
        var i := ItemIndex(xs, tail).value;
        assert Avoids(List(xs[i := Named(v, home)], o), p);
      }
  }

  lemma ChildAvoids(n: Node, k: string, c: Node, p: Place)
    requires Avoids(n, p) && ChildNode(n, k).Some?
    ensures Avoids(ChildNode(n, k).value, p)
    ensures Avoids(c, p) ==> Avoids(WithChildNode(n, k, c), p)
  {
  }

  lemma {:induction false} EditAvoids(n: Node, parts: seq<string>, act: Act, home: Place, vals: Values, p: Place)
    requires parts != [] && Avoids(n, p) && !(p <= home)
    ensures var e := EditNode(n, parts, act, home, vals);
            e.Leaves? ==> Avoids(e.node, p) && SameBelow(vals, e.vals, p)
    decreases |parts|
  {
    if |parts| == 1 {
      LeafAvoids(n, parts[0], act, home, vals, p);
    } else if ChildNode(n, parts[0]).Some? {
      var c := ChildNode(n, parts[0]).value;
      ChildAvoids(n, parts[0], c, p);
      EditAvoids(c, parts[1..], act, home, vals, p);
      var e := EditNode(c, parts[1..], act, home, vals);
      if e.Leaves? { ChildAvoids(n, parts[0], e.node, p); }
    }
  }

  // ---- Edits of other members ----

  /** A place below another member. */
  lemma OtherHome(base: Place, k: string, e: Edit)
    requires k != "" && Located(e) && DropEmpty(e.parts)[0] != k
    ensures !(base + [k] <= base + e.parts)
  {
    BelowStarts(base, k, e.parts);
  }

  lemma BelowStarts(base: Place, k: string, parts: seq<string>)
    ensures base + [k] <= base + parts <==> parts != [] && parts[0] == k
  {
    var p, q := base + [k], base + parts;
    if parts != [] {
      assert q[|base|] == parts[0] && p[|base|] == k;
      if parts[0] == k { assert q[..|p|] == p; }
    }
  }

  ghost predicate OthersAvoid(f: map<string, Node>, k: string, p: Place) {
    forall o :: o in f && o != k ==> Avoids(f[o], p)
  }

  predicate SameNode(f: map<string, Node>, g: map<string, Node>, k: string) {
    (k in f <==> k in g) && (k in f ==> f[k] == g[k])
  }

  lemma KeyNodeFrame(f: map<string, Node>, parts: seq<string>, act: Act, home: Place, vals: Values, k: string, p: Place)
    requires parts != [] && parts[0] != k && OthersAvoid(f, k, p) && !(p <= home)
    ensures var e := EditNode(Dict(f, None), parts, act, home, vals);
            e.Leaves? ==> e.node.Dict? && e.node.owner.None? && SameNode(f, e.node.fields, k)
                          && OthersAvoid(e.node.fields, k, p) && SameBelow(vals, e.vals, p)
  {
    if |parts| == 1 {
      if !act.Remove? { NamedAvoids(act.value, home, p); }
    } else if parts[0] in f {
      EditAvoids(f[parts[0]], parts[1..], act, home, vals, p);
    }
  }

  lemma {:induction false} KeyNodeFrames(f: map<string, Node>, es: seq<Edit>, base: Place, vals: Values, k: string)
    requires k != "" && AllAvoid(es, k) && OthersAvoid(f, k, base + [k])
    ensures var e := RunNode(Dict(f, None), es, base, vals);
            e.Leaves? ==> e.node.Dict? && e.node.owner.None? && SameNode(f, e.node.fields, k)
                          && OthersAvoid(e.node.fields, k, base + [k]) && SameBelow(vals, e.vals, base + [k])
    decreases |es|
  {
    if es != [] {
      OtherHome(base, k, es[0]);
      var parts, home := DropEmpty(es[0].parts), base + es[0].parts;
      KeyNodeFrame(f, parts, es[0].act, home, vals, k, base + [k]);
      var e := EditNode(Dict(f, None), parts, es[0].act, home, vals);
      if e.Leaves? { KeyNodeFrames(e.node.fields, es[1..], base, e.vals, k); }
    }
  }

  ghost predicate LaterAvoid(xs: seq<Node>, j: nat, p: Place) {
    forall i :: j < i < |xs| ==> Avoids(xs[i], p)
  }

  lemma ItemNodeFrame(xs: seq<Node>, parts: seq<string>, i: nat, act: Act, home: Place, vals: Values, j: nat, p: Place)
    requires parts != [] && PyInt(parts[0]) == Some(i) && j < i && j < |xs| && LaterAvoid(xs, j, p) && !(p <= home)
    ensures var e := EditNode(List(xs, None), parts, act, home, vals);
            e.Leaves? ==> e.node.List? && e.node.owner.None? && j < |e.node.items| && e.node.items[j] == xs[j]
                          && LaterAvoid(e.node.items, j, p) && SameBelow(vals, e.vals, p)
  {
    if |parts| == 1 {
      if !act.Remove? { NamedAvoids(act.value, home, p); }
    } else if i < |xs| {
      EditAvoids(xs[i], parts[1..], act, home, vals, p);
    }
  }

  lemma {:induction false} ItemNodeFrames(xs: seq<Node>, es: seq<Edit>, base: Place, vals: Values, j: nat)
    requires AllAfter(es, j) && j < |xs| && LaterAvoid(xs, j, base + [Dec(j)])
    ensures var e := RunNode(List(xs, None), es, base, vals);
            e.Leaves? ==> e.node.List? && e.node.owner.None? && j < |e.node.items| && e.node.items[j] == xs[j]
                          && SameBelow(vals, e.vals, base + [Dec(j)])
    decreases |es|
  {
    if es != [] {
      assert After(es[0], j);
      var parts, home := DropEmpty(es[0].parts), base + es[0].parts;
      PyIntOfDec(j);
      OtherHome(base, Dec(j), es[0]);
      ItemNodeFrame(xs, parts, PyInt(parts[0]).value, es[0].act, home, vals, j, base + [Dec(j)]);
      var e := EditNode(List(xs, None), parts, es[0].act, home, vals);
      if e.Leaves? { ItemNodeFrames(e.node.items, es[1..], base, e.vals, j); }
    }
  }
}
