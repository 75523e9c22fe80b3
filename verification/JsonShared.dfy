/** Applying a patch in memory. The values of operations are the second document's own objects:
    once put into the document they are changed in place with it, and so are the patch and the
    second document. */
module JsonShared {
  import opened Text
  import opened Json
  import opened JsonPointer
  import opened JsonPatch
  import opened JsonPatchTheorem

  /** The identity of an operation's value: its place in the second document. */
  type Place = seq<string>

  /** What the operations' values have become, by place. */
  type Values = map<Place, Json>

  type Scalar = v: Json | !v.Arr? && !v.Obj? witness Null

  /** The document in memory: a container that an operation put there knows its place. */
  datatype Node =
    | Leaf(v: Scalar)
    | List(items: seq<Node>, owner: Option<Place>)
    | Dict(fields: map<string, Node>, owner: Option<Place>)

  /** A copy that shares nothing. */
  function Fresh(v: Json): Node {
    match v
    case Arr(xs) => List(seq(|xs|, i requires 0 <= i < |xs| => Fresh(xs[i])), None)
    case Obj(f) => Dict(map k | k in f :: Fresh(f[k]), None)
    case _ => Leaf(v)
  }

  /** The value put in by an operation: only its own container is entered under its place. */
  function Named(v: Json, p: Place): Node {
    match Fresh(v)
    case List(items, _) => List(items, Some(p))
    case Dict(fields, _) => Dict(fields, Some(p))
    case n => n
  }

  function Erase(n: Node): Json {
    match n
    case Leaf(v) => v
    case List(items, _) => Arr(seq(|items|, i requires 0 <= i < |items| => Erase(items[i])))
    case Dict(fields, _) => Obj(map k | k in fields :: Erase(fields[k]))
  }

  lemma {:induction false} EraseFresh(v: Json)
    ensures Erase(Fresh(v)) == v
  {
    match v
    case Arr(xs) =>
      forall i | 0 <= i < |xs| { EraseFresh(xs[i]); }
      assert Erase(Fresh(v)).items == xs;
    case Obj(f) =>
      forall k | k in f { EraseFresh(f[k]); }
      assert Erase(Fresh(v)).fields == f;
    case _ =>
  }

  lemma EraseNamed(v: Json, p: Place)
    ensures Erase(Named(v, p)) == v
  {
    EraseFresh(v);
  }

  function Owner(n: Node): Option<Place> { if n.Leaf? then None else n.owner }

  /** A container that changed has changed for everyone who shares it. */
  function Record(n: Node, vals: Values): Values {
    match Owner(n)
    case None => vals
    case Some(p) => vals[p := Erase(n)]
  }

  function ChildNode(node: Node, part: string): Option<Node> {
    match node
    case Dict(f, _) => if part in f then Some(f[part]) else None
    case List(xs, _) => (match ItemIndex(xs, part) case None => None case Some(i) => Some(xs[i]))
    case _ => None
  }

  function WithChildNode(node: Node, part: string, c: Node): Node
    requires ChildNode(node, part).Some?
  {
    match node
    case Dict(f, o) => Dict(f[part := c], o)
    case List(xs, o) => List(xs[ItemIndex(xs, part).value := c], o)
  }

  /** What an operation does: it raises, asks for the whole document, or leaves a document and
      the values as they now are. */
  datatype Effect = Fails | TakesOver | Leaves(node: Node, vals: Values)

  function Changed(n: Node, vals: Values): Effect { Leaves(n, Record(n, vals)) }

  /** Mutating the parent at its last component, with the value that stands at `home`. */
  function EditLeafNode(parent: Node, tail: string, act: Act, home: Place, vals: Values): Effect {
    match parent
    case Leaf(v) => if v != Null || act.Remove? then Leaves(parent, vals) else TakesOver
    case Dict(f, o) =>
      (match act
       case Remove => if tail in f then Changed(Dict(f - {tail}, o), vals) else Fails
       case _ => Changed(Dict(f[tail := Named(act.value, home)], o), vals[home := act.value]))
    case List(xs, o) =>
      (match act
       case Remove =>
         (match ItemIndex(xs, tail)
          case None => Fails
          case Some(i) => Changed(List(xs[..i] + xs[i + 1..], o), vals))
       case Add(v) =>
         (match PyInt(tail)
          case None => Fails
          case Some(n) =>
            var i := InsertIndex(xs, n);
            Changed(List(xs[..i] + [Named(v, home)] + xs[i..], o), vals[home := v]))
       case Replace(v) =>
         (match ItemIndex(xs, tail)
          case None => Fails
          case Some(i) => Changed(List(xs[i := Named(v, home)], o), vals[home := v])))
  }

  /** One operation at a path: every container on the way to the change shares in it. */
  function EditNode(node: Node, parts: seq<string>, act: Act, home: Place, vals: Values): Effect
    requires parts != []
    decreases |parts|
  {
    if |parts| == 1 then EditLeafNode(node, parts[0], act, home, vals)
    else match ChildNode(node, parts[0])
      case None => Fails
      case Some(c) =>
        match EditNode(c, parts[1..], act, home, vals)
        case Leaves(d, v) => Changed(WithChildNode(node, parts[0], d), v)
        case e => e
  }

  function StepNode(node: Node, parts: seq<string>, act: Act, home: Place, vals: Values): Effect {
    if parts == [] then if act.Remove? then Leaves(node, vals) else TakesOver
    else EditNode(node, parts, act, home, vals)
  }

  /** Edits of a pair that stands at `base`, without taking over the whole document. */
  function RunNode(node: Node, es: seq<Edit>, base: Place, vals: Values): Effect
    decreases |es|
  {
    if es == [] then Leaves(node, vals)
    else match StepNode(node, DropEmpty(es[0].parts), es[0].act, base + es[0].parts, vals)
      case Leaves(n, v) => RunNode(n, es[1..], base, v)
      case e => e
  }

  /** One operation of a patch; the document is None when it raised. */
  function ApplyNode(node: Node, parts: seq<string>, act: Act, home: Place, vals: Values): (Option<Node>, Values) {
    match StepNode(node, parts, act, home, vals)
    case Fails => (None, vals)
    case TakesOver =>
      if act.Remove? then (Some(node), vals) else (Some(Named(act.value, home)), vals[home := act.value])
    case Leaves(n, v) => (Some(n), v)
  }

  /** All edits of a whole pair of documents. */
  function RunShared(node: Node, es: seq<Edit>, vals: Values): (Option<Node>, Values)
    decreases |es|
  {
    if es == [] then (Some(node), vals)
    else
      var (n, v) := ApplyNode(node, DropEmpty(es[0].parts), es[0].act, es[0].parts, vals);
      if n.None? then (None, v) else RunShared(n.value, es[1..], v)
  }

  /** A patch, operation by operation. */
  function RunOps(node: Node, patch: seq<Op>, vals: Values): (Option<Node>, Values)
    decreases |patch|
  {
    if patch == [] then (Some(node), vals)
    else
      var (n, v) := ApplyNode(node, Parse(patch[0].path), patch[0].act, patch[0].home, vals);
      if n.None? then (None, v) else RunOps(n.value, patch[1..], v)
  }

  // ---- The service's own loop ----

  function ResolveNode(node: Node, parts: seq<string>): Option<Node> {
    if parts == [] then Some(node)
    else match ChildNode(node, parts[0])
      case None => None
      case Some(c) => ResolveNode(c, parts[1..])
  }

  /** The document after the node at `parts` was mutated into n, seen by everyone who shares a
      container on the way. */
  function PutNode(node: Node, parts: seq<string>, n: Node, vals: Values): (Node, Values)
    requires ResolveNode(node, parts).Some?
  {
    if parts == [] then (n, vals)
    else
      var (c, v) := PutNode(ChildNode(node, parts[0]).value, parts[1..], n, vals);
      var w := WithChildNode(node, parts[0], c);
      (w, Record(w, v))
  }

  /** An edit is the resolution of its parent, the change there, and the effect on the way. */
  lemma {:induction false} SplitEdit(node: Node, init: seq<string>, tail: string, act: Act, home: Place, vals: Values)
    ensures EditNode(node, init + [tail], act, home, vals) ==
            var parent := ResolveNode(node, init);
            if parent.None? then Fails
            else
              var e := EditLeafNode(parent.value, tail, act, home, vals);
              if e.Leaves? then
                var r := PutNode(node, init, e.node, e.vals);
                Leaves(r.0, r.1)
              else e
    decreases |init|
  {
    var parts := init + [tail];
    if init == [] {
      assert parts == [tail];
    } else {
      assert parts[0] == init[0] && parts[1..] == init[1..] + [tail];
      if ChildNode(node, init[0]).Some? { SplitEdit(ChildNode(node, init[0]).value, init[1..], tail, act, home, vals); }
    }
  }

  /** The document being patched, and what the operations' values have become. */
  class Document {
    var doc: Node
    var vals: Values

    constructor (target: Json)
      ensures doc == Fresh(target) && vals == map[]
    {
      doc, vals := Fresh(target), map[];
    }

    /** Apply one operation in place. */
    method Apply(op: Op) returns (ok: bool)
      modifies this
      ensures var r := ApplyNode(old(doc), Parse(op.path), op.act, op.home, old(vals));
              ok == r.0.Some? && vals == r.1 && doc == if ok then r.0.value else old(doc)
    {
      var parts := Parse(op.path);
      if parts == [] {
        if !op.act.Remove? { TakeOver(op); }
        return true;
      }
      var init, tail := parts[..|parts| - 1], parts[|parts| - 1];
      assert parts == init + [tail];
      SplitEdit(doc, init, tail, op.act, op.home, vals);
      var parent := ResolveLoop(init);
      if parent.None? { return false; }
      var e := EditLeafNode(parent.value, tail, op.act, op.home, vals);
      match e
      case Fails => return false;
      case TakesOver =>
        TakeOver(op);
        return true;
      case Leaves(n, v) =>
        var r := PutNode(doc, init, n, v);
        doc, vals := r.0, r.1;
        return true;
    }

    method TakeOver(op: Op)
      requires !op.act.Remove?
      modifies this
      ensures doc == Named(op.act.value, op.home) && vals == old(vals)[op.home := op.act.value]
    {
      doc, vals := Named(op.act.value, op.home), vals[op.home := op.act.value];
    }

    /** Walk down from the document, one component at a time. */
    method ResolveLoop(parts: seq<string>) returns (r: Option<Node>)
      ensures r == ResolveNode(doc, parts)
    {
      var node := doc;
      for i := 0 to |parts|
        invariant ResolveNode(node, parts[i..]) == ResolveNode(doc, parts)
      {
        var c := ChildNode(node, parts[i]);
        assert parts[i..][1..] == parts[i + 1..];
        if c.None? { return None; }
        node := c.value;
      }
      return Some(node);
    }
  }

  /** Apply a patch to a copy of the target; the values are what they are at the end, also when
      some operation raised. */
  method ApplyPatch(target: Json, patch: seq<Op>) returns (r: Option<Node>, vals: Values)
    ensures (r, vals) == RunOps(Fresh(target), patch, map[])
  {
    var d := new Document(target);
    for i := 0 to |patch|
      invariant RunOps(d.doc, patch[i..], d.vals) == RunOps(Fresh(target), patch, map[])
    {
      var ok := d.Apply(patch[i]);
      assert patch[i..][1..] == patch[i + 1..];
      if !ok { return None, d.vals; }
    }
    return Some(d.doc), d.vals;
  }

  // ---- The document itself evolves as if values were copied ----

  function Erased(e: Effect): Outcome {
    match e
    case Fails => Raised
    case TakesOver => Escaped
    case Leaves(n, _) => Done(Erase(n))
  }

  lemma EraseChild(n: Node, part: string)
    ensures ChildNode(n, part).Some? <==> Child(Erase(n), part).Some?
    ensures ChildNode(n, part).Some? ==> Child(Erase(n), part) == Some(Erase(ChildNode(n, part).value))
  {
  }

  lemma EraseWithChild(n: Node, part: string, c: Node)
    requires ChildNode(n, part).Some?
    ensures Child(Erase(n), part).Some? && Erase(WithChildNode(n, part, c)) == WithChild(Erase(n), part, Erase(c))
  {
    EraseChild(n, part);
    var m := WithChildNode(n, part, c);
    match n
    case Dict(f, _) => assert Erase(m).fields == Erase(n).fields[part := Erase(c)];
    case List(xs, _) => assert Erase(m).items == Erase(n).items[ItemIndex(xs, part).value := Erase(c)];
  }

  lemma EraseLeaf(n: Node, tail: string, act: Act, home: Place, vals: Values)
    ensures Erased(EditLeafNode(n, tail, act, home, vals)) == EditLeaf(Erase(n), tail, act)
  {
    match n
    case Leaf(_) =>
    case Dict(f, o) => EraseLeafDict(f, o, tail, act, home, vals);
    case List(xs, o) => EraseLeafList(xs, o, tail, act, home, vals);
  }

  lemma EraseLeafDict(f: map<string, Node>, o: Option<Place>, tail: string, act: Act, home: Place, vals: Values)
    ensures Erased(EditLeafNode(Dict(f, o), tail, act, home, vals)) == EditLeaf(Erase(Dict(f, o)), tail, act)
  {
    var g := Erase(Dict(f, o)).fields;
    if act.Remove? {
      assert Erase(Dict(f - {tail}, o)).fields == g - {tail};
    } else {
      EraseNamed(act.value, home);
      assert Erase(Dict(f[tail := Named(act.value, home)], o)).fields == g[tail := act.value];
    }
  }

  lemma EraseLeafList(xs: seq<Node>, o: Option<Place>, tail: string, act: Act, home: Place, vals: Values)
    ensures Erased(EditLeafNode(List(xs, o), tail, act, home, vals)) == EditLeaf(Erase(List(xs, o)), tail, act)
  {
    assert |Erase(List(xs, o)).items| == |xs|;
    match act
    case Remove =>
      if ItemIndex(xs, tail).Some? { EraseRemoved(xs, o, ItemIndex(xs, tail).value); }
    case Add(v) =>
      EraseAddedItem(xs, o, tail, v, home, vals);
    case Replace(v) =>
      EraseNamed(v, home);
      if ItemIndex(xs, tail).Some? { EraseReplaced(xs, o, ItemIndex(xs, tail).value, Named(v, home)); }
  }

  lemma EraseAddedItem(xs: seq<Node>, o: Option<Place>, tail: string, v: Json, home: Place, vals: Values)
    ensures Erased(EditLeafNode(List(xs, o), tail, Add(v), home, vals)) == EditLeaf(Erase(List(xs, o)), tail, Add(v))
  {
    assert |Erase(List(xs, o)).items| == |xs|;
    EraseNamed(v, home);
    if PyInt(tail).Some? { EraseInsert(xs, o, InsertIndex(xs, PyInt(tail).value), Named(v, home)); }
  }

  lemma EraseRemoved(xs: seq<Node>, o: Option<Place>, i: nat)
    requires i < |xs|
    ensures var ys := Erase(List(xs, o)).items;
            |ys| == |xs| && Erase(List(xs[..i] + xs[i + 1..], o)).items == ys[..i] + ys[i + 1..]
  {
  }

  lemma EraseReplaced(xs: seq<Node>, o: Option<Place>, i: nat, n: Node)
    requires i < |xs|
    ensures var ys := Erase(List(xs, o)).items;
            |ys| == |xs| && Erase(List(xs[i := n], o)).items == ys[i := Erase(n)]
  {
  }

  lemma EraseInsert(xs: seq<Node>, o: Option<Place>, i: nat, n: Node)
    requires i <= |xs|
    ensures var ys := Erase(List(xs, o)).items;
            |ys| == |xs| && Erase(List(xs[..i] + [n] + xs[i..], o)).items == ys[..i] + [Erase(n)] + ys[i..]
  {
  }

  lemma {:induction false} EraseEdit(n: Node, parts: seq<string>, act: Act, home: Place, vals: Values)
    requires parts != []
    ensures Erased(EditNode(n, parts, act, home, vals)) == EditAt(Erase(n), parts, act)
    decreases |parts|
  {
    if |parts| == 1 {
      EraseLeaf(n, parts[0], act, home, vals);
      assert parts[..0] == [];
    } else {
      var k, rest := parts[0], parts[1..];
      assert parts == [k] + rest;
      Descend(Erase(n), k, rest, act);
      EraseChild(n, k);
      if ChildNode(n, k).Some? {
        var c := ChildNode(n, k).value;
        EraseEdit(c, rest, act, home, vals);
        var e := EditNode(c, rest, act, home, vals);
        if e.Leaves? { EraseWithChild(n, k, e.node); }
      }
    }
  }

  lemma EraseStep(n: Node, parts: seq<string>, act: Act, home: Place, vals: Values)
    ensures Erased(StepNode(n, parts, act, home, vals)) == Step(Erase(n), parts, act)
  {
    if parts != [] { EraseEdit(n, parts, act, home, vals); }
  }

  lemma {:induction false} EraseRun(n: Node, es: seq<Edit>, base: Place, vals: Values)
    ensures Erased(RunNode(n, es, base, vals)) == RunEdits(Erase(n), es)
    decreases |es|
  {
    if es != [] {
      var parts, home := DropEmpty(es[0].parts), base + es[0].parts;
      EraseStep(n, parts, es[0].act, home, vals);
      var e := StepNode(n, parts, es[0].act, home, vals);
      if e.Leaves? { EraseRun(e.node, es[1..], base, e.vals); }
    }
  }
}
