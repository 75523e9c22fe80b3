/** Generating an edit script between two documents and applying it (the add, remove and
    replace operations of section 4 of RFC 6902). */
module JsonPatch {
  import opened Text
  import opened Json
  import opened JsonPointer

  datatype Act = Remove | Add(value: Json) | Replace(value: Json)

  /** An operation as emitted: a printed path and an act. Its value is not a copy but the object
      that stands at `home` in the second document. */
  datatype Op = Op(path: string, act: Act, home: seq<string>)

  /** An operation before printing: the components of its location. */
  datatype Edit = Edit(parts: seq<string>, act: Act)

  // ------------------------------------------------------------- applying

  /** What one operation does to the document: it raises, it asks for the whole document to be
      replaced (the located parent is null), or it leaves this document. */
  datatype Outcome = Raised | Escaped | Done(doc: Json)

  /** The item an index refers to; negative indices count from the end. */
  function ItemIndex<T>(xs: seq<T>, part: string): (r: Option<nat>)
    ensures r.Some? ==> r.value < |xs|
  {
    match PyInt(part)
    case None => None
    case Some(i) =>
      if 0 <= i < |xs| then Some(i)
      else if -|xs| <= i < 0 then Some(i + |xs|)
      else None
  }

  /** Where `list.insert(i, v)` puts v: out-of-range positions are clamped. */
  function InsertIndex<T>(xs: seq<T>, i: int): (k: nat)
    ensures k <= |xs|
  {
    if i < 0 then (if i + |xs| < 0 then 0 else i + |xs|)
    else if i > |xs| then |xs| else i
  }

  function Child(node: Json, part: string): Option<Json> {
    match node
    case Obj(f) => if part in f then Some(f[part]) else None
    case Arr(xs) => (match ItemIndex(xs, part) case None => None case Some(i) => Some(xs[i]))
    case _ => None
  }

  function WithChild(node: Json, part: string, c: Json): Json
    requires Child(node, part).Some?
  {
    match node
    case Obj(f) => Obj(f[part := c])
    case Arr(xs) => Arr(xs[ItemIndex(xs, part).value := c])
  }

  /** Follow components downwards from `node`. */
  function Resolve(node: Json, parts: seq<string>): Option<Json> {
    if parts == [] then Some(node)
    else match Child(node, parts[0])
      case None => None
      case Some(c) => Resolve(c, parts[1..])
  }

  /** The document after the node at `parts` was mutated into v. */
  function Put(node: Json, parts: seq<string>, v: Json): Json
    requires Resolve(node, parts).Some?
  {
    if parts == [] then v
    else WithChild(node, parts[0], Put(Child(node, parts[0]).value, parts[1..], v))
  }

  /** Mutating the parent at its last component. A scalar parent is silently left alone. */
  function EditLeaf(parent: Json, tail: string, act: Act): Outcome {
    match parent
    case Null => if act.Remove? then Done(parent) else Escaped
    case Obj(f) =>
      (match act
       case Remove => if tail in f then Done(Obj(f - {tail})) else Raised
       case _ => Done(Obj(f[tail := act.value])))
    case Arr(xs) =>
      (match act
       case Remove =>
         (match ItemIndex(xs, tail)
          case None => Raised
          case Some(i) => Done(Arr(xs[..i] + xs[i + 1..])))
       case Add(v) =>
         (match PyInt(tail)
          case None => Raised
          case Some(n) => var i := InsertIndex(xs, n); Done(Arr(xs[..i] + [v] + xs[i..])))
       case Replace(v) =>
         (match ItemIndex(xs, tail)
          case None => Raised
          case Some(i) => Done(Arr(xs[i := v]))))
    case _ => Done(parent)
  }

  function EditAt(doc: Json, parts: seq<string>, act: Act): Outcome
    requires parts != []
  {
    var init := parts[..|parts| - 1];
    match Resolve(doc, init)
    case None => Raised
    case Some(parent) =>
      match EditLeaf(parent, parts[|parts| - 1], act)
      case Done(p) => Done(Put(doc, init, p))
      case o => o
  }

  /** One operation whose path has been read: with no components only add and replace act,
      and they take over the whole document. */
  function Step(doc: Json, parts: seq<string>, act: Act): Outcome {
    if parts == [] then if act.Remove? then Done(doc) else Escaped
    else EditAt(doc, parts, act)
  }

  function ApplyOp(doc: Json, parts: seq<string>, act: Act): Option<Json> {
    match Step(doc, parts, act)
    case Raised => None
    case Escaped => if act.Remove? then Some(doc) else Some(act.value)
    case Done(d) => Some(d)
  }

  // ----------------------------------------------------------- generating

  function Prefixed(k: string, es: seq<Edit>): (r: seq<Edit>)
    ensures |r| == |es|
    ensures forall i :: 0 <= i < |es| ==> r[i] == Edit([k] + es[i].parts, es[i].act)
  {
    if es == [] then [] else [Edit([k] + es[0].parts, es[0].act)] + Prefixed(k, es[1..])
  }

  /** The edits that turn a into b, located relative to a: unequal members are visited in
      ascending key order or by shared index; then extra items are added upwards at the end
      or removed downwards from the end; anything else is replaced whole. */
  ghost function Edits(a: Json, b: Json): seq<Edit>
    decreases a, 3
  {
    if DeepEqual(a, b) then []
    else if a.Obj? && b.Obj? then KeyEdits(a, b, SortedKeys(a.fields.Keys + b.fields.Keys))
    else if a.Arr? && b.Arr? then
      ItemEdits(a, b, 0) + AddEdits(b.items, Shared(a, b)) + RemoveEdits(|a.items|, Shared(a, b))
    else [Edit([], Replace(b))]
  }

  function Shared(a: Json, b: Json): nat
    requires a.Arr? && b.Arr?
  {
    if |a.items| < |b.items| then |a.items| else |b.items|
  }

  ghost function EditsAtKey(a: Json, b: Json, k: string): seq<Edit>
    requires a.Obj? && b.Obj?
    decreases a, 1
  {
    if k !in b.fields then [Edit([], Remove)]
    else if k !in a.fields then [Edit([], Add(b.fields[k]))]
    else Edits(a.fields[k], b.fields[k])
  }

  ghost function KeyEdits(a: Json, b: Json, ks: seq<string>): seq<Edit>
    requires a.Obj? && b.Obj?
    decreases a, 2, |ks|
  {
    if ks == [] then [] else Prefixed(ks[0], EditsAtKey(a, b, ks[0])) + KeyEdits(a, b, ks[1..])
  }

  ghost function ItemEdits(a: Json, b: Json, i: nat): seq<Edit>
    requires a.Arr? && b.Arr? && i <= Shared(a, b)
    decreases a, 0, Shared(a, b) - i
  {
    if i == Shared(a, b) then []
    else Prefixed(Dec(i), Edits(a.items[i], b.items[i])) + ItemEdits(a, b, i + 1)
  }

  /** Items i, i+1, ... of ys are added at their own index. */
  function AddEdits(ys: seq<Json>, i: nat): seq<Edit>
    decreases |ys| - i
  {
    if i >= |ys| then [] else [Edit([Dec(i)], Add(ys[i]))] + AddEdits(ys, i + 1)
  }

  /** Indices n-1, n-2, ..., down to `keep` are removed. */
  function RemoveEdits(n: nat, keep: nat): seq<Edit> {
    if n <= keep then [] else [Edit([Dec(n - 1)], Remove)] + RemoveEdits(n - 1, keep)
  }
}
