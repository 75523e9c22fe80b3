/** JSON documents as the services hold them after parsing. */
module Json {
  import opened Text

  datatype Json =
    | Null
    | Bool(b: bool)
    | Int(n: int)
    | Float(r: real)
    | Str(s: string)
    | Arr(items: seq<Json>)
    | Obj(fields: map<string, Json>)

  /** The number a scalar stands for under Python's `==`, where True == 1 == 1.0. */
  function Number(x: Json): Option<real> {
    match x
    case Bool(b) => Some(if b then 1.0 else 0.0)
    case Int(n) => Some(n as real)
    case Float(r) => Some(r)
    case _ => None
  }

  /** Python's `==` on parsed documents. */
  predicate DeepEqual(x: Json, y: Json) {
    match x
    case Null => y.Null?
    case Str(s) => y == x
    case Arr(xs) =>
      y.Arr? && |xs| == |y.items| && forall i | 0 <= i < |xs| :: DeepEqual(xs[i], y.items[i])
    case Obj(f) =>
      y.Obj? && f.Keys == y.fields.Keys && forall k | k in f :: DeepEqual(f[k], y.fields[k])
    case _ => Number(x) == Number(y)
  }

  lemma {:induction false} DeepEqualReflexive(x: Json)
    ensures DeepEqual(x, x)
  {
    match x
    case Arr(xs) => forall i | 0 <= i < |xs| { DeepEqualReflexive(xs[i]); }
    case Obj(f) => forall k | k in f { DeepEqualReflexive(f[k]); }
    case _ =>
  }

  lemma {:induction false} DeepEqualSymmetric(x: Json, y: Json)
    requires DeepEqual(x, y)
    ensures DeepEqual(y, x)
  {
    match x
    case Arr(xs) => forall i | 0 <= i < |xs| { DeepEqualSymmetric(xs[i], y.items[i]); }
    case Obj(f) => forall k | k in f { DeepEqualSymmetric(f[k], y.fields[k]); }
    case _ =>
  }

  lemma {:induction false} DeepEqualTransitive(x: Json, y: Json, z: Json)
    requires DeepEqual(x, y) && DeepEqual(y, z)
    ensures DeepEqual(x, z)
  {
    match x
    case Arr(xs) => forall i | 0 <= i < |xs| { DeepEqualTransitive(xs[i], y.items[i], z.items[i]); }
    case Obj(f) => forall k | k in f { DeepEqualTransitive(f[k], y.fields[k], z.fields[k]); }
    case _ =>
  }

  // ---- What equality means ----

  /** A document up to the differences that Python's `==` does not see: truth values, integers and
      decimals are numbers, and an object has no order. */
  datatype Canon =
    | Nothing
    | Numeral(value: real)
    | Text(text: string)
    | Items(items: seq<Canon>)
    | Members(members: map<string, Canon>)

  function Canonical(x: Json): Canon {
    match x
    case Null => Nothing
    case Bool(true) => Numeral(1.0)
    case Bool(false) => Numeral(0.0)
    case Int(n) => Numeral(n as real)
    case Float(r) => Numeral(r)
    case Str(s) => Text(s)
    case Arr(xs) => Items(seq(|xs|, i requires 0 <= i < |xs| => Canonical(xs[i])))
    case Obj(f) => Members(map k | k in f :: Canonical(f[k]))
  }

  /** Documents are equal if and only if they are the same up to those differences. */
  lemma {:induction false} EqualMeans(x: Json, y: Json)
    ensures DeepEqual(x, y) <==> Canonical(x) == Canonical(y)
    decreases x
  {
    if x.Arr? && y.Arr? {
      if |x.items| == |y.items| {
        forall i | 0 <= i < |x.items| { EqualMeans(x.items[i], y.items[i]); }
        ItemsAlike(x.items, y.items);
      } else {
        assert |Canonical(x).items| == |x.items| && |Canonical(y).items| == |y.items|;
      }
    } else if x.Obj? && y.Obj? {
      if x.fields.Keys == y.fields.Keys {
        forall k | k in x.fields { EqualMeans(x.fields[k], y.fields[k]); }
        MembersAlike(x.fields, y.fields);
      } else {
        assert Canonical(x).members.Keys == x.fields.Keys && Canonical(y).members.Keys == y.fields.Keys;
      }
    }
  }

  lemma ItemsAlike(xs: seq<Json>, ys: seq<Json>)
    requires |xs| == |ys|
    ensures Canonical(Arr(xs)) == Canonical(Arr(ys)) <==>
            forall i :: 0 <= i < |xs| ==> Canonical(xs[i]) == Canonical(ys[i])
  {
    var cs, ds := Canonical(Arr(xs)).items, Canonical(Arr(ys)).items;
    assert forall i :: 0 <= i < |xs| ==> cs[i] == Canonical(xs[i]) && ds[i] == Canonical(ys[i]);
  }

  lemma MembersAlike(f: map<string, Json>, g: map<string, Json>)
    requires f.Keys == g.Keys
    ensures Canonical(Obj(f)) == Canonical(Obj(g)) <==> forall k :: k in f ==> Canonical(f[k]) == Canonical(g[k])
  {
    var cs, ds := Canonical(Obj(f)).members, Canonical(Obj(g)).members;
    assert forall k :: k in f ==> cs[k] == Canonical(f[k]) && ds[k] == Canonical(g[k]);
  }

  /** When two numbers are equal, and that a number equals nothing else. */
  lemma NumbersEqual(m: int, n: int, r: real, s: real, b: bool, c: bool, other: Json)
    ensures DeepEqual(Float(r), Float(s)) <==> r == s
    ensures DeepEqual(Int(m), Int(n)) <==> m == n
    ensures DeepEqual(Int(m), Float(r)) <==> m as real == r
    ensures DeepEqual(Bool(b), Bool(c)) <==> b == c
    ensures DeepEqual(Bool(b), Int(n)) <==> n == if b then 1 else 0
    ensures DeepEqual(Bool(b), Float(r)) <==> r == if b then 1.0 else 0.0
    ensures other.Null? || other.Str? || other.Arr? || other.Obj? ==>
              && !DeepEqual(Int(m), other) && !DeepEqual(Float(r), other) && !DeepEqual(Bool(b), other)
              && !DeepEqual(other, Int(m)) && !DeepEqual(other, Float(r)) && !DeepEqual(other, Bool(b))
  {
    EqualMeans(Int(m), Int(n));
    EqualMeans(Bool(b), Bool(c));
    EqualMeans(Bool(b), Int(n));
  }

  // ---- Node count and nesting depth ----

  function Values(f: map<string, Json>, ks: seq<string>): (vs: seq<Json>)
    requires forall i :: 0 <= i < |ks| ==> ks[i] in f
    ensures |vs| == |ks| && forall i :: 0 <= i < |ks| ==> vs[i] == f[ks[i]]
  {
    if ks == [] then [] else [f[ks[0]]] + Values(f, ks[1..])
  }

  ghost function FieldOrder(f: map<string, Json>): (ks: seq<string>)
    ensures Enumerates(ks, f.Keys)
    ensures forall i :: 0 <= i < |ks| ==> ks[i] in f
  {
    SortedKeysSorted(f.Keys);
    var ks := SortedKeys(f.Keys);
    assert forall i :: 0 <= i < |ks| ==> ks[i] in ks;
    ks
  }

  /** The immediate members of a container, in key order for an object. */
  ghost function Children(x: Json): (cs: seq<Json>)
    ensures forall i :: 0 <= i < |cs| ==> cs[i] < x
  {
    match x
    case Arr(xs) => xs
    case Obj(f) => Values(f, FieldOrder(f))
    case _ => []
  }

  ghost function Nodes(x: Json): (n: nat)
    ensures n >= 1
    decreases x
  {
    1 + NodesOf(Children(x), x)
  }

  ghost function NodesOf(cs: seq<Json>, parent: Json): nat
    requires forall i :: 0 <= i < |cs| ==> cs[i] < parent
    decreases parent, |cs|
  {
    if cs == [] then 0 else Nodes(cs[0]) + NodesOf(cs[1..], parent)
  }

  /** Longest chain of members below x: 0 for a scalar or an empty container. */
  ghost function Height(x: Json): nat
    decreases x
  {
    HeightOf(Children(x), x)
  }

  ghost function HeightOf(cs: seq<Json>, parent: Json): nat
    requires forall i :: 0 <= i < |cs| ==> cs[i] < parent
    decreases parent, |cs|
  {
    if cs == [] then 0
    else
      var here := 1 + Height(cs[0]);
      var rest := HeightOf(cs[1..], parent);
      if here > rest then here else rest
  }
}
