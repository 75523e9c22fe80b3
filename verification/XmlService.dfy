/** The XML endpoint in both directions. A converted document is read back as JSON text, so the
    limits on JSON documents stand between the two converters. */
module XmlService {
  import opened Text
  import opened Xml
  import opened XmlConvert

  const MAX_JSON_NODES: nat := 100_000

  // ---- Size and depth of a JSON value ----

  /** The value itself and everything below it; object keys do not count. */
  function ValNodes(v: Val): (n: nat)
    ensures n >= 1
    decreases v, 1
  {
    match v
    case List(_) => 1 + ItemNodes(v, 0)
    case Dict(_) => 1 + EntryNodes(v, 0)
    case _ => 1
  }

  function ItemNodes(v: Val, i: nat): nat
    requires v.List? && i <= |v.items|
    decreases v, 0, |v.items| - i
  {
    if i == |v.items| then 0 else ValNodes(v.items[i]) + ItemNodes(v, i + 1)
  }

  function EntryNodes(v: Val, i: nat): nat
    requires v.Dict? && i <= |v.entries|
    decreases v, 0, |v.entries| - i
  {
    if i == |v.entries| then 0 else ValNodes(v.entries[i].1) + EntryNodes(v, i + 1)
  }

  /** No value lies deeper than m levels below v. */
  predicate ValWithin(v: Val, m: int)
    decreases v
  {
    m >= 0 &&
    match v
    case List(items) => forall i | 0 <= i < |items| :: ValWithin(items[i], m - 1)
    case Dict(entries) => forall i | 0 <= i < |entries| :: ValWithin(entries[i].1, m - 1)
    case _ => true
  }

  /** The reader of JSON text accepts the value. */
  predicate Loadable(v: Val) { ValWithin(v, MAX_DEPTH) && ValNodes(v) <= MAX_JSON_NODES }

  // ---- The endpoint ----

  /** What a parsed tree is converted to. */
  function Document(e: Elem): Val { Dict([(e.tag, ToObj(e))]) }

  method XmlToJson(e: Elem) returns (r: Option<Val>)
    ensures r == if ElemCount(e) <= MAX_XML_NODES then Some(Document(e)) else None
  {
    var counter := new Counter();
    var obj := XmlNodeToObj(e, counter);
    return if obj.Some? then Some(Dict([(e.tag, obj.value)])) else None;
  }

  method JsonToXml(data: Val, rootName: string) returns (r: Option<Elem>)
    ensures r == WayBack(data, rootName)
  {
    if !Loadable(data) { return None; }
    if data.List? { return None; }
    var root, content := rootName, data;
    if data.Dict? && rootName == "" {
      if |data.entries| == 1 {
        root, content := data.entries[0].0, data.entries[0].1;
      } else {
        root := "root";
      }
    } else if rootName == "" {
      root := "root";
    }
    if !NameOk(root) { return None; }
    var counter := new Counter();
    r := BuildElement(root, content, counter, 0);
  }

  /** The element a JSON document becomes; None when it is refused. */
  ghost function WayBack(data: Val, rootName: string): Option<Elem> {
    if !Loadable(data) || SelectRoot(data, rootName).None? then None
    else
      var root := SelectRoot(data, rootName).value;
      if Fits(Build(root.0, root.1), 0, 0) then Build(root.0, root.1) else None
  }

  // ---- Elements against values ----

  function PairNodes(xs: seq<(string, Val)>): nat {
    if xs == [] then 0 else ValNodes(xs[0].1) + PairNodes(xs[1..])
  }

  function GroupNodes(gs: seq<(string, seq<Val>)>): nat {
    if gs == [] then 0 else AllNodes(gs[0].1) + GroupNodes(gs[1..])
  }

  function AllNodes(vs: seq<Val>): nat {
    if vs == [] then 0 else ValNodes(vs[0]) + AllNodes(vs[1..])
  }

  lemma {:induction false} AllNodesSnoc(vs: seq<Val>, v: Val)
    ensures AllNodes(vs + [v]) == AllNodes(vs) + ValNodes(v)
  {
    if vs == [] {
      assert vs + [v] == [v];
    } else {
      assert (vs + [v])[1..] == vs[1..] + [v];
      AllNodesSnoc(vs[1..], v);
    }
  }

  lemma {:induction false} AddToNodes(gs: seq<(string, seq<Val>)>, tag: string, v: Val)
    ensures GroupNodes(AddTo(gs, tag, v)) == GroupNodes(gs) + ValNodes(v)
    decreases |gs|
  {
    if gs == [] {
      AllNodesSnoc([], v);
      assert [] + [v] == [v];
    } else if gs[0].0 == tag {
      AllNodesSnoc(gs[0].1, v);
      assert AddTo(gs, tag, v)[1..] == gs[1..];
    } else {
      AddToNodes(gs[1..], tag, v);
      assert AddTo(gs, tag, v)[1..] == AddTo(gs[1..], tag, v);
    }
  }

  lemma {:induction false} GroupingKeepsNodes(gs: seq<(string, seq<Val>)>, xs: seq<(string, Val)>)
    ensures GroupNodes(Group(gs, xs)) == GroupNodes(gs) + PairNodes(xs)
    decreases |xs|
  {
    if xs != [] {
      AddToNodes(gs, xs[0].0, xs[0].1);
      GroupingKeepsNodes(AddTo(gs, xs[0].0, xs[0].1), xs[1..]);
    }
  }

  lemma {:induction false} ItemNodesAll(v: Val, i: nat)
    requires v.List? && i <= |v.items|
    ensures ItemNodes(v, i) == AllNodes(v.items[i..])
    decreases |v.items| - i
  {
    if i < |v.items| {
      ItemNodesAll(v, i + 1);
      assert v.items[i..][1..] == v.items[i + 1..];
    }
  }

  /** The entries for groups hold at least the values grouped. */
  lemma {:induction false} EntriesHoldGroups(v: Val, i: nat, gs: seq<(string, seq<Val>)>)
    requires v.Dict? && i <= |v.entries| && v.entries[i..] == GroupEntries(gs)
    ensures EntryNodes(v, i) >= GroupNodes(gs)
    decreases |gs|
  {
    if gs != [] {
      assert v.entries[i] == v.entries[i..][0] == (gs[0].0, List(gs[0].1));
      assert v.entries[i + 1..] == v.entries[i..][1..] == GroupEntries(gs)[1..] == GroupEntries(gs[1..]);
      ItemNodesAll(List(gs[0].1), 0);
      assert List(gs[0].1).items[0..] == gs[0].1;
      EntriesHoldGroups(v, i + 1, gs[1..]);
    }
  }

  lemma {:induction false} EntryNodesSuffix(v: Val, i: nat, n: nat)
    requires v.Dict? && i <= n <= |v.entries|
    ensures EntryNodes(v, i) >= EntryNodes(v, n)
    decreases n - i
  {
    if i < n { EntryNodesSuffix(v, i + 1, n); }
  }

  /** An element's object has at least as many values as the element has elements. */
  lemma {:induction false} NodesCoverElements(e: Elem)
    ensures ElemCount(e) <= ValNodes(ToObj(e))
    decreases e, |e.children| + 1
  {
    var v := ToObj(e);
    var head := AttrEntries(e.attrs) + TextEntry(e.text);
    var gs := Group([], ChildVals(e, 0));
    assert v.entries[|head|..] == GroupEntries(gs);
    EntriesHoldGroups(v, |head|, gs);
    EntryNodesSuffix(v, 0, |head|);
    GroupingKeepsNodes([], ChildVals(e, 0));
    PairsCoverChildren(e, 0);
  }

  lemma {:induction false} PairsCoverChildren(e: Elem, i: nat)
    requires i <= |e.children|
    ensures CountFrom(e, i) <= PairNodes(ChildVals(e, i))
    decreases e, |e.children| - i
  {
    if i < |e.children| {
      NodesCoverElements(e.children[i]);
      PairsCoverChildren(e, i + 1);
      assert ChildVals(e, i)[1..] == ChildVals(e, i + 1);
    }
  }

  /** One level of elements takes two levels of values: the array of a tag and its items. */
  lemma {:induction false} DepthCoversElements(e: Elem, depth: nat, m: int)
    requires ValWithin(ToObj(e), m) && m + 2 * depth <= 2 * MAX_DEPTH
    ensures WithinDepth(e, depth)
    decreases e
  {
    forall i | 0 <= i < |e.children| ensures WithinDepth(e.children[i], depth + 1) {
      ChildTwoBelow(e, i, m);
      DepthCoversElements(e.children[i], depth + 1, m - 2);
    }
  }

  lemma ChildTwoBelow(e: Elem, n: nat, m: int)
    requires n < |e.children| && ValWithin(ToObj(e), m)
    ensures ValWithin(ToObj(e.children[n]), m - 2)
  {
    var c := e.children[n];
    var gs := Group([], ChildVals(e, 0));
    var g := ChildGroup(e, n);
    var head := AttrEntries(e.attrs) + TextEntry(e.text);
    assert ToObj(e).entries[|head| + g] == GroupEntries(gs)[g] == (c.tag, List(gs[g].1));
    InListWithin(ToObj(e), |head| + g, gs[g].1, ToObj(c), m);
  }

  /** The group that a child's object is in. */
  lemma ChildGroup(e: Elem, n: nat) returns (g: nat)
    requires n < |e.children|
    ensures var gs := Group([], ChildVals(e, 0));
            g < |gs| && gs[g].0 == e.children[n].tag && ToObj(e.children[n]) in gs[g].1
  {
    var c := e.children[n];
    var vs := ChildVals(e, 0);
    PairsAt(e, n);
    assert vs[n] == (c.tag, ToObj(c));
    GroupHolds([], vs, c.tag, ToObj(c));
    var gs := Group([], vs);
    g :| 0 <= g < |gs| && gs[g].0 == c.tag && ToObj(c) in gs[g].1;
  }

  lemma InListWithin(v: Val, i: nat, vs: seq<Val>, x: Val, m: int)
    requires ValWithin(v, m) && v.Dict? && i < |v.entries| && v.entries[i].1 == List(vs) && x in vs
    ensures ValWithin(x, m - 2)
  {
    assert ValWithin(List(vs), m - 1);
    var k :| 0 <= k < |vs| && vs[k] == x;
    assert ValWithin(vs[k], m - 2);
  }

  // ---- There and back ----

  /** A parsed tree that is converted to JSON and, as JSON text, back again survives if and only if
      its names are accepted and its JSON document is within the limits on JSON documents; it
      comes back in its normal form. The limits on elements refuse nothing more. */
  lemma ThereAndBack(e: Elem)
    requires ParsedTags(e)
    ensures WayBack(Document(e), "").Some? <==> NamesOk(e) && Loadable(Document(e))
    ensures WayBack(Document(e), "").Some? ==>
            WayBack(Document(e), "") == Some(Normal(e)) && ElemCount(e) <= MAX_XML_NODES
  {
    OtherNamesRefused(e);
    if NamesOk(e) && Loadable(Document(e)) {
      var v := Document(e);
      assert v.entries[0] == (e.tag, ToObj(e));
      assert ValWithin(v.entries[0].1, MAX_DEPTH - 1);
      DepthCoversElements(e, 0, MAX_DEPTH - 1);
      NodesCoverElements(e);
      assert EntryNodes(v, 0) == ValNodes(ToObj(e)) + EntryNodes(v, 1);
      RoundTripWithinLimits(e);
      RoundTrip(e);
    }
  }

  /** n elements inside one another below the outermost. */
  function Chain(n: nat): Elem {
    Elem("c", [], None, if n == 0 then [] else [Chain(n - 1)])
  }

  lemma {:induction false} ChainNames(n: nat)
    ensures NamesOk(Chain(n)) && ParsedTags(Chain(n))
    decreases n
  {
    assert NameOk("c");
    if n > 0 { ChainNames(n - 1); }
  }

  lemma {:induction false} ChainSize(n: nat, depth: nat)
    ensures ElemCount(Chain(n)) == n + 1
    ensures WithinDepth(Chain(n), depth) <==> depth + n <= MAX_DEPTH
    decreases n
  {
    var e := Chain(n);
    if n > 0 {
      ChainSize(n - 1, depth + 1);
      assert CountFrom(e, 0) == ElemCount(e.children[0]) + CountFrom(e, 1);
    }
  }

  /** The converted chain. */
  function ChainVal(n: nat): Val {
    Dict(if n == 0 then [] else [("c", List([ChainVal(n - 1)]))])
  }

  lemma {:induction false} ChainObject(n: nat)
    ensures ToObj(Chain(n)) == ChainVal(n)
    decreases n
  {
    if n > 0 {
      ChainObject(n - 1);
      OnlyChild(Chain(n));
    } else {
      assert ChildVals(Chain(n), 0) == [];
    }
  }

  /** Each element takes two levels of the document: its object and the array it stands in. */
  lemma {:induction false} ChainDepth(n: nat, m: int)
    ensures ValWithin(ChainVal(n), m) <==> m >= 2 * n
    decreases n
  {
    if n > 0 {
      ChainDepth(n - 1, m - 2);
      WrappedTwice("c", ChainVal(n - 1), m);
    }
  }

  lemma WrappedTwice(k: string, v: Val, m: int)
    ensures ValWithin(Dict([(k, List([v]))]), m) <==> m >= 1 && ValWithin(v, m - 2)
  {
    var list := List([v]);
    var d := Dict([(k, list)]);
    assert list.items[0] == v && d.entries[0] == (k, list);
    assert ValWithin(list, m - 1) <==> m - 1 >= 0 && ValWithin(v, m - 2);
    assert ValWithin(d, m) <==> m >= 0 && ValWithin(list, m - 1);
  }

  lemma OnlyChild(e: Elem)
    requires e.attrs == [] && e.text == None && |e.children| == 1
    ensures ToObj(e) == Dict([(e.children[0].tag, List([ToObj(e.children[0])]))])
  {
    var pair := (e.children[0].tag, ToObj(e.children[0]));
    assert ChildVals(e, 0) == [pair] + ChildVals(e, 1) == [pair];
    assert [pair][1..] == [];
    assert Group([], [pair]) == AddTo([], pair.0, pair.1) == [(pair.0, [pair.1])];
    assert GroupEntries([(pair.0, [pair.1])]) == [(pair.0, List([pair.1]))];
  }

  lemma ChainConverted(n: nat)
    requires n <= MAX_DEPTH
    ensures Fits(Build(Chain(n).tag, ToObj(Chain(n))), 0, 0)
  {
    ChainNames(n);
    ChainSize(n, 0);
    RoundTripWithinLimits(Chain(n));
  }

  lemma ChainDocument(n: nat, m: nat)
    ensures ValWithin(Document(Chain(n)), m) <==> m >= 2 * n + 1
  {
    assert Document(Chain(n)).entries[0].1 == ToObj(Chain(n));
    ChainObject(n);
    ChainDepth(n, m - 1);
  }

  /** 101 elements inside one another are far inside the limits on elements and are converted, but
      their JSON document is one level too deep to be read back. */
  lemma DeepTreeRefused(n: nat)
    requires n == 100
    ensures var e := Chain(n);
            && ParsedTags(e) && NamesOk(e) && ElemCount(e) == 101 && WithinDepth(e, 100)
            && Fits(Build(e.tag, ToObj(e)), 0, 0)
            && ValWithin(Document(e), 201) && !ValWithin(Document(e), 200)
            && WayBack(Document(e), "").None?
  {
    ChainNames(n);
    ChainSize(n, 100);
    ChainConverted(n);
    ChainDocument(n, 201);
    ChainDocument(n, 200);
  }
}
