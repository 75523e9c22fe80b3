/** The recursive converters of the service, with the element counter they share and the depth
    limit of the way back.
    They are proved against the limitless conversion of the tree module. */
module XmlConvert {
  import opened Text
  import opened Xml

  const MAX_DEPTH: nat := 200
  const MAX_XML_NODES: nat := 100_000

  function ElemCount(e: Elem): (n: nat)
    ensures n >= 1
    decreases e, 1
  {
    1 + CountFrom(e, 0)
  }

  function CountFrom(e: Elem, i: nat): nat
    requires i <= |e.children|
    decreases e, 0, |e.children| - i
  {
    if i == |e.children| then 0 else ElemCount(e.children[i]) + CountFrom(e, i + 1)
  }

  function CountAll(es: seq<Elem>): nat {
    if es == [] then 0 else ElemCount(es[0]) + CountAll(es[1..])
  }

  lemma {:induction false} CountAllFrom(e: Elem, i: nat)
    requires i <= |e.children|
    ensures CountFrom(e, i) == CountAll(e.children[i..])
    decreases |e.children| - i
  {
    if i < |e.children| {
      CountAllFrom(e, i + 1);
      assert e.children[i..][1..] == e.children[i + 1..];
    }
  }

  lemma {:induction false} CountAllConcat(x: seq<Elem>, y: seq<Elem>)
    ensures CountAll(x + y) == CountAll(x) + CountAll(y)
  {
    if x == [] {
      assert x + y == y;
    } else {
      assert (x + y)[1..] == x[1..] + y;
      CountAllConcat(x[1..], y);
    }
  }

  /** The element and everything below it lies within the depth limit when e stands at `depth`. */
  predicate WithinDepth(e: Elem, depth: nat)
    decreases e
  {
    depth <= MAX_DEPTH && forall i | 0 <= i < |e.children| :: WithinDepth(e.children[i], depth + 1)
  }

  predicate AllWithin(es: seq<Elem>, depth: nat) {
    forall i :: 0 <= i < |es| ==> WithinDepth(es[i], depth)
  }

  class Counter {
    var n: nat

    constructor ()
      ensures n == 0
    {
      n := 0;
    }
  }

  /** Element to object: refused only when the counter passes the node limit. */
  method XmlNodeToObj(e: Elem, counter: Counter) returns (r: Option<Val>)
    modifies counter
    ensures r.Some? <==> old(counter.n) + ElemCount(e) <= MAX_XML_NODES
    ensures r.Some? ==> r.value == ToObj(e) && counter.n == old(counter.n) + ElemCount(e)
    decreases e
  {
    ghost var start := counter.n;
    counter.n := counter.n + 1;
    if counter.n > MAX_XML_NODES { return None; }
    var entries := AttrEntries(e.attrs);
    if e.text.Some? && Strip(e.text.value) != "" {
      entries := entries + [("#text", Str(Strip(e.text.value)))];
    }
    assert entries == AttrEntries(e.attrs) + TextEntry(e.text);
    var groups: seq<(string, seq<Val>)> := [];
    for i := 0 to |e.children|
      invariant Group(groups, ChildVals(e, i)) == Group([], ChildVals(e, 0))
      invariant counter.n + CountFrom(e, i) == start + ElemCount(e)
      invariant counter.n <= MAX_XML_NODES
    {
      var c := XmlNodeToObj(e.children[i], counter);
      if c.None? { return None; }
      assert ChildVals(e, i)[1..] == ChildVals(e, i + 1);
      groups := AddTo(groups, e.children[i].tag, c.value);
    }
    return Some(Dict(entries + GroupEntries(groups)));
  }

  /** Object to element: the specified element, unless it has a refused name or array, is nested
      too deeply, or makes the counter pass the node limit. */
  method BuildElement(tag: string, v: Val, counter: Counter, depth: nat) returns (r: Option<Elem>)
    modifies counter
    ensures r.Some? <==> Fits(Build(tag, v), old(counter.n), depth)
    ensures r.Some? ==> r == Build(tag, v) && counter.n == old(counter.n) + ElemCount(r.value)
    decreases v, 1
  {
    if depth > MAX_DEPTH { return None; }
    if !NameOk(tag) { return None; }
    ghost var start := counter.n;
    counter.n := counter.n + 1;
    if counter.n > MAX_XML_NODES { return None; }
    match v
    case List(_) => return None;
    case Nil =>
      LeafFits(tag, None, start, depth);
      return Some(Elem(tag, [], None, []));
    case Bool(b) =>
      LeafFits(tag, Some(if b then "true" else "false"), start, depth);
      return Some(Elem(tag, [], Some(if b then "true" else "false"), []));
    case Num(t) =>
      LeafFits(tag, Some(t), start, depth);
      return Some(Elem(tag, [], Some(t), []));
    case Str(s) =>
      LeafFits(tag, Some(s), start, depth);
      return Some(Elem(tag, [], Some(s), []));
    case Dict(entries) =>
      var attrs := Attrs(entries);
      if attrs.None? { return None; }
      var found := Lookup(entries, "#text");
      var text := match found { case None => None case Some(t) => BodyText(t) };
      var kids := BuildChildren(v, counter, depth);
      ghost var full := BuildEntries(v, 0);
      if full.Some? { DictFits(tag, attrs.value, text, full.value, start, depth); }
      if kids.None? { return None; }
      return Some(Elem(tag, attrs.value, text, kids.value));
  }

  /** The element exists, stays within the depth limit at `depth`, and with `before` elements
      already counted stays within the node limit. */
  ghost predicate Fits(e: Option<Elem>, before: nat, depth: nat) {
    e.Some? && WithinDepth(e.value, depth) && before + ElemCount(e.value) <= MAX_XML_NODES
  }

  ghost predicate AllFit(es: Option<seq<Elem>>, before: nat, depth: nat) {
    es.Some? && AllWithin(es.value, depth) && before + CountAll(es.value) <= MAX_XML_NODES
  }

  lemma LeafFits(tag: string, text: Option<string>, before: nat, depth: nat)
    requires depth <= MAX_DEPTH
    ensures Fits(Some(Elem(tag, [], text, [])), before, depth) <==> before + 1 <= MAX_XML_NODES
    ensures ElemCount(Elem(tag, [], text, [])) == 1
  {
    var e := Elem(tag, [], text, []);
    assert |e.children| == 0;
    assert CountFrom(e, 0) == 0;
  }

  lemma DictFits(tag: string, attrs: seq<(string, string)>, text: Option<string>, kids: seq<Elem>, before: nat,
                 depth: nat)
    requires depth <= MAX_DEPTH
    ensures Fits(Some(Elem(tag, attrs, text, kids)), before, depth) <==> AllFit(Some(kids), before + 1, depth + 1)
    ensures ElemCount(Elem(tag, attrs, text, kids)) == 1 + CountAll(kids)
  {
    var e := Elem(tag, attrs, text, kids);
    CountAllFrom(e, 0);
    assert e.children[0..] == kids;
  }

  lemma ConcatFits(x: seq<Elem>, y: seq<Elem>, before: nat, depth: nat)
    requires AllWithin(x, depth)
    ensures AllFit(Some(x + y), before, depth) <==> AllFit(Some(y), before + CountAll(x), depth)
    ensures CountAll(x + y) == CountAll(x) + CountAll(y)
  {
    CountAllConcat(x, y);
    assert forall i :: 0 <= i < |y| ==> (x + y)[|x| + i] == y[i];
  }

  function Cat(x: seq<Elem>, y: Option<seq<Elem>>): Option<seq<Elem>> {
    match y case None => None case Some(ys) => Some(x + ys)
  }

  lemma EmptyCat(y: Option<seq<Elem>>)
    ensures Cat([], y) == y
  {
    if y.Some? { assert [] + y.value == y.value; }
  }

  method BuildChildren(v: Val, counter: Counter, depth: nat) returns (r: Option<seq<Elem>>)
    requires v.Dict?
    requires counter.n <= MAX_XML_NODES
    modifies counter
    ensures r.Some? <==> AllFit(BuildEntries(v, 0), old(counter.n), depth + 1)
    ensures r.Some? ==> r == BuildEntries(v, 0) && counter.n == old(counter.n) + CountAll(r.value)
    decreases v, 0
  {
    ghost var start := counter.n;
    var kids: seq<Elem> := [];
    EmptyCat(BuildEntries(v, 0));
    for i := 0 to |v.entries|
      invariant BuildEntries(v, 0) == Cat(kids, BuildEntries(v, i))
      invariant AllWithin(kids, depth + 1)
      invariant counter.n == start + CountAll(kids) && counter.n <= MAX_XML_NODES
    {
      var (key, item) := v.entries[i];
      ghost var rest := BuildEntries(v, i + 1);
      if IsAttr(key) || key == "#text" {
        if rest.Some? { assert [] + rest.value == rest.value; }
      } else {
        var more := BuildEntry(key, item, counter, depth);
        ghost var here := if item.List? then BuildItems(key, item, 0) else Single(Build(key, item));
        if here.Some? && rest.Some? { Associate(kids, here.value, rest.value, start, depth + 1); }
        if more.None? { return None; }
        CountAllConcat(kids, more.value);
        kids := kids + more.value;
      }
    }
    assert kids + [] == kids;
    return Some(kids);
  }

  function Single(e: Option<Elem>): Option<seq<Elem>> {
    match e case None => None case Some(c) => Some([c])
  }

  lemma Associate(kids: seq<Elem>, here: seq<Elem>, rest: seq<Elem>, start: nat, depth: nat)
    requires AllWithin(kids, depth)
    ensures kids + (here + rest) == kids + here + rest
    ensures AllFit(Some(kids + (here + rest)), start, depth) ==> AllFit(Some(here), start + CountAll(kids), depth)
  {
    ConcatFits(kids, here + rest, start, depth);
    if AllFit(Some(here + rest), start + CountAll(kids), depth) {
      FirstFits(here, rest, start + CountAll(kids), depth);
    }
  }

  lemma FirstFits(x: seq<Elem>, y: seq<Elem>, before: nat, depth: nat)
    requires AllFit(Some(x + y), before, depth)
    ensures AllFit(Some(x), before, depth)
  {
    CountAllConcat(x, y);
    forall i | 0 <= i < |x| ensures WithinDepth(x[i], depth) { assert (x + y)[i] == x[i]; }
  }

  /** The children one entry stands for: one per item of an array, or one. */
  method BuildEntry(key: string, item: Val, counter: Counter, depth: nat) returns (r: Option<seq<Elem>>)
    requires counter.n <= MAX_XML_NODES
    modifies counter
    ensures var want := if item.List? then BuildItems(key, item, 0) else Single(Build(key, item));
            && (r.Some? <==> AllFit(want, old(counter.n), depth + 1))
            && (r.Some? ==> r == want && counter.n == old(counter.n) + CountAll(r.value) && counter.n <= MAX_XML_NODES)
    decreases item, 2
  {
    ghost var start := counter.n;
    if !item.List? {
      var c := BuildElement(key, item, counter, depth + 1);
      SingleFits(Build(key, item), start, depth + 1);
      if c.None? { return None; }
      return Some([c.value]);
    }
    var kids: seq<Elem> := [];
    EmptyCat(BuildItems(key, item, 0));
    for i := 0 to |item.items|
      invariant BuildItems(key, item, 0) == Cat(kids, BuildItems(key, item, i))
      invariant AllWithin(kids, depth + 1)
      invariant counter.n == start + CountAll(kids) && counter.n <= MAX_XML_NODES
    {
      ghost var rest := BuildItems(key, item, i + 1);
      var c := BuildElement(key, item.items[i], counter, depth + 1);
      ghost var here := Single(Build(key, item.items[i]));
      SingleFits(Build(key, item.items[i]), start + CountAll(kids), depth + 1);
      if here.Some? && rest.Some? { Associate(kids, here.value, rest.value, start, depth + 1); }
      if c.None? { return None; }
      CountAllConcat(kids, [c.value]);
      kids := kids + [c.value];
    }
    assert kids + [] == kids;
    return Some(kids);
  }

  lemma SingleFits(e: Option<Elem>, before: nat, depth: nat)
    ensures AllFit(Single(e), before, depth) <==> Fits(e, before, depth)
    ensures e.Some? ==> CountAll([e.value]) == ElemCount(e.value)
  {
    if e.Some? {
      var es := [e.value];
      assert es[1..] == [] && es[0] == e.value;
      assert CountAll(es) == ElemCount(e.value);
    }
  }

  // ---- The normal form has the size and depth of the tree it comes from ----

  lemma {:induction false} AddCounts(gs: seq<(string, seq<Elem>)>, tag: string, x: Elem, depth: nat)
    ensures CountAll(Untagged(Flat(AddTo(gs, tag, x)))) == CountAll(Untagged(Flat(gs))) + ElemCount(x)
    ensures AllWithin(Untagged(Flat(AddTo(gs, tag, x))), depth) <==>
            AllWithin(Untagged(Flat(gs)), depth) && WithinDepth(x, depth)
    decreases |gs|
  {
    if gs == [] {
      assert Flat([(tag, [x])]) == Tagged(tag, [x]);
      assert Untagged(Tagged(tag, [x])) == [x];
      assert CountAll([x]) == ElemCount(x) + CountAll([x][1..]);
    } else {
      UntaggedFlat(gs);
      UntaggedFlat(AddTo(gs, tag, x));
      if gs[0].0 == tag {
        assert AddTo(gs, tag, x)[1..] == gs[1..];
        AddInFirst(gs[0].1, x, Untagged(Flat(gs[1..])), depth);
      } else {
        var rest := AddTo(gs[1..], tag, x);
        assert AddTo(gs, tag, x)[1..] == rest;
        AddCounts(gs[1..], tag, x, depth);
        CountAllConcat(gs[0].1, Untagged(Flat(gs[1..])));
        CountAllConcat(gs[0].1, Untagged(Flat(rest)));
        WithinConcat(gs[0].1, Untagged(Flat(gs[1..])), depth);
        WithinConcat(gs[0].1, Untagged(Flat(rest)), depth);
      }
    }
  }

  lemma AddInFirst(g: seq<Elem>, x: Elem, rest: seq<Elem>, depth: nat)
    ensures CountAll(g + [x] + rest) == CountAll(g + rest) + ElemCount(x)
    ensures AllWithin(g + [x] + rest, depth) <==> AllWithin(g + rest, depth) && WithinDepth(x, depth)
  {
    CountAllConcat(g, rest);
    CountAllConcat(g + [x], rest);
    CountAllConcat(g, [x]);
    assert CountAll([x]) == ElemCount(x) + CountAll([x][1..]);
    WithinConcat(g, rest, depth);
    WithinConcat(g + [x], rest, depth);
    WithinConcat(g, [x], depth);
    assert [x][0] == x;
  }

  lemma WithinConcat(x: seq<Elem>, y: seq<Elem>, depth: nat)
    ensures AllWithin(x + y, depth) <==> AllWithin(x, depth) && AllWithin(y, depth)
  {
    assert forall i :: 0 <= i < |x| ==> (x + y)[i] == x[i];
    assert forall i :: 0 <= i < |y| ==> (x + y)[|x| + i] == y[i];
  }

  lemma {:induction false} GroupCounts(gs: seq<(string, seq<Elem>)>, xs: seq<(string, Elem)>, depth: nat)
    ensures CountAll(Untagged(Flat(Group(gs, xs)))) == CountAll(Untagged(Flat(gs))) + CountAll(Untagged(xs))
    ensures AllWithin(Untagged(Flat(Group(gs, xs))), depth) <==>
            AllWithin(Untagged(Flat(gs)), depth) && AllWithin(Untagged(xs), depth)
    decreases |xs|
  {
    if xs != [] {
      AddCounts(gs, xs[0].0, xs[0].1, depth);
      GroupCounts(AddTo(gs, xs[0].0, xs[0].1), xs[1..], depth);
      assert Untagged(xs) == [xs[0].1] + Untagged(xs[1..]);
      WithinConcat([xs[0].1], Untagged(xs[1..]), depth);
      assert [xs[0].1][0] == xs[0].1;
    }
  }

  lemma {:induction false} NormalSize(e: Elem, depth: nat)
    ensures ElemCount(Normal(e)) == ElemCount(e)
    ensures WithinDepth(Normal(e), depth) <==> WithinDepth(e, depth)
    decreases e, |e.children| + 1
  {
    var n := Normal(e);
    PairsSize(e, 0, depth + 1);
    GroupCounts([], NormalPairs(e, 0), depth + 1);
    CountAllFrom(n, 0);
    assert n.children[0..] == n.children;
    assert Untagged(Flat<Elem>([])) == [];
    assert AllWithin(n.children, depth + 1) <==> AllWithin(Untagged(NormalPairs(e, 0)), depth + 1);
  }

  lemma {:induction false} PairsSize(e: Elem, i: nat, depth: nat)
    requires i <= |e.children|
    ensures CountAll(Untagged(NormalPairs(e, i))) == CountFrom(e, i)
    ensures AllWithin(Untagged(NormalPairs(e, i)), depth) <==>
            forall j :: i <= j < |e.children| ==> WithinDepth(e.children[j], depth)
    decreases e, |e.children| - i
  {
    if i < |e.children| {
      var c := e.children[i];
      NormalSize(c, depth);
      PairsSize(e, i + 1, depth);
      var rest := Untagged(NormalPairs(e, i + 1));
      assert Untagged(NormalPairs(e, i)) == [Normal(c)] + rest;
      CountAllConcat([Normal(c)], rest);
      assert CountAll([Normal(c)]) == ElemCount(Normal(c)) + CountAll([Normal(c)][1..]);
      WithinConcat([Normal(c)], rest, depth);
      assert [Normal(c)][0] == Normal(c);
    }
  }

  /** A tree with accepted names survives the way there and back exactly when it lies within the
      limits: the converters refuse nothing else. */
  lemma RoundTripWithinLimits(e: Elem)
    requires NamesOk(e)
    ensures Fits(Build(e.tag, ToObj(e)), 0, 0) <==> WithinDepth(e, 0) && ElemCount(e) <= MAX_XML_NODES
  {
    RoundTrip(e);
    NormalSize(e, 0);
  }
}
