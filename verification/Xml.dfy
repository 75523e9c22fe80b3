/** Converting XML element trees to JSON objects and back. Children are grouped by tag, so the
    way there and back is a normal form. */
module Xml {
  import opened Text

  /** An element: attributes in document order, the text before the first child, the children. */
  datatype Elem = Elem(tag: string, attrs: seq<(string, string)>, text: Option<string>, children: seq<Elem>)

  /** JSON values; a number is kept as the text Python prints for it, an object as its entries in
      insertion order. */
  datatype Val =
    | Nil
    | Bool(b: bool)
    | Num(text: string)
    | Str(s: string)
    | List(items: seq<Val>)
    | Dict(entries: seq<(string, Val)>)

  // ---- Grouping pairs by their first component ----

  /** `setdefault(tag, []).append(x)` on groups in order of first appearance. */
  function AddTo<T>(gs: seq<(string, seq<T>)>, tag: string, x: T): seq<(string, seq<T>)> {
    if gs == [] then [(tag, [x])]
    else if gs[0].0 == tag then [(tag, gs[0].1 + [x])] + gs[1..]
    else [gs[0]] + AddTo(gs[1..], tag, x)
  }

  function Group<T>(acc: seq<(string, seq<T>)>, xs: seq<(string, T)>): seq<(string, seq<T>)>
    decreases |xs|
  {
    if xs == [] then acc else Group(AddTo(acc, xs[0].0, xs[0].1), xs[1..])
  }

  function Tagged<T>(tag: string, xs: seq<T>): (r: seq<(string, T)>)
    ensures |r| == |xs| && forall i :: 0 <= i < |r| ==> r[i] == (tag, xs[i])
  {
    if xs == [] then [] else [(tag, xs[0])] + Tagged(tag, xs[1..])
  }

  function Flat<T>(gs: seq<(string, seq<T>)>): seq<(string, T)> {
    if gs == [] then [] else Tagged(gs[0].0, gs[0].1) + Flat(gs[1..])
  }

  function Select<T>(xs: seq<(string, T)>, tag: string): seq<T> {
    if xs == [] then [] else (if xs[0].0 == tag then [xs[0].1] else []) + Select(xs[1..], tag)
  }

  ghost predicate ProperGroups<T>(gs: seq<(string, seq<T>)>) {
    && (forall i, j :: 0 <= i < j < |gs| ==> gs[i].0 != gs[j].0)
    && (forall i :: 0 <= i < |gs| ==> gs[i].1 != [])
  }

  lemma {:induction false} AddToProper<T>(gs: seq<(string, seq<T>)>, tag: string, x: T)
    requires ProperGroups(gs)
    ensures ProperGroups(AddTo(gs, tag, x))
    ensures forall i :: 0 <= i < |AddTo(gs, tag, x)| ==>
              AddTo(gs, tag, x)[i].0 == tag || exists j :: 0 <= j < |gs| && gs[j].0 == AddTo(gs, tag, x)[i].0
    decreases |gs|
  {
    if gs != [] && gs[0].0 != tag {
      AddToProper(gs[1..], tag, x);
      var r := AddTo(gs[1..], tag, x);
      forall i | 0 <= i < |r| ensures r[i].0 == tag || exists j :: 0 < j < |gs| && gs[j].0 == r[i].0 {
        if r[i].0 != tag {
          var j :| 0 <= j < |gs[1..]| && gs[1..][j].0 == r[i].0;
          assert gs[j + 1].0 == r[i].0;
        }
      }
      ProperCons(gs, r, tag);
    } else if gs != [] {
      assert gs[0].0 == tag;
    }
  }

  /** A first group stays in front of groups whose tags are the new one or those of later groups. */
  lemma ProperCons<T>(gs: seq<(string, seq<T>)>, r: seq<(string, seq<T>)>, tag: string)
    requires gs != [] && ProperGroups(gs) && gs[0].0 != tag && ProperGroups(r)
    requires forall i :: 0 <= i < |r| ==> r[i].0 == tag || exists j :: 0 < j < |gs| && gs[j].0 == r[i].0
    ensures var whole := [gs[0]] + r;
            && ProperGroups(whole)
            && forall i :: 0 <= i < |whole| ==> whole[i].0 == tag || exists j :: 0 <= j < |gs| && gs[j].0 == whole[i].0
  {
    var whole := [gs[0]] + r;
    forall i | 0 < i < |whole|
      ensures whole[i].0 != gs[0].0 && (whole[i].0 == tag || exists j :: 0 <= j < |gs| && gs[j].0 == whole[i].0)
    {
      assert whole[i] == r[i - 1];
    }
    forall i, j | 0 < i < j < |whole| ensures whole[i].0 != whole[j].0 {
      assert whole[i] == r[i - 1] && whole[j] == r[j - 1];
    }
  }

  lemma {:induction false} GroupProper<T>(acc: seq<(string, seq<T>)>, xs: seq<(string, T)>)
    requires ProperGroups(acc)
    ensures ProperGroups(Group(acc, xs))
    decreases |xs|
  {
    if xs != [] {
      AddToProper(acc, xs[0].0, xs[0].1);
      GroupProper(AddTo(acc, xs[0].0, xs[0].1), xs[1..]);
    }
  }

  lemma {:induction false} SelectConcat<T>(x: seq<(string, T)>, y: seq<(string, T)>, tag: string)
    ensures Select(x + y, tag) == Select(x, tag) + Select(y, tag)
    decreases |x|
  {
    if x == [] {
      assert x + y == y;
    } else {
      assert (x + y)[0] == x[0] && (x + y)[1..] == x[1..] + y;
      SelectConcat(x[1..], y, tag);
      Reassociate(if x[0].0 == tag then [x[0].1] else [], Select(x[1..], tag), Select(y, tag));
    }
  }

  lemma {:induction false} SelectTagged<T>(t: string, xs: seq<T>, tag: string)
    ensures Select(Tagged(t, xs), tag) == if t == tag then xs else []
    decreases |xs|
  {
    if xs != [] {
      SelectTagged(t, xs[1..], tag);
      assert Tagged(t, xs)[1..] == Tagged(t, xs[1..]);
    }
  }

  lemma {:induction false} AddToSelect<T>(gs: seq<(string, seq<T>)>, t: string, x: T, tag: string)
    requires ProperGroups(gs)
    ensures Select(Flat(AddTo(gs, t, x)), tag) == Select(Flat(gs), tag) + (if t == tag then [x] else [])
    decreases |gs|
  {
    if gs == [] {
      assert Flat([(t, [x])]) == Tagged(t, [x]) + [];
      SelectTagged(t, [x], tag);
      assert Tagged(t, [x]) + [] == Tagged(t, [x]);
    } else {
      if gs[0].0 == t {
        AddToFirst(gs, t, x, tag);
      } else {
        assert AddTo(gs, t, x)[1..] == AddTo(gs[1..], t, x);
        SelectConcat(Tagged(gs[0].0, gs[0].1), Flat(gs[1..]), tag);
        SelectConcat(Tagged(gs[0].0, gs[0].1), Flat(AddTo(gs[1..], t, x)), tag);
        AddToSelect(gs[1..], t, x, tag);
        Reassociate(Select(Tagged(gs[0].0, gs[0].1), tag), Select(Flat(gs[1..]), tag), if t == tag then [x] else []);
      }
    }
  }

  lemma AddToFirst<T>(gs: seq<(string, seq<T>)>, t: string, x: T, tag: string)
    requires ProperGroups(gs) && gs != [] && gs[0].0 == t
    ensures Select(Flat(AddTo(gs, t, x)), tag) == Select(Flat(gs), tag) + (if t == tag then [x] else [])
  {
    assert AddTo(gs, t, x)[1..] == gs[1..];
    SelectFirst(gs, tag);
    SelectFirst(AddTo(gs, t, x), tag);
    if t == tag { NotLater(gs, tag); }
  }

  lemma SelectFirst<T>(gs: seq<(string, seq<T>)>, tag: string)
    requires gs != []
    ensures Select(Flat(gs), tag) == (if gs[0].0 == tag then gs[0].1 else []) + Select(Flat(gs[1..]), tag)
  {
    SelectConcat(Tagged(gs[0].0, gs[0].1), Flat(gs[1..]), tag);
    SelectTagged(gs[0].0, gs[0].1, tag);
  }

  lemma NotLater<T>(gs: seq<(string, seq<T>)>, tag: string)
    requires ProperGroups(gs) && gs != [] && gs[0].0 == tag
    ensures Select(Flat(gs[1..]), tag) == []
  {
    NoSelect(gs[1..], tag);
  }

  lemma {:induction false} NoSelect<T>(gs: seq<(string, seq<T>)>, tag: string)
    requires forall i :: 0 <= i < |gs| ==> gs[i].0 != tag
    ensures Select(Flat(gs), tag) == []
    decreases |gs|
  {
    if gs != [] {
      SelectConcat(Tagged(gs[0].0, gs[0].1), Flat(gs[1..]), tag);
      SelectTagged(gs[0].0, gs[0].1, tag);
      NoSelect(gs[1..], tag);
    }
  }

  /** Grouping keeps, for every tag, its items in their order. */
  lemma {:induction false} GroupSelect<T>(acc: seq<(string, seq<T>)>, xs: seq<(string, T)>, tag: string)
    requires ProperGroups(acc)
    ensures Select(Flat(Group(acc, xs)), tag) == Select(Flat(acc), tag) + Select(xs, tag)
    decreases |xs|
  {
    if xs != [] {
      var next := AddTo(acc, xs[0].0, xs[0].1);
      AddToProper(acc, xs[0].0, xs[0].1);
      AddToSelect(acc, xs[0].0, xs[0].1, tag);
      GroupSelect(next, xs[1..], tag);
      var one := if xs[0].0 == tag then [xs[0].1] else [];
      Reassociate(Select(Flat(acc), tag), one, Select(xs[1..], tag));
    }
  }

  lemma Reassociate<T>(x: seq<T>, y: seq<T>, z: seq<T>)
    ensures x + y + z == x + (y + z)
  {
  }

  // ---- Grouping what is already grouped changes nothing ----

  lemma {:induction false} AddToLast<T>(gs: seq<(string, seq<T>)>, tag: string, xs: seq<T>, x: T)
    requires forall i :: 0 <= i < |gs| ==> gs[i].0 != tag
    ensures AddTo(gs + [(tag, xs)], tag, x) == gs + [(tag, xs + [x])]
    ensures AddTo(gs, tag, x) == gs + [(tag, [x])]
    decreases |gs|
  {
    if gs != [] {
      assert (gs + [(tag, xs)])[1..] == gs[1..] + [(tag, xs)];
      AddToLast(gs[1..], tag, xs, x);
      assert gs == [gs[0]] + gs[1..];
    }
  }

  lemma {:induction false} GroupTagged<T>(gs: seq<(string, seq<T>)>, tag: string, xs: seq<T>, ys: seq<T>,
                                          rest: seq<(string, T)>)
    requires forall i :: 0 <= i < |gs| ==> gs[i].0 != tag
    ensures Group(gs + [(tag, xs)], Tagged(tag, ys) + rest) == Group(gs + [(tag, xs + ys)], rest)
    decreases |ys|
  {
    if ys == [] {
      assert Tagged(tag, ys) + rest == rest && xs + ys == xs;
    } else {
      var later := Tagged(tag, ys[1..]) + rest;
      Reassociate([(tag, ys[0])], Tagged(tag, ys[1..]), rest);
      GroupCons(gs + [(tag, xs)], (tag, ys[0]), later);
      AddToLast(gs, tag, xs, ys[0]);
      GroupTagged(gs, tag, xs + [ys[0]], ys[1..], rest);
      Reassociate(xs, [ys[0]], ys[1..]);
      assert [ys[0]] + ys[1..] == ys;
    }
  }

  lemma GroupCons<T>(gs: seq<(string, seq<T>)>, p: (string, T), rest: seq<(string, T)>)
    ensures Group(gs, [p] + rest) == Group(AddTo(gs, p.0, p.1), rest)
  {
    assert ([p] + rest)[1..] == rest;
  }

  lemma {:induction false} Regroup<T>(done: seq<(string, seq<T>)>, gs: seq<(string, seq<T>)>)
    requires ProperGroups(done + gs)
    ensures Group(done, Flat(gs)) == done + gs
    decreases |gs|
  {
    if gs == [] {
      assert done + gs == done;
    } else {
      assert (done + gs)[|done|] == gs[0];
      forall i | 0 <= i < |done| ensures done[i].0 != gs[0].0 { assert (done + gs)[i] == done[i]; }
      GroupFirst(done, gs[0].0, gs[0].1, Flat(gs[1..]));
      assert done + [gs[0]] + gs[1..] == done + gs;
      Regroup(done + [gs[0]], gs[1..]);
    }
  }

  /** A whole group in a row becomes one new group. */
  lemma GroupFirst<T>(done: seq<(string, seq<T>)>, t: string, ys: seq<T>, rest: seq<(string, T)>)
    requires ys != [] && forall i :: 0 <= i < |done| ==> done[i].0 != t
    ensures Group(done, Tagged(t, ys) + rest) == Group(done + [(t, ys)], rest)
  {
    var all := Tagged(t, ys) + rest;
    assert all[0] == (t, ys[0]) && all[1..] == Tagged(t, ys[1..]) + rest;
    AddToLast(done, t, [], ys[0]);
    GroupTagged(done, t, [ys[0]], ys[1..], rest);
    assert [ys[0]] + ys[1..] == ys;
  }

  // ---- Element to object ----

  /** The stripped text, when there is any. */
  function Trimmed(text: Option<string>): Option<string> {
    if text.Some? && Strip(text.value) != "" then Some(Strip(text.value)) else None
  }

  function AttrEntries(attrs: seq<(string, string)>): (r: seq<(string, Val)>)
    ensures |r| == |attrs| && forall i :: 0 <= i < |r| ==> r[i] == ("@" + attrs[i].0, Str(attrs[i].1))
  {
    if attrs == [] then [] else [("@" + attrs[0].0, Str(attrs[0].1))] + AttrEntries(attrs[1..])
  }

  function TextEntry(text: Option<string>): seq<(string, Val)> {
    match Trimmed(text)
    case None => []
    case Some(s) => [("#text", Str(s))]
  }

  function GroupEntries(gs: seq<(string, seq<Val>)>): (r: seq<(string, Val)>)
    ensures |r| == |gs| && forall i :: 0 <= i < |r| ==> r[i] == (gs[i].0, List(gs[i].1))
  {
    if gs == [] then [] else [(gs[0].0, List(gs[0].1))] + GroupEntries(gs[1..])
  }

  function ToObj(e: Elem): Val
    decreases e, 1
  {
    Dict(AttrEntries(e.attrs) + TextEntry(e.text) + GroupEntries(Group([], ChildVals(e, 0))))
  }

  function ChildVals(e: Elem, i: nat): (r: seq<(string, Val)>)
    requires i <= |e.children|
    ensures |r| == |e.children| - i
    decreases e, 0, |e.children| - i
  {
    if i == |e.children| then [] else [(e.children[i].tag, ToObj(e.children[i]))] + ChildVals(e, i + 1)
  }

  // ---- Object to element ----

  predicate NameStart(c: char) { 'A' <= c <= 'Z' || 'a' <= c <= 'z' || c == '_' }

  predicate NameChar(c: char) { NameStart(c) || IsDigit(c) || c == '.' || c == '-' }

  predicate PlainName(s: string) {
    s != "" && NameStart(s[0]) && forall i :: 0 <= i < |s| ==> NameChar(s[i])
  }

  /** The accepted names; the pattern's `$` also lets one trailing newline through. */
  predicate NameOk(s: string) {
    PlainName(s) || (s != "" && s[|s| - 1] == '\n' && PlainName(s[..|s| - 1]))
  }

  predicate IsAttr(key: string) { key != "" && key[0] == '@' }

  /** Text of a scalar used as an attribute; None when it is skipped. */
  function AttrText(v: Val): Option<string> {
    match v
    case Bool(b) => Some(if b then "true" else "false")
    case Num(t) => Some(t)
    case Str(s) => Some(s)
    case _ => None
  }

  /** Text of a "#text" entry; here a boolean prints with a capital. */
  function BodyText(v: Val): Option<string> {
    match v
    case Bool(b) => Some(if b then "True" else "False")
    case Num(t) => Some(t)
    case Str(s) => Some(s)
    case _ => None
  }

  function Attrs(entries: seq<(string, Val)>): Option<seq<(string, string)>> {
    if entries == [] then Some([])
    else
      var (key, item) := entries[0];
      if !IsAttr(key) then Attrs(entries[1..])
      else if !NameOk(key[1..]) then None
      else match Attrs(entries[1..])
        case None => None
        case Some(rest) =>
          match AttrText(item)
          case None => Some(rest)
          case Some(s) => Some([(key[1..], s)] + rest)
  }

  function Lookup(entries: seq<(string, Val)>, key: string): Option<Val> {
    if entries == [] then None else if entries[0].0 == key then Some(entries[0].1) else Lookup(entries[1..], key)
  }

  /** The element for a value, before the depth and size limits; None when a name is refused or
      an array stands where an element is needed. */
  function Build(tag: string, v: Val): Option<Elem>
    decreases v, 1
  {
    if !NameOk(tag) then None
    else match v
      case List(_) => None
      case Nil => Some(Elem(tag, [], None, []))
      case Bool(b) => Some(Elem(tag, [], Some(if b then "true" else "false"), []))
      case Num(t) => Some(Elem(tag, [], Some(t), []))
      case Str(s) => Some(Elem(tag, [], Some(s), []))
      case Dict(entries) =>
        match (Attrs(entries), BuildEntries(v, 0))
        case (Some(attrs), Some(children)) =>
          var text := match Lookup(entries, "#text") case None => None case Some(t) => BodyText(t);
          Some(Elem(tag, attrs, text, children))
        case _ => None
  }

  function BuildEntries(v: Val, i: nat): Option<seq<Elem>>
    requires v.Dict? && i <= |v.entries|
    decreases v, 0, |v.entries| - i
  {
    if i == |v.entries| then Some([])
    else
      var (key, item) := v.entries[i];
      var here :=
        if IsAttr(key) || key == "#text" then Some([])
        else if item.List? then BuildItems(key, item, 0)
        else match Build(key, item) case None => None case Some(c) => Some([c]);
      match (here, BuildEntries(v, i + 1))
      case (Some(x), Some(y)) => Some(x + y)
      case _ => None
  }

  function BuildItems(key: string, list: Val, i: nat): Option<seq<Elem>>
    requires list.List? && i <= |list.items|
    decreases list, 0, |list.items| - i
  {
    if i == |list.items| then Some([])
    else match (Build(key, list.items[i]), BuildItems(key, list, i + 1))
      case (Some(c), Some(rest)) => Some([c] + rest)
      case _ => None
  }

  // ---- The normal form ----

  function Normal(e: Elem): Elem
    decreases e, 1
  {
    Elem(e.tag, e.attrs, Trimmed(e.text), Untagged(Flat(Group([], NormalPairs(e, 0)))))
  }

  function NormalPairs(e: Elem, i: nat): (r: seq<(string, Elem)>)
    requires i <= |e.children|
    ensures |r| == |e.children| - i
    decreases e, 0, |e.children| - i
  {
    if i == |e.children| then [] else [(e.children[i].tag, Normal(e.children[i]))] + NormalPairs(e, i + 1)
  }

  function Untagged<T>(xs: seq<(string, T)>): (r: seq<T>)
    ensures |r| == |xs| && forall i :: 0 <= i < |r| ==> r[i] == xs[i].1
  {
    if xs == [] then [] else [xs[0].1] + Untagged(xs[1..])
  }

  /** Tags and attribute names the way back accepts. */
  predicate NamesOk(e: Elem)
    decreases e
  {
    && NameOk(e.tag)
    && (forall i | 0 <= i < |e.attrs| :: NameOk(e.attrs[i].0))
    && (forall i | 0 <= i < |e.children| :: NamesOk(e.children[i]))
  }

  /** v is the object of n, and n is what v builds. */
  ghost predicate Mates(tag: string, v: Val, n: Elem) {
    n.tag == tag && NameOk(tag) && Build(tag, v) == Some(n) && ToObj(n) == v
  }

  ghost predicate MatedGroup(tag: string, vs: seq<Val>, ns: seq<Elem>) {
    |vs| == |ns| && forall i :: 0 <= i < |vs| ==> Mates(tag, vs[i], ns[i])
  }

  ghost predicate Mated(gs: seq<(string, seq<Val>)>, hs: seq<(string, seq<Elem>)>) {
    && |gs| == |hs|
    && forall i :: 0 <= i < |gs| ==> gs[i].0 == hs[i].0 && MatedGroup(gs[i].0, gs[i].1, hs[i].1)
  }

  lemma {:induction false} AddMates(gs: seq<(string, seq<Val>)>, hs: seq<(string, seq<Elem>)>, tag: string, v: Val,
                                    n: Elem)
    requires Mated(gs, hs) && Mates(tag, v, n)
    ensures Mated(AddTo(gs, tag, v), AddTo(hs, tag, n))
    decreases |gs|
  {
    if gs != [] && gs[0].0 != tag {
      AddMates(gs[1..], hs[1..], tag, v, n);
      ConsMated(gs[0], hs[0], AddTo(gs[1..], tag, v), AddTo(hs[1..], tag, n));
    } else if gs != [] {
      MatedMore(tag, gs[0].1, hs[0].1, v, n);
      ConsMated((tag, gs[0].1 + [v]), (tag, hs[0].1 + [n]), gs[1..], hs[1..]);
    }
  }

  lemma MatedMore(tag: string, vs: seq<Val>, ns: seq<Elem>, v: Val, n: Elem)
    requires MatedGroup(tag, vs, ns) && Mates(tag, v, n)
    ensures MatedGroup(tag, vs + [v], ns + [n])
  {
  }

  lemma ConsMated(g: (string, seq<Val>), h: (string, seq<Elem>), gs: seq<(string, seq<Val>)>,
                  hs: seq<(string, seq<Elem>)>)
    requires g.0 == h.0 && MatedGroup(g.0, g.1, h.1) && Mated(gs, hs)
    ensures Mated([g] + gs, [h] + hs)
  {
  }

  lemma {:induction false} GroupMates(gs: seq<(string, seq<Val>)>, hs: seq<(string, seq<Elem>)>,
                                      vs: seq<(string, Val)>, ns: seq<(string, Elem)>)
    requires Mated(gs, hs) && |vs| == |ns|
    requires forall i :: 0 <= i < |vs| ==> vs[i].0 == ns[i].0 && Mates(vs[i].0, vs[i].1, ns[i].1)
    ensures Mated(Group(gs, vs), Group(hs, ns))
    decreases |vs|
  {
    if vs != [] {
      AddMates(gs, hs, vs[0].0, vs[0].1, ns[0].1);
      GroupMates(AddTo(gs, vs[0].0, vs[0].1), AddTo(hs, vs[0].0, ns[0].1), vs[1..], ns[1..]);
    }
  }

  predicate AllSpace(s: string) { forall i :: 0 <= i < |s| ==> IsSpace(s[i]) }

  /** Stripping takes off white space at both ends, and all of it. */
  lemma {:induction false} StripExactly(s: string) returns (before: string, after: string)
    ensures s == before + Strip(s) + after && AllSpace(before) && AllSpace(after)
    ensures Strip(s) != "" ==> !IsSpace(Strip(s)[0]) && !IsSpace(Strip(s)[|Strip(s)| - 1])
    decreases |s|
  {
    if s != "" && IsSpace(s[0]) {
      before, after := StripExactly(s[1..]);
      SpaceInFront(s, before, Strip(s[1..]), after);
      before := [s[0]] + before;
    } else if s != "" && IsSpace(s[|s| - 1]) {
      before, after := StripExactly(s[..|s| - 1]);
      SpaceBehind(s, before, Strip(s[..|s| - 1]), after);
      after := after + [s[|s| - 1]];
    } else {
      before, after := "", "";
      assert "" + s + "" == s;
    }
  }

  lemma SpaceInFront(s: string, before: string, core: string, after: string)
    requires s != "" && IsSpace(s[0]) && s[1..] == before + core + after && AllSpace(before)
    ensures s == [s[0]] + before + core + after && AllSpace([s[0]] + before)
  {
    assert s == [s[0]] + s[1..];
  }

  lemma SpaceBehind(s: string, before: string, core: string, after: string)
    requires s != "" && IsSpace(s[|s| - 1]) && s[..|s| - 1] == before + core + after && AllSpace(after)
    ensures s == before + core + (after + [s[|s| - 1]]) && AllSpace(after + [s[|s| - 1]])
  {
    assert s == s[..|s| - 1] + [s[|s| - 1]];
  }

  lemma {:induction false} StripIdempotent(s: string)
    ensures Strip(Strip(s)) == Strip(s)
    decreases |s|
  {
    if s != "" && IsSpace(s[0]) {
      StripIdempotent(s[1..]);
    } else if s != "" && IsSpace(s[|s| - 1]) {
      StripIdempotent(s[..|s| - 1]);
    }
  }

  lemma TrimmedIdempotent(t: Option<string>)
    ensures Trimmed(Trimmed(t)) == Trimmed(t)
  {
    if t.Some? { StripIdempotent(t.value); }
  }

  // ---- There and back ----

  lemma {:induction false} BuildGroup(tag: string, vs: seq<Val>, ns: seq<Elem>, i: nat)
    requires MatedGroup(tag, vs, ns) && i <= |vs|
    ensures GroupBuilt(tag, vs, ns, i)
    decreases |vs| - i
  {
    if i < |vs| {
      BuildGroup(tag, vs, ns, i + 1);
      GroupBuiltStep(tag, vs, ns, i);
    } else {
      assert ns[i..] == [];
    }
  }

  ghost predicate GroupBuilt(tag: string, vs: seq<Val>, ns: seq<Elem>, i: nat)
    requires i <= |vs| && |vs| == |ns|
  {
    BuildItems(tag, List(vs), i) == Some(ns[i..])
  }

  lemma GroupBuiltStep(tag: string, vs: seq<Val>, ns: seq<Elem>, i: nat)
    requires MatedGroup(tag, vs, ns) && i < |vs| && GroupBuilt(tag, vs, ns, i + 1)
    ensures GroupBuilt(tag, vs, ns, i)
  {
    assert Mates(tag, vs[i], ns[i]);
    Suffix(ns, i);
  }

  lemma Suffix<T>(s: seq<T>, i: nat)
    requires i < |s|
    ensures s[i..] == [s[i]] + s[i + 1..]
  {
  }

  lemma {:induction false} BuildGroups(v: Val, i: nat, gs: seq<(string, seq<Val>)>, hs: seq<(string, seq<Elem>)>)
    requires v.Dict? && i <= |v.entries| && v.entries[i..] == GroupEntries(gs)
    requires Mated(gs, hs)
    requires forall j :: 0 <= j < |gs| ==> NameOk(gs[j].0)
    ensures BuildEntries(v, i) == Some(Untagged(Flat(hs)))
    decreases |gs|
  {
    if gs != [] {
      var (t, vs) := gs[0];
      assert v.entries[i] == v.entries[i..][0] == (t, List(vs));
      assert !IsAttr(t) && t != "#text";
      BuildGroup(t, vs, hs[0].1, 0);
      assert v.entries[i + 1..] == v.entries[i..][1..] == GroupEntries(gs[1..]);
      BuildGroups(v, i + 1, gs[1..], hs[1..]);
      assert hs[0].1[0..] == hs[0].1;
      UntaggedFlat(hs);
    } else {
      assert |v.entries[i..]| == 0;
    }
  }

  lemma UntaggedFlat<T>(hs: seq<(string, seq<T>)>)
    requires hs != []
    ensures Untagged(Flat(hs)) == hs[0].1 + Untagged(Flat(hs[1..]))
  {
  }

  /** Attributes and text come first among the entries and build no children. */
  lemma {:induction false} SkipHead(v: Val, i: nat, n: nat)
    requires v.Dict? && i <= n <= |v.entries|
    requires forall j :: i <= j < n ==> IsAttr(v.entries[j].0) || v.entries[j].0 == "#text"
    ensures BuildEntries(v, i) == BuildEntries(v, n)
    decreases n - i
  {
    if i < n {
      SkipHead(v, i + 1, n);
      var next := BuildEntries(v, i + 1);
      if next.Some? { assert [] + next.value == next.value; }
    }
  }

  lemma {:induction false} AttrsBack(attrs: seq<(string, string)>, rest: seq<(string, Val)>)
    requires forall i :: 0 <= i < |attrs| ==> NameOk(attrs[i].0)
    requires forall i :: 0 <= i < |rest| ==> !IsAttr(rest[i].0)
    ensures Attrs(AttrEntries(attrs) + rest) == Some(attrs)
    decreases |attrs|
  {
    if attrs == [] {
      assert AttrEntries(attrs) + rest == rest;
      NoAttrs(rest);
    } else {
      var all := AttrEntries(attrs) + rest;
      assert all[0] == ("@" + attrs[0].0, Str(attrs[0].1));
      assert all[1..] == AttrEntries(attrs[1..]) + rest;
      assert ("@" + attrs[0].0)[1..] == attrs[0].0;
      AttrsBack(attrs[1..], rest);
      assert [attrs[0]] + attrs[1..] == attrs;
    }
  }

  lemma {:induction false} NoAttrs(rest: seq<(string, Val)>)
    requires forall i :: 0 <= i < |rest| ==> !IsAttr(rest[i].0)
    ensures Attrs(rest) == Some([])
    decreases |rest|
  {
    if rest != [] { NoAttrs(rest[1..]); }
  }

  lemma {:induction false} LookupSkip(x: seq<(string, Val)>, y: seq<(string, Val)>, key: string)
    requires forall i :: 0 <= i < |x| ==> x[i].0 != key
    ensures Lookup(x + y, key) == Lookup(y, key)
    decreases |x|
  {
    if x == [] {
      assert x + y == y;
    } else {
      assert (x + y)[1..] == x[1..] + y;
      LookupSkip(x[1..], y, key);
    }
  }

  lemma {:induction false} TagsOk(gs: seq<(string, seq<Val>)>, xs: seq<(string, Val)>)
    requires forall i :: 0 <= i < |gs| ==> NameOk(gs[i].0)
    requires forall i :: 0 <= i < |xs| ==> NameOk(xs[i].0)
    ensures forall i :: 0 <= i < |Group(gs, xs)| ==> NameOk(Group(gs, xs)[i].0)
    decreases |xs|
  {
    if xs != [] {
      AddTagOk(gs, xs[0].0, xs[0].1);
      TagsOk(AddTo(gs, xs[0].0, xs[0].1), xs[1..]);
    }
  }

  lemma {:induction false} AddTagOk(gs: seq<(string, seq<Val>)>, tag: string, v: Val)
    requires NameOk(tag) && forall i :: 0 <= i < |gs| ==> NameOk(gs[i].0)
    ensures forall i :: 0 <= i < |AddTo(gs, tag, v)| ==> NameOk(AddTo(gs, tag, v)[i].0)
    decreases |gs|
  {
    if gs != [] && gs[0].0 != tag { AddTagOk(gs[1..], tag, v); }
  }

  /** The entries of an object, rebuilt. */
  lemma BuildObject(tag: string, attrs: seq<(string, string)>, text: Option<string>,
                    gs: seq<(string, seq<Val>)>, hs: seq<(string, seq<Elem>)>)
    requires NameOk(tag) && forall i :: 0 <= i < |attrs| ==> NameOk(attrs[i].0)
    requires Mated(gs, hs) && forall j :: 0 <= j < |gs| ==> NameOk(gs[j].0)
    ensures Build(tag, Dict(AttrEntries(attrs) + TextEntry(text) + GroupEntries(gs))) ==
            Some(Elem(tag, attrs, Trimmed(text), Untagged(Flat(hs))))
  {
    var x, y, z := AttrEntries(attrs), TextEntry(text), GroupEntries(gs);
    AttrsPart(attrs, text, gs);
    TextPart(x, text, gs);
    var v := Dict(x + y + z);
    SkipHead(v, 0, |x + y|);
    assert v.entries[|x + y|..] == z;
    BuildGroups(v, |x + y|, gs, hs);
  }

  lemma AttrsPart(attrs: seq<(string, string)>, text: Option<string>, gs: seq<(string, seq<Val>)>)
    requires forall i :: 0 <= i < |attrs| ==> NameOk(attrs[i].0)
    requires forall j :: 0 <= j < |gs| ==> NameOk(gs[j].0)
    ensures Attrs(AttrEntries(attrs) + TextEntry(text) + GroupEntries(gs)) == Some(attrs)
  {
    var x, y, z := AttrEntries(attrs), TextEntry(text), GroupEntries(gs);
    TextThenGroups(text, gs);
    Reassociate(x, y, z);
    AttrsBack(attrs, y + z);
  }

  lemma TextThenGroups(text: Option<string>, gs: seq<(string, seq<Val>)>)
    requires forall j :: 0 <= j < |gs| ==> NameOk(gs[j].0)
    ensures var rest := TextEntry(text) + GroupEntries(gs);
            forall j :: 0 <= j < |rest| ==> !IsAttr(rest[j].0)
  {
    var y, z := TextEntry(text), GroupEntries(gs);
    var rest := y + z;
    forall j | 0 <= j < |rest| ensures !IsAttr(rest[j].0) {
      if j >= |y| { assert rest[j] == z[j - |y|]; }
    }
  }

  lemma TextPart(x: seq<(string, Val)>, text: Option<string>, gs: seq<(string, seq<Val>)>)
    requires forall i :: 0 <= i < |x| ==> IsAttr(x[i].0)
    requires forall j :: 0 <= j < |gs| ==> NameOk(gs[j].0)
    ensures Lookup(x + TextEntry(text) + GroupEntries(gs), "#text") ==
            if Trimmed(text).Some? then Some(Str(Trimmed(text).value)) else None
  {
    var y, z := TextEntry(text), GroupEntries(gs);
    forall i | 0 <= i < |x| ensures x[i].0 != "#text" { assert x[i].0[0] == '@'; }
    assert x + y + z == x + (y + z);
    LookupSkip(x, y + z, "#text");
    TextFirst(text, gs);
  }

  lemma TextFirst(text: Option<string>, gs: seq<(string, seq<Val>)>)
    requires forall j :: 0 <= j < |gs| ==> NameOk(gs[j].0)
    ensures Lookup(TextEntry(text) + GroupEntries(gs), "#text") ==
            if Trimmed(text).Some? then Some(Str(Trimmed(text).value)) else None
  {
    var z := GroupEntries(gs);
    match Trimmed(text)
    case None =>
      assert [] + z == z;
      NoTextKey(gs);
    case Some(s) => FoundFirst("#text", Str(s), z);
  }

  lemma {:induction false} NoTextKey(gs: seq<(string, seq<Val>)>)
    requires forall j :: 0 <= j < |gs| ==> NameOk(gs[j].0)
    ensures Lookup(GroupEntries(gs), "#text") == None
    decreases |gs|
  {
    if gs != [] {
      NoTextKey(gs[1..]);
      assert gs[0].0 != "#text" by { assert gs[0].0[0] != '#'; }
      assert GroupEntries(gs)[1..] == GroupEntries(gs[1..]);
    }
  }

  lemma FoundFirst(key: string, v: Val, rest: seq<(string, Val)>)
    ensures Lookup([(key, v)] + rest, key) == Some(v)
  {
  }

  lemma {:induction false} NotFound(z: seq<(string, Val)>, key: string)
    requires forall i :: 0 <= i < |z| ==> z[i].0 != key
    ensures Lookup(z, key) == None
    decreases |z|
  {
    if z != [] { NotFound(z[1..], key); }
  }

  /** Grouped elements, listed again, have the grouped objects as theirs. */
  lemma {:induction false} FlatMates(gs: seq<(string, seq<Val>)>, hs: seq<(string, seq<Elem>)>)
    requires Mated(gs, hs)
    ensures |Flat(gs)| == |Flat(hs)|
    ensures forall i :: 0 <= i < |Flat(gs)| ==>
              Flat(gs)[i].0 == Flat(hs)[i].0 && Mates(Flat(gs)[i].0, Flat(gs)[i].1, Flat(hs)[i].1)
    decreases |gs|
  {
    if gs != [] {
      FlatMates(gs[1..], hs[1..]);
      var n := |gs[0].1|;
      assert MatedGroup(gs[0].0, gs[0].1, hs[0].1);
      forall i | 0 <= i < |Flat(gs)|
        ensures Flat(gs)[i].0 == Flat(hs)[i].0 && Mates(Flat(gs)[i].0, Flat(gs)[i].1, Flat(hs)[i].1)
      {
        if i < n {
          assert Flat(gs)[i] == (gs[0].0, gs[0].1[i]) && Flat(hs)[i] == (hs[0].0, hs[0].1[i]);
        } else {
          assert Flat(gs)[i] == Flat(gs[1..])[i - n] && Flat(hs)[i] == Flat(hs[1..])[i - n];
        }
      }
    }
  }

  lemma {:induction false} ValsOfMates(e: Elem, i: nat, ps: seq<(string, Val)>)
    requires i <= |e.children| && |ps| == |e.children|
    requires forall j :: 0 <= j < |ps| ==> e.children[j].tag == ps[j].0 && ToObj(e.children[j]) == ps[j].1
    ensures ChildVals(e, i) == ps[i..]
    decreases |e.children| - i
  {
    if i < |e.children| {
      ValsOfMates(e, i + 1, ps);
      assert (e.children[i].tag, ToObj(e.children[i])) == ps[i];
      assert ps[i..] == [ps[i]] + ps[i + 1..];
    } else {
      assert ps[i..] == [];
    }
  }

  /** For a tree with accepted names, building from its object gives its normal form, and that
      has the same object: element to object to element to object is element to object. */
  lemma {:induction false} RoundTrip(e: Elem)
    requires NamesOk(e)
    ensures Build(e.tag, ToObj(e)) == Some(Normal(e))
    ensures ToObj(Normal(e)) == ToObj(e)
    decreases e
  {
    var vs, ns := ChildVals(e, 0), NormalPairs(e, 0);
    forall i | 0 <= i < |e.children|
      ensures vs[i].0 == ns[i].0 && Mates(vs[i].0, vs[i].1, ns[i].1)
    {
      var c := e.children[i];
      RoundTrip(c);
      assert Mates(c.tag, ToObj(c), Normal(c));
      PairsAt(e, i);
    }
    BuiltBack(e);
  }

  /** The children mate one by one, so the groups do, and the object builds the normal form. */
  lemma BuiltBack(e: Elem)
    requires NamesOk(e)
    requires var vs, ns := ChildVals(e, 0), NormalPairs(e, 0);
             |vs| == |ns| && forall i :: 0 <= i < |vs| ==> vs[i].0 == ns[i].0 && Mates(vs[i].0, vs[i].1, ns[i].1)
    ensures Build(e.tag, ToObj(e)) == Some(Normal(e))
    ensures ToObj(Normal(e)) == ToObj(e)
  {
    var vs, ns := ChildVals(e, 0), NormalPairs(e, 0);
    var gs, hs := Group([], vs), Group([], ns);
    GroupMates([], [], vs, ns);
    TagsOk([], vs);
    BuildObject(e.tag, e.attrs, e.text, gs, hs);
    GroupProper([], vs);
    SameObject(e, gs, hs);
  }

  lemma SameObject(e: Elem, gs: seq<(string, seq<Val>)>, hs: seq<(string, seq<Elem>)>)
    requires gs == Group([], ChildVals(e, 0)) && hs == Group([], NormalPairs(e, 0))
    requires Mated(gs, hs) && ProperGroups(gs)
    ensures ToObj(Normal(e)) == ToObj(e)
  {
    var n := Normal(e);
    var ps := Flat(gs);
    FlatMates(gs, hs);
    forall j | 0 <= j < |ps| ensures n.children[j].tag == ps[j].0 && ToObj(n.children[j]) == ps[j].1 {
      assert Mates(ps[j].0, ps[j].1, Flat(hs)[j].1);
    }
    ValsOfMates(n, 0, ps);
    assert ps[0..] == ps;
    assert [] + gs == gs;
    Regroup([], gs);
    TrimmedIdempotent(e.text);
  }

  lemma PairsAt(e: Elem, j: nat)
    requires j < |e.children|
    ensures ChildVals(e, 0)[j] == (e.children[j].tag, ToObj(e.children[j]))
    ensures NormalPairs(e, 0)[j] == (e.children[j].tag, Normal(e.children[j]))
  {
    ChildPairAt(e, j);
    NormalPairAt(e, 0, j);
  }

  lemma ChildPairAt(e: Elem, j: nat)
    requires j < |e.children|
    ensures ChildVals(e, 0)[j] == PairOf(e.children[j])
  {
    ChildValAt(e, 0, j);
  }

  function PairOf(c: Elem): (string, Val) { (c.tag, ToObj(c)) }

  lemma {:induction false} ChildValAt(e: Elem, i: nat, k: nat)
    requires i + k < |e.children|
    ensures HasPair(e, i, k)
    decreases k
  {
    if k > 0 {
      ChildValAt(e, i + 1, k - 1);
      ChildValNext(e, i, k);
    } else {
      ChildValFirst(e, i);
    }
  }

  ghost predicate HasPair(e: Elem, i: nat, k: nat)
    requires i + k < |e.children|
  {
    ChildVals(e, i)[k] == PairOf(e.children[i + k])
  }

  lemma ChildValFirst(e: Elem, i: nat)
    requires i < |e.children|
    ensures HasPair(e, i, 0)
  {
  }

  lemma ChildValNext(e: Elem, i: nat, k: nat)
    requires 0 < k < |e.children| - i && HasPair(e, i + 1, k - 1)
    ensures HasPair(e, i, k)
  {
    ConsAt(PairOf(e.children[i]), ChildVals(e, i + 1), k);
  }

  lemma ConsAt<T>(x: T, rest: seq<T>, k: nat)
    requires 0 < k <= |rest|
    ensures ([x] + rest)[k] == rest[k - 1]
  {
  }

  lemma {:induction false} NormalPairAt(e: Elem, i: nat, j: nat)
    requires i <= j < |e.children|
    ensures NormalPairs(e, i)[j - i] == (e.children[j].tag, Normal(e.children[j]))
    decreases j - i
  {
    if i < j {
      NormalPairAt(e, i + 1, j);
      ConsAt((e.children[i].tag, Normal(e.children[i])), NormalPairs(e, i + 1), j - i);
    }
  }

  // ---- Names that are refused ----

  /** Tags as an XML parser delivers them never look like attribute or text keys. */
  predicate ParsedTags(e: Elem)
    decreases e
  {
    !IsAttr(e.tag) && e.tag != "#text" && forall i | 0 <= i < |e.children| :: ParsedTags(e.children[i])
  }

  predicate Holds<T(==)>(gs: seq<(string, seq<T>)>, tag: string, x: T) {
    exists g | 0 <= g < |gs| :: gs[g].0 == tag && x in gs[g].1
  }

  lemma {:induction false} AddHolds<T>(gs: seq<(string, seq<T>)>, t: string, y: T, tag: string, x: T)
    requires Holds(gs, tag, x) || (t == tag && y == x)
    ensures Holds(AddTo(gs, t, y), tag, x)
    decreases |gs|
  {
    var r := AddTo(gs, t, y);
    if gs == [] {
      assert r[0].0 == tag && x in r[0].1;
    } else if gs[0].0 == tag && x in gs[0].1 {
      assert r[0].0 == tag && x in r[0].1;
    } else if gs[0].0 == t {
      if t == tag && y == x {
        assert r[0].1[|gs[0].1|] == x;
        assert r[0].0 == tag && x in r[0].1;
      } else {
        var g :| 0 <= g < |gs| && gs[g].0 == tag && x in gs[g].1;
        assert r[g] == gs[g];
      }
    } else {
      if Holds(gs, tag, x) {
        var g :| 0 <= g < |gs| && gs[g].0 == tag && x in gs[g].1;
        assert gs[1..][g - 1] == gs[g];
      }
      AddHolds(gs[1..], t, y, tag, x);
      var g :| 0 <= g < |AddTo(gs[1..], t, y)| && AddTo(gs[1..], t, y)[g].0 == tag && x in AddTo(gs[1..], t, y)[g].1;
      assert r[g + 1] == AddTo(gs[1..], t, y)[g];
    }
  }

  lemma {:induction false} GroupHolds<T>(acc: seq<(string, seq<T>)>, xs: seq<(string, T)>, tag: string, x: T)
    requires Holds(acc, tag, x) || (tag, x) in xs
    ensures Holds(Group(acc, xs), tag, x)
    decreases |xs|
  {
    if xs != [] {
      if Holds(acc, tag, x) || xs[0] == (tag, x) { AddHolds(acc, xs[0].0, xs[0].1, tag, x); }
      GroupHolds(AddTo(acc, xs[0].0, xs[0].1), xs[1..], tag, x);
    }
  }

  lemma {:induction false} ItemRefused(key: string, list: Val, i: nat, x: Val)
    requires list.List? && i <= |list.items| && x in list.items[i..] && Build(key, x) == None
    ensures BuildItems(key, list, i) == None
    decreases |list.items| - i
  {
    if list.items[i] != x {
      assert list.items[i..][1..] == list.items[i + 1..];
      assert x in list.items[i + 1..];
      ItemRefused(key, list, i + 1, x);
    }
  }

  lemma {:induction false} EntryRefused(v: Val, i: nat, n: nat)
    requires v.Dict? && i <= n < |v.entries|
    requires var (key, item) := v.entries[n];
             !IsAttr(key) && key != "#text" && item.List? && BuildItems(key, item, 0) == None
    ensures BuildEntries(v, i) == None
    decreases n - i
  {
    if i < n { EntryRefused(v, i + 1, n); }
  }

  lemma {:induction false} AttrRefused(attrs: seq<(string, string)>, rest: seq<(string, Val)>, n: nat)
    requires n < |attrs| && !NameOk(attrs[n].0)
    ensures Attrs(AttrEntries(attrs) + rest) == None
    decreases |attrs|
  {
    var all := AttrEntries(attrs) + rest;
    assert all[0] == ("@" + attrs[0].0, Str(attrs[0].1));
    assert all[1..] == AttrEntries(attrs[1..]) + rest;
    assert ("@" + attrs[0].0)[1..] == attrs[0].0;
    if n > 0 { AttrRefused(attrs[1..], rest, n - 1); }
  }

  /** A parsed tree with any other name is refused on the way back, so the round trip works
      exactly for the accepted names. */
  lemma {:induction false} OtherNamesRefused(e: Elem)
    requires ParsedTags(e)
    ensures Build(e.tag, ToObj(e)).Some? <==> NamesOk(e)
    decreases e
  {
    if NamesOk(e) {
      RoundTrip(e);
    } else if NameOk(e.tag) {
      var x, y, z := AttrEntries(e.attrs), TextEntry(e.text), GroupEntries(Group([], ChildVals(e, 0)));
      if n :| 0 <= n < |e.attrs| && !NameOk(e.attrs[n].0) {
        assert x + y + z == x + (y + z);
        AttrRefused(e.attrs, y + z, n);
      } else {
        var n :| 0 <= n < |e.children| && !NamesOk(e.children[n]);
        ChildRefused(e, n);
      }
    }
  }

  lemma {:induction false} ChildRefused(e: Elem, n: nat)
    requires ParsedTags(e) && n < |e.children| && !NamesOk(e.children[n])
    ensures BuildEntries(ToObj(e), 0) == None
    decreases e, 0
  {
    var c := e.children[n];
    OtherNamesRefused(c);
    PairsAt(e, n);
    var vs := ChildVals(e, 0);
    assert vs[n] == (c.tag, ToObj(c));
    GroupHolds([], vs, c.tag, ToObj(c));
    var gs := Group([], vs);
    var g :| 0 <= g < |gs| && gs[g].0 == c.tag && ToObj(c) in gs[g].1;
    var head := AttrEntries(e.attrs) + TextEntry(e.text);
    assert ToObj(e).entries[|head| + g] == GroupEntries(gs)[g] == (c.tag, List(gs[g].1));
    assert List(gs[g].1).items[0..] == gs[g].1;
    ItemRefused(c.tag, List(gs[g].1), 0, ToObj(c));
    EntryRefused(ToObj(e), 0, |head| + g);
  }

  /** The object remembers exactly what the normal form keeps, so the normal form is stable and a
      tree survives the way there and back unchanged exactly when it is its own normal form. */
  lemma NormalFormExact(e: Elem, f: Elem)
    requires NamesOk(e) && NamesOk(f) && e.tag == f.tag
    ensures ToObj(e) == ToObj(f) <==> Normal(e) == Normal(f)
    ensures Build(e.tag, ToObj(e)) == Some(e) <==> Normal(e) == e
    ensures Build(e.tag, ToObj(Normal(e))) == Some(Normal(e))
  {
    RoundTrip(e);
    RoundTrip(f);
  }

  /** The normal form keeps attributes, the stripped text, and for each tag its children, each in
      normal form, in their order. */
  lemma NormalKeeps(e: Elem, tag: string)
    ensures Normal(e).attrs == e.attrs && Normal(e).text == Trimmed(e.text)
    ensures Select(Flat(Group([], NormalPairs(e, 0))), tag) == Select(NormalPairs(e, 0), tag)
  {
    GroupSelect([], NormalPairs(e, 0), tag);
    assert Flat<Elem>([]) == [];
  }

  // ---- Choosing the root ----

  /** The root element's tag and content for a document; None for a top-level array. */
  function SelectRoot(data: Val, rootName: string): Option<(string, Val)> {
    if data.List? then None
    else if data.Dict? && rootName == "" then
      if |data.entries| == 1 then Some((data.entries[0].0, data.entries[0].1)) else Some(("root", data))
    else Some((if rootName == "" then "root" else rootName, data))
  }
}
