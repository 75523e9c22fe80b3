/** A JSON document as XML and back: what each value has become, without mention of elements. */
module XmlReread {
  import opened Text
  import opened Xml
  import opened XmlConvert
  import opened XmlService

  // ---- The reread document ----

  /** The object of an element that has text and nothing else. */
  function OnlyText(s: string): Val { Dict(TextOf(s)) }

  function TextOf(s: string): seq<(string, Val)> { if Strip(s) == "" then [] else [("#text", Str(Strip(s)))] }

  /** A scalar becomes text, an object keeps its attributes, its text and its members in order; a
      member becomes an array of what its items, or itself, have become. Empty arrays are gone. */
  function Reread(v: Val): Val
    decreases v, 2
  {
    match v
    case Nil => Dict([])
    case Bool(true) => OnlyText("true")
    case Bool(false) => OnlyText("false")
    case Num(t) => OnlyText(t)
    case Str(s) => OnlyText(s)
    case List(_) => v
    case Dict(entries) => Dict(RereadAttrs(entries) + RereadText(entries) + GroupEntries(RereadKids(v, 0)))
  }

  function RereadAttrs(entries: seq<(string, Val)>): seq<(string, Val)> {
    if entries == [] then []
    else
      var (key, item) := entries[0];
      var here :=
        if key == "" || key[0] != '@' then []
        else match item
          case Bool(true) => [(key, Str("true"))]
          case Bool(false) => [(key, Str("false"))]
          case Num(t) => [(key, Str(t))]
          case Str(s) => [(key, Str(s))]
          case _ => [];
      here + RereadAttrs(entries[1..])
  }

  /** The text entry; here a truth value has become a capitalised word. */
  function RereadText(entries: seq<(string, Val)>): seq<(string, Val)> {
    if entries == [] then []
    else if entries[0].0 != "#text" then RereadText(entries[1..])
    else match entries[0].1
      case Bool(true) => TextOf("True")
      case Bool(false) => TextOf("False")
      case Num(t) => TextOf(t)
      case Str(s) => TextOf(s)
      case _ => []
  }

  function RereadKids(v: Val, i: nat): seq<(string, seq<Val>)>
    requires v.Dict? && i <= |v.entries|
    decreases v, 1, |v.entries| - i
  {
    if i == |v.entries| then []
    else
      var (key, item) := v.entries[i];
      var here := if item.List? then RereadItems(item, 0) else [Reread(item)];
      (if IsAttr(key) || key == "#text" || here == [] then [] else [(key, here)]) + RereadKids(v, i + 1)
  }

  function RereadItems(list: Val, i: nat): seq<Val>
    requires list.List? && i <= |list.items|
    decreases list, 0, |list.items| - i
  {
    if i == |list.items| then [] else [Reread(list.items[i])] + RereadItems(list, i + 1)
  }

  /** The keys of an object are distinct. */
  predicate Keyed(v: Val)
    decreases v
  {
    match v
    case Dict(entries) =>
      && (forall i, j | 0 <= i < j < |entries| :: entries[i].0 != entries[j].0)
      && forall i | 0 <= i < |entries| :: Keyed(entries[i].1)
    case List(items) => forall i | 0 <= i < |items| :: Keyed(items[i])
    case _ => true
  }

  // ---- Attributes and text ----

  lemma {:induction false} AttrsReread(entries: seq<(string, Val)>)
    requires Attrs(entries).Some?
    ensures AttrEntries(Attrs(entries).value) == RereadAttrs(entries)
    decreases |entries|
  {
    if entries != [] {
      var (key, item) := entries[0];
      AttrsReread(entries[1..]);
      if IsAttr(key) {
        AttrKey(key);
        if AttrText(item).Some? { AttrFirst(key[1..], AttrText(item).value, Attrs(entries[1..]).value); }
      } else {
        assert [] + RereadAttrs(entries[1..]) == RereadAttrs(entries[1..]);
      }
    }
  }

  lemma AttrKey(key: string)
    requires IsAttr(key)
    ensures "@" + key[1..] == key
  {
  }

  lemma AttrFirst(name: string, text: string, rest: seq<(string, string)>)
    ensures AttrEntries([(name, text)] + rest) == [("@" + name, Str(text))] + AttrEntries(rest)
  {
    assert ([(name, text)] + rest)[1..] == rest;
  }

  lemma {:induction false} TextReread(entries: seq<(string, Val)>)
    ensures TextEntry(match Lookup(entries, "#text") case None => None case Some(t) => BodyText(t)) ==
            RereadText(entries)
    decreases |entries|
  {
    if entries != [] && entries[0].0 != "#text" { TextReread(entries[1..]); }
  }

  // ---- Children ----

  /** The children's tags and objects. */
  function Pairs(es: seq<Elem>): seq<(string, Val)> {
    if es == [] then [] else [PairOf(es[0])] + Pairs(es[1..])
  }

  lemma {:induction false} PairsConcat(x: seq<Elem>, y: seq<Elem>)
    ensures Pairs(x + y) == Pairs(x) + Pairs(y)
    decreases |x|
  {
    if x == [] {
      assert x + y == y;
    } else {
      assert (x + y)[1..] == x[1..] + y;
      PairsConcat(x[1..], y);
    }
  }

  lemma {:induction false} PairsAreVals(e: Elem, i: nat)
    requires i <= |e.children|
    ensures Pairs(e.children[i..]) == ChildVals(e, i)
    decreases |e.children| - i
  {
    if i < |e.children| {
      PairsAreVals(e, i + 1);
      assert e.children[i..][1..] == e.children[i + 1..];
    }
  }

  /** Converting a document to an element and back gives the reread document. */
  lemma {:induction false} RereadExactly(tag: string, v: Val)
    requires Build(tag, v).Some? && Keyed(v)
    ensures ToObj(Build(tag, v).value) == Reread(v)
    ensures Build(tag, v).value.tag == tag
    decreases v, 3
  {
    var e := Build(tag, v).value;
    match v
    case Dict(entries) =>
      AttrsReread(entries);
      TextReread(entries);
      KidsReread(v, 0);
      PairsAreVals(e, 0);
      assert e.children[0..] == e.children;
      KidsProper(v, 0);
      var gs := RereadKids(v, 0);
      assert [] + gs == gs;
      Regroup([], gs);
    case List(_) =>
    case _ => assert ChildVals(e, 0) == [];
  }

  lemma {:induction false} KidsReread(v: Val, i: nat)
    requires v.Dict? && Keyed(v) && i <= |v.entries| && BuildEntries(v, i).Some?
    ensures Pairs(BuildEntries(v, i).value) == Flat(RereadKids(v, i))
    decreases v, 2, |v.entries| - i
  {
    if i < |v.entries| {
      var (key, item) := v.entries[i];
      KidsReread(v, i + 1);
      if IsAttr(key) || key == "#text" {
        NoKid(v, i);
      } else if item.List? {
        ItemsReread(key, item, 0);
        ListKid(v, i);
      } else {
        RereadExactly(key, item);
        OneKid(v, i);
      }
    }
  }

  /** The entries after one that gives no element, one list of elements, or one element. */
  lemma NoKid(v: Val, i: nat)
    requires v.Dict? && i < |v.entries| && BuildEntries(v, i).Some?
    requires IsAttr(v.entries[i].0) || v.entries[i].0 == "#text"
    requires Pairs(BuildEntries(v, i + 1).value) == Flat(RereadKids(v, i + 1))
    ensures Pairs(BuildEntries(v, i).value) == Flat(RereadKids(v, i))
  {
    var rest := BuildEntries(v, i + 1).value;
    assert [] + rest == rest && [] + RereadKids(v, i + 1) == RereadKids(v, i + 1);
  }

  lemma ListKid(v: Val, i: nat)
    requires v.Dict? && i < |v.entries| && BuildEntries(v, i).Some?
    requires !IsAttr(v.entries[i].0) && v.entries[i].0 != "#text" && v.entries[i].1.List?
    requires var (key, item) := v.entries[i]; Pairs(BuildItems(key, item, 0).value) == Tagged(key, RereadItems(item, 0))
    requires Pairs(BuildEntries(v, i + 1).value) == Flat(RereadKids(v, i + 1))
    ensures Pairs(BuildEntries(v, i).value) == Flat(RereadKids(v, i))
  {
    var (key, item) := v.entries[i];
    KidsStep(key, BuildItems(key, item, 0).value, RereadItems(item, 0), BuildEntries(v, i + 1).value,
             RereadKids(v, i + 1));
  }

  lemma OneKid(v: Val, i: nat)
    requires v.Dict? && i < |v.entries| && BuildEntries(v, i).Some?
    requires !IsAttr(v.entries[i].0) && v.entries[i].0 != "#text" && !v.entries[i].1.List?
    requires var (key, item) := v.entries[i]; ToObj(Build(key, item).value) == Reread(item)
    requires Pairs(BuildEntries(v, i + 1).value) == Flat(RereadKids(v, i + 1))
    ensures Pairs(BuildEntries(v, i).value) == Flat(RereadKids(v, i))
  {
    var (key, item) := v.entries[i];
    OnePair(Build(key, item).value);
    KidsStep(key, [Build(key, item).value], [Reread(item)], BuildEntries(v, i + 1).value, RereadKids(v, i + 1));
  }

  lemma KidsStep(key: string, here: seq<Elem>, vs: seq<Val>, rest: seq<Elem>, gs: seq<(string, seq<Val>)>)
    requires Pairs(here) == Tagged(key, vs) && Pairs(rest) == Flat(gs)
    ensures Pairs(here + rest) == Flat((if vs == [] then [] else [(key, vs)]) + gs)
  {
    PairsConcat(here, rest);
    FlatGroup(key, vs, gs);
  }

  lemma OnePair(e: Elem)
    ensures Pairs([e]) == Tagged(e.tag, [ToObj(e)])
  {
    assert [e][1..] == [] && [ToObj(e)][1..] == [];
  }

  /** A group that is left out when it is empty. */
  lemma FlatGroup(key: string, vs: seq<Val>, gs: seq<(string, seq<Val>)>)
    ensures Flat((if vs == [] then [] else [(key, vs)]) + gs) == Tagged(key, vs) + Flat(gs)
  {
    if vs == [] {
      assert [] + gs == gs && Tagged(key, vs) + Flat(gs) == Flat(gs);
    } else {
      assert ([(key, vs)] + gs)[1..] == gs;
    }
  }

  lemma {:induction false} ItemsReread(key: string, list: Val, i: nat)
    requires list.List? && Keyed(list) && i <= |list.items| && BuildItems(key, list, i).Some?
    ensures Pairs(BuildItems(key, list, i).value) == Tagged(key, RereadItems(list, i))
    decreases list, 1, |list.items| - i
  {
    if i < |list.items| {
      RereadExactly(key, list.items[i]);
      ItemsReread(key, list, i + 1);
    }
  }

  lemma {:induction false} KidsProper(v: Val, i: nat)
    requires v.Dict? && Keyed(v) && i <= |v.entries|
    ensures ProperGroups(RereadKids(v, i))
    ensures forall g :: 0 <= g < |RereadKids(v, i)| ==>
              exists j :: i <= j < |v.entries| && v.entries[j].0 == RereadKids(v, i)[g].0
    decreases |v.entries| - i
  {
    if i < |v.entries| { KidsProper(v, i + 1); }
  }

  // ---- What is accepted ----

  /** Names that become tags or attributes are accepted, and no array stands inside an array. */
  predicate Acceptable(tag: string, v: Val)
    decreases v, 0
  {
    && NameOk(tag)
    && match v
       case List(_) => false
       case Dict(entries) => forall i | 0 <= i < |entries| :: EntryAcceptable(entries[i].0, entries[i].1)
       case _ => true
  }

  predicate EntryAcceptable(key: string, item: Val)
    decreases item, 1
  {
    if IsAttr(key) then NameOk(key[1..])
    else if key == "#text" then true
    else if item.List? then forall i | 0 <= i < |item.items| :: Acceptable(key, item.items[i])
    else Acceptable(key, item)
  }

  lemma {:induction false} AttrsAccepted(entries: seq<(string, Val)>)
    ensures Attrs(entries).Some? <==>
            forall i :: 0 <= i < |entries| && IsAttr(entries[i].0) ==> NameOk(entries[i].0[1..])
    decreases |entries|
  {
    if entries != [] {
      AttrsAccepted(entries[1..]);
      assert forall i :: 0 < i < |entries| ==> entries[i] == entries[1..][i - 1];
    }
  }

  /** A value is converted, up to the limits on depth and size, if and only if it is acceptable. */
  lemma {:induction false} BuiltExactly(tag: string, v: Val)
    ensures Build(tag, v).Some? <==> Acceptable(tag, v)
    decreases v, 3
  {
    if v.Dict? {
      AttrsAccepted(v.entries);
      EntriesBuilt(v, 0);
    }
  }

  /** An entry's children can be built. */
  predicate KidsAcceptable(key: string, item: Val) { IsAttr(key) || EntryAcceptable(key, item) }

  lemma {:induction false} EntriesBuilt(v: Val, i: nat)
    requires v.Dict? && i <= |v.entries|
    ensures BuildEntries(v, i).Some? <==>
            forall j :: i <= j < |v.entries| ==> KidsAcceptable(v.entries[j].0, v.entries[j].1)
    decreases v, 2, |v.entries| - i
  {
    if i < |v.entries| {
      var (key, item) := v.entries[i];
      EntriesBuilt(v, i + 1);
      if !IsAttr(key) && key != "#text" {
        if item.List? { ItemsBuilt(key, item, 0); } else { BuiltExactly(key, item); }
      }
    }
  }

  lemma {:induction false} ItemsBuilt(key: string, list: Val, i: nat)
    requires list.List? && i <= |list.items|
    ensures BuildItems(key, list, i).Some? <==>
            forall j :: i <= j < |list.items| ==> Acceptable(key, list.items[j])
    decreases list, 1, |list.items| - i
  {
    if i < |list.items| {
      BuiltExactly(key, list.items[i]);
      ItemsBuilt(key, list, i + 1);
    }
  }

  // ---- At the service ----

  /** Whatever document the service converts to XML, converting the result back gives the reread
      document under the root's name; and it converts only acceptable documents. */
  lemma BackAgain(data: Val, rootName: string)
    requires Keyed(data) && WayBack(data, rootName).Some?
    ensures SelectRoot(data, rootName).Some?
    ensures var (root, content) := SelectRoot(data, rootName).value;
            && Acceptable(root, content)
            && Document(WayBack(data, rootName).value) == Dict([(root, Reread(content))])
  {
    var (root, content) := SelectRoot(data, rootName).value;
    if content != data { assert content == data.entries[0].1; }
    assert Keyed(content);
    RereadExactly(root, content);
    BuiltExactly(root, content);
  }
}
