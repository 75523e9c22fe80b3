/** The limits on a JSON document that is to become XML are those of the structural check. */
module XmlLimits {
  import opened Text
  import J = Json
  import JsonLimits
  import Shape = JsonPatchShape
  import opened Xml
  import opened XmlConvert
  import opened XmlService
  import opened XmlReread

  /** The document as the structural check sees it; the digits of a number do not matter. */
  function AsJson(v: Val): J.Json
    requires Keyed(v)
    decreases v, 1
  {
    match v
    case Nil => J.Null
    case Bool(b) => J.Bool(b)
    case Num(_) => J.Int(0)
    case Str(s) => J.Str(s)
    case List(items) => J.Arr(seq(|items|, i requires 0 <= i < |items| => AsJson(items[i])))
    case Dict(_) => J.Obj(Fields(v, 0))
  }

  function Fields(v: Val, i: nat): map<string, J.Json>
    requires v.Dict? && Keyed(v) && i <= |v.entries|
    decreases v, 0, |v.entries| - i
  {
    if i == |v.entries| then map[] else Fields(v, i + 1)[v.entries[i].0 := AsJson(v.entries[i].1)]
  }

  lemma {:induction false} FieldsFrom(v: Val, i: nat)
    requires v.Dict? && Keyed(v) && i <= |v.entries|
    ensures forall j :: i <= j < |v.entries| ==>
              v.entries[j].0 in Fields(v, i) && Fields(v, i)[v.entries[j].0] == AsJson(v.entries[j].1)
    decreases |v.entries| - i
  {
    if i < |v.entries| { FieldsFrom(v, i + 1); }
  }

  // ---- Depth ----

  lemma {:induction false} SameDepth(v: Val, m: int)
    requires Keyed(v) && m >= -1
    ensures Deep(v, m)
    decreases v
  {
    if m < 0 {
      NotWithin(v);
      return;
    }
    if v.List? {
      forall i | 0 <= i < |v.items| ensures Deep(v.items[i], m - 1) {
        SameDepth(v.items[i], m - 1);
      }
      ListDepth(v, m);
    } else if v.Dict? {
      forall i | 0 <= i < |v.entries| ensures Deep(v.entries[i].1, m - 1) {
        SameDepth(v.entries[i].1, m - 1);
      }
      DictDepth(v, m);
    } else {
      ScalarDepth(v, m);
    }
  }

  lemma ScalarDepth(v: Val, m: nat)
    requires !v.List? && !v.Dict?
    ensures Deep(v, m)
  {
    assert J.Children(AsJson(v)) == [];
  }

  lemma FieldAt(v: Val, i: nat)
    requires Keyed(v) && v.Dict? && i < |v.entries|
    ensures Keyed(v.entries[i].1)
    ensures var f := AsJson(v).fields; v.entries[i].0 in f && f[v.entries[i].0] == AsJson(v.entries[i].1)
  {
    FieldsFrom(v, 0);
  }

  /** The two measures of depth agree on v. */
  ghost predicate Deep(v: Val, m: int)
    requires Keyed(v)
  {
    ValWithin(v, m) <==> J.Height(AsJson(v)) <= m
  }

  lemma ListDepth(v: Val, m: nat)
    requires Keyed(v) && v.List? && forall i :: 0 <= i < |v.items| ==> Deep(v.items[i], m - 1)
    ensures Deep(v, m)
  {
    var x := AsJson(v);
    JsonLimits.HeightWithin(x.items, x, m);
    forall i | 0 <= i < |v.items| ensures ValWithin(v.items[i], m - 1) <==> J.Height(x.items[i]) + 1 <= m {
      assert Deep(v.items[i], m - 1);
    }
  }

  lemma DictDepth(v: Val, m: nat)
    requires Keyed(v) && v.Dict? && forall i :: 0 <= i < |v.entries| ==> Deep(v.entries[i].1, m - 1)
    ensures Deep(v, m)
  {
    var x := AsJson(v);
    JsonLimits.HeightWithin(J.Children(x), x, m);
    MembersWithin(x, m);
    if MembersFit(x, m) { EntriesFit(v, m); }
    if ValWithin(v, m) {
      forall k | k in x.fields ensures J.Height(x.fields[k]) + 1 <= m { EntryFits(v, m, k); }
    }
  }

  ghost predicate MembersFit(x: J.Json, m: int)
    requires x.Obj?
  {
    forall k :: k in x.fields ==> J.Height(x.fields[k]) + 1 <= m
  }

  lemma EntriesFit(v: Val, m: nat)
    requires Keyed(v) && v.Dict? && forall i :: 0 <= i < |v.entries| ==> Deep(v.entries[i].1, m - 1)
    requires MembersFit(AsJson(v), m)
    ensures ValWithin(v, m)
  {
    forall i | 0 <= i < |v.entries| ensures ValWithin(v.entries[i].1, m - 1) {
      FieldAt(v, i);
      assert Deep(v.entries[i].1, m - 1);
    }
  }

  lemma EntryFits(v: Val, m: nat, k: string)
    requires Keyed(v) && v.Dict? && forall i :: 0 <= i < |v.entries| ==> Deep(v.entries[i].1, m - 1)
    requires ValWithin(v, m) && k in AsJson(v).fields
    ensures J.Height(AsJson(v).fields[k]) + 1 <= m
  {
    var i := KeyIndex(v, k);
    FieldAt(v, i);
    assert Deep(v.entries[i].1, m - 1);
  }

  lemma KeyIndex(v: Val, k: string) returns (i: nat)
    requires Keyed(v) && v.Dict? && k in AsJson(v).fields
    ensures i < |v.entries| && v.entries[i].0 == k
  {
    i := IndexFrom(v, 0, k);
  }

  lemma {:induction false} IndexFrom(v: Val, i: nat, k: string) returns (j: nat)
    requires Keyed(v) && v.Dict? && i <= |v.entries| && k in Fields(v, i)
    ensures i <= j < |v.entries| && v.entries[j].0 == k
    decreases |v.entries| - i
  {
    if v.entries[i].0 == k { j := i; } else { j := IndexFrom(v, i + 1, k); }
  }

  lemma NotWithin(v: Val)
    ensures !ValWithin(v, -1)
  {
  }

  lemma MembersWithin(x: J.Json, m: int)
    requires x.Obj?
    ensures (forall i :: 0 <= i < |J.Children(x)| ==> J.Height(J.Children(x)[i]) + 1 <= m) <==> MembersFit(x, m)
  {
    var ks, cs := J.FieldOrder(x.fields), J.Children(x);
    if forall i :: 0 <= i < |cs| ==> J.Height(cs[i]) + 1 <= m {
      forall k | k in x.fields ensures J.Height(x.fields[k]) + 1 <= m {
        assert k in ks;
        var i :| 0 <= i < |ks| && ks[i] == k;
        assert cs[i] == x.fields[k];
      }
    }
  }

  // ---- Size ----

  ghost predicate DistinctKeys(ks: seq<string>) { forall i, j :: 0 <= i < j < |ks| ==> ks[i] != ks[j] }

  lemma {:induction false} SumConcat(f: map<string, J.Json>, x: seq<string>, y: seq<string>)
    requires forall k :: k in x || k in y ==> k in f
    ensures Shape.MemberNodes(f, x + y) == Shape.MemberNodes(f, x) + Shape.MemberNodes(f, y)
    decreases |x|
  {
    if x == [] {
      assert x + y == y;
    } else {
      assert (x + y)[1..] == x[1..] + y;
      SumConcat(f, x[1..], y);
    }
  }

  /** A sum over members does not depend on their order. */
  lemma {:induction false} SumAnyOrder(f: map<string, J.Json>, x: seq<string>, y: seq<string>)
    requires DistinctKeys(x) && DistinctKeys(y)
    requires (forall k :: k in x <==> k in y) && forall k :: k in x ==> k in f
    ensures Shape.MemberNodes(f, x) == Shape.MemberNodes(f, y)
    decreases |x|
  {
    if x == [] {
      assert forall i :: 0 <= i < |y| ==> y[i] in x;
    } else {
      var k := x[0];
      assert k in x;
      var j :| 0 <= j < |y| && y[j] == k;
      var before, after := y[..j], y[j + 1..];
      assert y == before + ([k] + after);
      TailMembers(x);
      CutMembers(before, k, after);
      SumAnyOrder(f, x[1..], before + after);
      SumConcat(f, before, after);
      SumConcat(f, before, [k] + after);
      assert ([k] + after)[1..] == after;
    }
  }

  lemma TailMembers(x: seq<string>)
    requires x != [] && DistinctKeys(x)
    ensures DistinctKeys(x[1..]) && forall o :: o in x[1..] <==> o in x && o != x[0]
  {
    assert x == [x[0]] + x[1..];
    forall o | o in x[1..] ensures o != x[0] {
      var i :| 0 <= i < |x[1..]| && x[1..][i] == o;
      assert x[i + 1] == o;
    }
  }

  lemma CutMembers(before: seq<string>, k: string, after: seq<string>)
    requires DistinctKeys(before + ([k] + after))
    ensures DistinctKeys(before + after)
    ensures forall o :: o in before + after <==> o in before + ([k] + after) && o != k
  {
    var y, z := before + ([k] + after), before + after;
    forall i | 0 <= i < |z| ensures z[i] == y[if i < |before| then i else i + 1] {}
    assert y[|before|] == k;
    forall o | o in z ensures o != k && o in y {
      var i :| 0 <= i < |z| && z[i] == o;
      assert y[if i < |before| then i else i + 1] == o;
    }
  }

  /** The keys of an object from entry i on. */
  function KeysFrom(v: Val, i: nat): (ks: seq<string>)
    requires v.Dict? && i <= |v.entries|
    ensures |ks| == |v.entries| - i && forall j :: 0 <= j < |ks| ==> ks[j] == v.entries[i + j].0
    decreases |v.entries| - i
  {
    if i == |v.entries| then [] else [v.entries[i].0] + KeysFrom(v, i + 1)
  }

  lemma {:induction false} SameSize(v: Val)
    requires Keyed(v)
    ensures ValNodes(v) == J.Nodes(AsJson(v))
    decreases v, 1
  {
    var x := AsJson(v);
    if v.List? {
      SameItems(v, 0);
      assert x.items[0..] == x.items;
    } else if v.Dict? {
      SameEntries(v, 0);
      Shape.ObjectNodes(x, x.fields.Keys);
      SortedKeysSorted(x.fields.Keys);
      EntryOrder(v);
    } else {
      assert J.Children(x) == [];
    }
  }

  lemma EntryOrder(v: Val)
    requires Keyed(v) && v.Dict?
    ensures var f := AsJson(v).fields;
            Shape.MemberNodes(f, KeysFrom(v, 0)) == Shape.MemberNodes(f, SortedKeys(f.Keys))
  {
    var f, ks := AsJson(v).fields, KeysFrom(v, 0);
    SortedKeysSorted(f.Keys);
    forall k ensures k in ks <==> k in f {
      if k in f {
        var i := KeyIndex(v, k);
        assert ks[i] == k;
      }
      if k in ks {
        var i :| 0 <= i < |ks| && ks[i] == k;
        FieldAt(v, i);
      }
    }
    SumAnyOrder(f, ks, SortedKeys(f.Keys));
  }

  lemma {:induction false} SameItems(v: Val, i: nat)
    requires v.List? && Keyed(v) && i <= |v.items|
    ensures var x := AsJson(v); ItemNodes(v, i) == J.NodesOf(x.items[i..], x)
    decreases v, 0, |v.items| - i
  {
    var x := AsJson(v);
    if i < |v.items| {
      SameSize(v.items[i]);
      SameItems(v, i + 1);
      assert x.items[i..][1..] == x.items[i + 1..];
    }
  }

  lemma {:induction false} SameEntries(v: Val, i: nat)
    requires v.Dict? && Keyed(v) && i <= |v.entries|
    ensures EntryNodes(v, i) == Shape.MemberNodes(AsJson(v).fields, KeysFrom(v, i))
    decreases v, 0, |v.entries| - i
  {
    if i < |v.entries| {
      FieldAt(v, i);
      SameSize(v.entries[i].1);
      SameEntries(v, i + 1);
      FirstMember(AsJson(v).fields, v.entries[i].0, KeysFrom(v, i + 1));
    }
  }

  lemma FirstMember(f: map<string, J.Json>, k: string, ks: seq<string>)
    requires k in f
    ensures Shape.MemberNodes(f, [k] + ks) == J.Nodes(f[k]) + Shape.MemberNodes(f, ks)
  {
    assert ([k] + ks)[1..] == ks;
  }

  /** A document is read for conversion to XML exactly if the structural check passes on it: at most
      200 levels and 100000 nodes. */
  lemma LoadableExactly(v: Val)
    requires Keyed(v)
    ensures Loadable(v) <==> J.Height(AsJson(v)) <= 200 && J.Nodes(AsJson(v)) <= 100_000
  {
    SameDepth(v, 200);
    SameSize(v);
  }
}
