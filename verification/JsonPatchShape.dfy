/** Shape of a generated patch.

    Its locations never overlap, so no operation acts inside what another put in place, and it is
    no longer than the two documents are large. */
module JsonPatchShape {
  import opened Text
  import opened Json
  import opened JsonPointer
  import opened JsonPatch
  import opened JsonPatchTheorem
  import opened JsonPatchConverse

  // ---- Locations are pairwise incomparable ----

  /** No edit is located at or below another one, so a value put in place by one operation is
      never entered by a later one. */
  ghost predicate Apart(es: seq<Edit>) {
    forall i, j :: 0 <= i < |es| && 0 <= j < |es| && i != j ==> !(es[i].parts <= es[j].parts)
  }

  ghost predicate HeadsIn(es: seq<Edit>, ks: seq<string>) {
    forall i :: 0 <= i < |es| ==> es[i].parts != [] && es[i].parts[0] in ks
  }

  ghost predicate HeadsBetween(es: seq<Edit>, lo: nat, hi: nat) {
    forall i :: 0 <= i < |es| ==>
      es[i].parts != [] && PyInt(es[i].parts[0]).Some? && lo <= PyInt(es[i].parts[0]).value < hi
  }

  lemma PrefixedApart(k: string, es: seq<Edit>)
    requires Apart(es)
    ensures Apart(Prefixed(k, es))
  {
    forall i, j | 0 <= i < |es| && 0 <= j < |es| && i != j
      ensures !(Prefixed(k, es)[i].parts <= Prefixed(k, es)[j].parts)
    {
      ConsPrefix(k, es[i].parts, es[j].parts);
    }
  }

  lemma ConsPrefix(k: string, p: seq<string>, q: seq<string>)
    ensures [k] + p <= [k] + q <==> p <= q
  {
    assert forall i :: 0 <= i < |p| ==> ([k] + p)[i + 1] == p[i];
    assert forall i :: 0 <= i < |q| ==> ([k] + q)[i + 1] == q[i];
  }

  lemma ConcatApart(x: seq<Edit>, y: seq<Edit>)
    requires Apart(x) && Apart(y)
    requires forall i :: 0 <= i < |x| ==> x[i].parts != []
    requires forall j :: 0 <= j < |y| ==> y[j].parts != []
    requires forall i, j :: 0 <= i < |x| && 0 <= j < |y| ==> x[i].parts[0] != y[j].parts[0]
    ensures Apart(x + y)
  {
    var es := x + y;
    forall i, j | 0 <= i < |es| && 0 <= j < |es| && i != j ensures !(es[i].parts <= es[j].parts) {
      if i < |x| && j >= |x| {
        assert es[i] == x[i] && es[j] == y[j - |x|];
      } else if i >= |x| && j < |x| {
        assert es[i] == y[i - |x|] && es[j] == x[j];
      } else if i < |x| {
        assert es[i] == x[i] && es[j] == x[j];
      } else {
        assert es[i] == y[i - |x|] && es[j] == y[j - |x|];
      }
    }
  }

  lemma {:induction false} EditsApart(a: Json, b: Json)
    ensures Apart(Edits(a, b))
    decreases a, 3
  {
    if a.Obj? && b.Obj? {
      SortedKeysSorted(a.fields.Keys + b.fields.Keys);
      KeyEditsApart(a, b, SortedKeys(a.fields.Keys + b.fields.Keys));
    } else if a.Arr? && b.Arr? {
      ItemEditsApart(a, b, 0);
      ArrayApart(ItemEdits(a, b, 0), |a.items|, b.items, Shared(a, b));
    }
  }

  /** Only one of the two kinds of extras is there, and it lies past the shared items. */
  lemma ArrayApart(items: seq<Edit>, n: nat, ys: seq<Json>, s: nat)
    requires Apart(items) && HeadsBetween(items, 0, s)
    requires s == n || s == |ys|
    ensures Apart(items + AddEdits(ys, s) + RemoveEdits(n, s))
  {
    AddsApart(ys, s);
    RemovesApart(n, s);
    if s == n {
      assert RemoveEdits(n, s) == [];
      ConcatApart(items, AddEdits(ys, s));
      assert items + AddEdits(ys, s) + [] == items + AddEdits(ys, s);
    } else {
      assert AddEdits(ys, s) == [];
      ConcatApart(items, RemoveEdits(n, s));
      assert items + [] == items;
    }
  }

  lemma {:induction false} KeyEditsApart(a: Json, b: Json, ks: seq<string>)
    requires a.Obj? && b.Obj?
    requires forall i, j :: 0 <= i < j < |ks| ==> ks[i] != ks[j]
    ensures Apart(KeyEdits(a, b, ks)) && HeadsIn(KeyEdits(a, b, ks), ks)
    decreases a, 2, |ks|
  {
    if ks != [] {
      var k := ks[0];
      if k in a.fields && k in b.fields { EditsApart(a.fields[k], b.fields[k]); }
      PrefixedApart(k, EditsAtKey(a, b, k));
      KeyEditsApart(a, b, ks[1..]);
      ConcatApart(Prefixed(k, EditsAtKey(a, b, k)), KeyEdits(a, b, ks[1..]));
    }
  }

  lemma {:induction false} ItemEditsApart(a: Json, b: Json, i: nat)
    requires a.Arr? && b.Arr? && i <= Shared(a, b)
    ensures Apart(ItemEdits(a, b, i)) && HeadsBetween(ItemEdits(a, b, i), i, Shared(a, b))
    decreases a, 2, Shared(a, b) - i
  {
    if i < Shared(a, b) {
      PyIntOfDec(i);
      EditsApart(a.items[i], b.items[i]);
      PrefixedApart(Dec(i), Edits(a.items[i], b.items[i]));
      ItemEditsApart(a, b, i + 1);
      ConcatApart(Prefixed(Dec(i), Edits(a.items[i], b.items[i])), ItemEdits(a, b, i + 1));
    }
  }

  lemma ConsApart(i: nat, act: Act, es: seq<Edit>, lo: nat, hi: nat)
    requires Apart(es) && HeadsBetween(es, lo, hi) && (i < lo || hi <= i)
    ensures Apart([Edit([Dec(i)], act)] + es)
    ensures HeadsBetween([Edit([Dec(i)], act)] + es, if i < lo then i else lo, if hi <= i then i + 1 else hi)
  {
    PyIntOfDec(i);
    ConcatApart([Edit([Dec(i)], act)], es);
  }

  lemma {:induction false} AddsApart(ys: seq<Json>, i: nat)
    ensures Apart(AddEdits(ys, i)) && HeadsBetween(AddEdits(ys, i), i, if i <= |ys| then |ys| else i)
    decreases |ys| - i
  {
    if i < |ys| {
      AddsApart(ys, i + 1);
      ConsApart(i, Add(ys[i]), AddEdits(ys, i + 1), i + 1, |ys|);
    }
  }

  lemma {:induction false} RemovesApart(n: nat, keep: nat)
    ensures Apart(RemoveEdits(n, keep)) && HeadsBetween(RemoveEdits(n, keep), keep, n)
    decreases n
  {
    if n > keep {
      RemovesApart(n - 1, keep);
      ConsApart(n - 1, Remove, RemoveEdits(n - 1, keep), keep, n - 1);
    }
  }

  // ---- Length against node counts ----

  /** Node count of the members of f among ks. */
  ghost function MemberNodes(f: map<string, Json>, ks: seq<string>): nat {
    if ks == [] then 0
    else (if ks[0] in f then Nodes(f[ks[0]]) else 0) + MemberNodes(f, ks[1..])
  }

  lemma {:induction false} MemberNodesFrame(f: map<string, Json>, g: map<string, Json>, ks: seq<string>)
    requires forall k :: k in ks ==> SameMember(f, g, k)
    ensures MemberNodes(f, ks) == MemberNodes(g, ks)
  {
    if ks != [] {
      assert ks[0] in ks;
      MemberNodesFrame(f, g, ks[1..]);
    }
  }

  /** Keys that f lacks add nothing, so any set of keys around f's counts f's members once. */
  lemma {:induction false} MemberNodesCover(f: map<string, Json>, s: set<string>)
    requires f.Keys <= s
    ensures MemberNodes(f, SortedKeys(s)) == MemberNodes(f, SortedKeys(f.Keys))
    decreases s
  {
    if s != {} {
      var k := Least(s);
      if k in f {
        MemberNodesCover(f - {k}, s - {k});
        LeastCovered(f, s, k);
      } else {
        MemberNodesCover(f, s - {k});
      }
    }
  }

  /** The least key counts once on either side. */
  lemma LeastCovered(f: map<string, Json>, s: set<string>, k: string)
    requires f.Keys <= s && s != {} && k == Least(s) && k in f
    requires MemberNodes(f - {k}, SortedKeys(s - {k})) == MemberNodes(f - {k}, SortedKeys((f - {k}).Keys))
    ensures MemberNodes(f, SortedKeys(s)) == MemberNodes(f, SortedKeys(f.Keys))
  {
    var g, rest := f - {k}, s - {k};
    LeastUnique(f.Keys, k);
    assert g.Keys == f.Keys - {k};
    SortedKeysSorted(rest);
    SortedKeysSorted(g.Keys);
    MemberNodesFrame(f, g, SortedKeys(rest));
    MemberNodesFrame(f, g, SortedKeys(g.Keys));
  }

  lemma {:induction false} MembersCounted(f: map<string, Json>, ks: seq<string>, parent: Json)
    requires forall i :: 0 <= i < |ks| ==> ks[i] in f && f[ks[i]] < parent
    ensures NodesOf(Values(f, ks), parent) == MemberNodes(f, ks)
    decreases |ks|
  {
    if ks != [] {
      MembersCounted(f, ks[1..], parent);
      assert Values(f, ks)[1..] == Values(f, ks[1..]);
    }
  }

  lemma ObjectNodes(x: Json, s: set<string>)
    requires x.Obj? && x.fields.Keys <= s
    ensures Nodes(x) == 1 + MemberNodes(x.fields, SortedKeys(s))
  {
    var ks := FieldOrder(x.fields);
    assert forall i :: 0 <= i < |ks| ==> Children(x)[i] == x.fields[ks[i]];
    MembersCounted(x.fields, ks, x);
    MemberNodesCover(x.fields, s);
  }

  ghost function ItemNodes(xs: seq<Json>, i: nat): nat
    decreases |xs| - i
  {
    if i >= |xs| then 0 else Nodes(xs[i]) + ItemNodes(xs, i + 1)
  }

  lemma {:induction false} ArrayNodes(x: Json, i: nat)
    requires x.Arr? && i <= |x.items|
    ensures NodesOf(x.items[i..], x) == ItemNodes(x.items, i)
    decreases |x.items| - i
  {
    if i < |x.items| {
      ArrayNodes(x, i + 1);
      assert x.items[i..][1..] == x.items[i + 1..];
    }
  }

  /** A patch has at most as many operations as the two documents have nodes. */
  lemma {:induction false} PatchLength(a: Json, b: Json)
    ensures |Edits(a, b)| <= Nodes(a) + Nodes(b)
    decreases a, 3
  {
    if a.Obj? && b.Obj? {
      var keys := a.fields.Keys + b.fields.Keys;
      SortedKeysSorted(keys);
      KeysLength(a, b, SortedKeys(keys));
      ObjectNodes(a, keys);
      ObjectNodes(b, keys);
    } else if a.Arr? && b.Arr? {
      ArrayNodes(a, 0);
      ArrayNodes(b, 0);
      assert a.items[0..] == a.items && b.items[0..] == b.items;
      ItemsLength(a, b, 0);
    }
  }

  lemma {:induction false} KeysLength(a: Json, b: Json, ks: seq<string>)
    requires a.Obj? && b.Obj?
    requires forall k :: k in ks ==> k in a.fields || k in b.fields
    ensures |KeyEdits(a, b, ks)| <= MemberNodes(a.fields, ks) + MemberNodes(b.fields, ks)
    decreases a, 2, |ks|
  {
    if ks != [] {
      var k := ks[0];
      assert k in ks;
      if k in a.fields && k in b.fields { PatchLength(a.fields[k], b.fields[k]); }
      KeysLength(a, b, ks[1..]);
    }
  }

  lemma {:induction false} ItemsLength(a: Json, b: Json, i: nat)
    requires a.Arr? && b.Arr? && i <= Shared(a, b)
    ensures |ArrayTail(a, b, i)| <= ItemNodes(a.items, i) + ItemNodes(b.items, i)
    decreases a, 2, Shared(a, b) - i
  {
    if i < Shared(a, b) {
      ArrayTailStep(a, b, i);
      PatchLength(a.items[i], b.items[i]);
      ItemsLength(a, b, i + 1);
    } else {
      AddEditsAt(b.items, i);
      RemoveLength(|a.items|, i);
      ItemNodesLong(a.items, i);
      ItemNodesLong(b.items, i);
    }
  }

  lemma {:induction false} RemoveLength(n: nat, keep: nat)
    ensures |RemoveEdits(n, keep)| == if n > keep then n - keep else 0
    decreases n
  {
    if n > keep { RemoveLength(n - 1, keep); }
  }

  lemma {:induction false} ItemNodesLong(xs: seq<Json>, i: nat)
    requires i <= |xs|
    ensures ItemNodes(xs, i) >= |xs| - i
    decreases |xs| - i
  {
    if i < |xs| { ItemNodesLong(xs, i + 1); }
  }
}
