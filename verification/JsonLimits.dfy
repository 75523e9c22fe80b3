/** The worklist walker that checks a parsed document's size and depth before any recursive
    walker sees it. */
module JsonLimits {
  import opened Text
  import opened Json

  datatype LimitError = TooManyNodes | TooDeep

  method ChildrenOf(x: Json) returns (cs: seq<Json>)
    ensures cs == Children(x)
  {
    match x
    case Arr(xs) => cs := xs;
    case Obj(f) =>
      var ks := Sort(f.Keys);
      assert ks == FieldOrder(f);
      cs := Values(f, ks);
    case _ => cs := [];
  }

  ghost function StackNodes(stack: seq<(Json, nat)>): nat {
    if stack == [] then 0 else StackNodes(stack[..|stack| - 1]) + Nodes(stack[|stack| - 1].0)
  }

  ghost predicate Fits(stack: seq<(Json, nat)>, maxDepth: int) {
    forall i :: 0 <= i < |stack| ==> stack[i].1 + Height(stack[i].0) <= maxDepth
  }

  function AtDepth(cs: seq<Json>, depth: nat): (r: seq<(Json, nat)>)
    ensures |r| == |cs| && forall i :: 0 <= i < |cs| ==> r[i] == (cs[i], depth)
  {
    seq(|cs|, i requires 0 <= i < |cs| => (cs[i], depth))
  }

  lemma {:induction false} HeightWithin(cs: seq<Json>, parent: Json, m: nat)
    requires forall i :: 0 <= i < |cs| ==> cs[i] < parent
    ensures HeightOf(cs, parent) <= m <==> forall i :: 0 <= i < |cs| ==> Height(cs[i]) + 1 <= m
    decreases |cs|
  {
    if cs != [] {
      HeightWithin(cs[1..], parent, m);
      assert forall i :: 0 < i < |cs| ==> cs[i] == cs[1..][i - 1];
    }
  }

  lemma StackNodesSnoc(stack: seq<(Json, nat)>, x: Json, depth: nat)
    ensures StackNodes(stack + [(x, depth)]) == StackNodes(stack) + Nodes(x)
  {
    assert (stack + [(x, depth)])[..|stack|] == stack;
  }

  lemma AtDepthCons(stack: seq<(Json, nat)>, cs: seq<Json>, depth: nat)
    requires cs != []
    ensures stack + AtDepth(cs, depth) == stack + [(cs[0], depth)] + AtDepth(cs[1..], depth)
  {
    assert AtDepth(cs, depth) == [(cs[0], depth)] + AtDepth(cs[1..], depth);
  }

  lemma {:induction false} StackNodesPush(stack: seq<(Json, nat)>, cs: seq<Json>, depth: nat, parent: Json)
    requires forall i :: 0 <= i < |cs| ==> cs[i] < parent
    ensures StackNodes(stack + AtDepth(cs, depth)) == StackNodes(stack) + NodesOf(cs, parent)
    decreases |cs|
  {
    if cs == [] {
      assert stack + AtDepth(cs, depth) == stack;
    } else {
      var next := stack + [(cs[0], depth)];
      StackNodesSnoc(stack, cs[0], depth);
      AtDepthCons(stack, cs, depth);
      StackNodesPush(next, cs[1..], depth, parent);
    }
  }

  /** Popping one entry and pushing its members one deeper keeps both measures of what is left. */
  lemma PopPush(rest: seq<(Json, nat)>, x: Json, depth: nat, maxDepth: int)
    ensures var next := rest + AtDepth(Children(x), depth + 1);
            && StackNodes(next) + 1 == StackNodes(rest + [(x, depth)])
            && (depth <= maxDepth ==> (Fits(next, maxDepth) <==> Fits(rest + [(x, depth)], maxDepth)))
  {
    var cs := Children(x);
    var whole := rest + [(x, depth)];
    assert whole[..|whole| - 1] == rest;
    StackNodesPush(rest, cs, depth + 1, x);
    if depth <= maxDepth {
      FitsConcat(rest, [(x, depth)], maxDepth);
      FitsConcat(rest, AtDepth(cs, depth + 1), maxDepth);
      FitsMembers(x, depth, maxDepth);
    }
  }

  lemma FitsConcat(s: seq<(Json, nat)>, t: seq<(Json, nat)>, maxDepth: int)
    ensures Fits(s + t, maxDepth) <==> Fits(s, maxDepth) && Fits(t, maxDepth)
  {
    if Fits(s + t, maxDepth) {
      assert forall i :: 0 <= i < |s| ==> s[i] == (s + t)[i];
      assert forall i :: 0 <= i < |t| ==> t[i] == (s + t)[|s| + i];
    }
  }

  lemma FitsMembers(x: Json, depth: nat, maxDepth: int)
    requires depth <= maxDepth
    ensures Fits([(x, depth)], maxDepth) <==> Fits(AtDepth(Children(x), depth + 1), maxDepth)
  {
    FitsOne(x, depth, maxDepth);
    FitsAtDepth(Children(x), depth + 1, maxDepth);
    HeightWithin(Children(x), x, maxDepth - depth);
  }

  lemma FitsOne(x: Json, depth: nat, maxDepth: int)
    ensures Fits([(x, depth)], maxDepth) <==> depth + Height(x) <= maxDepth
  {
    var one := [(x, depth)];
    assert one[0] == (x, depth);
  }

  lemma FitsAtDepth(cs: seq<Json>, depth: nat, maxDepth: int)
    ensures Fits(AtDepth(cs, depth), maxDepth) <==> forall i :: 0 <= i < |cs| ==> Height(cs[i]) + depth <= maxDepth
  {
    var above := AtDepth(cs, depth);
    if Fits(above, maxDepth) {
      forall i | 0 <= i < |cs| ensures Height(cs[i]) + depth <= maxDepth { assert above[i] == (cs[i], depth); }
    }
  }

  /** What has been counted and what is still on the stack make up the document. */
  ghost predicate Pending(stack: seq<(Json, nat)>, nodes: nat, value: Json, maxDepth: int) {
    nodes + StackNodes(stack) == Nodes(value) && (Fits(stack, maxDepth) <==> Height(value) <= maxDepth)
  }

  lemma PendingFirst(value: Json, maxDepth: int)
    ensures Pending([(value, 0)], 0, value, maxDepth)
  {
    var stack: seq<(Json, nat)> := [(value, 0)];
    assert stack[..0] == [] && stack[0] == (value, 0);
  }

  lemma PendingLast(nodes: nat, value: Json, maxDepth: int)
    requires Pending([], nodes, value, maxDepth)
    ensures nodes == Nodes(value) && Height(value) <= maxDepth
  {
  }

  lemma PendingNext(rest: seq<(Json, nat)>, x: Json, depth: nat, nodes: nat, value: Json, maxDepth: int)
    requires Pending(rest + [(x, depth)], nodes, value, maxDepth)
    ensures nodes + 1 <= Nodes(value)
    ensures depth > maxDepth ==> Height(value) > maxDepth
    ensures var next := rest + AtDepth(Children(x), depth + 1);
            && StackNodes(next) < StackNodes(rest + [(x, depth)])
            && (depth <= maxDepth ==> Pending(next, nodes + 1, value, maxDepth))
  {
    var whole := rest + [(x, depth)];
    PopPush(rest, x, depth, maxDepth);
    if depth > maxDepth { assert whole[|rest|] == (x, depth); }
  }

  lemma TopApart(stack: seq<(Json, nat)>, rest: seq<(Json, nat)>, x: Json, depth: nat)
    requires stack != [] && rest == stack[..|stack| - 1] && stack[|stack| - 1] == (x, depth)
    ensures stack == rest + [(x, depth)]
  {
  }

  /** The check passes exactly when the document is within both limits. */
  method ValidateJsonStructure(value: Json, maxDepth: int, maxNodes: int) returns (err: Option<LimitError>)
    ensures err.None? <==> Nodes(value) <= maxNodes && Height(value) <= maxDepth
    ensures err == Some(TooManyNodes) ==> Nodes(value) > maxNodes
    ensures err == Some(TooDeep) ==> Height(value) > maxDepth
  {
    var stack: seq<(Json, nat)> := [(value, 0)];
    var nodes := 0;
    PendingFirst(value, maxDepth);
    while stack != []
      invariant Pending(stack, nodes, value, maxDepth)
      invariant nodes > 0 ==> nodes <= maxNodes
      invariant stack == [] ==> nodes > 0
      decreases StackNodes(stack)
    {
      var (current, depth) := stack[|stack| - 1];
      var rest := stack[..|stack| - 1];
      TopApart(stack, rest, current, depth);
      PendingNext(rest, current, depth, nodes, value, maxDepth);
      nodes := nodes + 1;
      if nodes > maxNodes { return Some(TooManyNodes); }
      if depth > maxDepth { return Some(TooDeep); }
      var cs := ChildrenOf(current);
      stack := rest + AtDepth(cs, depth + 1);
    }
    PendingLast(nodes, value, maxDepth);
    return None;
  }
}
