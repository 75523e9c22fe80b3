/** When the returned patch is the one that was written, although a difference sits under an empty key. */
module JsonPatchApart {
  import opened Text
  import opened Json
  import opened JsonPointer
  import opened JsonPatch
  import opened JsonPatchTheorem
  import opened JsonPatchConverse
  import opened JsonShared
  import opened JsonMutated
  import opened JsonSharedKinds
  import opened JsonPatchExact
  import opened JsonPatchStrict
  import opened JsonPatchStandard
  import opened JsonService

  // ---- The condition: what the paths say as they are read ----

  function Reads(es: seq<Edit>): set<seq<string>> { set e | e in es :: DropEmpty(e.parts) }

  /** Components that may select the same member: items move, so any two indices may. */
  predicate Meets(x: string, y: string) { x == y || (PyInt(x).Some? && PyInt(y).Some?) }

  /** The path t may lead into the member at s. */
  predicate Enters(t: seq<string>, s: seq<string>) {
    |t| > |s| && forall i | 0 <= i < |s| :: Meets(t[i], s[i])
  }

  predicate Enterable(v: Json) { v.Arr? || v.Obj? || v.Null? }

  function AtKey(ahead: set<seq<string>>, k: string): set<seq<string>> {
    set t | t in ahead && t != [] && t[0] == k :: t[1..]
  }

  function AtIndices(ahead: set<seq<string>>): set<seq<string>> {
    set t | t in ahead && t != [] && PyInt(t[0]).Some? :: t[1..]
  }

  /** No path ends one component below a null. */
  predicate NullsSpared(x: Json, ahead: set<seq<string>>)
    decreases x
  {
    match x
    case Null => forall t | t in ahead :: |t| != 1
    case Arr(xs) => forall i | 0 <= i < |xs| :: NullsSpared(xs[i], AtIndices(ahead))
    case Obj(f) => forall k | k in f :: NullsSpared(f[k], AtKey(ahead, k))
    case _ => true
  }

  /** No path may lead into what an earlier operation put in place. */
  predicate NoneEnters(es: seq<Edit>) {
    forall n | 0 <= n < |es| ::
      CarriesValue(es[n].act) && Enterable(es[n].act.value) ==>
        forall m | n < m < |es| :: !Enters(DropEmpty(es[m].parts), DropEmpty(es[n].parts))
  }

  predicate ReadsApart(a: Json, es: seq<Edit>) { NullsSpared(a, Reads(es)) && NoneEnters(es) }

  // ---- A document that the remaining paths leave in peace ----

  /** The paths to come enter no shared container and take the document over at no null. */
  ghost predicate Undisturbed(n: Node, ahead: set<seq<string>>)
    decreases n
  {
    && (Owner(n).Some? ==> forall t :: t in ahead ==> t == [])
    && match n
       case Leaf(v) => v == Null ==> forall t :: t in ahead ==> |t| != 1
       case List(xs, _) => forall i | 0 <= i < |xs| :: Undisturbed(xs[i], AtIndices(ahead))
       case Dict(f, _) => forall k | k in f :: Undisturbed(f[k], AtKey(ahead, k))
  }

  lemma {:induction false} FewerReads(n: Node, ahead: set<seq<string>>, fewer: set<seq<string>>)
    requires Undisturbed(n, ahead) && fewer <= ahead
    ensures Undisturbed(n, fewer)
    decreases n
  {
    match n
    case Leaf(_) =>
    case List(xs, _) =>
      forall i | 0 <= i < |xs| ensures Undisturbed(xs[i], AtIndices(fewer)) {
        FewerReads(xs[i], AtIndices(ahead), AtIndices(fewer));
      }
    case Dict(f, _) =>
      forall k | k in f ensures Undisturbed(f[k], AtKey(fewer, k)) {
        FewerReads(f[k], AtKey(ahead, k), AtKey(fewer, k));
      }
  }

  lemma {:induction false} OnlyRootReads(n: Node, ahead: set<seq<string>>)
    requires forall t :: t in ahead ==> t == []
    ensures Undisturbed(n, ahead)
    decreases n
  {
    match n
    case Leaf(_) =>
    case List(xs, _) =>
      forall i | 0 <= i < |xs| ensures Undisturbed(xs[i], AtIndices(ahead)) { OnlyRootReads(xs[i], AtIndices(ahead)); }
    case Dict(f, _) =>
      forall k | k in f ensures Undisturbed(f[k], AtKey(ahead, k)) { OnlyRootReads(f[k], AtKey(ahead, k)); }
  }

  lemma {:induction false} FreshUndisturbed(x: Json, ahead: set<seq<string>>)
    requires NullsSpared(x, ahead)
    ensures Undisturbed(Fresh(x), ahead)
    decreases x
  {
    match x
    case Arr(xs) =>
      forall i | 0 <= i < |xs| ensures Undisturbed(Fresh(x).items[i], AtIndices(ahead)) {
        FreshUndisturbed(xs[i], AtIndices(ahead));
      }
    case Obj(f) =>
      forall k | k in f ensures Undisturbed(Fresh(x).fields[k], AtKey(ahead, k)) {
        FreshUndisturbed(f[k], AtKey(ahead, k));
      }
    case _ =>
  }

  /** A value put in place stays in peace if no later path leads into it. */
  lemma NamedUndisturbed(v: Json, home: Place, ahead: set<seq<string>>)
    requires Enterable(v) ==> forall t :: t in ahead ==> t == []
    ensures Undisturbed(Named(v, home), ahead)
  {
    if Enterable(v) { OnlyRootReads(Named(v, home), ahead); }
  }

  // ---- One operation ----

  /** The later paths do not lead into the value that an act puts at s. */
  predicate Spared(act: Act, s: seq<string>, later: set<seq<string>>) {
    CarriesValue(act) && Enterable(act.value) ==> forall t | t in later :: !Enters(t, s)
  }

  /** The document stays undisturbed, and only the act's own value is entered. */
  ghost predicate Calm(e: Effect, act: Act, home: Place, vals: Values, later: set<seq<string>>) {
    && !e.TakesOver?
    && (e.Leaves? ==>
          && Undisturbed(e.node, later)
          && (e.vals == vals || (CarriesValue(act) && e.vals == vals[home := act.value])))
  }

  lemma {:induction false} EditCalm(n: Node, s: seq<string>, act: Act, home: Place, vals: Values,
                                    ahead: set<seq<string>>, later: set<seq<string>>)
    requires s != [] && s in ahead && later <= ahead && Undisturbed(n, ahead) && Spared(act, s, later)
    ensures Calm(EditNode(n, s, act, home, vals), act, home, vals, later)
    decreases |s|
  {
    FewerReads(n, ahead, later);
    if |s| == 1 {
      match n
      case Leaf(_) =>
      case Dict(f, o) => KeyCalm(f, o, s, act, home, vals, later);
      case List(xs, o) => IndexCalm(xs, o, s, act, home, vals, later);
    } else if ChildNode(n, s[0]).Some? {
      var c := ChildNode(n, s[0]).value;
      var inner := if n.Dict? then AtKey(later, s[0]) else AtIndices(later);
      var outer := if n.Dict? then AtKey(ahead, s[0]) else AtIndices(ahead);
      assert s[1..] in outer;
      SparedBelow(act, s, later, inner);
      EditCalm(c, s[1..], act, home, vals, outer, inner);
      var e := EditNode(c, s[1..], act, home, vals);
      if e.Leaves? { WithCalmChild(n, s[0], e.node, later); }
    }
  }

  lemma SparedBelow(act: Act, s: seq<string>, later: set<seq<string>>, inner: set<seq<string>>)
    requires s != [] && Spared(act, s, later)
    requires inner == AtKey(later, s[0]) || (inner == AtIndices(later) && PyInt(s[0]).Some?)
    ensures Spared(act, s[1..], inner)
  {
    if CarriesValue(act) && Enterable(act.value) {
      forall u | u in inner ensures !Enters(u, s[1..]) {
        var t :| t in later && t != [] && t[1..] == u && Meets(t[0], s[0]);
        if Enters(u, s[1..]) {
          forall i | 0 <= i < |s| ensures Meets(t[i], s[i]) {
            if i > 0 { assert Meets(u[i - 1], s[1..][i - 1]); }
          }
          assert Enters(t, s);
        }
      }
    }
  }

  lemma WithCalmChild(n: Node, k: string, c: Node, later: set<seq<string>>)
    requires ChildNode(n, k).Some? && Undisturbed(n, later)
    requires Undisturbed(c, if n.Dict? then AtKey(later, k) else AtIndices(later))
    ensures Undisturbed(WithChildNode(n, k, c), later)
  {
  }

  lemma OneBelow(act: Act, s: seq<string>, later: set<seq<string>>, inner: set<seq<string>>)
    requires |s| == 1 && Spared(act, s, later) && CarriesValue(act)
    requires inner == AtKey(later, s[0]) || (inner == AtIndices(later) && PyInt(s[0]).Some?)
    ensures Enterable(act.value) ==> forall t :: t in inner ==> t == []
  {
    SparedBelow(act, s, later, inner);
    if Enterable(act.value) {
      forall t | t in inner ensures t == [] { assert !Enters(t, s[1..]); }
    }
  }

  lemma KeyCalm(f: map<string, Node>, o: Option<Place>, s: seq<string>, act: Act, home: Place, vals: Values,
                later: set<seq<string>>)
    requires |s| == 1 && o.None? && Undisturbed(Dict(f, o), later) && Spared(act, s, later)
    ensures Calm(EditLeafNode(Dict(f, o), s[0], act, home, vals), act, home, vals, later)
  {
    if !act.Remove? {
      OneBelow(act, s, later, AtKey(later, s[0]));
      NamedUndisturbed(act.value, home, AtKey(later, s[0]));
    }
  }

  lemma IndexCalm(xs: seq<Node>, o: Option<Place>, s: seq<string>, act: Act, home: Place, vals: Values,
                  later: set<seq<string>>)
    requires |s| == 1 && o.None? && Undisturbed(List(xs, o), later) && Spared(act, s, later)
    ensures Calm(EditLeafNode(List(xs, o), s[0], act, home, vals), act, home, vals, later)
  {
    if PyInt(s[0]).Some? && !act.Remove? {
      OneBelow(act, s, later, AtIndices(later));
      NamedUndisturbed(act.value, home, AtIndices(later));
    }
  }

  // ---- The whole run ----

  /** Every value entered is the one that stands at its place in the second document. */
  ghost predicate Original(vals: Values, b: Json) {
    forall p :: p in vals ==> Resolve(b, p) == Some(vals[p])
  }

  lemma {:induction false} RunCalm(node: Node, es: seq<Edit>, vals: Values, b: Json)
    requires Undisturbed(node, Reads(es)) && NoneEnters(es) && AllGiven(es, [], b) && Original(vals, b)
    ensures Original(RunShared(node, es, vals).1, b)
    decreases |es|
  {
    if es != [] {
      var e := es[0];
      assert [] + e.parts == e.parts;
      LaterReads(es);
      LaterGiven(es, b);
      LaterNoneEnters(es);
      StepCalm(node, e, vals, b, Reads(es), Reads(es[1..]));
      var r := ApplyNode(node, DropEmpty(e.parts), e.act, e.parts, vals);
      if r.0.Some? { RunCalm(r.0.value, es[1..], r.1, b); }
    }
  }

  lemma StepCalm(node: Node, e: Edit, vals: Values, b: Json, ahead: set<seq<string>>, later: set<seq<string>>)
    requires Undisturbed(node, ahead) && later <= ahead && DropEmpty(e.parts) in ahead
    requires GivenAt(e.act, e.parts, b) && Original(vals, b) && Spared(e.act, DropEmpty(e.parts), later)
    ensures var r := ApplyNode(node, DropEmpty(e.parts), e.act, e.parts, vals);
            Original(r.1, b) && (r.0.Some? ==> Undisturbed(r.0.value, later))
  {
    var s := DropEmpty(e.parts);
    if s != [] {
      EditCalm(node, s, e.act, e.parts, vals, ahead, later);
    } else if CarriesValue(e.act) {
      OnlyRootLeft(e.act, later);
      NamedUndisturbed(e.act.value, e.parts, later);
    } else {
      FewerReads(node, ahead, later);
    }
  }

  lemma OnlyRootLeft(act: Act, later: set<seq<string>>)
    requires CarriesValue(act) && Spared(act, [], later)
    ensures Enterable(act.value) ==> forall t :: t in later ==> t == []
  {
    if Enterable(act.value) {
      forall t | t in later ensures t == [] { assert !Enters(t, []); }
    }
  }

  lemma LaterReads(es: seq<Edit>)
    requires es != []
    ensures Reads(es[1..]) <= Reads(es) && DropEmpty(es[0].parts) in Reads(es)
  {
    assert es[0] in es;
    assert forall e :: e in es[1..] ==> e in es;
  }

  lemma LaterGiven(es: seq<Edit>, b: Json)
    requires es != [] && AllGiven(es, [], b)
    ensures AllGiven(es[1..], [], b)
  {
    forall n | 0 <= n < |es[1..]| ensures GivenAt(es[1..][n].act, [] + es[1..][n].parts, b) {
      assert es[1..][n] == es[n + 1];
    }
  }

  lemma LaterNoneEnters(es: seq<Edit>)
    requires es != [] && NoneEnters(es)
    ensures NoneEnters(es[1..])
    ensures Spared(es[0].act, DropEmpty(es[0].parts), Reads(es[1..]))
  {
    var rest := es[1..];
    forall n, m | 0 <= n < m < |rest| && CarriesValue(rest[n].act) && Enterable(rest[n].act.value)
      ensures !Enters(DropEmpty(rest[m].parts), DropEmpty(rest[n].parts))
    {
      assert rest[n] == es[n + 1] && rest[m] == es[m + 1];
    }
    if CarriesValue(es[0].act) && Enterable(es[0].act.value) {
      forall t | t in Reads(rest) ensures !Enters(t, DropEmpty(es[0].parts)) {
        var e :| e in rest && DropEmpty(e.parts) == t;
        var m :| 0 <= m < |rest| && rest[m] == e;
        assert es[m + 1] == e;
      }
    }
  }

  /** If no path, as it is read, may lead into a null or into what an earlier operation put in place,
      the trial application leaves every value as the walker found it. */
  lemma ApartUntouched(a: Json, b: Json)
    requires ReadsApart(a, Edits(a, b))
    ensures Untouched(FinalValues(a, b), Edits(a, b))
  {
    var es := Edits(a, b);
    var vals := FinalValues(a, b);
    FreshUndisturbed(a, Reads(es));
    EditsGiven(a, b, [], b);
    RunCalm(Fresh(a), es, map[], b);
    forall n | 0 <= n < |es| && CarriesValue(es[n].act)
      ensures Now(vals, es[n].parts, es[n].act.value) == es[n].act.value
    {
      assert [] + es[n].parts == es[n].parts;
      assert GivenAt(es[n].act, es[n].parts, b);
    }
  }

  /** Then the returned patch is the walker's own, and a library turns the first document into the
      second if and only if the pair is portable. */
  lemma ReturnedApart(a: Json, b: Json)
    requires ReadsApart(a, Edits(a, b))
    ensures var written := Render(a.Arr? && b.Arr?, [], Edits(a, b));
            var patch := Reported(written, FinalValues(a, b));
            patch == written && (Reached(StrictOps(a, patch), b) <==> Portable(a, b))
  {
    ApartUntouched(a, b);
    ReportedUntouched(a.Arr? && b.Arr?, Edits(a, b), FinalValues(a, b));
    WrittenPatch(a, b);
  }
}
