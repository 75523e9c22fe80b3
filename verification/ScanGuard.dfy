/** The streaming guard that watches the bytes of a JSON body, chunk by chunk, and measures the
    nesting of a document it never parses. */
module ScanGuard {
  import opened Text
  import opened Json

  type byte = n: nat | n < 256

  const QUOTE: byte := 34
  const BACKSLASH: byte := 92
  const COMMA: byte := 44
  const COLON: byte := 58
  const OPEN_BRACE: byte := 123
  const CLOSE_BRACE: byte := 125
  const OPEN_BRACKET: byte := 91
  const CLOSE_BRACKET: byte := 93

  datatype Scan = Scan(depth: nat, nodes: nat, inString: bool, escaped: bool)

  const FRESH := Scan(0, 0, false, false)

  function StepByte(s: Scan, b: byte): Scan {
    if s.inString then
      if s.escaped then s.(escaped := false)
      else if b == BACKSLASH then s.(escaped := true)
      else if b == QUOTE then s.(inString := false)
      else s
    else if b == QUOTE then s.(inString := true)
    else if b == OPEN_BRACE || b == OPEN_BRACKET then s.(depth := s.depth + 1, nodes := s.nodes + 1)
    else if b == CLOSE_BRACE || b == CLOSE_BRACKET then s.(depth := if s.depth == 0 then 0 else s.depth - 1)
    else s
  }

  predicate Within(s: Scan, maxDepth: nat, maxNodes: nat) {
    s.depth <= maxDepth && s.nodes <= maxNodes
  }

  /** The limits are checked after every byte outside a string; None when one is exceeded. */
  function Feed(s: Scan, bs: seq<byte>, maxDepth: nat, maxNodes: nat): Option<Scan>
    decreases |bs|
  {
    if bs == [] then Some(s)
    else
      var next := StepByte(s, bs[0]);
      if !s.inString && !Within(next, maxDepth, maxNodes) then None
      else Feed(next, bs[1..], maxDepth, maxNodes)
  }

  datatype Verdict = Passed | TooLarge | TooDeep

  /** The guard's variables, kept from one received chunk to the next. */
  class Guard {
    var total: nat
    var depth: nat
    var nodes: nat
    var inString: bool
    var escaped: bool
    const limit: int
    const isJson: bool
    const maxDepth: nat
    const maxNodes: nat

    ghost function Seen(): Scan
      reads this
    {
      Scan(depth, nodes, inString, escaped)
    }

    constructor (limit: int, isJson: bool, maxDepth: nat, maxNodes: nat)
      ensures total == 0 && Seen() == FRESH
      ensures this.limit == limit && this.isJson == isJson
      ensures this.maxDepth == maxDepth && this.maxNodes == maxNodes
    {
      total, depth, nodes, inString, escaped := 0, 0, 0, false, false;
      this.limit, this.isJson, this.maxDepth, this.maxNodes := limit, isJson, maxDepth, maxNodes;
    }

    method Receive(body: seq<byte>) returns (v: Verdict)
      modifies this
      ensures total == old(total) + |body|
      ensures v == TooLarge <==> total > limit
      ensures v != TooLarge && isJson ==>
                var fed := Feed(old(Seen()), body, maxDepth, maxNodes);
                (v == TooDeep <==> fed.None?) && (v == Passed ==> fed == Some(Seen()))
      ensures v != TooLarge && !isJson ==> v == Passed && Seen() == old(Seen())
    {
      total := total + |body|;
      if total > limit { return TooLarge; }
      if !isJson { return Passed; }
      for i := 0 to |body|
        invariant total == old(total) + |body|
        invariant Feed(Seen(), body[i..], maxDepth, maxNodes) == Feed(old(Seen()), body, maxDepth, maxNodes)
      {
        var b := body[i];
        ghost var before := Seen();
        assert body[i..][0] == b && body[i..][1..] == body[i + 1..];
        if inString {
          if escaped {
            escaped := false;
          } else if b == BACKSLASH {
            escaped := true;
          } else if b == QUOTE {
            inString := false;
          }
          assert Seen() == StepByte(before, b);
        } else {
          if b == QUOTE {
            inString := true;
          } else if b == OPEN_BRACE || b == OPEN_BRACKET {
            depth := depth + 1;
            nodes := nodes + 1;
          } else if b == CLOSE_BRACE || b == CLOSE_BRACKET {
            depth := if depth == 0 then 0 else depth - 1;
          }
          assert Seen() == StepByte(before, b);
          if depth > maxDepth || nodes > maxNodes { return TooDeep; }
        }
      }
      assert body[|body|..] == [];
      return Passed;
    }
  }

  // ---- Chunks do not matter ----

  lemma {:induction false} FeedConcat(s: Scan, x: seq<byte>, y: seq<byte>, d: nat, n: nat)
    ensures Feed(s, x + y, d, n) ==
            match Feed(s, x, d, n) { case None => None case Some(t) => Feed(t, y, d, n) }
    decreases |x|
  {
    if x == [] {
      assert x + y == y;
    } else {
      assert (x + y)[1..] == x[1..] + y;
      FeedConcat(StepByte(s, x[0]), x[1..], y, d, n);
    }
  }

  function Whole(chunks: seq<seq<byte>>): seq<byte> {
    if chunks == [] then [] else chunks[0] + Whole(chunks[1..])
  }

  function FeedChunks(s: Scan, chunks: seq<seq<byte>>, d: nat, n: nat): Option<Scan>
    decreases |chunks|
  {
    if chunks == [] then Some(s)
    else match Feed(s, chunks[0], d, n)
      case None => None
      case Some(t) => FeedChunks(t, chunks[1..], d, n)
  }

  /** Any split of the body into chunks gives the same verdict. */
  lemma {:induction false} ChunksIrrelevant(s: Scan, chunks: seq<seq<byte>>, d: nat, n: nat)
    ensures FeedChunks(s, chunks, d, n) == Feed(s, Whole(chunks), d, n)
    decreases |chunks|
  {
    if chunks != [] {
      FeedConcat(s, chunks[0], Whole(chunks[1..]), d, n);
      var t := Feed(s, chunks[0], d, n);
      if t.Some? { ChunksIrrelevant(t.value, chunks[1..], d, n); }
    }
  }

  // ---- JSON texts (sections 2 and 7 of RFC 8259) ----

  /** A character of a string: a plain byte, or a backslash and the byte it escapes. The four
      digits after an escaped `u` are plain bytes. */
  datatype StrItem = Plain(b: byte) | Escape(c: byte)

  datatype Node =
    | Atom(bytes: seq<byte>)                     // number, true, false or null
    | Quoted(chars: seq<StrItem>)
    | List(lead: seq<byte>, elems: seq<Elem>)
    | Dict(lead: seq<byte>, members: seq<Member>)

  datatype Elem = Elem(before: seq<byte>, value: Node, after: seq<byte>)

  datatype Member = Member(before: seq<byte>, key: seq<StrItem>, mid: seq<byte>, mid2: seq<byte>, value: Node,
                           after: seq<byte>)

  predicate Blank(ws: seq<byte>) {
    forall i :: 0 <= i < |ws| ==> ws[i] == 32 || ws[i] == 9 || ws[i] == 10 || ws[i] == 13
  }

  /** Bytes that leave a scan outside strings unchanged. */
  predicate Neutral(bs: seq<byte>) {
    forall i :: 0 <= i < |bs| ==>
      bs[i] != QUOTE && bs[i] != OPEN_BRACE && bs[i] != OPEN_BRACKET && bs[i] != CLOSE_BRACE && bs[i] != CLOSE_BRACKET
  }

  predicate AtomBytes(bs: seq<byte>) {
    forall i :: 0 <= i < |bs| ==>
      48 <= bs[i] <= 57 || 97 <= bs[i] <= 122 || bs[i] == 69 || bs[i] == 43 || bs[i] == 45 || bs[i] == 46
  }

  predicate Chars(cs: seq<StrItem>) {
    forall i :: 0 <= i < |cs| ==> (cs[i].Plain? ==> cs[i].b != QUOTE && cs[i].b != BACKSLASH)
  }

  predicate WellFormed(t: Node) {
    match t
    case Atom(bs) => AtomBytes(bs)
    case Quoted(cs) => Chars(cs)
    case List(lead, es) =>
      Blank(lead) && forall i | 0 <= i < |es| :: Blank(es[i].before) && Blank(es[i].after) && WellFormed(es[i].value)
    case Dict(lead, ms) =>
      Blank(lead) && forall i | 0 <= i < |ms| ::
        Blank(ms[i].before) && Chars(ms[i].key) && Blank(ms[i].mid) && Blank(ms[i].mid2)
        && Blank(ms[i].after) && WellFormed(ms[i].value)
  }

  function CharsText(cs: seq<StrItem>): seq<byte> {
    if cs == [] then []
    else (match cs[0] case Plain(b) => [b] case Escape(c) => [BACKSLASH, c]) + CharsText(cs[1..])
  }

  function StringText(cs: seq<StrItem>): seq<byte> {
    [QUOTE] + CharsText(cs) + [QUOTE]
  }

  function NodeText(t: Node): seq<byte>
    decreases t, 1
  {
    match t
    case Atom(bs) => bs
    case Quoted(cs) => StringText(cs)
    case List(lead, es) => [OPEN_BRACKET] + lead + ElemsText(t, 0) + [CLOSE_BRACKET]
    case Dict(lead, ms) => [OPEN_BRACE] + lead + MembersText(t, 0) + [CLOSE_BRACE]
  }

  function Separator(i: nat): seq<byte> { if i == 0 then [] else [COMMA] }

  function ElemsText(t: Node, i: nat): seq<byte>
    requires t.List? && i <= |t.elems|
    decreases t, 0, |t.elems| - i
  {
    if i == |t.elems| then []
    else
      var e := t.elems[i];
      Separator(i) + e.before + NodeText(e.value) + e.after + ElemsText(t, i + 1)
  }

  function MembersText(t: Node, i: nat): seq<byte>
    requires t.Dict? && i <= |t.members|
    decreases t, 0, |t.members| - i
  {
    if i == |t.members| then []
    else
      var m := t.members[i];
      Separator(i) + m.before + StringText(m.key) + m.mid + [COLON] + m.mid2 + NodeText(m.value) + m.after
      + MembersText(t, i + 1)
  }

  // ---- Nesting and number of containers of a text ----

  function Arity(t: Node): nat {
    match t
    case List(_, es) => |es|
    case Dict(_, ms) => |ms|
    case _ => 0
  }

  function Part(t: Node, i: nat): (p: Node)
    requires i < Arity(t)
    ensures p < t
  {
    match t
    case List(_, es) => es[i].value
    case Dict(_, ms) => ms[i].value
  }

  predicate Container(t: Node) { t.List? || t.Dict? }

  function Max(a: nat, b: nat): nat { if a > b then a else b }

  function Nesting(t: Node): nat
    decreases t, 1
  {
    if Container(t) then 1 + NestingFrom(t, 0) else 0
  }

  function NestingFrom(t: Node, i: nat): nat
    requires i <= Arity(t)
    decreases t, 0, Arity(t) - i
  {
    if i == Arity(t) then 0 else Max(Nesting(Part(t, i)), NestingFrom(t, i + 1))
  }

  function Containers(t: Node): nat
    decreases t, 1
  {
    if Container(t) then 1 + ContainersFrom(t, 0) else 0
  }

  function ContainersFrom(t: Node, i: nat): nat
    requires i <= Arity(t)
    decreases t, 0, Arity(t) - i
  {
    if i == Arity(t) then 0 else Containers(Part(t, i)) + ContainersFrom(t, i + 1)
  }

  // ---- The scan of a text measures exactly that ----

  /** Outside strings and within the limits. */
  predicate Calm(s: Scan, d: nat, n: nat) {
    !s.inString && !s.escaped && Within(s, d, n)
  }

  /** What scanning something `deep` levels deep with `count` containers does. */
  function Measured(s: Scan, deep: nat, count: nat, d: nat, n: nat): Option<Scan> {
    if s.depth + deep <= d && s.nodes + count <= n then Some(s.(nodes := s.nodes + count)) else None
  }

  lemma {:induction false} FeedNeutral(s: Scan, bs: seq<byte>, d: nat, n: nat)
    requires Calm(s, d, n) && Neutral(bs)
    ensures Feed(s, bs, d, n) == Some(s)
    decreases |bs|
  {
    if bs != [] { FeedNeutral(s, bs[1..], d, n); }
  }

  lemma {:induction false} FeedChars(s: Scan, cs: seq<StrItem>, d: nat, n: nat)
    requires s.inString && !s.escaped && Chars(cs)
    ensures Feed(s, CharsText(cs), d, n) == Some(s)
    decreases |cs|
  {
    if cs != [] {
      var first := match cs[0] case Plain(b) => [b] case Escape(c) => [BACKSLASH, c];
      FeedChars(s, cs[1..], d, n);
      FeedConcat(s, first, CharsText(cs[1..]), d, n);
      match cs[0]
      case Plain(b) => assert first[1..] == [];
      case Escape(c) => assert first[1..] == [c] && [c][1..] == [];
    }
  }

  lemma FeedString(s: Scan, cs: seq<StrItem>, d: nat, n: nat)
    requires Calm(s, d, n) && Chars(cs)
    ensures Feed(s, StringText(cs), d, n) == Some(s)
  {
    var inside := s.(inString := true);
    FeedOne(s, QUOTE, d, n);
    FeedConcat(s, [QUOTE], CharsText(cs), d, n);
    FeedChars(inside, cs, d, n);
    FeedConcat(s, [QUOTE] + CharsText(cs), [QUOTE], d, n);
    assert [QUOTE][1..] == [];
  }

  lemma FeedOne(s: Scan, b: byte, d: nat, n: nat)
    ensures Feed(s, [b], d, n) ==
            if !s.inString && !Within(StepByte(s, b), d, n) then None else Some(StepByte(s, b))
  {
    assert [b][1..] == [];
  }

  lemma {:induction false} FeedNode(s: Scan, t: Node, d: nat, n: nat)
    requires Calm(s, d, n) && WellFormed(t)
    ensures Feed(s, NodeText(t), d, n) == Measured(s, Nesting(t), Containers(t), d, n)
    decreases t, 1
  {
    match t
    case Atom(bs) => FeedNeutral(s, bs, d, n);
    case Quoted(cs) => FeedString(s, cs, d, n);
    case List(lead, es) => FeedContainer(s, t, OPEN_BRACKET, lead, ElemsText(t, 0), CLOSE_BRACKET, d, n);
    case Dict(lead, ms) => FeedContainer(s, t, OPEN_BRACE, lead, MembersText(t, 0), CLOSE_BRACE, d, n);
  }

  lemma {:induction false} FeedContainer(s: Scan, t: Node, open: byte, lead: seq<byte>, inner: seq<byte>, close: byte,
                                         d: nat, n: nat)
    requires Calm(s, d, n) && WellFormed(t) && Blank(lead)
    requires (t.List? && open == OPEN_BRACKET && close == CLOSE_BRACKET && inner == ElemsText(t, 0))
          || (t.Dict? && open == OPEN_BRACE && close == CLOSE_BRACE && inner == MembersText(t, 0))
    ensures Feed(s, [open] + lead + inner + [close], d, n) == Measured(s, Nesting(t), Containers(t), d, n)
    decreases t, 0, Arity(t) + 1
  {
    var up := s.(depth := s.depth + 1, nodes := s.nodes + 1);
    if Within(up, d, n) { FeedParts(up, t, 0, d, n); }
    Bracketed(s, open, lead, inner, close, NestingFrom(t, 0), ContainersFrom(t, 0), d, n);
  }

  /** Brackets add one level and one container around what they enclose. */
  lemma Bracketed(s: Scan, open: byte, lead: seq<byte>, inner: seq<byte>, close: byte, deep: nat, count: nat, d: nat,
                  n: nat)
    requires Calm(s, d, n) && Blank(lead)
    requires open == OPEN_BRACE || open == OPEN_BRACKET
    requires close == CLOSE_BRACE || close == CLOSE_BRACKET
    requires var up := s.(depth := s.depth + 1, nodes := s.nodes + 1);
             Within(up, d, n) ==> Feed(up, inner, d, n) == Measured(up, deep, count, d, n)
    ensures Feed(s, [open] + lead + inner + [close], d, n) == Measured(s, 1 + deep, 1 + count, d, n)
  {
    var up := s.(depth := s.depth + 1, nodes := s.nodes + 1);
    FeedConcat(s, [open], lead, d, n);
    FeedConcat(s, [open] + lead, inner, d, n);
    FeedConcat(s, [open] + lead + inner, [close], d, n);
    FeedOne(s, open, d, n);
    if Within(up, d, n) {
      FeedNeutral(up, lead, d, n);
      FeedOne(up.(nodes := up.nodes + count), close, d, n);
    }
  }

  function PartsText(t: Node, i: nat): seq<byte>
    requires Container(t) && i <= Arity(t)
  {
    if t.List? then ElemsText(t, i) else MembersText(t, i)
  }

  lemma {:induction false} FeedParts(s: Scan, t: Node, i: nat, d: nat, n: nat)
    requires Calm(s, d, n) && WellFormed(t) && Container(t) && i <= Arity(t)
    ensures Feed(s, PartsText(t, i), d, n) == Measured(s, NestingFrom(t, i), ContainersFrom(t, i), d, n)
    decreases t, 0, Arity(t) - i
  {
    if i < Arity(t) {
      PartOk(t, i);
      FeedNode(s, Part(t, i), d, n);
      var after := s.(nodes := s.nodes + Containers(Part(t, i)));
      if Within(after, d, n) { FeedParts(after, t, i + 1, d, n); }
      FeedPart(s, t, i, d, n);
    }
  }

  lemma PartOk(t: Node, i: nat)
    requires WellFormed(t) && Container(t) && i < Arity(t)
    ensures WellFormed(Part(t, i)) && Blank(Behind(t, i))
  {
  }

  lemma FeedPart(s: Scan, t: Node, i: nat, d: nat, n: nat)
    requires Calm(s, d, n) && WellFormed(t) && Container(t) && i < Arity(t)
    requires Feed(s, NodeText(Part(t, i)), d, n) == Measured(s, Nesting(Part(t, i)), Containers(Part(t, i)), d, n)
    requires var after := s.(nodes := s.nodes + Containers(Part(t, i)));
             Within(after, d, n) ==>
               Feed(after, PartsText(t, i + 1), d, n) ==
               Measured(after, NestingFrom(t, i + 1), ContainersFrom(t, i + 1), d, n)
    ensures Feed(s, PartsText(t, i), d, n) == Measured(s, NestingFrom(t, i), ContainersFrom(t, i), d, n)
  {
    var p := Part(t, i);
    var rest := PartsText(t, i + 1);
    var b, v, w := Before(t, i), NodeText(p), Behind(t, i);
    assert Blank(w) by { PartOk(t, i); }
    assert PartsText(t, i) == b + v + w + rest by { SplitPart(t, i); }
    FeedBefore(s, t, i, d, n);
    PartMeasures(t, i);
    Chained(s, b, v, w, rest, Nesting(p), Containers(p), NestingFrom(t, i + 1), ContainersFrom(t, i + 1), d, n);
  }

  lemma PartMeasures(t: Node, i: nat)
    requires Container(t) && i < Arity(t)
    ensures NestingFrom(t, i) == Max(Nesting(Part(t, i)), NestingFrom(t, i + 1))
    ensures ContainersFrom(t, i) == Containers(Part(t, i)) + ContainersFrom(t, i + 1)
  {
  }

  /** Two measured stretches in a row: the deeper one counts, the containers add up. */
  lemma Chained(s: Scan, b: seq<byte>, v: seq<byte>, w: seq<byte>, rest: seq<byte>,
                deep: nat, count: nat, deeper: nat, more: nat, d: nat, n: nat)
    requires Calm(s, d, n) && Feed(s, b, d, n) == Some(s) && Blank(w)
    requires Feed(s, v, d, n) == Measured(s, deep, count, d, n)
    requires var after := s.(nodes := s.nodes + count);
             Within(after, d, n) ==> Feed(after, rest, d, n) == Measured(after, deeper, more, d, n)
    ensures Feed(s, b + v + w + rest, d, n) == Measured(s, Max(deep, deeper), count + more, d, n)
  {
    FeedConcat(s, b, v, d, n);
    FeedConcat(s, b + v, w, d, n);
    FeedConcat(s, b + v + w, rest, d, n);
    var after := s.(nodes := s.nodes + count);
    if Within(after, d, n) { FeedNeutral(after, w, d, n); }
  }

  /** Everything of part i that precedes its value. */
  function Before(t: Node, i: nat): seq<byte>
    requires Container(t) && i < Arity(t)
  {
    if t.List? then Separator(i) + t.elems[i].before
    else
      var m := t.members[i];
      Separator(i) + m.before + StringText(m.key) + m.mid + [COLON] + m.mid2
  }

  function Behind(t: Node, i: nat): seq<byte>
    requires Container(t) && i < Arity(t)
  {
    if t.List? then t.elems[i].after else t.members[i].after
  }

  lemma SplitPart(t: Node, i: nat)
    requires Container(t) && i < Arity(t)
    ensures PartsText(t, i) == Before(t, i) + NodeText(Part(t, i)) + Behind(t, i) + PartsText(t, i + 1)
  {
  }

  lemma FeedBefore(s: Scan, t: Node, i: nat, d: nat, n: nat)
    requires Calm(s, d, n) && WellFormed(t) && Container(t) && i < Arity(t)
    ensures Feed(s, Before(t, i), d, n) == Some(s)
  {
    if t.List? {
      FeedNeutral(s, Separator(i) + t.elems[i].before, d, n);
    } else {
      var m := t.members[i];
      var start := Separator(i) + m.before;
      var rest := m.mid + [COLON] + m.mid2;
      FeedNeutral(s, start, d, n);
      FeedConcat(s, start, StringText(m.key), d, n);
      FeedString(s, m.key, d, n);
      FeedConcat(s, start + StringText(m.key), rest, d, n);
      FeedNeutral(s, rest, d, n);
      assert Before(t, i) == start + StringText(m.key) + rest;
    }
  }

  /** For every JSON text, with any white space around it and any split into chunks, the guard
      objects exactly when the nesting or the number of containers exceeds its limit. */
  lemma GuardExact(before: seq<byte>, t: Node, after: seq<byte>, chunks: seq<seq<byte>>, d: nat, n: nat)
    requires Blank(before) && WellFormed(t) && Blank(after)
    requires Whole(chunks) == before + NodeText(t) + after
    ensures FeedChunks(FRESH, chunks, d, n) == Measured(FRESH, Nesting(t), Containers(t), d, n)
  {
    ChunksIrrelevant(FRESH, chunks, d, n);
    FeedConcat(FRESH, before, NodeText(t), d, n);
    FeedNeutral(FRESH, before, d, n);
    FeedNode(FRESH, t, d, n);
    FeedConcat(FRESH, before + NodeText(t), after, d, n);
    var end := FRESH.(nodes := Containers(t));
    if Within(end, d, n) { FeedNeutral(end, after, d, n); }
  }

  // ---- The parsed document is no deeper than its text ----

  /** x is what parsing t can give: members repeat freely in the text, and each key of the
      parsed object got its value from one of them. */
  ghost predicate ParsesTo(t: Node, x: Json)
    decreases t
  {
    match t
    case Atom(_) => !x.Arr? && !x.Obj?
    case Quoted(_) => x.Str?
    case List(_, es) => x.Arr? && |x.items| == |es| && forall i | 0 <= i < |es| :: ParsesTo(es[i].value, x.items[i])
    case Dict(_, ms) =>
      x.Obj? && forall k | k in x.fields :: exists i :: 0 <= i < |ms| && ParsesTo(ms[i].value, x.fields[k])
  }

  ghost predicate FromPart(t: Node, x: Json) { exists i :: 0 <= i < Arity(t) && ParsesTo(Part(t, i), x) }

  lemma {:induction false} NestingFromPart(t: Node, i: nat, j: nat)
    requires i <= j < Arity(t)
    ensures Nesting(Part(t, j)) <= NestingFrom(t, i)
    decreases j - i
  {
    if i < j { NestingFromPart(t, i + 1, j); }
  }

  /** The walker's depth never exceeds the text's nesting, so a body that passes the guard at a
      depth limit passes the walker's depth check at the same limit. */
  lemma {:induction false} HeightWithinNesting(t: Node, x: Json)
    requires ParsesTo(t, x)
    ensures Height(x) <= Nesting(t)
    decreases t, 1
  {
    if Container(t) {
      var cs := Children(x);
      forall c | 0 <= c < |cs| ensures FromPart(t, cs[c]) {
        if t.List? { assert ParsesTo(Part(t, c), cs[c]); } else { MemberParsed(t, x, c); }
      }
      ChildrenWithin(t, cs, x);
    }
  }

  lemma MemberParsed(t: Node, x: Json, c: nat)
    requires ParsesTo(t, x) && t.Dict? && c < |Children(x)|
    ensures FromPart(t, Children(x)[c])
  {
    var k := FieldOrder(x.fields)[c];
    assert k in FieldOrder(x.fields);
    var i :| 0 <= i < |t.members| && ParsesTo(t.members[i].value, x.fields[k]);
    assert ParsesTo(Part(t, i), Children(x)[c]);
  }

  lemma {:induction false} ChildrenWithin(t: Node, cs: seq<Json>, x: Json)
    requires forall i :: 0 <= i < |cs| ==> cs[i] < x
    requires forall c :: 0 <= c < |cs| ==> FromPart(t, cs[c])
    requires Container(t)
    ensures HeightOf(cs, x) <= Nesting(t)
    decreases t, 0, |cs|
  {
    if cs != [] {
      var i :| 0 <= i < Arity(t) && ParsesTo(Part(t, i), cs[0]);
      HeightWithinNesting(Part(t, i), cs[0]);
      NestingFromPart(t, 0, i);
      ChildrenWithin(t, cs[1..], x);
    }
  }

  lemma PassImpliesShallow(before: seq<byte>, t: Node, after: seq<byte>, chunks: seq<seq<byte>>, d: nat, n: nat,
                           x: Json)
    requires Blank(before) && WellFormed(t) && Blank(after)
    requires Whole(chunks) == before + NodeText(t) + after
    requires FeedChunks(FRESH, chunks, d, n).Some? && ParsesTo(t, x)
    ensures Height(x) <= d
  {
    GuardExact(before, t, after, chunks, d, n);
    HeightWithinNesting(t, x);
  }
}
