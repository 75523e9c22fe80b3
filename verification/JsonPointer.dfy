/** JSON Pointer text: printing a list of components and reading it back
    (sections 3 and 4 of RFC 6901). */
module JsonPointer {
  import opened Text

  function Escape(part: string): string {
    ReplaceChar(ReplaceChar(part, '~', "~0"), '/', "~1")
  }

  function Unescape(text: string): string {
    ReplacePair(ReplacePair(text, '~', '1', "/"), '~', '0', "~")
  }

  function EscapeAll(parts: seq<string>): (es: seq<string>)
    ensures |es| == |parts| && forall i :: 0 <= i < |es| ==> es[i] == Escape(parts[i])
  {
    if parts == [] then [] else [Escape(parts[0])] + EscapeAll(parts[1..])
  }

  /** The printer. */
  function Pointer(parts: seq<string>): string {
    "/" + Join(EscapeAll(parts), '/')
  }

  /** Components of a raw path: empty pieces are dropped before unescaping is compared to them. */
  function ReadPieces(pieces: seq<string>): seq<string> {
    if pieces == [] then []
    else (if pieces[0] == "" then [] else [Unescape(pieces[0])]) + ReadPieces(pieces[1..])
  }

  /** The reader used when a patch is applied. */
  function Parse(path: string): seq<string> {
    if path == "" then [] else ReadPieces(Split(path[1..], '/'))
  }

  /** The components that survive printing and reading back. */
  function DropEmpty(parts: seq<string>): (r: seq<string>)
    ensures "" !in r
  {
    if parts == [] then []
    else (if parts[0] == "" then [] else [parts[0]]) + DropEmpty(parts[1..])
  }

  // ---- Escaping is undone by unescaping ----

  lemma {:induction false} UnescapeEscape(part: string)
    ensures Unescape(Escape(part)) == part
  {
    UnescapeSlash(part);
    UnescapeTilde(part);
  }

  lemma ReplaceCons(c: char, t: string, d: char, rep: string)
    ensures ReplaceChar([c] + t, d, rep) == (if c == d then rep else [c]) + ReplaceChar(t, d, rep)
  {
    assert ([c] + t)[1..] == t;
  }

  lemma PairCons(c: char, t: string)
    requires c != '~' || (t != "" && t[0] != '1')
    ensures ReplacePair([c] + t, '~', '1', "/") == [c] + ReplacePair(t, '~', '1', "/")
  {
    assert ([c] + t)[1..] == t;
    if t == "" { assert [c] + t == [c]; }
  }

  lemma PairHere(t: string)
    ensures ReplacePair("~1" + t, '~', '1', "/") == "/" + ReplacePair(t, '~', '1', "/")
  {
    assert ("~1" + t)[2..] == t;
  }

  /** How one character of a component is escaped. */
  function Escaped(c: char): string { if c == '~' then "~0" else if c == '/' then "~1" else [c] }

  lemma EscapeCons(c: char, t: string)
    ensures Escape([c] + t) == Escaped(c) + Escape(t)
  {
    var tail := ReplaceChar(t, '~', "~0");
    ReplaceCons(c, t, '~', "~0");
    if c == '~' {
      assert "~0" + tail == ['~'] + (['0'] + tail);
      ReplaceCons('~', ['0'] + tail, '/', "~1");
      ReplaceCons('0', tail, '/', "~1");
      assert ['~'] + (['0'] + Escape(t)) == "~0" + Escape(t);
    } else {
      ReplaceCons(c, tail, '/', "~1");
    }
  }

  lemma {:induction false} UnescapeSlash(s: string)
    ensures ReplacePair(Escape(s), '~', '1', "/") == ReplaceChar(s, '~', "~0")
  {
    if s != "" {
      var c, t := s[0], s[1..];
      assert s == [c] + t;
      UnescapeSlash(t);
      EscapeCons(c, t);
      ReplaceCons(c, t, '~', "~0");
      UnescapeOne(c, Escape(t));
    }
  }

  lemma UnescapeOne(c: char, rest: string)
    ensures ReplacePair(Escaped(c) + rest, '~', '1', "/") ==
            (if c == '~' then "~0" else [c]) + ReplacePair(rest, '~', '1', "/")
  {
    var done := ReplacePair(rest, '~', '1', "/");
    if c == '~' {
      assert "~0" + rest == ['~'] + (['0'] + rest);
      PairCons('~', ['0'] + rest);
      PairCons('0', rest);
      assert ['~'] + (['0'] + done) == "~0" + done;
    } else if c == '/' {
      PairHere(rest);
    } else {
      PairCons(c, rest);
    }
  }

  lemma {:induction false} UnescapeTilde(s: string)
    ensures ReplacePair(ReplaceChar(s, '~', "~0"), '~', '0', "~") == s
  {
    if s != "" {
      UnescapeTilde(s[1..]);
      var rest := ReplaceChar(s[1..], '~', "~0");
      if s[0] == '~' {
        assert ReplaceChar(s, '~', "~0") == ['~', '0'] + rest;
        assert (['~', '0'] + rest)[2..] == rest;
      } else {
        assert ReplaceChar(s, '~', "~0") == [s[0]] + rest;
        assert ([s[0]] + rest)[1..] == rest;
      }
      assert [s[0]] + s[1..] == s;
    }
  }

  lemma {:induction false} NoSlashAfterReplace(s: string)
    ensures '/' !in ReplaceChar(s, '/', "~1")
  {
    if s != "" { NoSlashAfterReplace(s[1..]); }
  }

  lemma EscapeEmpty(part: string)
    ensures Escape(part) == "" <==> part == ""
  {
  }

  // ---- Printing and reading back ----

  lemma {:induction false} ReadPiecesConcat(x: seq<string>, y: seq<string>)
    ensures ReadPieces(x + y) == ReadPieces(x) + ReadPieces(y)
  {
    if x == [] {
      assert x + y == y;
    } else {
      assert (x + y)[1..] == x[1..] + y;
      ReadPiecesConcat(x[1..], y);
    }
  }

  lemma {:induction false} ReadEscaped(parts: seq<string>)
    ensures ReadPieces(EscapeAll(parts)) == DropEmpty(parts)
  {
    if parts != [] {
      UnescapeEscape(parts[0]);
      EscapeEmpty(parts[0]);
      ReadEscaped(parts[1..]);
      assert EscapeAll(parts)[1..] == EscapeAll(parts[1..]);
    }
  }

  lemma PointerPieces(parts: seq<string>)
    ensures ReadPieces(Split(Join(EscapeAll(parts), '/'), '/')) == DropEmpty(parts)
  {
    var es := EscapeAll(parts);
    ReadEscaped(parts);
    if parts != [] {
      forall e | e in es ensures '/' !in e {
        var i :| 0 <= i < |es| && es[i] == e;
        NoSlashAfterReplace(ReplaceChar(parts[i], '~', "~0"));
      }
      SplitJoin(es, '/');
    }
  }

  /** Reading a printed pointer gives back its non-empty components, in order. */
  lemma ParsePointer(parts: seq<string>)
    ensures Parse(Pointer(parts)) == DropEmpty(parts)
  {
    PointerPieces(parts);
    assert Pointer(parts)[1..] == Join(EscapeAll(parts), '/');
  }

  lemma {:induction false} DropEmptyId(parts: seq<string>)
    ensures DropEmpty(parts) == parts <==> "" !in parts
  {
    if parts != [] {
      DropEmptyId(parts[1..]);
      DropEmptyLength(parts[1..]);
      if parts[0] == "" {
        assert |DropEmpty(parts)| < |parts|;
      } else {
        assert DropEmpty(parts)[1..] == DropEmpty(parts[1..]);
        assert parts == [parts[0]] + parts[1..];
      }
    }
  }

  lemma {:induction false} DropEmptyLength(parts: seq<string>)
    ensures |DropEmpty(parts)| <= |parts|
  {
    if parts != [] { DropEmptyLength(parts[1..]); }
  }

  /** A printed pointer reads back as itself exactly when no component is empty,
      whatever `~` and `/` the components hold. */
  lemma PointerRoundTrip(parts: seq<string>)
    ensures Parse(Pointer(parts)) == parts <==> "" !in parts
  {
    ParsePointer(parts);
    DropEmptyId(parts);
  }

  /** The path of an element appended to or popped from the array at `parts`, printed as
      the array's pointer followed by a slash and the index. */
  function ItemPointer(parts: seq<string>, i: nat): string {
    Pointer(parts) + "/" + Dec(i)
  }

  lemma {:induction false} DropEmptyConcat(x: seq<string>, y: seq<string>)
    ensures DropEmpty(x + y) == DropEmpty(x) + DropEmpty(y)
  {
    if x == [] {
      assert x + y == y;
    } else {
      assert (x + y)[1..] == x[1..] + y;
      DropEmptyConcat(x[1..], y);
    }
  }

  lemma {:induction false} PlainUnescape(s: string, d: char, rep: string)
    requires '~' !in s
    ensures ReplacePair(s, '~', d, rep) == s
  {
    if |s| >= 2 {
      PlainUnescape(s[1..], d, rep);
      assert [s[0]] + s[1..] == s;
    }
  }

  /** The item path reads back as the array's path and the index; at the root, where the
      printed text starts with two slashes, the empty piece is dropped. */
  lemma ParseItemPointer(parts: seq<string>, i: nat)
    ensures Parse(ItemPointer(parts, i)) == DropEmpty(parts + [Dec(i)])
  {
    var body := Join(EscapeAll(parts), '/');
    var d := Dec(i);
    assert ItemPointer(parts, i)[1..] == body + ['/'] + d;
    SplitConcat(body, d, '/');
    forall c | c in d ensures c != '/' && c != '~' { assert IsDigit(c); }
    SplitPlain(d, '/');
    ReadPiecesConcat(Split(body, '/'), [d]);
    PointerPieces(parts);
    PlainUnescape(d, '1', "/");
    PlainUnescape(d, '0', "~");
    assert ReadPieces([d]) == [d];
    assert DropEmpty([d]) == [d];
    DropEmptyConcat(parts, [d]);
  }
}
