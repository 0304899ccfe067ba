/** What a JSON Pointer is read as and leads to, said of its characters and of the document. */
module JsonLookups {
  import opened Wrappers
  import opened Collections
  import opened Digits
  import opened JsonPointers
  import opened Patches

  // ---------------------------------------------------------------
  // Tokens
  // ---------------------------------------------------------------

  /** One scan from left to right: `~1` is a slash, `~0` a tilde, and everything else itself. */
  function Scan(token: string): string {
    if token == "" then ""
    else if |token| > 1 && token[0] == '~' && token[1] == '1' then "/" + Scan(token[2..])
    else if |token| > 1 && token[0] == '~' && token[1] == '0' then "~" + Scan(token[2..])
    else [token[0]] + Scan(token[1..])
  }

  /** Where the first pass leaves the next character alone. */
  lemma PassOver(token: string)
    requires token != "" && !(|token| > 1 && token[0] == '~' && token[1] == '1')
    ensures ReplacePair(token, '~', '1', '/') == [token[0]] + ReplacePair(token[1..], '~', '1', '/')
  {
    if |token| == 1 {
      assert token[1..] == "" && token == [token[0]];
    }
  }

  lemma FirstOfPass(token: string)
    ensures token == "" ==> ReplacePair(token, '~', '1', '/') == ""
    ensures token != "" ==> ReplacePair(token, '~', '1', '/') != ""
    ensures token != "" ==>
      ReplacePair(token, '~', '1', '/')[0] == if |token| > 1 && token[..2] == "~1" then '/' else token[0]
  {
    if |token| > 1 {
      assert token[..2] == [token[0], token[1]];
    }
  }

  /** Replacing `~1` throughout and then `~0` throughout is one scan. */
  lemma {:induction false} UnescapeIsAScan(token: string)
    ensures Unescape(token) == Scan(token)
  {
    if token != "" {
      var slashed := ReplacePair(token[1..], '~', '1', '/');
      if |token| > 1 && token[0] == '~' && token[1] == '1' {
        UnescapeIsAScan(token[2..]);
        PairAtFront('/', ReplacePair(token[2..], '~', '1', '/'), '~', '0', '~');
      } else if |token| > 1 && token[0] == '~' && token[1] == '0' {
        UnescapeIsAScan(token[2..]);
        PassOver(token);
        PassOver(token[1..]);
        assert token[1..][1..] == token[2..];
        var rest := ReplacePair(token[2..], '~', '1', '/');
        assert ReplacePair(token, '~', '1', '/') == "~" + ("0" + rest);
        assert ("~" + ("0" + rest))[2..] == rest;
      } else {
        UnescapeIsAScan(token[1..]);
        PassOver(token);
        FirstOfPass(token[1..]);
        NoPairAtFront(token[0], slashed);
      }
    }
  }

  lemma NoPairAtFront(c: char, rest: string)
    requires c == '~' ==> rest == "" || rest[0] != '0'
    ensures ReplacePair([c] + rest, '~', '0', '~') == [c] + ReplacePair(rest, '~', '0', '~')
  {
    assert ([c] + rest)[1..] == rest;
    if rest == "" {
      assert [c] + rest == [c];
    }
  }

  /** Each piece with a slash in front of it. */
  function Slashed(pieces: seq<string>): string {
    if pieces == [] then "" else "/" + (pieces[0] + Slashed(pieces[1..]))
  }

  ghost predicate NoSlashes(pieces: seq<string>) {
    forall k :: 0 <= k < |pieces| ==> '/' !in pieces[k]
  }

  ghost predicate AreScans(path: Path, pieces: seq<string>) {
    |path| == |pieces| && forall k :: 0 <= k < |path| ==> path[k] == Scan(pieces[k])
  }

  lemma SlashedHead(piece: string, pieces: seq<string>)
    ensures Slashed([piece] + pieces) == "/" + (piece + Slashed(pieces))
  {
    assert ([piece] + pieces)[1..] == pieces;
  }

  lemma SameBehindSlash(a: string, b: string)
    requires "/" + a == "/" + b
    ensures a == b
  {
    assert ("/" + a)[1..] == a && ("/" + b)[1..] == b;
  }

  lemma JoinOneCharMore(c: char, rest: seq<string>, tail: string)
    requires rest != [] && Slashed(rest) == "/" + tail
    ensures Slashed([[c] + rest[0]] + rest[1..]) == "/" + ([c] + tail)
  {
    SlashedHead(rest[0], rest[1..]);
    assert rest == [rest[0]] + rest[1..];
    SameBehindSlash(tail, rest[0] + Slashed(rest[1..]));
    SlashedHead([c] + rest[0], rest[1..]);
    Associates([c], rest[0], Slashed(rest[1..]));
  }

  lemma JoinOnePieceMore(rest: seq<string>, tail: string)
    requires Slashed(rest) == "/" + tail
    ensures Slashed([""] + rest) == "/" + ("/" + tail)
  {
    SlashedHead("", rest);
    assert "" + Slashed(rest) == Slashed(rest);
  }

  lemma {:induction false} SplitJoins(s: string)
    ensures NoSlashes(Split(s, '/')) && Slashed(Split(s, '/')) == "/" + s
  {
    if s == "" {
      SlashedHead("", []);
      assert [""] + [] == [""];
    } else {
      SplitJoins(s[1..]);
      assert s == [s[0]] + s[1..];
      if s[0] == '/' {
        JoinOnePieceMore(Split(s[1..], '/'), s[1..]);
      } else {
        JoinOneCharMore(s[0], Split(s[1..], '/'), s[1..]);
      }
    }
  }

  lemma {:induction false} JoinSplits(pieces: seq<string>)
    requires pieces != [] && NoSlashes(pieces)
    ensures Slashed(pieces) != "" && Slashed(pieces)[0] == '/'
    ensures Split(Slashed(pieces)[1..], '/') == pieces
  {
    var rest := Slashed(pieces[1..]);
    assert Slashed(pieces)[1..] == pieces[0] + rest;
    if pieces[1..] == [] {
      assert rest == "";
    } else {
      JoinSplits(pieces[1..]);
    }
    SplitTail(pieces[0], rest);
    assert pieces == [pieces[0]] + pieces[1..];
  }

  ghost predicate Names(pointer: string, pieces: seq<string>, path: Path) {
    NoSlashes(pieces) && pointer == Slashed(pieces) && AreScans(path, pieces)
  }

  lemma TokensOfPieces(pieces: seq<string>)
    requires NoSlashes(pieces)
    ensures Tokens(Slashed(pieces)).Some? && AreScans(Tokens(Slashed(pieces)).value, pieces)
  {
    if pieces != [] {
      JoinSplits(pieces);
      var s := Slashed(pieces);
      SplitPastSlash(s);
      forall k | 0 <= k < |pieces| ensures Unescape(pieces[k]) == Scan(pieces[k]) {
        UnescapeIsAScan(pieces[k]);
      }
    }
  }

  lemma SplitPastSlash(s: string)
    requires s != "" && s[0] == '/'
    ensures Split(s, '/')[1..] == Split(s[1..], '/')
  {
  }

  /**
   A pointer names a path exactly when it is that many pieces without slashes, a slash in front of each,
   every piece scanned to its token; a text that is not empty and starts otherwise names none.
   */
  lemma TokensIff(pointer: string, path: Path)
    ensures Tokens(pointer) == Some(path) <==> exists pieces :: Names(pointer, pieces, path)
    ensures Tokens(pointer).None? <==> pointer != "" && pointer[0] != '/'
  {
    if Tokens(pointer) == Some(path) {
      var pieces := if pointer == "" then [] else Split(pointer[1..], '/');
      if pointer != "" {
        SplitJoins(pointer[1..]);
        assert pointer == "/" + pointer[1..];
      }
      TokensOfPieces(pieces);
      assert Names(pointer, pieces, path) by {
        ScansAgree(path, Tokens(Slashed(pieces)).value, pieces);
      }
    }
    if pieces :| Names(pointer, pieces, path) {
      TokensOfPieces(pieces);
      ScansAgree(path, Tokens(pointer).value, pieces);
    }
  }

  lemma ScansAgree(a: Path, b: Path, pieces: seq<string>)
    requires AreScans(b, pieces)
    ensures AreScans(a, pieces) <==> a == b
  {
  }

  // ---------------------------------------------------------------
  // Places in a document
  // ---------------------------------------------------------------

  function Digit(n: nat): char
    requires n < 10
  {
    '0' + n as char
  }

  /** A number written in decimal, as short as can be. */
  function Numeral(n: nat): string {
    if n < 10 then [Digit(n)] else Numeral(n / 10) + [Digit(n % 10)]
  }

  lemma {:induction false} NumeralReads(n: nat)
    ensures Numeral(n) != "" && AllDigits(Numeral(n)) && Decimal(Numeral(n)) == n
    ensures Numeral(n)[0] == '0' <==> n == 0
    ensures n < 10 <==> |Numeral(n)| == 1
  {
    if n < 10 {
      assert [Digit(n)][..0] == "";
      assert Decimal([Digit(n)]) == 10 * Decimal("") + DigitValue(Digit(n));
    } else {
      NumeralReads(n / 10);
      var front := Numeral(n / 10);
      assert (front + [Digit(n % 10)])[..|front|] == front;
    }
  }

  /** A token is an index exactly when it is that index's numeral. */
  lemma IndexIff(token: string, n: nat)
    ensures ArrayIndex(token) == Some(n) <==> token == Numeral(n)
  {
    NumeralReads(n);
    if ArrayIndex(token) == Some(n) {
      IndexesAreCanonical(token, Numeral(n));
    }
  }

  /** A member by its key, or an item by the numeral of its place. */
  ghost predicate IsChild(v: Json, token: string, child: Json) {
    || (v.Object? && token in v.members && v.members[token] == child)
    || (v.Array? && exists n: nat :: n < |v.items| && token == Numeral(n) && v.items[n] == child)
  }

  ghost predicate LeadsTo(v: Json, path: Path, w: Json)
    decreases |path|
  {
    if path == [] then w == v
    else exists child :: IsChild(v, path[0], child) && LeadsTo(child, path[1..], w)
  }

  lemma ChildIff(v: Json, token: string, child: Json)
    ensures Child(v, token) == Some(child) <==> IsChild(v, token, child)
  {
    if v.Array? {
      forall n: nat ensures ArrayIndex(token) == Some(n) <==> token == Numeral(n) {
        IndexIff(token, n);
      }
    }
  }

  /** What a path resolves to is what it leads to, child by child. */
  lemma {:induction false} ResolveIff(v: Json, path: Path, w: Json)
    ensures Resolve(v, path) == Some(w) <==> LeadsTo(v, path, w)
    decreases |path|
  {
    if path != [] {
      forall child ensures Child(v, path[0]) == Some(child) <==> IsChild(v, path[0], child) {
        ChildIff(v, path[0], child);
      }
      if Child(v, path[0]).Some? {
        ResolveIff(Child(v, path[0]).value, path[1..], w);
      }
    }
  }

  // ---------------------------------------------------------------
  // Refusals
  // ---------------------------------------------------------------

  /** The pointer is one, and leads to this place of the document. */
  ghost predicate PointsAt(v: Json, pointer: string, target: Json) {
    exists pieces, path :: Names(pointer, pieces, path) && LeadsTo(v, path, target)
  }

  lemma PointsAtIff(v: Json, pointer: string, target: Json)
    ensures PointsAt(v, pointer, target)
       <==> Tokens(pointer).Some? && Resolve(v, Tokens(pointer).value) == Some(target)
  {
    if Tokens(pointer).Some? {
      TokensIff(pointer, Tokens(pointer).value);
      ResolveIff(v, Tokens(pointer).value, target);
    }
    if pieces, path :| Names(pointer, pieces, path) && LeadsTo(v, path, target) {
      TokensIff(pointer, path);
      ResolveIff(v, path, target);
    }
  }

  /** The kind a refusal names is the kind of what is there. */
  ghost predicate IsOfKind(v: Json, kind: Kind) {
    && (v.Null? <==> kind == NullKind) && (v.Bool? <==> kind == BoolKind) && (v.Number? <==> kind == NumberKind)
    && (v.Text? <==> kind == TextKind) && (v.Array? <==> kind == ArrayKind) && (v.Object? <==> kind == ObjectKind)
  }

  /** A patch can be made exactly where its pointer leads to an object, which for a removal has the key. */
  lemma ApplicableIff(v: Json, p: Patch)
    ensures Applicable(v, p) <==> exists target ::
      PointsAt(v, p.pointer, target) && target.Object? && (p.Remove? ==> p.key in target.members)
  {
    forall target
      ensures PointsAt(v, p.pointer, target)
         <==> Tokens(p.pointer).Some? && Resolve(v, Tokens(p.pointer).value) == Some(target)
    {
      PointsAtIff(v, p.pointer, target);
    }
    if Applicable(v, p) {
      assert PointsAt(v, p.pointer, Resolve(v, Tokens(p.pointer).value).value);
    }
  }

  /** A refused patch is refused for its pointer, for what is there, or for the key that is not. */
  lemma RefusalMeans(v: Json, p: Patch)
    requires !Applicable(v, p)
    ensures Refusal(v, p) == Unresolved(p.pointer) <==> !exists target :: PointsAt(v, p.pointer, target)
    ensures forall target :: PointsAt(v, p.pointer, target) ==>
      if target.Object? then Refusal(v, p) == NoSuchKey(p.pointer, p.key)
      else exists kind :: IsOfKind(target, kind) && Refusal(v, p) == NotAnObject(p.pointer, kind)
  {
    forall target
      ensures PointsAt(v, p.pointer, target)
         <==> Tokens(p.pointer).Some? && Resolve(v, Tokens(p.pointer).value) == Some(target)
    {
      PointsAtIff(v, p.pointer, target);
    }
    if Tokens(p.pointer).Some? && Resolve(v, Tokens(p.pointer).value).Some? {
      var there := Resolve(v, Tokens(p.pointer).value).value;
      assert PointsAt(v, p.pointer, there) && IsOfKind(there, KindOf(there));
    }
  }
}
