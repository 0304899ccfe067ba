/** JSON documents, and JSON Pointers into them (RFC 6901). */
module JsonPointers {
  import opened Wrappers
  import opened Collections
  import opened Digits

  datatype Json =
    | Null
    | Bool(truth: bool)
    | Number(digits: string)
    | Text(text: string)
    | Array(items: seq<Json>)
    | Object(members: map<string, Json>)

  datatype Kind = NullKind | BoolKind | NumberKind | TextKind | ArrayKind | ObjectKind

  function KindOf(v: Json): Kind {
    match v
    case Null => NullKind
    case Bool(_) => BoolKind
    case Number(_) => NumberKind
    case Text(_) => TextKind
    case Array(_) => ArrayKind
    case Object(_) => ObjectKind
  }

  type Path = seq<string>

  // ---------------------------------------------------------------
  // Reading a pointer
  // ---------------------------------------------------------------

  /** Every `first` followed by `second`, left to right, replaced by one character. */
  function ReplacePair(s: string, first: char, second: char, to: char): string {
    if |s| < 2 then s
    else if s[0] == first && s[1] == second then [to] + ReplacePair(s[2..], first, second, to)
    else [s[0]] + ReplacePair(s[1..], first, second, to)
  }

  function Unescape(token: string): string {
    ReplacePair(ReplacePair(token, '~', '1', '/'), '~', '0', '~')
  }

  function UnescapeAll(tokens: seq<string>): (r: Path)
    ensures |r| == |tokens| && forall k :: 0 <= k < |r| ==> r[k] == Unescape(tokens[k])
  {
    seq(|tokens|, k requires 0 <= k < |tokens| => Unescape(tokens[k]))
  }

  /** The reference tokens of a pointer: none for the empty one, no answer for one that does not start with `/`. */
  function Tokens(pointer: string): Option<Path> {
    if pointer == "" then Some([])
    else if pointer[0] != '/' then None
    else Some(UnescapeAll(Split(pointer, '/')[1..]))
  }

  // ---------------------------------------------------------------
  // Writing a pointer
  // ---------------------------------------------------------------

  function EscapeChar(c: char): string {
    if c == '~' then "~0" else if c == '/' then "~1" else [c]
  }

  function Escape(token: string): string {
    if token == "" then "" else EscapeChar(token[0]) + Escape(token[1..])
  }

  function PointerTo(path: Path): string {
    if path == [] then "" else "/" + (Escape(path[0]) + PointerTo(path[1..]))
  }

  lemma {:induction false} EscapeUndone(token: string)
    ensures Unescape(Escape(token)) == token
    ensures '/' !in Escape(token)
  {
    if token != "" {
      var c, rest := token[0], Escape(token[1..]);
      EscapeUndone(token[1..]);
      var slashed := ReplacePair(rest, '~', '1', '/');
      var s := EscapeChar(c) + rest;
      if c == '~' || c == '/' {
        assert s[1..] == s[1..2] + rest && s[2..] == rest;
        if c == '~' {
          PairAtFront('0', rest, '~', '1', '/');
          assert ReplacePair(s, '~', '1', '/') == "~0" + slashed by {
            assert ReplacePair(s, '~', '1', '/') == ['~'] + ReplacePair(s[1..], '~', '1', '/');
            assert s[1..] == ['0'] + rest;
          }
          assert ("~0" + slashed)[2..] == slashed;
        } else {
          assert ReplacePair(s, '~', '1', '/') == ['/'] + slashed;
          PairAtFront('/', slashed, '~', '0', '~');
        }
      } else {
        PairAtFront(c, rest, '~', '1', '/');
        PairAtFront(c, slashed, '~', '0', '~');
      }
      assert token == [c] + token[1..];
    }
  }

  lemma PairAtFront(c: char, rest: string, first: char, second: char, to: char)
    requires c != first
    ensures ReplacePair([c] + rest, first, second, to) == [c] + ReplacePair(rest, first, second, to)
  {
    assert ([c] + rest)[1..] == rest;
  }

  lemma {:induction false} SplitAtSeparator(a: string, b: string, sep: char)
    requires sep !in a
    ensures Split(a + [sep] + b, sep) == [a] + Split(b, sep)
    ensures Split(a, sep) == [a]
  {
    if a == "" {
      assert ([] + [sep] + b)[1..] == b;
    } else {
      var s := a + [sep] + b;
      assert s[1..] == a[1..] + [sep] + b;
      assert a == [a[0]] + a[1..];
      SplitAtSeparator(a[1..], b, sep);
    }
  }

  function EscapeAll(path: Path): (r: seq<string>)
    ensures |r| == |path| && forall k :: 0 <= k < |r| ==> r[k] == Escape(path[k])
  {
    seq(|path|, k requires 0 <= k < |path| => Escape(path[k]))
  }

  lemma SplitTail(token: string, rest: string)
    requires '/' !in token && (rest != "" ==> rest[0] == '/')
    ensures Split(token + rest, '/') == [token] + (if rest == "" then [] else Split(rest[1..], '/'))
  {
    if rest == "" {
      assert token + rest == token;
      SplitAtSeparator(token, "", '/');
    } else {
      assert token + rest == token + ['/'] + rest[1..];
      SplitAtSeparator(token, rest[1..], '/');
    }
  }

  lemma PointerHead(path: Path)
    requires path != []
    ensures PointerTo(path) != "" && PointerTo(path)[0] == '/'
    ensures PointerTo(path)[1..] == Escape(path[0]) + PointerTo(path[1..])
    ensures EscapeAll(path) == [Escape(path[0])] + EscapeAll(path[1..])
  {
  }

  /** Behind its first slash a pointer is its escaped tokens, cut apart at the others. */
  lemma {:induction false} SplitPointer(path: Path)
    requires path != []
    ensures PointerTo(path) != "" && PointerTo(path)[0] == '/'
    ensures Split(PointerTo(path)[1..], '/') == EscapeAll(path)
  {
    var token, rest := Escape(path[0]), PointerTo(path[1..]);
    EscapeUndone(path[0]);
    PointerHead(path);
    if path[1..] == [] {
      assert rest == "";
    } else {
      SplitPointer(path[1..]);
    }
    SplitTail(token, rest);
  }

  /** Every path has a pointer, and reading that pointer gives the path back. */
  lemma PointerRoundTrip(path: Path)
    ensures Tokens(PointerTo(path)) == Some(path)
  {
    if path != [] {
      SplitPointer(path);
      var tokens := EscapeAll(path);
      assert Split(PointerTo(path), '/')[1..] == tokens;
      forall k | 0 <= k < |path| ensures Unescape(tokens[k]) == path[k] {
        EscapeUndone(path[k]);
      }
      assert UnescapeAll(tokens) == path;
    }
  }

  // ---------------------------------------------------------------
  // Array indexes
  // ---------------------------------------------------------------

  /** A token as an array index: decimal, with no sign and no leading zero. */
  function ArrayIndex(token: string): Option<nat> {
    if token == "" || !AllDigits(token) then None
    else if token[0] == '0' && |token| != 1 then None
    else Some(Decimal(token))
  }

  lemma {:induction false} DecimalIsPositive(s: string)
    requires s != "" && AllDigits(s) && s[0] != '0'
    ensures Decimal(s) > 0
  {
    if |s| > 1 {
      DecimalIsPositive(s[..|s| - 1]);
    }
  }

  lemma LastDigit(x: nat, p: nat, y: nat, q: nat)
    requires 10 * x + p == 10 * y + q && p < 10 && q < 10
    ensures x == y && p == q
  {
  }

  lemma {:induction false} SameDecimal(a: string, b: string)
    requires ArrayIndex(a).Some? && ArrayIndex(b).Some? && Decimal(a) == Decimal(b)
    ensures a == b
    decreases |a|
  {
    var a', b' := a[..|a| - 1], b[..|b| - 1];
    LastDigit(Decimal(a'), DigitValue(a[|a| - 1]), Decimal(b'), DigitValue(b[|b| - 1]));
    if a' != "" { DecimalIsPositive(a'); }
    if b' != "" { DecimalIsPositive(b'); }
    if a' != "" && b' != "" {
      SameDecimal(a', b');
    }
    assert a == a' + [a[|a| - 1]] && b == b' + [b[|b| - 1]];
  }

  /** No element has two names: an index is written in one way only. */
  lemma IndexesAreCanonical(a: string, b: string)
    requires ArrayIndex(a).Some? && ArrayIndex(a) == ArrayIndex(b)
    ensures a == b
  {
    SameDecimal(a, b);
  }

  // ---------------------------------------------------------------
  // Following a path
  // ---------------------------------------------------------------

  function Child(v: Json, token: string): Option<Json> {
    match v
    case Object(members) => if token in members then Some(members[token]) else None
    case Array(items) =>
      (match ArrayIndex(token)
       case None => None
       case Some(i) => if i < |items| then Some(items[i]) else None)
    case _ => None
  }

  function Resolve(v: Json, path: Path): Option<Json>
    decreases |path|
  {
    if path == [] then Some(v)
    else
      match Child(v, path[0])
      case None => None
      case Some(child) => Resolve(child, path[1..])
  }

  function WithChild(v: Json, token: string, child: Json): Json
    requires Child(v, token).Some?
  {
    match v
    case Object(members) => Object(members[token := child])
    case Array(items) => Array(items[ArrayIndex(token).value := child])
  }

  /** The document once what `path` refers to has been overwritten. */
  function Replace(v: Json, path: Path, value: Json): Json
    requires Resolve(v, path).Some?
    decreases |path|
  {
    if path == [] then value
    else WithChild(v, path[0], Replace(Child(v, path[0]).value, path[1..], value))
  }

  /** Overwriting one child leaves every other child as it was. */
  lemma OtherChildren(v: Json, token: string, child: Json, other: string)
    requires Child(v, token).Some?
    ensures Child(WithChild(v, token, child), other) == if other == token then Some(child) else Child(v, other)
    ensures KindOf(WithChild(v, token, child)) == KindOf(v)
  {
    if v.Array? && ArrayIndex(other) == ArrayIndex(token) {
      IndexesAreCanonical(token, other);
    }
  }
}
