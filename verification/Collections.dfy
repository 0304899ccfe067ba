/** Facts about sequences and sets that several components need. */
module Collections {
  import opened Wrappers

  ghost function Elements<T>(s: seq<T>): set<T> {
    set x | x in s
  }

  ghost predicate NoDuplicates<T>(s: seq<T>) {
    forall i, j :: 0 <= i < j < |s| ==> s[i] != s[j]
  }

  lemma Associates<T>(a: seq<T>, b: seq<T>, c: seq<T>)
    ensures (a + b) + c == a + (b + c)
  {
  }

  // ---------------------------------------------------------------
  // First-occurrence deduplication
  // ---------------------------------------------------------------

  /** `order` after each member of `xs`, in turn, was pushed unless it was already there. */
  function Absorb<T(==)>(order: seq<T>, xs: seq<T>): seq<T>
    decreases |xs|
  {
    if xs == [] then order
    else Absorb(if xs[0] in order then order else order + [xs[0]], xs[1..])
  }

  /** The members of `s`, each at the place of its first occurrence. */
  function Dedup<T(==)>(s: seq<T>): seq<T> {
    Absorb([], s)
  }

  lemma {:induction false} AbsorbAppend<T>(order: seq<T>, xs: seq<T>, ys: seq<T>)
    ensures Absorb(order, xs + ys) == Absorb(Absorb(order, xs), ys)
    decreases |xs|
  {
    if xs == [] {
      assert xs + ys == ys;
    } else {
      assert (xs + ys)[1..] == xs[1..] + ys;
      AbsorbAppend(if xs[0] in order then order else order + [xs[0]], xs[1..], ys);
    }
  }

  lemma {:induction false} AbsorbMembers<T>(order: seq<T>, xs: seq<T>)
    ensures forall x :: x in Absorb(order, xs) <==> x in order || x in xs
    ensures NoDuplicates(order) ==> NoDuplicates(Absorb(order, xs))
    ensures order <= Absorb(order, xs)
    decreases |xs|
  {
    if xs != [] {
      AbsorbMembers(if xs[0] in order then order else order + [xs[0]], xs[1..]);
      assert xs == [xs[0]] + xs[1..];
    }
  }

  lemma {:induction false} AbsorbKnown<T>(order: seq<T>, xs: seq<T>)
    requires forall x :: x in xs ==> x in order
    ensures Absorb(order, xs) == order
    decreases |xs|
  {
    if xs != [] {
      AbsorbKnown(order, xs[1..]);
    }
  }

  /** Absorbing the deduplicated form of a sequence is absorbing the sequence. */
  lemma {:induction false} AbsorbOfAbsorb<T>(order: seq<T>, seen: seq<T>, xs: seq<T>)
    ensures Absorb(order, Absorb(seen, xs)) == Absorb(Absorb(order, seen), xs)
    decreases |xs|
  {
    if xs != [] {
      var seen' := if xs[0] in seen then seen else seen + [xs[0]];
      AbsorbOfAbsorb(order, seen', xs[1..]);
      AbsorbMembers(order, seen);
      if xs[0] !in seen {
        AbsorbAppend(order, seen, [xs[0]]);
        AbsorbOne(Absorb(order, seen), xs[0]);
      }
    }
  }

  lemma AbsorbOne<T>(order: seq<T>, x: T)
    ensures Absorb(order, [x]) == if x in order then order else order + [x]
  {
    assert [x][1..] == [];
    assert Absorb(order, [x]) == Absorb(if x in order then order else order + [x], []);
  }

  lemma AbsorbDedup<T>(order: seq<T>, xs: seq<T>)
    ensures Absorb(order, Dedup(xs)) == Absorb(order, xs)
  {
    AbsorbOfAbsorb(order, [], xs);
  }

  /** The first place of `x` in `s`. */
  ghost predicate FirstAt<T(!new)>(s: seq<T>, x: T, i: nat) {
    i < |s| && s[i] == x && x !in s[..i]
  }

  /** `a` comes up in `s`, and does so before `b` first does. */
  ghost predicate ComesUpFirst<T(!new)>(s: seq<T>, a: T, b: T) {
    exists i, j :: FirstAt(s, a, i) && FirstAt(s, b, j) && i < j
  }

  /** `r` is `base` followed by whatever else is in `xs`, once each, as it first comes up there. */
  ghost predicate AddsInOrder<T(!new)>(base: seq<T>, xs: seq<T>, r: seq<T>) {
    && base <= r
    && (forall x :: x in r <==> x in base || x in xs)
    && (forall k :: |base| <= k < |r| ==> r[k] !in base)
    && (forall i, j :: |base| <= i < j < |r| ==> ComesUpFirst(xs, r[i], r[j]))
  }

  lemma FirstAtLonger<T(!new)>(s: seq<T>, t: seq<T>, x: T, i: nat)
    requires FirstAt(s, x, i)
    ensures FirstAt(s + t, x, i)
  {
    assert (s + t)[..i] == s[..i];
  }

  lemma {:induction false} SomewhereFirst<T(!new)>(s: seq<T>, x: T) returns (i: nat)
    requires x in s
    ensures FirstAt(s, x, i)
  {
    if s[0] == x {
      i := 0;
    } else {
      var k := SomewhereFirst(s[1..], x);
      i := k + 1;
      assert s[..i] == [s[0]] + s[1..][..k];
    }
  }

  lemma ComesUpLater<T(!new)>(s: seq<T>, a: T, b: T)
    requires a in s && b !in s
    ensures ComesUpFirst(s + [b], a, b)
  {
    var i := SomewhereFirst(s, a);
    FirstAtLonger(s, [b], a, i);
    assert (s + [b])[..|s|] == s;
    assert FirstAt(s + [b], b, |s|);
  }

  lemma ComesUpLonger<T(!new)>(s: seq<T>, t: seq<T>, a: T, b: T)
    requires ComesUpFirst(s, a, b)
    ensures ComesUpFirst(s + t, a, b)
  {
    var i, j :| FirstAt(s, a, i) && FirstAt(s, b, j) && i < j;
    FirstAtLonger(s, t, a, i);
    FirstAtLonger(s, t, b, j);
  }

  /** Absorbing adds what is missing, once each and in order. */
  lemma {:induction false} AbsorbAddsInOrder<T(!new)>(base: seq<T>, xs: seq<T>)
    ensures AddsInOrder(base, xs, Absorb(base, xs))
    decreases |xs|
  {
    if xs != [] {
      var front, last := xs[..|xs| - 1], xs[|xs| - 1];
      assert xs == front + [last];
      AbsorbAddsInOrder(base, front);
      AbsorbAppend(base, front, [last]);
      AbsorbOne(Absorb(base, front), last);
      AddsOneMore(base, front, last, Absorb(base, front));
    }
  }

  lemma AddsOneMore<T(!new)>(base: seq<T>, xs: seq<T>, x: T, r: seq<T>)
    requires AddsInOrder(base, xs, r)
    ensures AddsInOrder(base, xs + [x], if x in r then r else r + [x])
  {
    var r' := if x in r then r else r + [x];
    forall i, j | |base| <= i < j < |r'| ensures ComesUpFirst(xs + [x], r'[i], r'[j]) {
      if j < |r| {
        ComesUpLonger(xs, [x], r[i], r[j]);
      } else {
        assert r[i] in r && r[i] !in base;
        ComesUpLater(xs, r[i], x);
      }
    }
  }

  // ---------------------------------------------------------------
  // Flattening
  // ---------------------------------------------------------------

  function Flatten<T>(parts: seq<seq<T>>): seq<T> {
    if parts == [] then [] else parts[0] + Flatten(parts[1..])
  }

  /** The members of `s` that are wanted, in order. */
  function Kept<T>(s: seq<T>, wanted: T -> bool): seq<T> {
    if s == [] then [] else (if wanted(s[0]) then [s[0]] else []) + Kept(s[1..], wanted)
  }

  lemma {:induction false} KeptOneMore<T>(s: seq<T>, x: T, wanted: T -> bool)
    ensures Kept(s + [x], wanted) == Kept(s, wanted) + if wanted(x) then [x] else []
  {
    if s == [] {
      assert s + [x] == [x];
      assert [x][1..] == [];
    } else {
      assert (s + [x])[1..] == s[1..] + [x];
      KeptOneMore(s[1..], x, wanted);
      Associates(
        if wanted(s[0]) then [s[0]] else [], Kept(s[1..], wanted), if wanted(x) then [x] else []);
    }
  }

  lemma {:induction false} KeptMembers<T>(s: seq<T>, wanted: T -> bool)
    ensures forall x :: x in Kept(s, wanted) <==> x in s && wanted(x)
  {
    if s != [] {
      KeptMembers(s[1..], wanted);
      assert s == [s[0]] + s[1..];
    }
  }

  // ---------------------------------------------------------------
  // Results built up item by item
  // ---------------------------------------------------------------

  /** A list that may still be refused, with `done` in front of it. */
  function Behind<T, E>(done: seq<T>, r: Result<seq<T>, E>): Result<seq<T>, E> {
    match r
    case Err(e) => Err(e)
    case Ok(rest) => Ok(done + rest)
  }

  lemma BehindNothing<T, E>(r: Result<seq<T>, E>)
    ensures Behind([], r) == r
  {
    if r.Ok? {
      assert [] + r.value == r.value;
    }
  }

  lemma BehindTheEnd<T, E>(done: seq<T>, r: Result<seq<T>, E>)
    requires r == Ok([])
    ensures Behind(done, r) == Ok(done)
  {
    assert done + r.value == done;
  }

  lemma BehindTwice<T, E>(a: seq<T>, b: seq<T>, r: Result<seq<T>, E>)
    ensures Behind(a, Behind(b, r)) == Behind(a + b, r)
  {
    if r.Ok? {
      assert a + (b + r.value) == a + b + r.value;
    }
  }

  // ---------------------------------------------------------------
  // Strings in pieces
  // ---------------------------------------------------------------

  /** `s` cut at every `sep`; an empty string is one empty piece. */
  function Split(s: string, sep: char): (r: seq<string>)
    ensures |r| > 0
  {
    if s == "" then [""]
    else
      var rest := Split(s[1..], sep);
      if s[0] == sep then [""] + rest
      else [[s[0]] + rest[0]] + rest[1..]
  }
}
