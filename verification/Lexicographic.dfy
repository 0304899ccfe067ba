/** The dictionary order on strings, and sorting by it. */
module Lexicographic {

  /** `a` is a prefix of `b`, or smaller at the first place where they differ. */
  predicate LexLe(a: string, b: string) {
    if a == "" then true
    else if b == "" then false
    else if a[0] != b[0] then a[0] < b[0]
    else LexLe(a[1..], b[1..])
  }

  lemma {:induction false} LexTotal(a: string, b: string)
    ensures LexLe(a, b) || LexLe(b, a)
  {
    if a != "" && b != "" && a[0] == b[0] {
      LexTotal(a[1..], b[1..]);
    }
  }

  lemma {:induction false} LexAntisymmetric(a: string, b: string)
    requires LexLe(a, b) && LexLe(b, a)
    ensures a == b
  {
    if a != "" && b != "" {
      LexAntisymmetric(a[1..], b[1..]);
      assert a == [a[0]] + a[1..] && b == [b[0]] + b[1..];
    }
  }

  lemma {:induction false} LexTransitive(a: string, b: string, c: string)
    requires LexLe(a, b) && LexLe(b, c)
    ensures LexLe(a, c)
  {
    if a != "" && b != "" && c != "" && a[0] == b[0] == c[0] {
      LexTransitive(a[1..], b[1..], c[1..]);
    }
  }

  // ---------------------------------------------------------------
  // Sorting pairs of strings
  // ---------------------------------------------------------------

  type Pair = (string, string)

  predicate PairLe(a: Pair, b: Pair) {
    if a.0 == b.0 then LexLe(a.1, b.1) else LexLe(a.0, b.0)
  }

  lemma PairTotal(a: Pair, b: Pair)
    ensures PairLe(a, b) || PairLe(b, a)
  {
    LexTotal(a.0, b.0);
    LexTotal(a.1, b.1);
  }

  lemma PairAntisymmetric(a: Pair, b: Pair)
    requires PairLe(a, b) && PairLe(b, a)
    ensures a == b
  {
    if a.0 == b.0 {
      LexAntisymmetric(a.1, b.1);
    } else {
      LexAntisymmetric(a.0, b.0);
    }
  }

  lemma PairTransitive(a: Pair, b: Pair, c: Pair)
    requires PairLe(a, b) && PairLe(b, c)
    ensures PairLe(a, c)
  {
    if a.0 == b.0 == c.0 {
      LexTransitive(a.1, b.1, c.1);
    } else if a.0 != b.0 && b.0 != c.0 {
      LexTransitive(a.0, b.0, c.0);
      if a.0 == c.0 {
        LexAntisymmetric(a.0, b.0);
      }
    }
  }

  ghost predicate Sorted(s: seq<Pair>) {
    forall i, j :: 0 <= i < j < |s| ==> PairLe(s[i], s[j])
  }

  function Insert(x: Pair, s: seq<Pair>): seq<Pair> {
    if s == [] then [x]
    else if PairLe(x, s[0]) then [x] + s
    else [s[0]] + Insert(x, s[1..])
  }

  function Sort(s: seq<Pair>): seq<Pair> {
    if s == [] then [] else Insert(s[0], Sort(s[1..]))
  }

  lemma SortedInFront(head: Pair, s: seq<Pair>)
    requires Sorted(s) && forall y :: y in s ==> PairLe(head, y)
    ensures Sorted([head] + s)
  {
    var t := [head] + s;
    forall i, j | 0 <= i < j < |t| ensures PairLe(t[i], t[j]) {
      assert t[j] == s[j - 1] && s[j - 1] in s;
    }
  }

  lemma BelowAll(x: Pair, s: seq<Pair>)
    requires Sorted(s) && s != [] && PairLe(x, s[0])
    ensures forall y :: y in s ==> PairLe(x, y)
  {
    forall y | y in s ensures PairLe(x, y) {
      var i :| 0 <= i < |s| && s[i] == y;
      if i > 0 { PairTransitive(x, s[0], y); }
    }
  }

  lemma {:induction false} InsertSorts(x: Pair, s: seq<Pair>)
    requires Sorted(s)
    ensures Sorted(Insert(x, s)) && multiset(Insert(x, s)) == multiset{x} + multiset(s)
  {
    if s == [] {
    } else if PairLe(x, s[0]) {
      BelowAll(x, s);
      SortedInFront(x, s);
    } else {
      assert s == [s[0]] + s[1..];
      PairTotal(x, s[0]);
      InsertSorts(x, s[1..]);
      var t := Insert(x, s[1..]);
      forall y | y in t ensures PairLe(s[0], y) {
        assert y in multiset(t);
        assert y == x || y in s[1..];
      }
      SortedInFront(s[0], t);
    }
  }

  lemma {:induction false} SortSorts(s: seq<Pair>)
    ensures Sorted(Sort(s)) && multiset(Sort(s)) == multiset(s)
  {
    if s != [] {
      SortSorts(s[1..]);
      InsertSorts(s[0], Sort(s[1..]));
      assert s == [s[0]] + s[1..];
    }
  }

  lemma SortedHead(a: seq<Pair>, b: seq<Pair>)
    requires Sorted(a) && |a| > 0 && |b| > 0 && b[0] in a
    ensures PairLe(a[0], b[0])
  {
    var j :| 0 <= j < |a| && a[j] == b[0];
    PairTotal(a[0], a[0]);
  }

  lemma {:induction false} SortedUnique(a: seq<Pair>, b: seq<Pair>)
    requires Sorted(a) && Sorted(b) && multiset(a) == multiset(b)
    ensures a == b
  {
    assert |multiset(a)| == |a| && |multiset(b)| == |b|;
    if a != [] {
      assert a[0] in multiset(b) && b[0] in multiset(a);
      SortedHead(a, b);
      SortedHead(b, a);
      PairAntisymmetric(a[0], b[0]);
      TailMultisets(a, b);
      SortedUnique(a[1..], b[1..]);
    }
  }

  lemma TailMultisets(a: seq<Pair>, b: seq<Pair>)
    requires |a| > 0 && |b| > 0 && a[0] == b[0] && multiset(a) == multiset(b)
    ensures multiset(a[1..]) == multiset(b[1..])
  {
    assert a == [a[0]] + a[1..] && b == [b[0]] + b[1..];
    assert multiset(a[1..]) == multiset(a) - multiset{a[0]};
    assert multiset(b[1..]) == multiset(b) - multiset{a[0]};
  }

  /** Two lists sort to the same list exactly when they hold the same pairs equally often. */
  lemma SortComparesMultisets(a: seq<Pair>, b: seq<Pair>)
    ensures Sort(a) == Sort(b) <==> multiset(a) == multiset(b)
  {
    SortSorts(a);
    SortSorts(b);
    if multiset(a) == multiset(b) {
      SortedUnique(Sort(a), Sort(b));
    }
  }
}
