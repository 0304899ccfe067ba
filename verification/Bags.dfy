/** Sums of bags of pairs over a sequence. */
module Bags {
  import opened Collections
  import opened Lexicographic

  type Bag = multiset<Pair>

  ghost function Sum<T(!new)>(f: T -> Bag, s: seq<T>): Bag {
    if s == [] then multiset{} else f(s[0]) + Sum(f, s[1..])
  }

  lemma {:induction false} SumAppend<T(!new)>(f: T -> Bag, a: seq<T>, b: seq<T>)
    ensures Sum(f, a + b) == Sum(f, a) + Sum(f, b)
    decreases |a|
  {
    if a == [] {
      assert a + b == b;
    } else {
      assert (a + b)[1..] == a[1..] + b;
      SumAppend(f, a[1..], b);
    }
  }

  lemma SumSnoc<T(!new)>(f: T -> Bag, a: seq<T>, x: T)
    ensures Sum(f, a + [x]) == Sum(f, a) + f(x)
  {
    SumAppend(f, a, [x]);
    assert [x][1..] == [];
    assert Sum(f, [x]) == f(x) + Sum(f, [x][1..]);
  }

  function Without<T>(s: seq<T>, i: nat): seq<T>
    requires i < |s|
  {
    s[..i] + s[i + 1..]
  }

  lemma SumWithout<T(!new)>(f: T -> Bag, s: seq<T>, i: nat)
    requires i < |s|
    ensures Sum(f, s) == f(s[i]) + Sum(f, Without(s, i))
  {
    assert s == s[..i] + [s[i]] + s[i + 1..];
    SumAppend(f, s[..i], s[i + 1..]);
    SumAppend(f, s[..i] + [s[i]], s[i + 1..]);
    SumSnoc(f, s[..i], s[i]);
  }

  lemma BagWithout<T>(s: seq<T>, i: nat)
    requires i < |s|
    ensures multiset(Without(s, i)) == multiset(s) - multiset{s[i]}
  {
    assert s == s[..i] + [s[i]] + s[i + 1..];
  }

  /** A sum does not depend on the order of its terms. */
  lemma {:induction false} SumPermutes<T(!new)>(f: T -> Bag, a: seq<T>, b: seq<T>)
    requires multiset(a) == multiset(b)
    ensures Sum(f, a) == Sum(f, b)
    decreases |a|
  {
    assert |multiset(a)| == |a| && |multiset(b)| == |b|;
    if a != [] {
      assert a[0] in multiset(b);
      var i :| 0 <= i < |b| && b[i] == a[0];
      BagWithout(a, 0);
      BagWithout(b, i);
      assert Without(a, 0) == a[1..];
      SumPermutes(f, a[1..], Without(b, i));
      SumWithout(f, b, i);
    }
  }

  lemma {:induction false} SumAgrees<T(!new), U(!new)>(f: T -> Bag, a: seq<T>, g: U -> Bag, b: seq<U>)
    requires |a| == |b| && forall k :: 0 <= k < |a| ==> f(a[k]) == g(b[k])
    ensures Sum(f, a) == Sum(g, b)
    decreases |a|
  {
    if a != [] {
      SumAgrees(f, a[1..], g, b[1..]);
    }
  }

  /** A sum is empty exactly when every term is. */
  lemma {:induction false} SumEmptyIff<T(!new)>(f: T -> Bag, s: seq<T>)
    ensures Sum(f, s) == multiset{} <==> forall k :: 0 <= k < |s| ==> f(s[k]) == multiset{}
    decreases |s|
  {
    if s != [] {
      SumEmptyIff(f, s[1..]);
      assert Sum(f, s) == multiset{} <==> f(s[0]) == multiset{} && Sum(f, s[1..]) == multiset{} by {
        EmptyUnion(f(s[0]), Sum(f, s[1..]));
      }
      assert forall k :: 0 <= k < |s[1..]| ==> s[1..][k] == s[k + 1];
      forall k | 0 <= k < |s| && f(s[0]) == multiset{} && Sum(f, s[1..]) == multiset{} ensures f(s[k]) == multiset{} {
        if k > 0 { assert s[1..][k - 1] == s[k]; }
      }
    }
  }

  /** Adding up two families of bags term by term. */
  lemma {:induction false} SumAdds<T(!new)>(f: T -> Bag, h: T -> Bag, g: T -> Bag, s: seq<T>)
    requires forall x :: x in s ==> f(x) + h(x) == g(x)
    ensures Sum(f, s) + Sum(h, s) == Sum(g, s)
    decreases |s|
  {
    if s != [] {
      SumAdds(f, h, g, s[1..]);
      assert s == [s[0]] + s[1..];
      assert f(s[0]) + h(s[0]) == g(s[0]);
      Regroup(f(s[0]), h(s[0]), g(s[0]), Sum(f, s[1..]), Sum(h, s[1..]), Sum(g, s[1..]));
    }
  }

  /** Adding up, over two lists side by side, terms that make up the terms of a third. */
  lemma {:induction false} SumsAdd<T(!new), U(!new)>(f: T -> Bag, a: seq<T>, h: U -> Bag, g: U -> Bag, b: seq<U>)
    requires |a| == |b| && forall k :: 0 <= k < |a| ==> f(a[k]) + h(b[k]) == g(b[k])
    ensures Sum(f, a) + Sum(h, b) == Sum(g, b)
    decreases |a|
  {
    if a != [] {
      SumsAdd(f, a[1..], h, g, b[1..]);
      assert f(a[0]) + h(b[0]) == g(b[0]);
      Regroup(f(a[0]), h(b[0]), g(b[0]), Sum(f, a[1..]), Sum(h, b[1..]), Sum(g, b[1..]));
    }
  }

  lemma Regroup(a: Bag, m: Bag, u: Bag, b: Bag, n: Bag, v: Bag)
    requires a + m == u && b + n == v
    ensures (a + b) + (m + n) == u + v
  {
  }

  /** Two sums that differ by a bag each, put one after the other. */
  lemma SumsSideBySide<T(!new), U(!new)>(
      f: T -> Bag, a: seq<T>, b: seq<T>, g: U -> Bag, u: seq<U>, v: seq<U>, m: Bag, n: Bag)
    requires Sum(f, a) + m == Sum(g, u) && Sum(f, b) + n == Sum(g, v)
    ensures Sum(f, a + b) + (m + n) == Sum(g, u + v)
  {
    SumAppend(f, a, b);
    SumAppend(g, u, v);
    Regroup(Sum(f, a), m, Sum(g, u), Sum(f, b), n, Sum(g, v));
  }

  ghost function Total(bags: seq<Bag>): Bag {
    if bags == [] then multiset{} else bags[0] + Total(bags[1..])
  }

  lemma {:induction false} TotalEmptyIff(bags: seq<Bag>)
    ensures Total(bags) == multiset{} <==> forall k :: 0 <= k < |bags| ==> bags[k] == multiset{}
  {
    if bags != [] {
      TotalEmptyIff(bags[1..]);
      EmptyUnion(bags[0], Total(bags[1..]));
      assert forall k :: 0 < k < |bags| ==> bags[k] == bags[1..][k - 1];
      assert forall k :: 0 <= k < |bags[1..]| ==> bags[1..][k] == bags[k + 1];
    }
  }

  /** Two lists in parts, each part of one a bag short of its fellow. */
  lemma {:induction false} PartsSideBySide<T(!new), U(!new)>(
      f: T -> Bag, a: seq<seq<T>>, g: U -> Bag, b: seq<seq<U>>, short: seq<Bag>)
    requires |a| == |b| == |short| && forall k :: 0 <= k < |a| ==> Sum(f, a[k]) + short[k] == Sum(g, b[k])
    ensures Sum(f, Flatten(a)) + Total(short) == Sum(g, Flatten(b))
    decreases |a|
  {
    if a != [] {
      PartsSideBySide(f, a[1..], g, b[1..], short[1..]);
      SumsSideBySide(f, a[0], Flatten(a[1..]), g, b[0], Flatten(b[1..]), short[0], Total(short[1..]));
    }
  }

  lemma {:induction false} EmptyParts<T(!new)>(f: T -> Bag, a: seq<seq<T>>)
    requires forall k :: 0 <= k < |a| ==> Sum(f, a[k]) == multiset{}
    ensures Sum(f, Flatten(a)) == multiset{}
    decreases |a|
  {
    if a != [] {
      EmptyParts(f, a[1..]);
      SumAppend(f, a[0], Flatten(a[1..]));
    }
  }

  lemma SumOfOne<T(!new)>(f: T -> Bag, x: T)
    ensures Sum(f, [x]) == f(x)
  {
    assert [x][1..] == [];
    assert Sum(f, [x]) == f(x) + Sum(f, [x][1..]);
  }

  lemma EmptyUnion(a: Bag, b: Bag)
    ensures a + b == multiset{} <==> a == multiset{} && b == multiset{}
  {
    if a + b == multiset{} {
      assert |a + b| == |a| + |b|;
    }
  }

  lemma SamePlusTwo(a: Bag, b: Bag, d: Bag)
    ensures a == a + b + d <==> b == multiset{} && d == multiset{}
  {
    if a == a + b + d {
      assert |a + b + d| == |a| + |b| + |d|;
    }
  }
}
