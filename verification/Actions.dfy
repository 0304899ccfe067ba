/** The declared action taxonomy and the coverage walk over its `odrl:includedIn` edges. */
module Actions {
  import opened Wrappers

  datatype ActionDecl = ActionDecl(id: string, includedIn: Option<string>)

  type Taxonomy = seq<ActionDecl>

  predicate Recognizes(actions: Taxonomy, action: string) {
    exists k :: 0 <= k < |actions| && actions[k].id == action
  }

  /** The first declaration of an action is the one that counts. */
  function Lookup(actions: Taxonomy, action: string): (r: Option<ActionDecl>)
    ensures r.Some? <==> Recognizes(actions, action)
    ensures r.Some? ==> r.value in actions && r.value.id == action
  {
    if actions == [] then None
    else if actions[0].id == action then Some(actions[0])
    else
      assert Recognizes(actions, action) <==> Recognizes(actions[1..], action) by {
        forall k | 0 <= k < |actions| && actions[k].id == action ensures Recognizes(actions[1..], action) {
          assert actions[1..][k - 1].id == action;
        }
        forall k | 0 <= k < |actions[1..]| && actions[1..][k].id == action ensures Recognizes(actions, action) {
          assert actions[k + 1].id == action;
        }
      }
      Lookup(actions[1..], action)
  }

  function Broader(actions: Taxonomy, action: string): Option<string> {
    match Lookup(actions, action)
    case None => None
    case Some(decl) => decl.includedIn
  }

  /** The `k`th declaration is the first one of the action. */
  predicate FirstDeclares(actions: Taxonomy, action: string, k: nat) {
    && k < |actions| && actions[k].id == action
    && forall j :: 0 <= j < k ==> actions[j].id != action
  }

  /** An edge leads where the first declaration of the action says, and only there. */
  lemma {:induction false} EdgesAreDeclared(actions: Taxonomy, action: string, parent: string)
    ensures Broader(actions, action) == Some(parent)
       <==> exists k: nat :: FirstDeclares(actions, action, k) && actions[k].includedIn == Some(parent)
  {
    if actions != [] {
      var rest := actions[1..];
      EdgesAreDeclared(rest, action, parent);
      if actions[0].id == action {
        assert FirstDeclares(actions, action, 0);
      } else {
        forall k: nat ensures FirstDeclares(rest, action, k) <==> FirstDeclares(actions, action, k + 1) {
          if k < |rest| {
            assert forall j :: 0 <= j < |rest| ==> rest[j] == actions[j + 1];
          }
        }
        if k: nat :| FirstDeclares(actions, action, k) && actions[k].includedIn == Some(parent) {
          assert FirstDeclares(rest, action, k - 1) && rest[k - 1].includedIn == Some(parent);
        }
        if k: nat :| FirstDeclares(rest, action, k) && rest[k].includedIn == Some(parent) {
          assert FirstDeclares(actions, action, k + 1) && actions[k + 1].includedIn == Some(parent);
        }
      }
    }
  }

  /** With distinct declarations each edge is the declared one. */
  lemma {:induction false} DistinctEdges(actions: Taxonomy, k: nat)
    requires k < |actions| && forall i, j :: 0 <= i < j < |actions| ==> actions[i].id != actions[j].id
    ensures Broader(actions, actions[k].id) == actions[k].includedIn
  {
    if k > 0 {
      DistinctEdges(actions[1..], k - 1);
    }
  }

  /** Where the `odrl:includedIn` edge from an action leads, if it has one. */
  type Edges = string -> Option<string>

  function EdgesOf(actions: Taxonomy): Edges {
    (action: string) => Broader(actions, action)
  }

  /** The action `n` edges above `action`, if the edges go that far. */
  function Above(up: Edges, action: string, n: nat): Option<string> {
    if n == 0 then Some(action)
    else
      match Above(up, action, n - 1)
      case None => None
      case Some(a) => up(a)
  }

  /** `rule` is `requested` or some action declared, edge by edge, to include it. */
  ghost predicate IncludedIn(actions: Taxonomy, requested: string, rule: string) {
    exists n: nat :: Above(EdgesOf(actions), requested, n) == Some(rule)
  }

  ghost function Declared(actions: Taxonomy): set<string> {
    set d | d in actions :: d.id
  }

  /** The coverage walk: from `current` upwards, giving up on an action it has already seen. */
  predicate CoversFrom(actions: Taxonomy, rule: string, current: string, visited: set<string>)
    decreases Declared(actions) - visited
  {
    if current in visited then false
    else
      match Broader(actions, current)
      case None => false
      case Some(parent) => parent == rule || CoversFrom(actions, rule, parent, visited + {current})
  }

  predicate Covers(actions: Taxonomy, rule: string, requested: string) {
    rule == requested || CoversFrom(actions, rule, requested, {})
  }

  method CoversAction(actions: Taxonomy, rule: string, requested: string) returns (r: bool)
    ensures r == Covers(actions, rule, requested)
  {
    if rule == requested {
      return true;
    }
    var current := requested;
    var visited := {};
    while true
      invariant Covers(actions, rule, requested) == CoversFrom(actions, rule, current, visited)
      decreases Declared(actions) - visited
    {
      if current in visited {
        return false;
      }
      var parent := Broader(actions, current);
      if parent.None? {
        return false;
      }
      if parent.value == rule {
        return true;
      }
      visited := visited + {current};
      current := parent.value;
    }
  }

  // ---------------------------------------------------------------
  // Coverage is reachability
  // ---------------------------------------------------------------

  lemma {:induction false} AboveStep(up: Edges, a: string, m: nat, n: nat)
    requires Above(up, a, m).Some?
    ensures Above(up, a, m + n) == Above(up, Above(up, a, m).value, n)
    decreases n
  {
    if n > 0 {
      AboveStep(up, a, m, n - 1);
    }
  }

  lemma {:induction false} AboveDefinedBelow(up: Edges, a: string, m: nat, n: nat)
    requires m <= n && Above(up, a, n).Some?
    ensures Above(up, a, m).Some?
    decreases n
  {
    if m < n {
      AboveDefinedBelow(up, a, m, n - 1);
    }
  }

  /** `x` is met before the `n`th edge above `a`. */
  ghost predicate MetBefore(up: Edges, a: string, n: nat, x: string) {
    exists k: nat :: k < n && Above(up, a, k) == Some(x)
  }

  lemma AboveNext(up: Edges, a: string, i: nat, j: nat)
    requires Above(up, a, i) == Above(up, a, j)
    ensures Above(up, a, i + 1) == Above(up, a, j + 1)
  {
  }

  /** Once the walk meets an action again, everything above it was met before. */
  lemma {:induction false} Recurs(up: Edges, a: string, k: nat, n: nat, m: nat) returns (j: nat)
    requires k < n <= m && Above(up, a, n).Some? && Above(up, a, k) == Above(up, a, n)
    requires Above(up, a, m).Some?
    ensures j < n && Above(up, a, j) == Above(up, a, m)
    decreases m
  {
    if m == n {
      j := k;
    } else {
      AboveDefinedBelow(up, a, m - 1, m);
      var i := Recurs(up, a, k, n, m - 1);
      AboveNext(up, a, i, m - 1);
      j := if i + 1 == n then k else i + 1;
    }
  }

  lemma MetNext(up: Edges, a: string, n: nat, x: string)
    ensures MetBefore(up, a, n + 1, x) <==> MetBefore(up, a, n, x) || Above(up, a, n) == Some(x)
  {
    if MetBefore(up, a, n, x) {
      var k: nat :| k < n && Above(up, a, k) == Some(x);
      assert k < n + 1;
    }
  }

  ghost predicate NotMetUpTo(actions: Taxonomy, rule: string, requested: string, n: nat) {
    forall k: nat :: k <= n ==> Above(EdgesOf(actions), requested, k) != Some(rule)
  }

  /** Once the walk is back at an action it has left, it meets nothing new. */
  lemma CycleNeverMeets(actions: Taxonomy, rule: string, requested: string, k: nat, n: nat)
    requires k < n && Above(EdgesOf(actions), requested, n).Some? && NotMetUpTo(actions, rule, requested, n)
    requires Above(EdgesOf(actions), requested, k) == Above(EdgesOf(actions), requested, n)
    ensures !IncludedIn(actions, requested, rule)
  {
    forall m: nat ensures Above(EdgesOf(actions), requested, m) != Some(rule) {
      if m > n && Above(EdgesOf(actions), requested, m).Some? {
        var j := Recurs(EdgesOf(actions), requested, k, n, m);
      }
    }
  }

  lemma EndNeverMeets(actions: Taxonomy, rule: string, requested: string, n: nat)
    requires NotMetUpTo(actions, rule, requested, n) && Above(EdgesOf(actions), requested, n + 1).None?
    ensures !IncludedIn(actions, requested, rule)
  {
    forall m: nat ensures Above(EdgesOf(actions), requested, m) != Some(rule) {
      if m > n && Above(EdgesOf(actions), requested, m).Some? {
        AboveDefinedBelow(EdgesOf(actions), requested, n + 1, m);
      }
    }
  }

  lemma {:induction false} CoversFromIff(
      actions: Taxonomy, rule: string, requested: string, n: nat, visited: set<string>)
    requires Above(EdgesOf(actions), requested, n).Some?
    requires NotMetUpTo(actions, rule, requested, n)
    requires forall x :: x in visited <==> MetBefore(EdgesOf(actions), requested, n, x)
    ensures CoversFrom(actions, rule, Above(EdgesOf(actions), requested, n).value, visited)
       <==> IncludedIn(actions, requested, rule)
    decreases Declared(actions) - visited
  {
    var current := Above(EdgesOf(actions), requested, n).value;
    if current in visited {
      var k: nat :| k < n && Above(EdgesOf(actions), requested, k) == Some(current);
      CycleNeverMeets(actions, rule, requested, k, n);
    } else {
      var parent := Broader(actions, current);
      assert Above(EdgesOf(actions), requested, n + 1) == parent;
      if parent == Some(rule) {
        assert IncludedIn(actions, requested, rule);
      } else if parent.None? {
        EndNeverMeets(actions, rule, requested, n);
      } else {
        var visited' := visited + {current};
        forall x ensures x in visited' <==> MetBefore(EdgesOf(actions), requested, n + 1, x) {
          MetNext(EdgesOf(actions), requested, n, x);
        }
        CoversFromIff(actions, rule, requested, n + 1, visited');
      }
    }
  }

  /** A rule covers a request exactly when declared edges lead from the request's action to the rule's. */
  lemma CoversIffIncluded(actions: Taxonomy, rule: string, requested: string)
    ensures Covers(actions, rule, requested) <==> IncludedIn(actions, requested, rule)
  {
    assert Above(EdgesOf(actions), requested, 0) == Some(requested);
    if rule != requested {
      CoversFromIff(actions, rule, requested, 0, {});
    }
  }

  /** Coverage composes along the taxonomy. */
  lemma CoversTransitive(actions: Taxonomy, a: string, b: string, c: string)
    requires Covers(actions, a, b) && Covers(actions, b, c)
    ensures Covers(actions, a, c)
  {
    CoversIffIncluded(actions, a, b);
    CoversIffIncluded(actions, b, c);
    CoversIffIncluded(actions, a, c);
    var m: nat :| Above(EdgesOf(actions), c, m) == Some(b);
    var n: nat :| Above(EdgesOf(actions), b, n) == Some(a);
    AboveStep(EdgesOf(actions), c, m, n);
  }
}
