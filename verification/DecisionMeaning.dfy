/**
 What the engine decides about one policy, said of the rules, the request and the claims: which
 rules bear on a request, what settles a duty, and what the decision and the account come to.
 */
module DecisionMeaning {
  import opened Wrappers
  import opened Constraints
  import opened Actions
  import opened Rules
  import opened Policies
  import opened Decisions
  import opened OwnAccount
  import opened OwnVerdict

  // ---------------------------------------------------------------
  // One rule
  // ---------------------------------------------------------------

  /** The rule names no target, the asked one, or a collection it belongs to. */
  ghost predicate AimsAt(r: Rule, q: Query) {
    || r.target == None
    || r.target == Some(q.target)
    || exists k :: 0 <= k < |q.collections| && r.target == Some(q.collections[k])
  }

  /** The asked action is the rule's, or is declared, edge by edge, to be included in it. */
  ghost predicate IsAbout(r: Rule, c: Case) {
    r.action == c.query.action || IncludedIn(c.config.actions, c.query.action, r.action)
  }

  ghost predicate RefinementTrue(r: Rule, w: World) {
    forall f :: r.refinement == Some(f) ==> Evaluate(f, w)
  }

  ghost predicate ConstraintsTrue(r: Rule, w: World) {
    forall f :: f in r.constraints ==> Evaluate(f, w)
  }

  /** The request attempts what the rule is about. */
  ghost predicate Concerns(r: Rule, c: Case) {
    AimsAt(r, c.query) && IsAbout(r, c) && RefinementTrue(r, c.world)
  }

  /** The rule bears on the request: it concerns it, and its constraints are true. */
  ghost predicate BearsOn(r: Rule, c: Case) {
    Concerns(r, c) && ConstraintsTrue(r, c.world)
  }

  lemma AppliesIff(r: Rule, c: Case)
    ensures Applies(r, c) <==> Concerns(r, c)
  {
    CoversIffIncluded(c.config.actions, r.action, c.query.action);
    assert Above(EdgesOf(c.config.actions), c.query.action, 0) == Some(c.query.action);
    if r.target.Some? && r.target.value in c.query.collections {
      var k :| 0 <= k < |c.query.collections| && c.query.collections[k] == r.target.value;
    }
  }

  lemma MatchesIff(r: Rule, w: World)
    ensures Matches(r, w) <==> ConstraintsTrue(r, w)
  {
    if ConstraintsTrue(r, w) {
      forall k | 0 <= k < |r.constraints| ensures Evaluate(r.constraints[k], w) {
        assert r.constraints[k] in r.constraints;
      }
    }
  }

  /** A rule is in play exactly when target, action, refinement and every constraint fit. */
  lemma InPlayIff(r: Rule, c: Case)
    ensures InPlay(r, c) <==> BearsOn(r, c)
  {
    AppliesIff(r, c);
    MatchesIff(r, c.world);
  }

  // ---------------------------------------------------------------
  // One duty
  // ---------------------------------------------------------------

  /** The claims show the duty done: it has constraints, they are true, and so is its refinement. */
  ghost predicate Done(d: Rule, w: World) {
    d.constraints != [] && ConstraintsTrue(d, w) && RefinementTrue(d, w)
  }

  lemma SatisfiedIff(d: Rule, w: World)
    ensures DutySatisfied(d, w) <==> Done(d, w)
  {
    MatchesIff(d, w);
  }

  /** The `k`th duty of the chain is there and done. */
  ghost predicate DoneAt(d: Rule, w: World, k: nat) {
    WalkRule(d, k).Some? && Done(WalkRule(d, k).value, w)
  }

  /** The duty, or one of the four it may fall back on, is done. */
  ghost predicate Settled(d: Rule, w: World) {
    exists k: nat :: k <= 4 && DoneAt(d, w, k)
  }

  /** The chain goes no further than this, or no further than the engine looks. */
  predicate LastLookedAt(d: Rule, k: nat) {
    && WalkRule(d, k).Some? && k <= 4
    && (k == 4 || WalkRule(d, k).value.consequence.None?)
  }

  lemma {:induction false} OutstandingFrom(d: Rule, w: World, depth: nat)
    requires depth <= 4
    ensures OutstandingAt(d, w, depth).None? <==> exists k: nat :: depth + k <= 4 && DoneAt(d, w, k)
    ensures OutstandingAt(d, w, depth).Some? ==>
      var o := OutstandingAt(d, w, depth).value;
      && depth <= o.depth <= 4 && WalkRule(d, o.depth - depth).Some?
      && o.action == WalkRule(d, o.depth - depth).value.action
      && (o.depth == 4 || WalkRule(d, o.depth - depth).value.consequence.None?)
    decreases d
  {
    SatisfiedIff(d, w);
    assert WalkRule(d, 0) == Some(d);
    if DutySatisfied(d, w) {
      assert DoneAt(d, w, 0);
    } else if d.consequence.Some? && depth < 4 {
      OutstandingFrom(d.consequence.value, w, depth + 1);
      NextDone(d, w);
      if k: nat :| depth + k <= 4 && DoneAt(d, w, k) {
        assert DoneAt(d.consequence.value, w, k - 1) && depth + 1 + (k - 1) <= 4;
      }
      if k: nat :| depth + 1 + k <= 4 && DoneAt(d.consequence.value, w, k) {
        assert DoneAt(d, w, k + 1) && depth + (k + 1) <= 4;
      }
    }
  }

  lemma NextDone(d: Rule, w: World)
    requires d.consequence.Some?
    ensures forall k: nat :: DoneAt(d, w, k + 1) <==> DoneAt(d.consequence.value, w, k)
  {
  }

  /** A duty is outstanding exactly when no duty of its chain is done; what is listed is the last one looked at. */
  lemma OutstandingIff(d: Rule, w: World)
    ensures Outstanding(d, w).None? <==> Settled(d, w)
    ensures Outstanding(d, w).Some? ==>
      && LastLookedAt(d, Outstanding(d, w).value.depth)
      && Outstanding(d, w).value.action == WalkRule(d, Outstanding(d, w).value.depth).value.action
  {
    OutstandingFrom(d, w, 0);
    if k: nat :| 0 + k <= 4 && DoneAt(d, w, k) {
      assert k <= 4;
    }
  }

  // ---------------------------------------------------------------
  // Known actions
  // ---------------------------------------------------------------

  /** `action` is that of a duty the engine would look at, `depth` hops already taken. */
  ghost predicate InChain(d: Rule, depth: nat, action: string) {
    exists k: nat :: depth + k <= 4 && WalkRule(d, k).Some? && WalkRule(d, k).value.action == action
  }

  ghost predicate InChains(ds: seq<Rule>, action: string) {
    exists j :: 0 <= j < |ds| && InChain(ds[j], 0, action)
  }

  ghost predicate ActionOf(rules: seq<Rule>, action: string) {
    exists j :: 0 <= j < |rules| && rules[j].action == action
  }

  /** The action of some rule of the policy, or of a duty, remedy or consequence the engine would look at. */
  ghost predicate Named(p: Policy, action: string) {
    || ActionOf(p.lists.permissions, action) || ActionOf(p.lists.prohibitions, action)
    || InChains(p.lists.obligations, action)
    || (exists i :: 0 <= i < |p.lists.permissions| && InChains(p.lists.permissions[i].duty, action))
    || (exists i :: 0 <= i < |p.lists.prohibitions| && InChains(p.lists.prohibitions[i].remedy, action))
  }

  /** A search for an unknown action among those named: it finds one exactly when there is one. */
  ghost predicate Finds(found: Option<string>, named: string -> bool, actions: Taxonomy) {
    && (found.None? ==> forall a :: named(a) ==> Recognizes(actions, a))
    && (found.Some? ==> named(found.value) && !Recognizes(actions, found.value))
  }

  lemma {:induction false} FindsInRules(rules: seq<Rule>, actions: Taxonomy)
    ensures Finds(FirstUnknown(rules, actions), a => ActionOf(rules, a), actions)
  {
    if rules != [] {
      FindsInRules(rules[1..], actions);
      assert forall j :: 0 < j < |rules| ==> rules[j] == rules[1..][j - 1];
      forall a ensures ActionOf(rules, a) <==> rules[0].action == a || ActionOf(rules[1..], a) {
        if j :| 0 <= j < |rules[1..]| && rules[1..][j].action == a {
          assert rules[j + 1].action == a;
        }
      }
    }
  }

  lemma {:induction false} FindsInChain(d: Rule, actions: Taxonomy, depth: nat)
    requires depth <= 4
    ensures Finds(FirstUnknownInChain(d, actions, depth), a => InChain(d, depth, a), actions)
    decreases d
  {
    forall a ensures InChain(d, depth, a)
      <==> d.action == a || (depth < 4 && d.consequence.Some? && InChain(d.consequence.value, depth + 1, a))
    {
      ChainHeadOrBelow(d, depth, a);
    }
    if depth < 4 && d.consequence.Some? {
      FindsInChain(d.consequence.value, actions, depth + 1);
    }
  }

  lemma ChainHeadOrBelow(d: Rule, depth: nat, a: string)
    requires depth <= 4
    ensures InChain(d, depth, a)
       <==> d.action == a || (depth < 4 && d.consequence.Some? && InChain(d.consequence.value, depth + 1, a))
  {
    assert WalkRule(d, 0) == Some(d) && depth + 0 <= 4;
    if d.action != a {
      if k: nat :| depth + k <= 4 && WalkRule(d, k).Some? && WalkRule(d, k).value.action == a {
        assert WalkRule(d.consequence.value, k - 1) == WalkRule(d, k) && depth + 1 + (k - 1) <= 4;
      }
      if d.consequence.Some? && InChain(d.consequence.value, depth + 1, a) {
        var k: nat :| depth + 1 + k <= 4 && WalkRule(d.consequence.value, k).Some?
          && WalkRule(d.consequence.value, k).value.action == a;
        assert WalkRule(d, k + 1) == WalkRule(d.consequence.value, k) && depth + (k + 1) <= 4;
      }
    }
  }

  lemma {:induction false} FindsInChains(ds: seq<Rule>, actions: Taxonomy)
    ensures Finds(FirstUnknownInChains(ds, actions), a => InChains(ds, a), actions)
  {
    if ds != [] {
      FindsInChain(ds[0], actions, 0);
      FindsInChains(ds[1..], actions);
      assert forall j :: 0 < j < |ds| ==> ds[j] == ds[1..][j - 1];
      forall a ensures InChains(ds, a) <==> InChain(ds[0], 0, a) || InChains(ds[1..], a) {
        if j :| 0 <= j < |ds[1..]| && InChain(ds[1..][j], 0, a) {
          assert InChain(ds[j + 1], 0, a);
        }
      }
    }
  }

  ghost predicate InDuties(rules: seq<Rule>, action: string) {
    exists i :: 0 <= i < |rules| && InChains(rules[i].duty, action)
  }

  ghost predicate InRemedies(rules: seq<Rule>, action: string) {
    exists i :: 0 <= i < |rules| && InChains(rules[i].remedy, action)
  }

  lemma {:induction false} FindsInDuties(rules: seq<Rule>, actions: Taxonomy)
    ensures Finds(FirstUnknownDuty(rules, actions), a => InDuties(rules, a), actions)
  {
    if rules != [] {
      FindsInChains(rules[0].duty, actions);
      FindsInDuties(rules[1..], actions);
      assert forall j :: 0 < j < |rules| ==> rules[j] == rules[1..][j - 1];
      forall a ensures InDuties(rules, a) <==> InChains(rules[0].duty, a) || InDuties(rules[1..], a) {
        if j :| 0 <= j < |rules[1..]| && InChains(rules[1..][j].duty, a) {
          assert InChains(rules[j + 1].duty, a);
        }
      }
    }
  }

  lemma {:induction false} FindsInRemedies(rules: seq<Rule>, actions: Taxonomy)
    ensures Finds(FirstUnknownRemedy(rules, actions), a => InRemedies(rules, a), actions)
  {
    if rules != [] {
      FindsInChains(rules[0].remedy, actions);
      FindsInRemedies(rules[1..], actions);
      assert forall j :: 0 < j < |rules| ==> rules[j] == rules[1..][j - 1];
      forall a ensures InRemedies(rules, a) <==> InChains(rules[0].remedy, a) || InRemedies(rules[1..], a) {
        if j :| 0 <= j < |rules[1..]| && InChains(rules[1..][j].remedy, a) {
          assert InChains(rules[j + 1].remedy, a);
        }
      }
    }
  }

  /** Among the consequences of these duties, the duties themselves left aside. */
  ghost predicate BelowDuties(ds: seq<Rule>, action: string) {
    exists i :: 0 <= i < |ds| && ds[i].consequence.Some? && InChain(ds[i].consequence.value, 1, action)
  }

  lemma {:induction false} FindsInConsequences(ds: seq<Rule>, actions: Taxonomy)
    ensures Finds(FirstUnknownConsequence(ds, actions), a => BelowDuties(ds, a), actions)
  {
    if ds != [] {
      if ds[0].consequence.Some? {
        FindsInChain(ds[0].consequence.value, actions, 1);
      }
      FindsInConsequences(ds[1..], actions);
      assert forall j :: 0 < j < |ds| ==> ds[j] == ds[1..][j - 1];
      forall a ensures BelowDuties(ds, a)
        <==> (ds[0].consequence.Some? && InChain(ds[0].consequence.value, 1, a)) || BelowDuties(ds[1..], a)
      {
        if j :| 0 <= j < |ds[1..]| && ds[1..][j].consequence.Some? && InChain(ds[1..][j].consequence.value, 1, a) {
          assert ds[j + 1].consequence.Some? && InChain(ds[j + 1].consequence.value, 1, a);
        }
      }
    }
  }

  lemma ChainsAreHeadsAndBelow(ds: seq<Rule>, a: string)
    ensures InChains(ds, a) <==> ActionOf(ds, a) || BelowDuties(ds, a)
  {
    forall j | 0 <= j < |ds| ensures InChain(ds[j], 0, a)
      <==> ds[j].action == a || (ds[j].consequence.Some? && InChain(ds[j].consequence.value, 1, a))
    {
      ChainHeadOrBelow(ds[j], 0, a);
    }
  }

  /** A policy is refused exactly for an action it names and nobody declares, and the refusal names such a one. */
  lemma RefusedIffUnknown(p: Policy, c: Case)
    ensures Decide(p, c).decision.Error? <==> exists a :: Named(p, a) && !Recognizes(c.config.actions, a)
    ensures forall a :: Decide(p, c).decision == Decision.Error(a) ==> Named(p, a) && !Recognizes(c.config.actions, a)
    ensures Decide(p, c).decision.Error? <==> !Recognized(p, c)
    ensures Decide(p, c).decision.Error? ==> Decide(p, c).unresolvedDuties == []
  {
    var actions := c.config.actions;
    FindsInRules(p.lists.permissions, actions);
    FindsInRules(p.lists.prohibitions, actions);
    FindsInRules(p.lists.obligations, actions);
    FindsInDuties(p.lists.permissions, actions);
    FindsInRemedies(p.lists.prohibitions, actions);
    FindsInConsequences(p.lists.obligations, actions);
    forall a ensures InChains(p.lists.obligations, a)
      <==> ActionOf(p.lists.obligations, a) || BelowDuties(p.lists.obligations, a)
    {
      ChainsAreHeadsAndBelow(p.lists.obligations, a);
    }
    NamedIs(p);
  }

  lemma NamedIs(p: Policy)
    ensures forall a :: Named(p, a) <==>
      || ActionOf(p.lists.permissions, a) || ActionOf(p.lists.prohibitions, a) || InChains(p.lists.obligations, a)
      || InDuties(p.lists.permissions, a) || InRemedies(p.lists.prohibitions, a)
  {
  }

  // ---------------------------------------------------------------
  // The decision
  // ---------------------------------------------------------------

  ghost predicate SomeBear(rules: seq<Rule>, c: Case) {
    exists r :: r in rules && BearsOn(r, c)
  }

  ghost predicate AllSettled(ds: seq<Rule>, w: World) {
    forall d :: d in ds ==> Settled(d, w)
  }

  /** The permission bears on the request and, under deny mode, none of its duties is outstanding. */
  ghost predicate Granted(r: Rule, c: Case) {
    BearsOn(r, c) && (c.config.dutyMode == DutyMode.Deny ==> AllSettled(r.duty, c.world))
  }

  ghost predicate SomeGranted(rules: seq<Rule>, c: Case) {
    exists r :: r in rules && Granted(r, c)
  }

  /**
   A prohibition that bears on the request is outweighed by a granted permission under `perm` only;
   without one it takes a granted permission, or an open policy that has none; and under deny mode
   every obligation has to be settled.
   */
  ghost predicate Allowed(p: Policy, c: Case) {
    && (if SomeBear(p.lists.prohibitions, c) then SomeGranted(p.lists.permissions, c) && p.conflict == Perm
        else SomeGranted(p.lists.permissions, c) || (c.config.behaviour == Open && p.lists.permissions == []))
    && (c.config.dutyMode == DutyMode.Deny ==> AllSettled(p.lists.obligations, c.world))
  }

  lemma AnyInPlayIff(rules: seq<Rule>, c: Case)
    ensures AnyInPlay(rules, c) <==> SomeBear(rules, c)
  {
    forall r | r in rules ensures InPlay(r, c) <==> BearsOn(r, c) {
      InPlayIff(r, c);
    }
    if r :| r in rules && BearsOn(r, c) {
      var k :| 0 <= k < |rules| && rules[k] == r;
    }
  }

  lemma DutiesResolvedIff(ds: seq<Rule>, w: World)
    ensures (forall k :: 0 <= k < |ds| ==> Outstanding(ds[k], w).None?) <==> AllSettled(ds, w)
  {
    forall d | d in ds ensures Outstanding(d, w).None? <==> Settled(d, w) {
      OutstandingIff(d, w);
    }
    if AllSettled(ds, w) {
      forall k | 0 <= k < |ds| ensures Outstanding(ds[k], w).None? {
        assert ds[k] in ds;
      }
    }
  }

  lemma GrantsIff(r: Rule, c: Case)
    ensures Grants(r, c) <==> Granted(r, c)
  {
    InPlayIff(r, c);
    DutiesResolvedIff(r.duty, c.world);
  }

  lemma AnyGrantsIff(rules: seq<Rule>, c: Case)
    ensures AnyGrants(rules, c) <==> SomeGranted(rules, c)
  {
    forall r | r in rules ensures Grants(r, c) <==> Granted(r, c) {
      GrantsIff(r, c);
    }
    if r :| r in rules && Granted(r, c) {
      var k :| 0 <= k < |rules| && rules[k] == r;
    }
  }

  lemma ObligationsIff(p: Policy, w: World)
    ensures ObligationOutstanding(p, w) <==> !AllSettled(p.lists.obligations, w)
  {
    var ds := p.lists.obligations;
    UnresolvedIffOutstanding(ds, Obligation, w, 0);
    DutiesResolvedIff(ds, w);
    if k :| 0 <= k < |ds| && !Outstanding(ds[k], w).None? {
      assert OutstandingIn(ds, w, k);
    }
  }

  /** A policy that names known actions only is allowed exactly under these conditions, and denied otherwise. */
  lemma DecisionMeans(p: Policy, c: Case)
    requires forall a :: Named(p, a) ==> Recognizes(c.config.actions, a)
    ensures Decide(p, c).decision == if Allowed(p, c) then Decision.Allow else Decision.Deny
  {
    RefusedIffUnknown(p, c);
    DecidesIff(p, c);
    AnyInPlayIff(p.lists.prohibitions, c);
    AnyGrantsIff(p.lists.permissions, c);
    ObligationsIff(p, c.world);
  }

  // ---------------------------------------------------------------
  // Rules that do not bear on the request
  // ---------------------------------------------------------------

  function Dropped<T>(s: seq<T>, k: nat): (r: seq<T>)
    requires k < |s|
    ensures forall x :: x in r ==> x in s
    ensures forall x :: x in s ==> x in r || x == s[k]
  {
    var r := s[..k] + s[k + 1..];
    assert forall i :: 0 <= i < |s| && i != k ==> s[i] == r[if i < k then i else i - 1];
    r
  }

  /** The policy without its `k`th prohibition. */
  function WithoutProhibition(p: Policy, k: nat): Policy
    requires k < |p.lists.prohibitions|
  {
    p.(lists := p.lists.(prohibitions := Dropped(p.lists.prohibitions, k)))
  }

  function WithoutPermission(p: Policy, k: nat): Policy
    requires k < |p.lists.permissions|
  {
    p.(lists := p.lists.(permissions := Dropped(p.lists.permissions, k)))
  }

  lemma FewerRulesNameLess(rules: seq<Rule>, fewer: seq<Rule>, a: string)
    requires forall r :: r in fewer ==> r in rules
    ensures ActionOf(fewer, a) ==> ActionOf(rules, a)
    ensures InDuties(fewer, a) ==> InDuties(rules, a)
    ensures InRemedies(fewer, a) ==> InRemedies(rules, a)
  {
    forall j | 0 <= j < |fewer| ensures exists i :: 0 <= i < |rules| && rules[i] == fewer[j] {
      assert fewer[j] in rules;
    }
  }

  lemma DroppedNamesLess(p: Policy, q: Policy, a: string)
    requires forall r :: r in q.lists.permissions ==> r in p.lists.permissions
    requires forall r :: r in q.lists.prohibitions ==> r in p.lists.prohibitions
    requires q.lists.obligations == p.lists.obligations
    requires Named(q, a)
    ensures Named(p, a)
  {
    NamedIs(p);
    NamedIs(q);
    FewerRulesNameLess(p.lists.permissions, q.lists.permissions, a);
    FewerRulesNameLess(p.lists.prohibitions, q.lists.prohibitions, a);
  }

  /**
   A prohibition whose refinement or some constraint is false, that is about another action, or that
   aims at neither the asked target nor one of its collections changes nothing.
   */
  lemma IdleProhibitionChangesNothing(p: Policy, c: Case, k: nat)
    requires forall a :: Named(p, a) ==> Recognizes(c.config.actions, a)
    requires k < |p.lists.prohibitions| && !BearsOn(p.lists.prohibitions[k], c)
    ensures Decide(p, c).decision == Decide(WithoutProhibition(p, k), c).decision
  {
    var q := WithoutProhibition(p, k);
    forall a | Named(q, a) ensures Recognizes(c.config.actions, a) {
      DroppedNamesLess(p, q, a);
    }
    DecisionMeans(p, c);
    DecisionMeans(q, c);
    assert SomeBear(p.lists.prohibitions, c) <==> SomeBear(q.lists.prohibitions, c);
  }

  /** So does such a permission, beside others or under closed behaviour. */
  lemma IdlePermissionChangesNothing(p: Policy, c: Case, k: nat)
    requires forall a :: Named(p, a) ==> Recognizes(c.config.actions, a)
    requires k < |p.lists.permissions| && !BearsOn(p.lists.permissions[k], c)
    requires |p.lists.permissions| > 1 || c.config.behaviour == Closed
    ensures Decide(p, c).decision == Decide(WithoutPermission(p, k), c).decision
  {
    var q := WithoutPermission(p, k);
    forall a | Named(q, a) ensures Recognizes(c.config.actions, a) {
      DroppedNamesLess(p, q, a);
    }
    DecisionMeans(p, c);
    DecisionMeans(q, c);
    assert SomeGranted(p.lists.permissions, c) <==> SomeGranted(q.lists.permissions, c);
  }

  /** A lone permission without duties allows exactly the requests that it bears on. */
  lemma LonePermissionAllowsWhatItBearsOn(r: Rule, conflict: ConflictStrategy, c: Case)
    requires r.duty == [] && Recognizes(c.config.actions, r.action)
    ensures Decide(Policy(RuleLists([r], [], []), conflict), c).decision
         == if BearsOn(r, c) then Decision.Allow else Decision.Deny
  {
    var p := Policy(RuleLists([r], [], []), conflict);
    assert p.lists.permissions[0] == r;
    forall a | Named(p, a) ensures Recognizes(c.config.actions, a) {
    }
    DecisionMeans(p, c);
    assert r in p.lists.permissions;
  }
}
