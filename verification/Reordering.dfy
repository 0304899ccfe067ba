/** Whether a case passes does not depend on the order of anything it lists. */
module Reordering {
  import opened Wrappers
  import opened Rules
  import opened Policies
  import opened Merging
  import opened Decisions
  import opened Reports
  import opened Lexicographic
  import opened Bags
  import opened Compare
  import opened Conformance

  // ---------------------------------------------------------------
  // The outstanding duties as sums
  // ---------------------------------------------------------------

  ghost function OnePair(policyId: string, merged: IdLists, r: RuleReport): Bag {
    if r.DutyReport? then multiset{(policyId, DutyAction(merged, r.address))} else multiset{}
  }

  lemma {:induction false} DutyPairsIsSum(policyId: string, merged: IdLists, s: seq<RuleReport>)
    ensures multiset(DutyPairs(policyId, merged, s)) == Sum((r: RuleReport) => OnePair(policyId, merged, r), s)
  {
    if s != [] {
      DutyPairsIsSum(policyId, merged, s[1..]);
    }
  }

  lemma {:induction false} CloneCount(m: IdLists, reports: seq<RuleReport>, key: RuleKey, r: RuleReport)
    ensures multiset(Clones(m, reports, key))[r] == if RuleIdOf(m, r) == Some(key) then multiset(reports)[r] else 0
  {
    if reports != [] {
      var before := reports[..|reports| - 1];
      CloneCount(m, before, key, r);
      assert reports == before + [reports[|reports| - 1]];
    }
  }

  lemma {:induction false} ActiveCount(reports: seq<RuleReport>, r: RuleReport)
    ensures multiset(ActiveOf(reports))[r] == if r.activation == Active then multiset(reports)[r] else 0
  {
    if reports != [] {
      var before := reports[..|reports| - 1];
      ActiveCount(before, r);
      assert reports == before + [reports[|reports| - 1]];
    }
  }

  lemma SelectedPermutes(m: IdLists, a: seq<RuleReport>, b: seq<RuleReport>, key: RuleKey)
    requires multiset(a) == multiset(b)
    ensures multiset(Selected(Clones(m, a, key))) == multiset(Selected(Clones(m, b, key)))
  {
    var ca, cb := Clones(m, a, key), Clones(m, b, key);
    forall r ensures multiset(ca)[r] == multiset(cb)[r] {
      CloneCount(m, a, key, r);
      CloneCount(m, b, key, r);
    }
    assert multiset(ca) == multiset(cb);
    forall r ensures multiset(ActiveOf(ca))[r] == multiset(ActiveOf(cb))[r] {
      ActiveCount(ca, r);
      ActiveCount(cb, r);
    }
    assert multiset(ActiveOf(ca)) == multiset(ActiveOf(cb));
    assert |ActiveOf(ca)| == |multiset(ActiveOf(ca))| && |ActiveOf(cb)| == |multiset(ActiveOf(cb))|;
  }

  ghost function RuleBag(policyId: string, merged: IdLists, mode: DutyMode, actual: PolicyReport, x: ExpectedRuleReport)
    : Bag
  {
    multiset(RuleOutstanding(policyId, merged, mode, actual, x))
  }

  lemma RuleBagPermutes(
      policyId: string, merged: IdLists, mode: DutyMode, a: PolicyReport, b: PolicyReport, x: ExpectedRuleReport)
    requires multiset(a.ruleReports) == multiset(b.ruleReports)
    ensures RuleBag(policyId, merged, mode, a, x) == RuleBag(policyId, merged, mode, b, x)
  {
    SelectedPermutes(merged, a.ruleReports, b.ruleReports, x.Key());
    var sa, sb := Selected(Clones(merged, a.ruleReports, x.Key())), Selected(Clones(merged, b.ruleReports, x.Key()));
    DutyPairsIsSum(policyId, merged, sa);
    DutyPairsIsSum(policyId, merged, sb);
    SumPermutes((r: RuleReport) => OnePair(policyId, merged, r), sa, sb);
  }

  lemma SumOneMore<T(!new)>(f: T -> Bag, xs: seq<T>, pairs: seq<Pair>, before: seq<Pair>, last: seq<Pair>)
    requires xs != [] && pairs == before + last
    requires multiset(before) == Sum(f, xs[..|xs| - 1]) && multiset(last) == f(xs[|xs| - 1])
    ensures multiset(pairs) == Sum(f, xs)
  {
    SumSnoc(f, xs[..|xs| - 1], xs[|xs| - 1]);
    assert xs == xs[..|xs| - 1] + [xs[|xs| - 1]];
  }

  lemma {:induction false} RulesOutstandingIsSum(
      policyId: string, merged: IdLists, mode: DutyMode, actual: PolicyReport, xs: seq<ExpectedRuleReport>)
    ensures multiset(RulesOutstanding(policyId, merged, mode, actual, xs))
         == Sum((x: ExpectedRuleReport) => RuleBag(policyId, merged, mode, actual, x), xs)
  {
    if xs != [] {
      var before, last := xs[..|xs| - 1], xs[|xs| - 1];
      RulesOutstandingIsSum(policyId, merged, mode, actual, before);
      SumOneMore(
        (x: ExpectedRuleReport) => RuleBag(policyId, merged, mode, actual, x), xs,
        RulesOutstanding(policyId, merged, mode, actual, xs),
        RulesOutstanding(policyId, merged, mode, actual, before),
        RuleOutstanding(policyId, merged, mode, actual, last));
    }
  }

  // ---------------------------------------------------------------
  // Cases equal up to order
  // ---------------------------------------------------------------

  /** The same policy, its expected rule reports listed in another order. */
  ghost predicate SameExpectation(a: ExpectedPolicyReport, b: ExpectedPolicyReport) {
    a.policyId == b.policyId && multiset(a.ruleReports) == multiset(b.ruleReports)
  }

  ghost predicate SameReport(a: PolicyReport, b: PolicyReport) {
    a.policyId == b.policyId && a.evaluationError == b.evaluationError
      && multiset(a.ruleReports) == multiset(b.ruleReports)
  }

  /** `mid` permutes `a`, and `b` matches it place by place. */
  ghost predicate Through<T(!new)>(same: (T, T) -> bool, a: seq<T>, mid: seq<T>, b: seq<T>) {
    && multiset(a) == multiset(mid)
    && |mid| == |b|
    && forall k :: 0 <= k < |b| ==> same(mid[k], b[k])
  }

  /** `b` lists what `a` lists, each item up to `same`, in some other order. */
  ghost predicate ReorderedBy<T(!new)>(same: (T, T) -> bool, a: seq<T>, b: seq<T>) {
    exists mid: seq<T> :: Through(same, a, mid, b)
  }

  ghost predicate DistinctReports(reports: seq<PolicyReport>) {
    forall i, j :: 0 <= i < j < |reports| ==> reports[i].policyId != reports[j].policyId
  }

  ghost predicate ReorderedLists(a: Inputs, b: Inputs) {
    && a.policyIds == b.policyIds && a.mode == b.mode && a.behaviour == b.behaviour
    && a.statedDecision == b.statedDecision && a.response.decision == b.response.decision
    && ReorderedBy(SameExpectation, a.expected, b.expected)
    && ReorderedBy(SameReport, a.detailed.policyReports, b.detailed.policyReports)
    && multiset(a.detailed.skippedPolicies) == multiset(b.detailed.skippedPolicies)
    && multiset(a.response.duties) == multiset(b.response.duties)
  }

  lemma Partners<T(!new)>(same: (T, T) -> bool, a: seq<T>, b: seq<T>)
    requires ReorderedBy(same, a, b)
    ensures forall x :: x in a ==> exists y :: y in b && same(x, y)
    ensures forall y :: y in b ==> exists x :: x in a && same(x, y)
  {
    var mid: seq<T> :| Through(same, a, mid, b);
    forall x | x in a ensures exists y :: y in b && same(x, y) {
      assert x in multiset(mid);
      var k :| 0 <= k < |mid| && mid[k] == x;
      assert b[k] in b;
    }
    forall y | y in b ensures exists x :: x in a && same(x, y) {
      var k :| 0 <= k < |b| && b[k] == y;
      assert mid[k] in multiset(a);
    }
  }

  lemma SameMembers<T>(a: seq<T>, b: seq<T>)
    requires multiset(a) == multiset(b)
    ensures forall x :: x in a <==> x in b
    ensures |a| == |b|
  {
    forall x ensures x in a <==> x in b {
      assert x in a <==> x in multiset(a);
      assert x in b <==> x in multiset(b);
    }
    assert |multiset(a)| == |a| && |multiset(b)| == |b|;
  }

  // ---------------------------------------------------------------
  // Check one
  // ---------------------------------------------------------------

  lemma {:induction false} FindPolicyFinds(reports: seq<PolicyReport>, id: string)
    ensures FindPolicy(reports, id).Some? ==>
      FindPolicy(reports, id).value in reports && FindPolicy(reports, id).value.policyId == id
    ensures FindPolicy(reports, id).None? ==> forall r :: r in reports ==> r.policyId != id
  {
    if reports != [] && reports[0].policyId != id {
      FindPolicyFinds(reports[1..], id);
      assert reports == [reports[0]] + reports[1..];
    }
  }

  /** With distinct policy ids, the reordered reports hold the same report of each policy, up to order. */
  lemma FindPolicyPermutes(a: seq<PolicyReport>, b: seq<PolicyReport>, id: string)
    requires ReorderedBy(SameReport, a, b) && DistinctReports(a)
    ensures FindPolicy(a, id).Some? <==> FindPolicy(b, id).Some?
    ensures FindPolicy(a, id).Some? ==> SameReport(FindPolicy(a, id).value, FindPolicy(b, id).value)
  {
    FindPolicyFinds(a, id);
    FindPolicyFinds(b, id);
    Partners(SameReport, a, b);
    if FindPolicy(b, id).Some? {
      var x :| x in a && SameReport(x, FindPolicy(b, id).value);
      SameIdSameReport(a, x, FindPolicy(a, id).value);
    }
  }

  lemma SameIdSameReport(a: seq<PolicyReport>, x: PolicyReport, y: PolicyReport)
    requires DistinctReports(a) && x in a && y in a && x.policyId == y.policyId
    ensures x == y
  {
    var i :| 0 <= i < |a| && a[i] == x;
    var j :| 0 <= j < |a| && a[j] == y;
    assert i == j;
  }

  lemma RuleConformsPermutes(merged: IdLists, a: seq<RuleReport>, b: seq<RuleReport>, x: ExpectedRuleReport)
    requires forall r :: r in a <==> r in b
    ensures RuleConforms(merged, a, x) <==> RuleConforms(merged, b, x)
  {
    forall r ensures About(merged, a, x.Key(), r) == About(merged, b, x.Key(), r) {
    }
    assert SomeActive(merged, a, x.Key()) == SomeActive(merged, b, x.Key());
    forall r ensures Counts(merged, a, x.Key(), r) == Counts(merged, b, x.Key(), r) {
    }
  }

  lemma ActualConformsPermutes(
      merged: IdLists, e: ExpectedPolicyReport, f: ExpectedPolicyReport, a: PolicyReport, b: PolicyReport)
    requires SameExpectation(e, f) && SameReport(a, b)
    requires ActualConforms(merged, e, a)
    ensures ActualConforms(merged, f, b)
  {
    SameMembers(a.ruleReports, b.ruleReports);
    SameMembers(e.ruleReports, f.ruleReports);
    forall x | x in f.ruleReports ensures RuleConforms(merged, b.ruleReports, x) {
      RuleConformsPermutes(merged, a.ruleReports, b.ruleReports, x);
    }
    forall r | r in b.ruleReports ensures ReportAccountedFor(merged, f, r) {
      assert ReportAccountedFor(merged, e, r);
    }
  }

  lemma PolicyConformsPermutes(
      merged: IdLists, e: ExpectedPolicyReport, f: ExpectedPolicyReport, a: DetailedEvaluation, b: DetailedEvaluation)
    requires SameExpectation(e, f)
    requires ReorderedBy(SameReport, a.policyReports, b.policyReports) && DistinctReports(a.policyReports)
    ensures PolicyConforms(merged, e, a) <==> PolicyConforms(merged, f, b)
  {
    FindPolicyPermutes(a.policyReports, b.policyReports, e.policyId);
    var x, y := FindPolicy(a.policyReports, e.policyId), FindPolicy(b.policyReports, f.policyId);
    if x.Some? {
      if ActualConforms(merged, e, x.value) {
        ActualConformsPermutes(merged, e, f, x.value, y.value);
      }
      if ActualConforms(merged, f, y.value) {
        ActualConformsPermutes(merged, f, e, y.value, x.value);
      }
    }
  }

  lemma MergeablePermutes(a: Inputs, b: Inputs)
    requires ReorderedLists(a, b)
    ensures AllMerge(a, a.expected) <==> AllMerge(b, b.expected)
  {
    Partners(SameExpectation, a.expected, b.expected);
  }

  lemma AccountedForPermutes(a: Inputs, b: Inputs)
    requires ReorderedLists(a, b)
    ensures EveryPolicyAccountedFor(a) <==> EveryPolicyAccountedFor(b)
  {
    Partners(SameExpectation, a.expected, b.expected);
    Partners(SameReport, a.detailed.policyReports, b.detailed.policyReports);
    SameMembers(a.detailed.skippedPolicies, b.detailed.skippedPolicies);
  }

  /** One expected policy of a case, held against the whole evaluation. */
  ghost predicate Passes(c: Inputs, e: ExpectedPolicyReport) {
    MergedIds(c.policyIds, e.policyId).Ok? && PolicyConforms(Merged(c, e), e, c.detailed)
  }

  ghost predicate AllOf<T(!new)>(s: seq<T>, p: T -> bool) {
    forall x :: x in s ==> p(x)
  }

  ghost predicate Covered(a: seq<ExpectedPolicyReport>, b: seq<ExpectedPolicyReport>) {
    forall e :: e in a ==> exists f :: f in b && SameExpectation(e, f)
  }

  lemma CoveredByReordered(a: seq<ExpectedPolicyReport>, b: seq<ExpectedPolicyReport>)
    requires ReorderedBy(SameExpectation, a, b)
    ensures Covered(a, b)
  {
    Partners(SameExpectation, a, b);
  }

  lemma CoversReordered(a: seq<ExpectedPolicyReport>, b: seq<ExpectedPolicyReport>)
    requires ReorderedBy(SameExpectation, a, b)
    ensures Covered(b, a)
  {
    Partners(SameExpectation, a, b);
    forall f | f in b ensures exists e :: e in a && SameExpectation(f, e) {
      var e :| e in a && SameExpectation(e, f);
      assert SameExpectation(f, e);
    }
  }

  lemma OnePolicyPermutes(a: Inputs, b: Inputs, e: ExpectedPolicyReport, f: ExpectedPolicyReport)
    requires ReorderedLists(a, b) && DistinctReports(a.detailed.policyReports) && SameExpectation(e, f)
    ensures Passes(a, e) <==> Passes(b, f)
  {
    if MergedIds(a.policyIds, e.policyId).Ok? {
      PolicyConformsPermutes(Merged(a, e), e, f, a.detailed, b.detailed);
    }
  }

  /** What holds of every item on one side holds of every item the other side covers. */
  lemma AllOfCarriesOver(
      a: seq<ExpectedPolicyReport>, p: ExpectedPolicyReport -> bool,
      b: seq<ExpectedPolicyReport>, q: ExpectedPolicyReport -> bool)
    requires Covered(b, a) && AllOf(a, p)
    requires forall e, f :: SameExpectation(f, e) ==> (p(e) <==> q(f))
    ensures AllOf(b, q)
  {
    forall f | f in b ensures q(f) {
      var e :| e in a && SameExpectation(f, e);
    }
  }

  ghost function PassIn(c: Inputs): ExpectedPolicyReport -> bool {
    (e: ExpectedPolicyReport) => Passes(c, e)
  }

  lemma AllOfReordered(
      a: seq<ExpectedPolicyReport>, p: ExpectedPolicyReport -> bool,
      b: seq<ExpectedPolicyReport>, q: ExpectedPolicyReport -> bool)
    requires ReorderedBy(SameExpectation, a, b)
    requires forall e, f :: SameExpectation(e, f) ==> (p(e) <==> q(f))
    ensures AllOf(a, p) <==> AllOf(b, q)
  {
    if AllOf(a, p) {
      CoversReordered(a, b);
      AllOfCarriesOver(a, p, b, q);
    }
    if AllOf(b, q) {
      CoveredByReordered(a, b);
      AllOfCarriesOver(b, q, a, p);
    }
  }

  lemma PoliciesConformPermutes(a: Inputs, b: Inputs)
    requires ReorderedLists(a, b) && DistinctReports(a.detailed.policyReports)
    ensures AllOf(a.expected, PassIn(a)) <==> AllOf(b.expected, PassIn(b))
  {
    forall e, f | SameExpectation(e, f) ensures PassIn(a)(e) <==> PassIn(b)(f) {
      OnePolicyPermutes(a, b, e, f);
    }
    AllOfReordered(a.expected, PassIn(a), b.expected, PassIn(b));
  }

  lemma PassingIsConforming(c: Inputs)
    requires AllMerge(c, c.expected)
    ensures AllOf(c.expected, PassIn(c))
       <==> forall e :: e in c.expected ==> PolicyConforms(Merged(c, e), e, c.detailed)
  {
    var p := PassIn(c);
    forall e | e in c.expected ensures p(e) <==> PolicyConforms(Merged(c, e), e, c.detailed) {
    }
  }

  // ---------------------------------------------------------------
  // The pinned decision
  // ---------------------------------------------------------------

  lemma StatedActiveIncluded(a: seq<ExpectedRuleReport>, b: seq<ExpectedRuleReport>, kind: RuleKind)
    requires forall x :: x in a ==> x in b
    ensures StatedActive(a, kind) ==> StatedActive(b, kind)
  {
    if StatedActive(a, kind) {
      var k :| 0 <= k < |a| && a[k].kind == kind && a[k].activation == Some("Active");
      assert a[k] in b;
      var j :| 0 <= j < |b| && b[j] == a[k];
    }
  }

  lemma ObligationIncluded(m: IdLists, a: seq<ExpectedRuleReport>, b: seq<ExpectedRuleReport>)
    requires forall x :: x in a ==> x in b
    ensures StatedObligationOutstanding(m, a) ==> StatedObligationOutstanding(m, b)
  {
    if StatedObligationOutstanding(m, a) {
      var k :| 0 <= k < |a| && StatedOutstanding(m, a[k]) && InObligationChain(m, a[k].rule);
      assert a[k] in b;
      var j :| 0 <= j < |b| && b[j] == a[k];
    }
  }

  lemma VerdictPermutes(
      m: IdLists, a: seq<ExpectedRuleReport>, b: seq<ExpectedRuleReport>, mode: DutyMode, behaviour: Behaviour)
    requires multiset(a) == multiset(b)
    ensures Verdict(m, a, mode, behaviour) == Verdict(m, b, mode, behaviour)
  {
    SameMembers(a, b);
    StatedActiveIncluded(a, b, ProhibitionKind);
    StatedActiveIncluded(b, a, ProhibitionKind);
    StatedActiveIncluded(a, b, PermissionKind);
    StatedActiveIncluded(b, a, PermissionKind);
    ObligationIncluded(m, a, b);
    ObligationIncluded(m, b, a);
  }

  lemma VerdictOccurs(c: Inputs, e: ExpectedPolicyReport)
    requires AllMerge(c, c.expected) && e in c.expected
    ensures Verdict(Merged(c, e), e.ruleReports, c.mode, c.behaviour) in Verdicts(c, c.expected)
  {
    var k :| 0 <= k < |c.expected| && c.expected[k] == e;
    assert Verdicts(c, c.expected)[k] in Verdicts(c, c.expected);
  }

  lemma VerdictsIncluded(a: Inputs, b: Inputs)
    requires a.policyIds == b.policyIds && a.mode == b.mode && a.behaviour == b.behaviour
    requires AllMerge(a, a.expected) && AllMerge(b, b.expected) && Covered(a.expected, b.expected)
    ensures forall v :: v in Verdicts(a, a.expected) ==> v in Verdicts(b, b.expected)
  {
    forall k | 0 <= k < |a.expected| ensures Verdicts(a, a.expected)[k] in Verdicts(b, b.expected) {
      var e := a.expected[k];
      assert e in a.expected;
      var f :| f in b.expected && SameExpectation(e, f);
      VerdictPermutes(Merged(a, e), e.ruleReports, f.ruleReports, a.mode, a.behaviour);
      VerdictOccurs(b, f);
    }
  }

  lemma VerdictsPermute(a: Inputs, b: Inputs)
    requires ReorderedLists(a, b) && AllMerge(a, a.expected) && AllMerge(b, b.expected)
    ensures forall v :: v in Verdicts(a, a.expected) <==> v in Verdicts(b, b.expected)
  {
    assert forall v :: v in Verdicts(a, a.expected) ==> v in Verdicts(b, b.expected) by {
      CoveredByReordered(a.expected, b.expected);
      VerdictsIncluded(a, b);
    }
    assert forall v :: v in Verdicts(b, b.expected) ==> v in Verdicts(a, a.expected) by {
      CoversReordered(a.expected, b.expected);
      VerdictsIncluded(b, a);
    }
  }

  lemma PinnedIsOfMembers(vs: seq<PolicyVerdict>, ws: seq<PolicyVerdict>)
    requires forall v :: v in vs <==> v in ws
    ensures PinnedDecision(vs) == PinnedDecision(ws)
  {
    forall k | 0 <= k < |vs| ensures vs[k] in ws {
    }
    forall k | 0 <= k < |ws| ensures ws[k] in vs {
    }
  }

  // ---------------------------------------------------------------
  // The outstanding duties
  // ---------------------------------------------------------------

  lemma PolicyOutstandingPermutes(
      merged: IdLists, mode: DutyMode, e: ExpectedPolicyReport, f: ExpectedPolicyReport,
      a: DetailedEvaluation, b: DetailedEvaluation)
    requires SameExpectation(e, f)
    requires ReorderedBy(SameReport, a.policyReports, b.policyReports) && DistinctReports(a.policyReports)
    ensures multiset(PolicyOutstanding(e, merged, mode, a)) == multiset(PolicyOutstanding(f, merged, mode, b))
  {
    FindPolicyPermutes(a.policyReports, b.policyReports, e.policyId);
    var found, found' := FindPolicy(a.policyReports, e.policyId), FindPolicy(b.policyReports, f.policyId);
    if found.Some? {
      var x, y := found.value, found'.value;
      RulesOutstandingIsSum(e.policyId, merged, mode, x, e.ruleReports);
      RulesOutstandingIsSum(f.policyId, merged, mode, y, f.ruleReports);
      var bx := (r: ExpectedRuleReport) => RuleBag(e.policyId, merged, mode, x, r);
      var by' := (r: ExpectedRuleReport) => RuleBag(f.policyId, merged, mode, y, r);
      SumPermutes(bx, e.ruleReports, f.ruleReports);
      forall k | 0 <= k < |f.ruleReports| ensures bx(f.ruleReports[k]) == by'(f.ruleReports[k]) {
        RuleBagPermutes(e.policyId, merged, mode, x, y, f.ruleReports[k]);
      }
      SumAgrees(bx, f.ruleReports, by', f.ruleReports);
    }
  }

  ghost function PolicyBag(c: Inputs, e: ExpectedPolicyReport): Bag {
    if MergedIds(c.policyIds, e.policyId).Ok? then multiset(PolicyOutstanding(e, Merged(c, e), c.mode, c.detailed))
    else multiset{}
  }

  lemma {:induction false} ExpectedOutstandingIsSum(c: Inputs, expected: seq<ExpectedPolicyReport>)
    requires AllMerge(c, expected)
    ensures multiset(ExpectedOutstanding(c, expected)) == Sum((e: ExpectedPolicyReport) => PolicyBag(c, e), expected)
  {
    if expected != [] {
      var before, last := expected[..|expected| - 1], expected[|expected| - 1];
      assert last in expected;
      ExpectedOutstandingIsSum(c, before);
      SumSnoc((e: ExpectedPolicyReport) => PolicyBag(c, e), before, last);
      assert expected == before + [last];
      assert ExpectedOutstanding(c, expected)
          == ExpectedOutstanding(c, before) + PolicyOutstanding(last, Merged(c, last), c.mode, c.detailed);
    }
  }

  lemma OutstandingPermutes(a: Inputs, b: Inputs)
    requires ReorderedLists(a, b) && DistinctReports(a.detailed.policyReports)
    requires AllMerge(a, a.expected) && AllMerge(b, b.expected)
    ensures multiset(ExpectedOutstanding(a, a.expected)) == multiset(ExpectedOutstanding(b, b.expected))
  {
    ExpectedOutstandingIsSum(a, a.expected);
    ExpectedOutstandingIsSum(b, b.expected);
    var f := (e: ExpectedPolicyReport) => PolicyBag(a, e);
    var g := (e: ExpectedPolicyReport) => PolicyBag(b, e);
    var mid: seq<ExpectedPolicyReport> :| Through(SameExpectation, a.expected, mid, b.expected);
    SumPermutes(f, a.expected, mid);
    forall k | 0 <= k < |mid| ensures f(mid[k]) == g(b.expected[k]) {
      assert b.expected[k] in b.expected;
      var e := mid[k];
      PolicyOutstandingPermutes(Merged(b, b.expected[k]), a.mode, e, b.expected[k], a.detailed, b.detailed);
    }
    SumAgrees(f, mid, g, b.expected);
  }

  lemma ActualOutstandingPermutes(a: seq<DutyEntry>, b: seq<DutyEntry>)
    requires multiset(a) == multiset(b)
    ensures multiset(ActualOutstanding(a)) == multiset(ActualOutstanding(b))
  {
    ActualIsSum(a);
    ActualIsSum(b);
    SumPermutes(EntryBag, a, b);
  }

  ghost function EntryBag(d: DutyEntry): Bag {
    multiset{(d.policyId, d.action)}
  }

  lemma {:induction false} ActualIsSum(a: seq<DutyEntry>)
    ensures multiset(ActualOutstanding(a)) == Sum(EntryBag, a)
    decreases |a|
  {
    if a != [] {
      ActualIsSum(a[1..]);
      assert ActualOutstanding(a) == [(a[0].policyId, a[0].action)] + ActualOutstanding(a[1..]);
    }
  }

  // ---------------------------------------------------------------
  // The theorem
  // ---------------------------------------------------------------

  lemma ListOrderIsIrrelevant(a: Inputs, b: Inputs)
    requires ReorderedLists(a, b) && DistinctReports(a.detailed.policyReports)
    ensures AllMerge(a, a.expected) <==> AllMerge(b, b.expected)
    ensures AllMerge(a, a.expected) ==> (Conforms(a) <==> Conforms(b))
  {
    MergeablePermutes(a, b);
    if AllMerge(a, a.expected) {
      PoliciesConformPermutes(a, b);
      PassingIsConforming(a);
      PassingIsConforming(b);
      AccountedForPermutes(a, b);
      VerdictsPermute(a, b);
      PinnedIsOfMembers(Verdicts(a, a.expected), Verdicts(b, b.expected));
      OutstandingPermutes(a, b);
      ActualOutstandingPermutes(a.response.duties, b.response.duties);
    }
  }

  /** Everything but the shadows reordered, and each policy id naming the same shadow. */
  ghost predicate Reordered(a: Inputs, b: Inputs) {
    IndexAlike(a.policyIds, b.policyIds) && ReorderedLists(a.(policyIds := b.policyIds), b)
  }

  lemma {:induction false} OutstandingByIndex(c: Inputs, ids: seq<PolicyIds>, expected: seq<ExpectedPolicyReport>)
    requires IndexAlike(c.policyIds, ids) && AllMerge(c, expected)
    ensures AllMerge(c.(policyIds := ids), expected)
    ensures ExpectedOutstanding(c, expected) == ExpectedOutstanding(c.(policyIds := ids), expected)
  {
    forall e | e in expected ensures MergedIds(ids, e.policyId) == MergedIds(c.policyIds, e.policyId) {
      MergeByIndex(c.policyIds, ids, e.policyId);
    }
    if expected != [] {
      OutstandingByIndex(c, ids, expected[..|expected| - 1]);
      assert expected[|expected| - 1] in expected;
    }
  }

  lemma MergesByIndex(c: Inputs, ids: seq<PolicyIds>)
    requires IndexAlike(c.policyIds, ids)
    ensures AllMerge(c, c.expected) <==> AllMerge(c.(policyIds := ids), c.expected)
    ensures forall e :: MergedIds(c.policyIds, e) == MergedIds(ids, e)
  {
    forall e ensures MergedIds(c.policyIds, e) == MergedIds(ids, e) {
      MergeByIndex(c.policyIds, ids, e);
    }
  }

  lemma VerdictsByIndex(c: Inputs, ids: seq<PolicyIds>)
    requires IndexAlike(c.policyIds, ids) && AllMerge(c, c.expected)
    ensures AllMerge(c.(policyIds := ids), c.expected)
    ensures Verdicts(c, c.expected) == Verdicts(c.(policyIds := ids), c.expected)
  {
    MergesByIndex(c, ids);
    var vs, ws := Verdicts(c, c.expected), Verdicts(c.(policyIds := ids), c.expected);
    forall k | 0 <= k < |c.expected| ensures vs[k] == ws[k] {
      assert c.expected[k] in c.expected;
    }
  }

  lemma PoliciesByIndex(c: Inputs, ids: seq<PolicyIds>, e: ExpectedPolicyReport)
    requires IndexAlike(c.policyIds, ids) && AllMerge(c, c.expected) && e in c.expected
    ensures MergedIds(ids, e.policyId).Ok?
    ensures PolicyConforms(Merged(c, e), e, c.detailed)
       <==> PolicyConforms(Merged(c.(policyIds := ids), e), e, c.detailed)
  {
    MergeByIndex(c.policyIds, ids, e.policyId);
  }

  /** Other shadows that index alike make no difference. */
  lemma PassingByIndex(c: Inputs, ids: seq<PolicyIds>)
    requires IndexAlike(c.policyIds, ids)
    ensures AllMerge(c, c.expected) <==> AllMerge(c.(policyIds := ids), c.expected)
    ensures AllMerge(c, c.expected) ==> (Conforms(c) <==> Conforms(c.(policyIds := ids)))
  {
    MergesByIndex(c, ids);
    if AllMerge(c, c.expected) {
      VerdictsByIndex(c, ids);
      OutstandingByIndex(c, ids, c.expected);
      forall e | e in c.expected
        ensures PolicyConforms(Merged(c, e), e, c.detailed)
           <==> PolicyConforms(Merged(c.(policyIds := ids), e), e, c.detailed)
      {
        PoliciesByIndex(c, ids, e);
      }
    }
  }

  /**
   Reordering the expected policies, the rule reports inside them, the engine's policy
   reports, the rule reports inside those (and so a rule's clones), the skipped policies,
   the listed duties or the shadows never changes whether a case passes.
   */
  lemma PassingIgnoresOrder(a: Inputs, b: Inputs)
    requires Reordered(a, b) && DistinctReports(a.detailed.policyReports)
    ensures AllMerge(a, a.expected) <==> AllMerge(b, b.expected)
    ensures AllMerge(a, a.expected) ==> (Conforms(a) <==> Conforms(b))
  {
    PassingByIndex(a, b.policyIds);
    ListOrderIsIrrelevant(a.(policyIds := b.policyIds), b);
  }
}
