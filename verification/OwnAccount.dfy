/**
 The engine's detailed account of a policy, restated as an expected tree: what the comparer
 makes of it beside the engine's own coarse answer. A composite rule has one report for each of
 its atomic clones and one expectation for all of them.
 */
module OwnAccount {
  import opened Wrappers
  import opened Rules
  import opened Decisions
  import opened Reports
  import opened Bags
  import opened Compare
  import opened Conformance
  import opened Reordering
  import opened Places

  /** An actual report, restated as the expectation of exactly that report. */
  function OwnReport(m: IdLists, r: RuleReport): ExpectedRuleReport
    requires RuleIdOf(m, r).Some?
  {
    var key := RuleIdOf(m, r).value;
    ExpectedRuleReport(
      key.kind, key.rule,
      Some(ActivationName(r.activation)),
      if r.DutyReport? then None else Some(AttemptName(r.attempt)),
      Some(PerformanceName(r.performance)),
      Some(DeonticName(r.deontic)))
  }

  ghost predicate Restates(m: IdLists, x: ExpectedRuleReport, r: RuleReport) {
    RuleIdOf(m, r).Some? && x == OwnReport(m, r)
  }

  ghost predicate AllResolve(m: IdLists, reports: seq<RuleReport>) {
    forall r :: r in reports ==> RuleIdOf(m, r).Some?
  }

  ghost predicate DistinctKeys(e: seq<ExpectedRuleReport>) {
    forall i, j :: 0 <= i < j < |e| ==> e[i].Key() != e[j].Key()
  }

  /** One expectation for each rule reported on, restating one of the clones that count for it. */
  ghost predicate IsOwnTree(m: IdLists, reports: seq<RuleReport>, e: seq<ExpectedRuleReport>) {
    && DistinctKeys(e)
    && (forall r :: r in reports ==> RuleIdOf(m, r).Some? && MentionedBy(e, RuleIdOf(m, r).value))
    && (forall x :: x in e ==> exists r :: Counts(m, reports, x.Key(), r) && Restates(m, x, r))
  }

  ghost predicate SameStates(r: RuleReport, s: RuleReport) {
    forall d :: ActualState(r, d) == ActualState(s, d)
  }

  /** The clones that count for a rule are in the same four states. */
  ghost predicate ClonesAgree(m: IdLists, reports: seq<RuleReport>) {
    forall key, r, s :: Counts(m, reports, key, r) && Counts(m, reports, key, s) ==> SameStates(r, s)
  }

  /** A policy and a shadow of its rules in which a duty's id tells enough about the duty. */
  ghost predicate Faithful(p: Policy, m: IdLists) {
    SameLists(p.lists, m) && Coherent(m)
  }

  ghost predicate Recognized(p: Policy, c: Case) {
    FirstUnrecognized(p, c.config.actions).None?
  }

  // ---------------------------------------------------------------
  // Every account can be restated
  // ---------------------------------------------------------------

  lemma SomeCloneCounts(m: IdLists, reports: seq<RuleReport>, r: RuleReport) returns (s: RuleReport)
    requires r in reports && RuleIdOf(m, r).Some?
    ensures Counts(m, reports, RuleIdOf(m, r).value, s)
  {
    var key := RuleIdOf(m, r).value;
    assert About(m, reports, key, r);
    if SomeActive(m, reports, key) {
      s :| About(m, reports, key, s) && s.activation == Active;
    } else {
      s := r;
    }
  }

  /** The first `k` reports have been taken care of. */
  ghost predicate OwnTreeSoFar(m: IdLists, reports: seq<RuleReport>, k: nat, e: seq<ExpectedRuleReport>)
    requires k <= |reports| && AllResolve(m, reports)
  {
    && DistinctKeys(e)
    && (forall j :: 0 <= j < k ==> MentionedBy(e, RuleIdOf(m, reports[j]).value))
    && (forall x :: x in e ==> exists r :: Counts(m, reports, x.Key(), r) && Restates(m, x, r))
  }

  lemma {:induction false} OwnTreeExists(m: IdLists, reports: seq<RuleReport>, k: nat)
    returns (e: seq<ExpectedRuleReport>)
    requires k <= |reports| && AllResolve(m, reports)
    ensures OwnTreeSoFar(m, reports, k, e)
    ensures k == |reports| ==> IsOwnTree(m, reports, e)
  {
    if k == 0 {
      e := [];
    } else {
      var before := OwnTreeExists(m, reports, k - 1);
      var key := RuleIdOf(m, reports[k - 1]).value;
      if MentionedBy(before, key) {
        e := before;
      } else {
        var s := SomeCloneCounts(m, reports, reports[k - 1]);
        e := before + [OwnReport(m, s)];
        OneMoreExpectation(m, reports, k, before, s);
      }
    }
  }

  lemma OneMoreExpectation(
      m: IdLists, reports: seq<RuleReport>, k: nat, before: seq<ExpectedRuleReport>, s: RuleReport)
    requires 0 < k <= |reports| && AllResolve(m, reports) && OwnTreeSoFar(m, reports, k - 1, before)
    requires !MentionedBy(before, RuleIdOf(m, reports[k - 1]).value)
    requires Counts(m, reports, RuleIdOf(m, reports[k - 1]).value, s)
    ensures OwnTreeSoFar(m, reports, k, before + [OwnReport(m, s)])
  {
    var x := OwnReport(m, s);
    var e := before + [x];
    assert x.Key() == RuleIdOf(m, reports[k - 1]).value && Restates(m, x, s) && Counts(m, reports, x.Key(), s);
    DistinctSnoc(before, x);
    forall j | 0 <= j < k ensures MentionedBy(e, RuleIdOf(m, reports[j]).value) {
      MentionedSnoc(before, x, RuleIdOf(m, reports[j]).value);
    }
    forall y | y in e ensures exists r :: Counts(m, reports, y.Key(), r) && Restates(m, y, r) {
      assert y in before || y == x;
    }
  }

  lemma MentionedSnoc(e: seq<ExpectedRuleReport>, x: ExpectedRuleReport, key: RuleKey)
    ensures MentionedBy(e + [x], key) <==> MentionedBy(e, key) || x.Key() == key
  {
    assert forall y :: y in e + [x] <==> y in e || y == x;
  }

  lemma DistinctSnoc(e: seq<ExpectedRuleReport>, x: ExpectedRuleReport)
    requires DistinctKeys(e) && !MentionedBy(e, x.Key())
    ensures DistinctKeys(e + [x])
  {
    assert forall i :: 0 <= i < |e| ==> e[i] in e && e[i].Key() != x.Key();
  }

  // ---------------------------------------------------------------
  // Check one
  // ---------------------------------------------------------------

  lemma OwnReportAgrees(m: IdLists, r: RuleReport)
    requires RuleIdOf(m, r).Some?
    ensures OwnReport(m, r).Key() == RuleIdOf(m, r).value
    ensures forall d :: Agrees(OwnReport(m, r), r, d)
    ensures forall d :: StatedState(OwnReport(m, r), d) == ActualState(r, d)
  {
  }

  lemma SameStatesRestate(m: IdLists, r: RuleReport, s: RuleReport)
    requires RuleIdOf(m, r).Some? && RuleIdOf(m, r) == RuleIdOf(m, s)
    ensures SameStates(r, s) <==> OwnReport(m, r) == OwnReport(m, s)
  {
    OwnReportAgrees(m, r);
    OwnReportAgrees(m, s);
    if SameStates(r, s) {
      assert ActualState(r, ActivationState) == ActualState(s, ActivationState);
      assert ActualState(r, AttemptState) == ActualState(s, AttemptState);
      assert ActualState(r, PerformanceState) == ActualState(s, PerformanceState);
      assert ActualState(r, DeonticState) == ActualState(s, DeonticState);
    }
  }

  /** A restated report conforms to another of the same rule exactly when the two are in the same states. */
  lemma RestatedAgrees(m: IdLists, x: ExpectedRuleReport, r: RuleReport, s: RuleReport)
    requires Restates(m, x, r) && RuleIdOf(m, r) == RuleIdOf(m, s)
    ensures (forall d :: Agrees(x, s, d)) <==> SameStates(r, s)
  {
    OwnReportAgrees(m, r);
    assert r.DutyReport? <==> s.DutyReport?;
    if forall d :: Agrees(x, s, d) {
      forall d ensures ActualState(r, d) == ActualState(s, d) {
        assert Agrees(x, s, d);
      }
    }
  }

  lemma TreeRestates(m: IdLists, reports: seq<RuleReport>, e: seq<ExpectedRuleReport>, r: RuleReport)
    returns (x: ExpectedRuleReport, s: RuleReport)
    requires IsOwnTree(m, reports, e) && r in reports
    ensures RuleIdOf(m, r).Some? && x in e && x.Key() == RuleIdOf(m, r).value
    ensures Counts(m, reports, x.Key(), s) && Restates(m, x, s)
  {
    x :| x in e && x.Key() == RuleIdOf(m, r).value;
    s :| Counts(m, reports, x.Key(), s) && Restates(m, x, s);
  }

  /** Rule by rule, an account conforms to its own restatement exactly when its clones agree. */
  lemma OwnTreeConformsIff(m: IdLists, reports: seq<RuleReport>, e: seq<ExpectedRuleReport>, policyId: string)
    requires IsOwnTree(m, reports, e)
    ensures ActualConforms(m, ExpectedPolicyReport(policyId, e), PolicyReport(policyId, reports, None))
       <==> ClonesAgree(m, reports)
  {
    var expected := ExpectedPolicyReport(policyId, e);
    forall r | r in reports ensures ReportAccountedFor(m, expected, r) {
    }
    if ClonesAgree(m, reports) {
      forall x | x in e ensures RuleConforms(m, reports, x) {
        AgreeingRuleConforms(m, reports, e, x);
      }
    }
    if forall x :: x in e ==> RuleConforms(m, reports, x) {
      forall key, r, s | Counts(m, reports, key, r) && Counts(m, reports, key, s) ensures SameStates(r, s) {
        ConformingClonesAgree(m, reports, e, key, r, s);
      }
    }
  }

  lemma AgreeingRuleConforms(m: IdLists, reports: seq<RuleReport>, e: seq<ExpectedRuleReport>, x: ExpectedRuleReport)
    requires IsOwnTree(m, reports, e) && ClonesAgree(m, reports) && x in e
    ensures RuleConforms(m, reports, x)
  {
    var r :| Counts(m, reports, x.Key(), r) && Restates(m, x, r);
    forall s, d | Counts(m, reports, x.Key(), s) ensures Agrees(x, s, d) {
      RestatedAgrees(m, x, r, s);
    }
  }

  lemma ConformingClonesAgree(
      m: IdLists, reports: seq<RuleReport>, e: seq<ExpectedRuleReport>, key: RuleKey, r: RuleReport, s: RuleReport)
    requires IsOwnTree(m, reports, e) && forall x :: x in e ==> RuleConforms(m, reports, x)
    requires Counts(m, reports, key, r) && Counts(m, reports, key, s)
    ensures SameStates(r, s)
  {
    var x, t := TreeRestates(m, reports, e, r);
    assert RuleConforms(m, reports, x);
    RestatedAgrees(m, x, t, r);
    RestatedAgrees(m, x, t, s);
  }

  /** Without composite rules there is one report to a rule, so clones agree. */
  lemma DistinctNodesAgree(p: Policy, c: Case, m: IdLists)
    requires SameLists(p.lists, m) && DistinctNodes(m)
    ensures ClonesAgree(m, DetailedReports(p, c))
  {
    var reports := DetailedReports(p, c);
    ReportPlaces(p, c);
    forall key, r, s | Counts(m, reports, key, r) && Counts(m, reports, key, s) ensures r == s {
      KeyOfReport(m, r);
      KeyOfReport(m, s);
      OnePlaceOneReport(reports, r, s);
    }
  }

  lemma OnePlaceOneReport(reports: seq<RuleReport>, r: RuleReport, s: RuleReport)
    requires DistinctPlaces(reports) && r in reports && s in reports && PlaceOf(r) == PlaceOf(s)
    ensures r == s
  {
    var i :| 0 <= i < |reports| && reports[i] == r;
    var j :| 0 <= j < |reports| && reports[j] == s;
    assert PlaceOf(reports[i]) == PlaceOf(reports[j]);
  }

  // ---------------------------------------------------------------
  // What a tree tells of an account
  // ---------------------------------------------------------------

  /** Every expectation restates some report, and every active report is restated. */
  ghost predicate Tells(m: IdLists, reports: seq<RuleReport>, e: seq<ExpectedRuleReport>) {
    && (forall x :: x in e ==> exists r :: r in reports && Restates(m, x, r))
    && (forall r :: r in reports && r.activation == Active ==> RuleIdOf(m, r).Some? && OwnReport(m, r) in e)
  }

  lemma AgreeingTreeTells(m: IdLists, reports: seq<RuleReport>, e: seq<ExpectedRuleReport>)
    requires IsOwnTree(m, reports, e) && ClonesAgree(m, reports)
    ensures Tells(m, reports, e)
  {
    forall x | x in e ensures exists r :: r in reports && Restates(m, x, r) {
      var r :| Counts(m, reports, x.Key(), r) && Restates(m, x, r);
    }
    forall r | r in reports && r.activation == Active ensures RuleIdOf(m, r).Some? && OwnReport(m, r) in e {
      var x, s := TreeRestates(m, reports, e, r);
      assert About(m, reports, x.Key(), r) && Counts(m, reports, x.Key(), r);
      SameStatesRestate(m, r, s);
    }
  }

  // ---------------------------------------------------------------
  // Duties the account presents as outstanding
  // ---------------------------------------------------------------

  /** A duty report that calls for an entry in the coarse list of outstanding duties. */
  predicate Listed(rules: RuleLists, mode: DutyMode, r: RuleReport) {
    && r.DutyReport?
    && r.activation == Active
    && r.performance == Unperformed
    && RuleAt(rules, r.address).Some?
    && RuleAt(rules, r.address).value.consequence.None?
    && !(mode == DutyMode.Deny && r.address.attachment == Obligation && r.address.depth == 0)
  }

  ghost function ReportBag(policyId: string, rules: RuleLists, mode: DutyMode, r: RuleReport): Bag {
    if Listed(rules, mode, r) then multiset{(policyId, RuleAt(rules, r.address).value.action)} else multiset{}
  }

  lemma NamesAreExact(a: Activation, f: Performance)
    ensures ActivationName(a) == "Active" <==> a == Active
    ensures PerformanceName(f) == "Unperformed" <==> f == Unperformed
  {
    assert "Active"[0] != "Inactive"[0];
    assert "Performed"[0] != "Unperformed"[0];
    assert "Unknown"[2] != "Unperformed"[2];
  }

  /** The comparer's reading of one report's states, by id, is the reading by address. */
  lemma StatedByAddress(rules: RuleLists, m: IdLists, r: RuleReport)
    requires SameLists(rules, m) && Coherent(m) && RuleIdOf(m, r).Some?
    ensures StatedOutstanding(m, OwnReport(m, r)) <==> Listed(rules, Advise, r)
    ensures r.DutyReport? ==> RuleAt(rules, r.address).Some?
    ensures r.DutyReport? ==> DutyAction(m, r.address) == RuleAt(rules, r.address).value.action
    ensures r.DutyReport? ==> (InObligationChain(m, OwnReport(m, r).rule) <==> OfObligationId(m, r.address))
    ensures r.DutyReport? && r.address.attachment == Obligation ==> OfObligationId(m, r.address)
  {
    if r.DutyReport? {
      AddressesAgree(rules, m, r.address);
      TerminalByAddress(m, r.address);
      ObligationChainByAddress(m, r.address);
      NamesAreExact(r.activation, r.performance);
    }
  }

  /** Under deny mode a duty that shares its id with an obligation of the policy is taken for that obligation. */
  predicate TakenForObligation(m: IdLists, mode: DutyMode, r: RuleReport) {
    mode == DutyMode.Deny && RuleIdOf(m, r).Some? && IsPlainPolicyObligation(m, RuleIdOf(m, r).value.rule)
  }

  predicate Kept(rules: RuleLists, m: IdLists, mode: DutyMode, r: RuleReport) {
    Listed(rules, mode, r) && !TakenForObligation(m, mode, r)
  }

  lemma ListedByAddress(rules: RuleLists, m: IdLists, mode: DutyMode, r: RuleReport)
    requires SameLists(rules, m) && Coherent(m) && RuleIdOf(m, r).Some?
    ensures MustBeListed(m, mode, OwnReport(m, r)) <==> Kept(rules, m, mode, r)
  {
    StatedByAddress(rules, m, r);
    if r.DutyReport? && IsPlain(r.address) {
      PlainIsFound(m, r.address);
    }
  }

  // ---------------------------------------------------------------
  // Adding up by rule
  // ---------------------------------------------------------------

  ghost function OnKey(key: RuleKey, b: Bag): ExpectedRuleReport -> Bag {
    (x: ExpectedRuleReport) => if x.Key() == key then b else multiset{}
  }

  ghost function OverClones(m: IdLists, f: RuleReport -> Bag, reports: seq<RuleReport>): ExpectedRuleReport -> Bag {
    (x: ExpectedRuleReport) => Sum(f, Clones(m, reports, x.Key()))
  }

  lemma {:induction false} SumOnKey(e: seq<ExpectedRuleReport>, key: RuleKey, b: Bag)
    requires DistinctKeys(e)
    ensures Sum(OnKey(key, b), e) == if MentionedBy(e, key) then b else multiset{}
  {
    if e != [] {
      SumOnKey(e[1..], key, b);
      assert e == [e[0]] + e[1..];
      assert MentionedBy(e, key) <==> e[0].Key() == key || MentionedBy(e[1..], key);
      if e[0].Key() == key {
        assert forall x :: x in e[1..] ==> x.Key() != key;
      }
    }
  }

  /** Adding up over reports is adding up over rules and, for each, over its clones. */
  lemma {:induction false} SumByRule(
      m: IdLists, f: RuleReport -> Bag, reports: seq<RuleReport>, e: seq<ExpectedRuleReport>)
    requires DistinctKeys(e)
    requires forall r :: r in reports ==> RuleIdOf(m, r).Some? && MentionedBy(e, RuleIdOf(m, r).value)
    ensures Sum(f, reports) == Sum(OverClones(m, f, reports), e)
    decreases |reports|
  {
    if reports == [] {
      SumEmptyIff(OverClones(m, f, reports), e);
    } else {
      var before, last := reports[..|reports| - 1], reports[|reports| - 1];
      assert reports == before + [last];
      var key := RuleIdOf(m, last).value;
      SumByRule(m, f, before, e);
      SumSnoc(f, before, last);
      SumOnKey(e, key, f(last));
      forall x | x in e
        ensures OverClones(m, f, before)(x) + OnKey(key, f(last))(x) == OverClones(m, f, reports)(x)
      {
        if x.Key() == key {
          SumSnoc(f, Clones(m, before, key), last);
        }
      }
      SumAdds(OverClones(m, f, before), OnKey(key, f(last)), OverClones(m, f, reports), e);
    }
  }

  lemma {:induction false} SumOfActive(f: RuleReport -> Bag, s: seq<RuleReport>)
    requires forall r :: r in s && r.activation != Active ==> f(r) == multiset{}
    ensures Sum(f, s) == Sum(f, ActiveOf(s))
  {
    if s != [] {
      var before, last := s[..|s| - 1], s[|s| - 1];
      assert s == before + [last];
      SumOfActive(f, before);
      SumSnoc(f, before, last);
      if last.activation == Active {
        SumSnoc(f, ActiveOf(before), last);
      }
    }
  }

  lemma {:induction false} SumSame(f: RuleReport -> Bag, g: RuleReport -> Bag, s: seq<RuleReport>)
    requires forall r :: r in s ==> f(r) == g(r)
    ensures Sum(f, s) == Sum(g, s)
  {
    SumAgrees(f, s, g, s);
  }

  ghost function Reported(policyId: string, rules: RuleLists, mode: DutyMode): RuleReport -> Bag {
    (r: RuleReport) => ReportBag(policyId, rules, mode, r)
  }

  /** What the comparer expects of a report, and what it should but does not. */
  ghost function KeptOf(policyId: string, rules: RuleLists, m: IdLists, mode: DutyMode): RuleReport -> Bag {
    (r: RuleReport) => if Kept(rules, m, mode, r) then ReportBag(policyId, rules, mode, r) else multiset{}
  }

  ghost function Dropped(policyId: string, rules: RuleLists, m: IdLists, mode: DutyMode): RuleReport -> Bag {
    (r: RuleReport) => if Kept(rules, m, mode, r) then multiset{} else ReportBag(policyId, rules, mode, r)
  }

  ghost function Paired(policyId: string, m: IdLists): RuleReport -> Bag {
    (r: RuleReport) => OnePair(policyId, m, r)
  }

  /** The active clones of a rule that must be listed are all listed, and no other clone is. */
  lemma ListedRule(
      rules: RuleLists, m: IdLists, mode: DutyMode, reports: seq<RuleReport>, e: seq<ExpectedRuleReport>,
      x: ExpectedRuleReport, r: RuleReport)
    requires SameLists(rules, m) && Coherent(m)
    requires IsOwnTree(m, reports, e) && ClonesAgree(m, reports) && x in e && About(m, reports, x.Key(), r)
    ensures Kept(rules, m, mode, r) <==> r.activation == Active && MustBeListed(m, mode, x)
  {
    ListedByAddress(rules, m, mode, r);
    if r.activation == Active {
      var s :| Counts(m, reports, x.Key(), s) && Restates(m, x, s);
      SameStatesRestate(m, r, s);
    }
  }

  lemma RuleBagIsClones(
      rules: RuleLists, m: IdLists, mode: DutyMode, reports: seq<RuleReport>, e: seq<ExpectedRuleReport>,
      x: ExpectedRuleReport, policyId: string)
    requires SameLists(rules, m) && Coherent(m)
    requires IsOwnTree(m, reports, e) && ClonesAgree(m, reports) && x in e
    ensures RuleBag(policyId, m, mode, PolicyReport(policyId, reports, None), x)
         == Sum(KeptOf(policyId, rules, m, mode), Clones(m, reports, x.Key()))
  {
    var f, clones := KeptOf(policyId, rules, m, mode), Clones(m, reports, x.Key());
    CloneMembers(m, reports, x.Key());
    forall r | r in clones
      ensures Kept(rules, m, mode, r) <==> r.activation == Active && MustBeListed(m, mode, x)
    {
      ListedRule(rules, m, mode, reports, e, x, r);
    }
    if MustBeListed(m, mode, x) {
      ActiveClonesPaired(rules, m, mode, reports, e, x, policyId);
    } else {
      SumEmptyIff(f, clones);
    }
  }

  lemma ActiveClonesPaired(
      rules: RuleLists, m: IdLists, mode: DutyMode, reports: seq<RuleReport>, e: seq<ExpectedRuleReport>,
      x: ExpectedRuleReport, policyId: string)
    requires SameLists(rules, m) && Coherent(m) && IsOwnTree(m, reports, e) && x in e
    requires MustBeListed(m, mode, x)
    requires forall r :: r in Clones(m, reports, x.Key()) ==> (Kept(rules, m, mode, r) <==> r.activation == Active)
    ensures multiset(DutyPairs(policyId, m, Selected(Clones(m, reports, x.Key()))))
         == Sum(KeptOf(policyId, rules, m, mode), Clones(m, reports, x.Key()))
  {
    var f, g, clones := KeptOf(policyId, rules, m, mode), Paired(policyId, m), Clones(m, reports, x.Key());
    CloneMembers(m, reports, x.Key());
    ActiveMembers(clones);
    var s :| Counts(m, reports, x.Key(), s) && Restates(m, x, s);
    NamesAreExact(s.activation, s.performance);
    assert s in ActiveOf(clones);
    assert Selected(clones) == ActiveOf(clones);
    forall r | r in ActiveOf(clones) ensures f(r) == g(r) {
      StatedByAddress(rules, m, r);
    }
    SumOfActive(f, clones);
    SumSame(f, g, ActiveOf(clones));
    DutyPairsIsSum(policyId, m, ActiveOf(clones));
    SumAgrees(g, ActiveOf(clones), (r: RuleReport) => OnePair(policyId, m, r), ActiveOf(clones));
  }

  /**
   Where clones agree, the duties expected of the restatement are the account's terminal outstanding
   ones, less those taken for an obligation.
   */
  lemma OwnOutstandingIsListed(
      rules: RuleLists, m: IdLists, mode: DutyMode, reports: seq<RuleReport>, e: seq<ExpectedRuleReport>,
      policyId: string)
    requires SameLists(rules, m) && Coherent(m)
    requires IsOwnTree(m, reports, e) && ClonesAgree(m, reports)
    ensures multiset(RulesOutstanding(policyId, m, mode, PolicyReport(policyId, reports, None), e))
          + Sum(Dropped(policyId, rules, m, mode), reports)
         == Sum(Reported(policyId, rules, mode), reports)
  {
    var actual := PolicyReport(policyId, reports, None);
    RulesOutstandingIsSum(policyId, m, mode, actual, e);
    var f := (x: ExpectedRuleReport) => RuleBag(policyId, m, mode, actual, x);
    var g := OverClones(m, KeptOf(policyId, rules, m, mode), reports);
    forall k | 0 <= k < |e| ensures f(e[k]) == g(e[k]) {
      RuleBagIsClones(rules, m, mode, reports, e, e[k], policyId);
    }
    SumAgrees(f, e, g, e);
    SumByRule(m, KeptOf(policyId, rules, m, mode), reports, e);
    SumAdds(
      KeptOf(policyId, rules, m, mode), Dropped(policyId, rules, m, mode), Reported(policyId, rules, mode), reports);
  }

  /** Nothing is dropped exactly when no report to be listed is taken for an obligation. */
  lemma NothingDroppedIff(policyId: string, rules: RuleLists, m: IdLists, mode: DutyMode, reports: seq<RuleReport>)
    ensures Sum(Dropped(policyId, rules, m, mode), reports) == multiset{}
       <==> forall r :: r in reports && Listed(rules, mode, r) ==> !TakenForObligation(m, mode, r)
  {
    var f := Dropped(policyId, rules, m, mode);
    SumEmptyIff(f, reports);
    if forall k :: 0 <= k < |reports| ==> f(reports[k]) == multiset{} {
      forall r | r in reports && Listed(rules, mode, r) ensures !TakenForObligation(m, mode, r) {
        var k :| 0 <= k < |reports| && reports[k] == r;
        assert f(reports[k]) == multiset{};
      }
    }
  }
}
