/**
 Composite rules: several atomic rules carry one RDF id, and the comparer holds one expectation
 against all the clones that count. When those clones agree, said of the rules and the request.
 */
module Composites {
  import opened Wrappers
  import opened Constraints
  import opened Rules
  import opened Decisions
  import opened Reports
  import opened Bags
  import opened Compare
  import opened Conformance
  import opened Places
  import opened InForce
  import opened OwnAccount
  import opened CutOffs
  import opened OwnVerdict

  // ---------------------------------------------------------------
  // When the clones of a rule agree
  // ---------------------------------------------------------------

  predicate PermissionOf(m: IdLists, i: nat, id: string) {
    i < |m.permissions| && m.permissions[i].ruleId == id
  }

  predicate ProhibitionOf(m: IdLists, i: nat, id: string) {
    i < |m.prohibitions| && m.prohibitions[i].ruleId == id
  }

  /** One of the permissions of this id is active, or all of them are attempted alike. */
  ghost predicate PermissionsAlike(p: Policy, c: Case, m: IdLists, id: string)
    requires SameLists(p.lists, m)
  {
    || (exists i: nat :: PermissionOf(m, i, id) && PermissionActive(p, c, i))
    || (forall i: nat, k: nat :: PermissionOf(m, i, id) && PermissionOf(m, k, id) ==>
         (Applies(p.lists.permissions[i], c) <==> Applies(p.lists.permissions[k], c)))
  }

  ghost predicate ProhibitionsAlike(p: Policy, c: Case, m: IdLists, id: string)
    requires SameLists(p.lists, m)
  {
    || (exists i: nat :: ProhibitionOf(m, i, id) && ProhibitionActive(p, c, i))
    || (forall i: nat, k: nat :: ProhibitionOf(m, i, id) && ProhibitionOf(m, k, id) ==>
         (Applies(p.lists.prohibitions[i], c) <==> Applies(p.lists.prohibitions[k], c)))
  }

  /** The duties of one id that are in force are satisfied alike. */
  ghost predicate DutiesAlike(p: Policy, c: Case, m: IdLists) {
    forall a, b :: ShareId(m, a, b) && InForceAt(p, c, a) && InForceAt(p, c, b) ==>
      (SatisfiedAt(p, c, a) <==> SatisfiedAt(p, c, b))
  }

  /** What makes an account's clones agree, read off the rules and the request. */
  ghost predicate CompositesAlike(p: Policy, c: Case, m: IdLists)
    requires SameLists(p.lists, m)
  {
    && (forall id :: PermissionsAlike(p, c, m, id))
    && (forall id :: ProhibitionsAlike(p, c, m, id))
    && DutiesAlike(p, c, m)
  }

  lemma PermissionReported(p: Policy, c: Case, r: RuleReport)
    requires r.PermissionReport?
    ensures r in DetailedReports(p, c)
       <==> r.ruleIndex < |p.lists.permissions| && r == PermissionReportFor(p, c, r.ruleIndex)
  {
    PermissionsReported(p, c, 0);
    ProhibitionsReported(p, c, 0);
    ListPlaces(p.lists.obligations, Obligation, true, c.world, 0);
    assert r in PermissionReports(p, c, 0) ==> IsPermissionOf(p, c, 0, r);
  }

  lemma ProhibitionReported(p: Policy, c: Case, r: RuleReport)
    requires r.ProhibitionReport?
    ensures r in DetailedReports(p, c)
       <==> r.ruleIndex < |p.lists.prohibitions| && r == ProhibitionReportFor(p, c, r.ruleIndex)
  {
    PermissionsReported(p, c, 0);
    ProhibitionsReported(p, c, 0);
    ListPlaces(p.lists.obligations, Obligation, true, c.world, 0);
    assert r in ProhibitionReports(p, c, 0) ==> IsProhibitionOf(p, c, 0, r);
  }

  /** The clones of one rule agree. */
  ghost predicate KeyAgrees(m: IdLists, reports: seq<RuleReport>, key: RuleKey) {
    forall r, s :: Counts(m, reports, key, r) && Counts(m, reports, key, s) ==> SameStates(r, s)
  }

  lemma StatesDecide(r: RuleReport, s: RuleReport)
    requires r.DutyReport? <==> s.DutyReport?
    ensures SameStates(r, s)
       <==> (r.activation == s.activation && r.performance == s.performance && r.deontic == s.deontic
             && (!r.DutyReport? ==> r.attempt == s.attempt))
  {
    assert "Attempted"[0] != "NotAttempted"[0] && "Active"[0] != "Inactive"[0];
    assert "Performed"[0] != "Unperformed"[0] && "Unknown"[2] != "Unperformed"[2];
    if SameStates(r, s) {
      assert ActualState(r, ActivationState) == ActualState(s, ActivationState);
      assert ActualState(r, AttemptState) == ActualState(s, AttemptState);
      assert ActualState(r, PerformanceState) == ActualState(s, PerformanceState);
      assert ActualState(r, DeonticState) == ActualState(s, DeonticState);
    }
  }

  /** Two permissions are reported alike exactly when both or neither is active and both or neither attempted. */
  lemma PermissionStates(p: Policy, c: Case, i: nat, k: nat)
    requires i < |p.lists.permissions| && k < |p.lists.permissions|
    ensures SameStates(PermissionReportFor(p, c, i), PermissionReportFor(p, c, k))
       <==> ((PermissionActive(p, c, i) <==> PermissionActive(p, c, k))
             && (Applies(p.lists.permissions[i], c) <==> Applies(p.lists.permissions[k], c)))
  {
    StatesDecide(PermissionReportFor(p, c, i), PermissionReportFor(p, c, k));
  }

  lemma ProhibitionStates(p: Policy, c: Case, i: nat, k: nat)
    requires i < |p.lists.prohibitions| && k < |p.lists.prohibitions|
    ensures SameStates(ProhibitionReportFor(p, c, i), ProhibitionReportFor(p, c, k))
       <==> ((ProhibitionActive(p, c, i) <==> ProhibitionActive(p, c, k))
             && (Applies(p.lists.prohibitions[i], c) <==> Applies(p.lists.prohibitions[k], c)))
  {
    StatesDecide(ProhibitionReportFor(p, c, i), ProhibitionReportFor(p, c, k));
  }

  /** The clones of a permission are the reports on the permissions of its id. */
  lemma PermissionClones(p: Policy, c: Case, m: IdLists, id: string, r: RuleReport)
    requires SameLists(p.lists, m)
    ensures About(m, DetailedReports(p, c), RuleKey(PermissionKind, id), r)
       <==> r.PermissionReport? && PermissionOf(m, r.ruleIndex, id) && r == PermissionReportFor(p, c, r.ruleIndex)
  {
    if r.PermissionReport? {
      PermissionReported(p, c, r);
    }
  }

  lemma ProhibitionClones(p: Policy, c: Case, m: IdLists, id: string, r: RuleReport)
    requires SameLists(p.lists, m)
    ensures About(m, DetailedReports(p, c), RuleKey(ProhibitionKind, id), r)
       <==> r.ProhibitionReport? && ProhibitionOf(m, r.ruleIndex, id) && r == ProhibitionReportFor(p, c, r.ruleIndex)
  {
    if r.ProhibitionReport? {
      ProhibitionReported(p, c, r);
    }
  }

  lemma PermissionSomeActive(p: Policy, c: Case, m: IdLists, id: string)
    requires SameLists(p.lists, m)
    ensures SomeActive(m, DetailedReports(p, c), RuleKey(PermissionKind, id))
       <==> exists i: nat :: PermissionOf(m, i, id) && PermissionActive(p, c, i)
  {
    var reports, key := DetailedReports(p, c), RuleKey(PermissionKind, id);
    if r :| About(m, reports, key, r) && r.activation == Active {
      PermissionClones(p, c, m, id, r);
    }
    if i: nat :| PermissionOf(m, i, id) && PermissionActive(p, c, i) {
      PermissionClones(p, c, m, id, PermissionReportFor(p, c, i));
    }
  }

  lemma ProhibitionSomeActive(p: Policy, c: Case, m: IdLists, id: string)
    requires SameLists(p.lists, m)
    ensures SomeActive(m, DetailedReports(p, c), RuleKey(ProhibitionKind, id))
       <==> exists i: nat :: ProhibitionOf(m, i, id) && ProhibitionActive(p, c, i)
  {
    var reports, key := DetailedReports(p, c), RuleKey(ProhibitionKind, id);
    if r :| About(m, reports, key, r) && r.activation == Active {
      ProhibitionClones(p, c, m, id, r);
    }
    if i: nat :| ProhibitionOf(m, i, id) && ProhibitionActive(p, c, i) {
      ProhibitionClones(p, c, m, id, ProhibitionReportFor(p, c, i));
    }
  }

  lemma PermissionsAgreeIff(p: Policy, c: Case, m: IdLists, id: string)
    requires SameLists(p.lists, m)
    ensures KeyAgrees(m, DetailedReports(p, c), RuleKey(PermissionKind, id)) <==> PermissionsAlike(p, c, m, id)
  {
    var reports, key := DetailedReports(p, c), RuleKey(PermissionKind, id);
    PermissionSomeActive(p, c, m, id);
    if PermissionsAlike(p, c, m, id) {
      forall r, s | Counts(m, reports, key, r) && Counts(m, reports, key, s) ensures SameStates(r, s) {
        PermissionClones(p, c, m, id, r);
        PermissionClones(p, c, m, id, s);
        PermissionStates(p, c, r.ruleIndex, s.ruleIndex);
      }
    }
    if KeyAgrees(m, reports, key) && !SomeActive(m, reports, key) {
      forall i: nat, k: nat | PermissionOf(m, i, id) && PermissionOf(m, k, id)
        ensures Applies(p.lists.permissions[i], c) <==> Applies(p.lists.permissions[k], c)
      {
        PermissionClones(p, c, m, id, PermissionReportFor(p, c, i));
        PermissionClones(p, c, m, id, PermissionReportFor(p, c, k));
        PermissionStates(p, c, i, k);
        assert Counts(m, reports, key, PermissionReportFor(p, c, i));
        assert Counts(m, reports, key, PermissionReportFor(p, c, k));
      }
    }
  }

  lemma ProhibitionsAgreeIff(p: Policy, c: Case, m: IdLists, id: string)
    requires SameLists(p.lists, m)
    ensures KeyAgrees(m, DetailedReports(p, c), RuleKey(ProhibitionKind, id)) <==> ProhibitionsAlike(p, c, m, id)
  {
    var reports, key := DetailedReports(p, c), RuleKey(ProhibitionKind, id);
    ProhibitionSomeActive(p, c, m, id);
    if ProhibitionsAlike(p, c, m, id) {
      forall r, s | Counts(m, reports, key, r) && Counts(m, reports, key, s) ensures SameStates(r, s) {
        ProhibitionClones(p, c, m, id, r);
        ProhibitionClones(p, c, m, id, s);
        ProhibitionStates(p, c, r.ruleIndex, s.ruleIndex);
      }
    }
    if KeyAgrees(m, reports, key) && !SomeActive(m, reports, key) {
      forall i: nat, k: nat | ProhibitionOf(m, i, id) && ProhibitionOf(m, k, id)
        ensures Applies(p.lists.prohibitions[i], c) <==> Applies(p.lists.prohibitions[k], c)
      {
        ProhibitionClones(p, c, m, id, ProhibitionReportFor(p, c, i));
        ProhibitionClones(p, c, m, id, ProhibitionReportFor(p, c, k));
        ProhibitionStates(p, c, i, k);
        assert Counts(m, reports, key, ProhibitionReportFor(p, c, i));
        assert Counts(m, reports, key, ProhibitionReportFor(p, c, k));
      }
    }
  }

  /** A duty not in force is reported in one way only. */
  predicate PlainlyInactive(r: RuleReport) {
    r.DutyReport? && r.activation == Inactive ==> r.performance == Unknown && r.deontic == NonSet
  }

  lemma {:induction false} ChainPlainlyInactive(
      d: Rule, attachment: DutyAttachment, index: nat, depth: nat, inForce: bool, w: World)
    ensures forall r :: r in ChainReports(d, attachment, index, depth, inForce, w) ==> PlainlyInactive(r)
    decreases d
  {
    if depth <= MAX_CONSEQUENCE_DEPTH && d.consequence.Some? {
      ChainPlainlyInactive(d.consequence.value, attachment, index, depth + 1, inForce && !DutySatisfied(d, w), w);
    }
  }

  lemma {:induction false} ListPlainlyInactive(
      duties: seq<Rule>, attachment: DutyAttachment, inForce: bool, w: World, j: nat)
    requires j <= |duties|
    ensures forall r :: r in ListReports(duties, attachment, inForce, w, j) ==> PlainlyInactive(r)
    decreases |duties| - j
  {
    if j < |duties| {
      ListPlainlyInactive(duties, attachment, inForce, w, j + 1);
      ChainPlainlyInactive(duties[j], attachment, j, 0, inForce, w);
    }
  }

  lemma DutyPlainlyInactive(p: Policy, c: Case, r: RuleReport)
    requires r in DetailedReports(p, c) && r.DutyReport?
    ensures PlainlyInactive(r)
  {
    DutiesUnderPermissions(p, c, 0, r);
    DutiesUnderProhibitions(p, c, 0, r);
    if r in PermissionReports(p, c, 0) {
      var i :| 0 <= i < |p.lists.permissions| && UnderPermissionAt(p, c, i, r);
      var rule := p.lists.permissions[i];
      ListPlainlyInactive(rule.duty, PermissionDuty(i), InPlay(rule, c), c.world, 0);
    } else if r in ProhibitionReports(p, c, 0) {
      var i :| 0 <= i < |p.lists.prohibitions| && UnderProhibitionAt(p, c, i, r);
      ListPlainlyInactive(p.lists.prohibitions[i].remedy, ProhibitionRemedy(i), ProhibitionActive(p, c, i), c.world, 0);
    } else {
      ListPlainlyInactive(p.lists.obligations, Obligation, true, c.world, 0);
    }
  }

  /** Two reports that count for one duty are in the same states when the duties in force are satisfied alike. */
  lemma AlikeDutiesAgree(p: Policy, c: Case, m: IdLists, id: string, r: RuleReport, s: RuleReport)
    requires SameLists(p.lists, m) && DutiesAlike(p, c, m)
    requires Counts(m, DetailedReports(p, c), RuleKey(DutyKind, id), r)
    requires Counts(m, DetailedReports(p, c), RuleKey(DutyKind, id), s)
    ensures SameStates(r, s)
  {
    assert r.DutyReport? && s.DutyReport? && ShareId(m, r.address, s.address);
    ActiveDutyReports(p, c, r);
    ActiveDutyReports(p, c, s);
    DutyPlainlyInactive(p, c, r);
    DutyPlainlyInactive(p, c, s);
    StatesDecide(r, s);
  }

  lemma InForceIsReported(p: Policy, c: Case, m: IdLists, a: DutyAddress, id: string)
    requires InForceAt(p, c, a) && IdsAt(m, a).Some? && IdsAt(m, a).value.ruleId == id
    ensures Counts(m, DetailedReports(p, c), RuleKey(DutyKind, id), DutyReportFor(a, true, SatisfiedAt(p, c, a)))
  {
    ActiveDutyReports(p, c, DutyReportFor(a, true, SatisfiedAt(p, c, a)));
  }

  lemma DutiesAgreeIff(p: Policy, c: Case, m: IdLists)
    requires SameLists(p.lists, m)
    ensures (forall id :: KeyAgrees(m, DetailedReports(p, c), RuleKey(DutyKind, id))) <==> DutiesAlike(p, c, m)
  {
    var reports := DetailedReports(p, c);
    if DutiesAlike(p, c, m) {
      forall id, r, s | Counts(m, reports, RuleKey(DutyKind, id), r) && Counts(m, reports, RuleKey(DutyKind, id), s)
        ensures SameStates(r, s)
      {
        AlikeDutiesAgree(p, c, m, id, r, s);
      }
    }
    if forall id :: KeyAgrees(m, reports, RuleKey(DutyKind, id)) {
      forall a, b | ShareId(m, a, b) && InForceAt(p, c, a) && InForceAt(p, c, b)
        ensures SatisfiedAt(p, c, a) <==> SatisfiedAt(p, c, b)
      {
        var id := IdsAt(m, a).value.ruleId;
        assert KeyAgrees(m, reports, RuleKey(DutyKind, id));
        InForceIsReported(p, c, m, a, id);
        InForceIsReported(p, c, m, b, id);
        StatesDecide(DutyReportFor(a, true, SatisfiedAt(p, c, a)), DutyReportFor(b, true, SatisfiedAt(p, c, b)));
      }
    }
  }

  /**
   The clones of an account agree exactly when, for each id, its permissions (and its prohibitions)
   are attempted alike unless one of them is active, and its duties in force are satisfied alike.
   */
  lemma ClonesAgreeIff(p: Policy, c: Case, m: IdLists)
    requires SameLists(p.lists, m)
    ensures ClonesAgree(m, DetailedReports(p, c)) <==> CompositesAlike(p, c, m)
  {
    var reports := DetailedReports(p, c);
    forall id
      ensures KeyAgrees(m, reports, RuleKey(PermissionKind, id)) <==> PermissionsAlike(p, c, m, id)
      ensures KeyAgrees(m, reports, RuleKey(ProhibitionKind, id)) <==> ProhibitionsAlike(p, c, m, id)
    {
      PermissionsAgreeIff(p, c, m, id);
      ProhibitionsAgreeIff(p, c, m, id);
    }
    DutiesAgreeIff(p, c, m);
    ByKind(m, reports);
  }

  lemma ByKind(m: IdLists, reports: seq<RuleReport>)
    ensures ClonesAgree(m, reports)
       <==> forall id ::
         && KeyAgrees(m, reports, RuleKey(PermissionKind, id))
         && KeyAgrees(m, reports, RuleKey(ProhibitionKind, id))
         && KeyAgrees(m, reports, RuleKey(DutyKind, id))
  {
    if forall id ::
      && KeyAgrees(m, reports, RuleKey(PermissionKind, id))
      && KeyAgrees(m, reports, RuleKey(ProhibitionKind, id))
      && KeyAgrees(m, reports, RuleKey(DutyKind, id))
    {
      forall key ensures KeyAgrees(m, reports, key) {
        assert key == RuleKey(key.kind, key.rule);
        assert KeyAgrees(m, reports, RuleKey(PermissionKind, key.rule));
      }
    }
  }

  // ---------------------------------------------------------------
  // When a duty is taken for an obligation
  // ---------------------------------------------------------------

  /** A duty the coarse answer lists under deny mode, whose id is also that of an obligation in its own right. */
  predicate ListedUnderAnObligation(p: Policy, c: Case, m: IdLists, a: DutyAddress) {
    && InForceAt(p, c, a) && !SatisfiedAt(p, c, a) && RuleAt(p.lists, a).value.consequence.None?
    && !IsPlain(a)
    && IdsAt(m, a).Some? && IsPlainPolicyObligation(m, IdsAt(m, a).value.ruleId)
  }

  /** Under deny mode, some duty that has to be listed shares its id with an obligation of the policy. */
  ghost predicate SharedWithObligation(p: Policy, c: Case, m: IdLists) {
    c.config.dutyMode == DutyMode.Deny && exists a :: ListedUnderAnObligation(p, c, m, a)
  }

  /** No duty of the account is taken for an obligation exactly when none shares its id with one. */
  lemma NoneTakenIff(p: Policy, c: Case, m: IdLists)
    ensures (forall r :: r in DetailedReports(p, c) && Listed(p.lists, c.config.dutyMode, r) ==>
              !TakenForObligation(m, c.config.dutyMode, r))
       <==> !SharedWithObligation(p, c, m)
  {
    var reports, mode := DetailedReports(p, c), c.config.dutyMode;
    if a :| mode == DutyMode.Deny && ListedUnderAnObligation(p, c, m, a) {
      var r := DutyReportFor(a, true, false);
      ActiveDutyReports(p, c, r);
      assert r in reports && Listed(p.lists, mode, r) && TakenForObligation(m, mode, r);
    }
    if r :| r in reports && Listed(p.lists, mode, r) && TakenForObligation(m, mode, r) {
      ActiveDutyReports(p, c, r);
      assert ListedUnderAnObligation(p, c, m, r.address);
    }
  }

  /**
   Where clones agree, what the comparer expects of one policy is what the engine lists exactly when
   no duty in force was cut off and none to be listed shares its id with an obligation.
   */
  lemma ExpectedIsListedIff(p: Policy, c: Case, m: IdLists, e: seq<ExpectedRuleReport>, policyId: string)
    requires Faithful(p, m) && Recognized(p, c)
    requires IsOwnTree(m, DetailedReports(p, c), e) && ClonesAgree(m, DetailedReports(p, c))
    ensures ExpectedBag(p, c, m, e, policyId) == ListedBag(p, c, policyId)
       <==> !AnyCut(p, c) && !SharedWithObligation(p, c, m)
  {
    var reports, mode := DetailedReports(p, c), c.config.dutyMode;
    var l := Listing(policyId, p.lists, mode);
    OwnOutstandingIsListed(p.lists, m, mode, reports, e, policyId);
    PolicyLists(l, p, c);
    NothingDroppedIff(policyId, p.lists, m, mode, reports);
    NoneTakenIff(p, c, m);
    NothingMissingIffUncut(l, p, c);
    SamePlusTwo(ExpectedBag(p, c, m, e, policyId), Sum(Dropped(policyId, p.lists, m, mode), reports), Missing(l, p, c));
  }

  /** The duties a tree expects outstanding of one policy, beside the engine's account of it. */
  ghost function ExpectedBag(p: Policy, c: Case, m: IdLists, e: seq<ExpectedRuleReport>, policyId: string): Bag {
    multiset(RulesOutstanding(
      policyId, m, c.config.dutyMode, PolicyReport(policyId, DetailedReports(p, c), None), e))
  }

  /** The duties the coarse answer lists for one policy. */
  ghost function ListedBag(p: Policy, c: Case, policyId: string): Bag {
    Sum(Listing(policyId, p.lists, c.config.dutyMode).OfUnresolved(), Decide(p, c).unresolvedDuties)
  }

  // ---------------------------------------------------------------
  // Clones no expectation can fit
  // ---------------------------------------------------------------

  /** Permissions of one id, none active, not attempted alike: nothing that states an attempt conforms. */
  lemma SplitPermissionsNeverConform(p: Policy, c: Case, m: IdLists, id: string, x: ExpectedRuleReport)
    requires SameLists(p.lists, m) && !PermissionsAlike(p, c, m, id)
    requires x.Key() == RuleKey(PermissionKind, id) && x.attempt.Some?
    ensures !RuleConforms(m, DetailedReports(p, c), x)
  {
    var reports := DetailedReports(p, c);
    PermissionSomeActive(p, c, m, id);
    var i: nat, k: nat :| PermissionOf(m, i, id) && PermissionOf(m, k, id)
      && !(Applies(p.lists.permissions[i], c) <==> Applies(p.lists.permissions[k], c));
    var r, s := PermissionReportFor(p, c, i), PermissionReportFor(p, c, k);
    PermissionClones(p, c, m, id, r);
    PermissionClones(p, c, m, id, s);
    AttemptsDiffer(m, reports, x, r, s);
  }

  lemma SplitProhibitionsNeverConform(p: Policy, c: Case, m: IdLists, id: string, x: ExpectedRuleReport)
    requires SameLists(p.lists, m) && !ProhibitionsAlike(p, c, m, id)
    requires x.Key() == RuleKey(ProhibitionKind, id) && x.attempt.Some?
    ensures !RuleConforms(m, DetailedReports(p, c), x)
  {
    var reports := DetailedReports(p, c);
    ProhibitionSomeActive(p, c, m, id);
    var i: nat, k: nat :| ProhibitionOf(m, i, id) && ProhibitionOf(m, k, id)
      && !(Applies(p.lists.prohibitions[i], c) <==> Applies(p.lists.prohibitions[k], c));
    var r, s := ProhibitionReportFor(p, c, i), ProhibitionReportFor(p, c, k);
    ProhibitionClones(p, c, m, id, r);
    ProhibitionClones(p, c, m, id, s);
    AttemptsDiffer(m, reports, x, r, s);
  }

  lemma AttemptsDiffer(m: IdLists, reports: seq<RuleReport>, x: ExpectedRuleReport, r: RuleReport, s: RuleReport)
    requires Counts(m, reports, x.Key(), r) && Counts(m, reports, x.Key(), s)
    requires !r.DutyReport? && !s.DutyReport? && r.attempt != s.attempt && x.attempt.Some?
    ensures !RuleConforms(m, reports, x)
  {
    assert "Attempted"[0] != "NotAttempted"[0];
    assert !Agrees(x, r, AttemptState) || !Agrees(x, s, AttemptState);
  }
}
