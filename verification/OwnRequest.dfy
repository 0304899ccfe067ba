/**
 The comparer against the engine itself: a request's own detailed evaluation, taken as the
 expected outcome of that request.
 */
module OwnRequest {
  import opened Wrappers
  import opened Inheritance
  import opened Policies
  import opened Rules
  import opened Merging
  import opened Decisions
  import opened Reports
  import opened Bags
  import opened Compare
  import opened Conformance
  import opened Reordering
  import opened Places
  import opened Evaluation
  import opened OwnAccount
  import opened CutOffs
  import opened OwnVerdict
  import opened Composites

  /** The merged id shadow of the `k`th policy. */
  ghost function Shadow(req: Request, ids: seq<PolicyIds>, k: nat): IdLists
    requires k < |req.policies| && MergedIds(ids, req.policies[k].id).Ok?
  {
    MergedIds(ids, req.policies[k].id).value.Lists()
  }

  /** Each policy has its shadow and an id of its own, and in what they merge to a duty's id tells enough about it. */
  ghost predicate Shadowed(req: Request, ids: seq<PolicyIds>) {
    && Shadows(req.policies, ids)
    && DistinctIds(Headers(req.policies))
    && forall k :: 0 <= k < |req.policies| && MergedIds(ids, req.policies[k].id).Ok? ==> Coherent(Shadow(req, ids, k))
  }

  ghost predicate RestatesReport(ids: seq<PolicyIds>, e: ExpectedPolicyReport, a: PolicyReport) {
    && e.policyId == a.policyId
    && (MergedIds(ids, a.policyId).Ok? ==>
          IsOwnTree(MergedIds(ids, a.policyId).value.Lists(), a.ruleReports, e.ruleReports))
  }

  /** A case whose expected outcome restates, policy by policy, what the engine answered. */
  ghost predicate OwnCase(req: Request, ids: seq<PolicyIds>, c: Inputs) {
    && Shadowed(req, ids)
    && c.policyIds == ids
    && c.mode == req.config.dutyMode && c.behaviour == req.config.behaviour
    && c.response == AnswerTo(req).response && c.detailed == AnswerTo(req).detailed
    && (c.statedDecision.Some? ==> c.statedDecision.value == c.response.decision)
    && |c.expected| == |c.detailed.policyReports|
    && forall k :: 0 <= k < |c.expected| ==> RestatesReport(ids, c.expected[k], c.detailed.policyReports[k])
  }

  /** Inheritance resolves to `rs`, and the profiles they name are the loaded one: the policies are looked at. */
  ghost predicate Processed(req: Request, rs: seq<Resolved>) {
    && req.policies != []
    && ResolvedPolicies(req.policies, req.policies) == Ok(rs)
    && !UnknownProfile(rs, req.profileId)
  }

  ghost predicate NobodyElses(req: Request, rs: seq<Resolved>) {
    forall k :: 0 <= k < |rs| ==> !PartyMismatch(rs[k].policy, req)
  }

  ghost predicate AllRecognized(req: Request, rs: seq<Resolved>) {
    forall k :: 0 <= k < |rs| ==> Recognized(Effective(rs, rs[k]), req.Facts())
  }

  /** A request every policy of which is evaluated without an error. */
  ghost predicate Accountable(req: Request, ids: seq<PolicyIds>, rs: seq<Resolved>) {
    && Shadowed(req, ids)
    && Processed(req, rs)
    && NobodyElses(req, rs)
    && AllRecognized(req, rs)
  }

  /** What the engine reports about the `k`th policy. */
  ghost function ReportsOf(req: Request, rs: seq<Resolved>, k: nat): seq<RuleReport>
    requires k < |rs|
  {
    DetailedReports(Effective(rs, rs[k]), req.Facts())
  }

  /** In the `k`th policy, the clones that count for a composite rule are in the same states. */
  ghost predicate ClonesAgreeIn(req: Request, ids: seq<PolicyIds>, rs: seq<Resolved>, k: nat)
    requires k < |rs|
  {
    && k < |req.policies| && MergedIds(ids, req.policies[k].id).Ok?
    && ClonesAgree(Shadow(req, ids, k), ReportsOf(req, rs, k))
  }

  ghost predicate AllClonesAgree(req: Request, ids: seq<PolicyIds>, rs: seq<Resolved>) {
    forall k :: 0 <= k < |rs| ==> ClonesAgreeIn(req, ids, rs, k)
  }

  lemma {:induction false} InheritKeepsId(base: WirePolicy, ancestors: seq<Id>, all: seq<WirePolicy>)
    requires forall b :: b in ancestors ==> b in Index(Headers(all))
    ensures InheritRules(base, ancestors, all).id == base.id
    decreases |ancestors|
  {
    if ancestors != [] {
      InheritKeepsId(InheritOne(base, all[Index(Headers(all))[ancestors[0]]]), ancestors[1..], all);
    }
  }

  lemma ResolvedKeepsId(all: seq<WirePolicy>, policy: WirePolicy)
    requires ResolvedPolicy(all, policy).Ok?
    ensures ResolvedPolicy(all, policy).value.policy.id == policy.id
  {
    AncestorsAreKnown(ParentsOf(Headers(all)), policy.id);
    InheritKeepsId(policy, Order(ParentsOf(Headers(all)), policy.id, []).value, all);
  }

  lemma RecognizedNeverErrs(p: Policy, c: Case)
    ensures Decide(p, c).decision.Error? <==> !Recognized(p, c)
  {
  }

  /** The `k`th policy, its shadow, and the engine's rule lists for it. */
  lemma ShadowOf(req: Request, ids: seq<PolicyIds>, rs: seq<Resolved>, k: nat)
    requires Shadowed(req, ids) && Processed(req, rs) && k < |rs|
    ensures |rs| == |req.policies| && rs[k].policy.id == req.policies[k].id
    ensures MergedIds(ids, req.policies[k].id).Ok?
    ensures Faithful(Effective(rs, rs[k]), Shadow(req, ids, k))
  {
    assert ResolvedPolicy(req.policies, req.policies[k]) == Ok(rs[k]);
    ResolvedKeepsId(req.policies, req.policies[k]);
    MergeCommutes(req.policies, ids, k);
  }

  lemma AnswerIsProcessed(req: Request, rs: seq<Resolved>)
    requires Processed(req, rs)
    ensures AnswerTo(req).response == Respond(Evaluations(rs, rs, req), req.config.dutyMode)
    ensures AnswerTo(req).detailed
         == DetailedEvaluation(ReportAll(Evaluations(rs, rs, req), req.Facts()), Skipped(rs, req))
  {
  }

  /** Where nobody is skipped, the evaluations are those of the policies, one by one. */
  lemma EvaluationOf(req: Request, ids: seq<PolicyIds>, rs: seq<Resolved>, k: nat)
    requires Shadowed(req, ids) && Processed(req, rs) && NobodyElses(req, rs) && k < |rs|
    ensures |rs| == |req.policies| && |Evaluations(rs, rs, req)| == |rs|
    ensures var e := Evaluations(rs, rs, req)[k];
      && e == EvaluateOne(rs, rs[k], req.Facts())
      && e.policyId == req.policies[k].id
      && (e.outcome.decision.Error? <==> !Recognized(Effective(rs, rs[k]), req.Facts()))
  {
    NobodySkipped(rs, rs, req);
    ShadowOf(req, ids, rs, k);
    RecognizedNeverErrs(Effective(rs, rs[k]), req.Facts());
  }

  lemma {:induction false} FindPolicyAt(reports: seq<PolicyReport>, k: nat)
    requires k < |reports| && forall j :: 0 <= j < k ==> reports[j].policyId != reports[k].policyId
    ensures FindPolicy(reports, reports[k].policyId) == Some(reports[k])
    decreases k
  {
    if k > 0 {
      assert reports[1..][k - 1] == reports[k];
      FindPolicyAt(reports[1..], k - 1);
    }
  }

  /** A report of one evaluated policy: its account, or the fact that it was refused. */
  lemma ReportStates(all: seq<Resolved>, r: Resolved, facts: Case)
    ensures var a := ReportOne(EvaluateOne(all, r, facts), facts);
      && a.policyId == r.policy.id
      && (a.evaluationError.None? <==> Recognized(Effective(all, r), facts))
      && (a.evaluationError.None? ==> a.ruleReports == DetailedReports(Effective(all, r), facts))
  {
    RecognizedNeverErrs(Effective(all, r), facts);
  }

  lemma ReportsAre(req: Request, rs: seq<Resolved>, detailed: DetailedEvaluation, k: nat)
    requires Processed(req, rs) && NobodyElses(req, rs) && k < |rs| && detailed == AnswerTo(req).detailed
    ensures |detailed.policyReports| == |rs| && detailed.skippedPolicies == []
    ensures detailed.policyReports[k] == ReportOne(EvaluateOne(rs, rs[k], req.Facts()), req.Facts())
  {
    NobodySkipped(rs, rs, req);
    AnswerIsProcessed(req, rs);
  }

  lemma OwnReportAt(req: Request, ids: seq<PolicyIds>, rs: seq<Resolved>, c: Inputs, k: nat)
    requires OwnCase(req, ids, c) && Processed(req, rs) && NobodyElses(req, rs) && k < |rs|
    ensures |c.detailed.policyReports| == |rs| == |req.policies| && c.detailed.skippedPolicies == []
    ensures var a := c.detailed.policyReports[k];
      && a.policyId == req.policies[k].id
      && (a.evaluationError.None? <==> Recognized(Effective(rs, rs[k]), req.Facts()))
      && (a.evaluationError.None? ==> a.ruleReports == ReportsOf(req, rs, k))
  {
    ReportsAre(req, rs, c.detailed, k);
    ReportStates(rs, rs[k], req.Facts());
    ShadowOf(req, ids, rs, k);
  }

  lemma FindsOwnReport(req: Request, ids: seq<PolicyIds>, rs: seq<Resolved>, c: Inputs, k: nat)
    requires OwnCase(req, ids, c) && Processed(req, rs) && NobodyElses(req, rs) && k < |rs|
    ensures |c.expected| == |c.detailed.policyReports| == |rs| == |req.policies|
    ensures FindPolicy(c.detailed.policyReports, req.policies[k].id) == Some(c.detailed.policyReports[k])
  {
    OwnReportAt(req, ids, rs, c, k);
    forall j | 0 <= j < k ensures c.detailed.policyReports[j].policyId != c.detailed.policyReports[k].policyId {
      OwnReportAt(req, ids, rs, c, j);
      assert Headers(req.policies)[j].id != Headers(req.policies)[k].id;
    }
    FindPolicyAt(c.detailed.policyReports, k);
  }

  /** What the comparer holds against what, for the `k`th policy. */
  lemma OwnExpectation(req: Request, ids: seq<PolicyIds>, rs: seq<Resolved>, c: Inputs, k: nat)
    requires OwnCase(req, ids, c) && Processed(req, rs) && NobodyElses(req, rs) && k < |rs|
    ensures |c.expected| == |c.detailed.policyReports| == |rs| == |req.policies|
    ensures c.expected[k].policyId == req.policies[k].id
    ensures MergedIds(c.policyIds, c.expected[k].policyId).Ok? && Merged(c, c.expected[k]) == Shadow(req, ids, k)
    ensures FindPolicy(c.detailed.policyReports, c.expected[k].policyId) == Some(c.detailed.policyReports[k])
    ensures IsOwnTree(Shadow(req, ids, k), c.detailed.policyReports[k].ruleReports, c.expected[k].ruleReports)
  {
    FindsOwnReport(req, ids, rs, c, k);
    OwnReportAt(req, ids, rs, c, k);
    ShadowOf(req, ids, rs, k);
    assert RestatesReport(ids, c.expected[k], c.detailed.policyReports[k]);
  }

  lemma ReportedAreExpected(ids: seq<PolicyIds>, expected: seq<ExpectedPolicyReport>, reports: seq<PolicyReport>)
    requires |expected| == |reports|
    requires forall k :: 0 <= k < |expected| ==> RestatesReport(ids, expected[k], reports[k])
    ensures forall a :: a in reports ==> PolicyExpected(expected, a.policyId)
  {
    forall a | a in reports ensures PolicyExpected(expected, a.policyId) {
      var k :| 0 <= k < |reports| && reports[k] == a;
      assert RestatesReport(ids, expected[k], a) && expected[k] in expected;
    }
  }

  lemma OwnCaseMerges(req: Request, ids: seq<PolicyIds>, rs: seq<Resolved>, c: Inputs)
    requires OwnCase(req, ids, c) && Processed(req, rs) && NobodyElses(req, rs)
    ensures AllMerge(c, c.expected) && |c.expected| == |rs| == |req.policies|
    ensures EveryPolicyAccountedFor(c)
  {
    OwnReportAt(req, ids, rs, c, 0);
    AllReportedMerge(req, ids, rs, c);
    ReportedAreExpected(ids, c.expected, c.detailed.policyReports);
  }

  // ---------------------------------------------------------------
  // Checks one and two
  // ---------------------------------------------------------------

  lemma OwnPolicyConformsIff(req: Request, ids: seq<PolicyIds>, rs: seq<Resolved>, c: Inputs, k: nat)
    requires OwnCase(req, ids, c) && Processed(req, rs) && NobodyElses(req, rs) && k < |rs|
    ensures |c.expected| == |rs| == |req.policies|
    ensures MergedIds(ids, req.policies[k].id).Ok? && MergedIds(c.policyIds, c.expected[k].policyId).Ok?
    ensures PolicyConforms(Merged(c, c.expected[k]), c.expected[k], c.detailed)
       <==> Recognized(Effective(rs, rs[k]), req.Facts()) && ClonesAgreeIn(req, ids, rs, k)
  {
    OwnExpectation(req, ids, rs, c, k);
    OwnReportAt(req, ids, rs, c, k);
    var a, e := c.detailed.policyReports[k], c.expected[k];
    if a.evaluationError.None? {
      assert a == PolicyReport(a.policyId, ReportsOf(req, rs, k), None);
      assert e == ExpectedPolicyReport(a.policyId, e.ruleReports);
      OwnTreeConformsIff(Shadow(req, ids, k), ReportsOf(req, rs, k), e.ruleReports, a.policyId);
    }
  }

  lemma ConformingAreRecognized(req: Request, ids: seq<PolicyIds>, rs: seq<Resolved>, c: Inputs)
    requires OwnCase(req, ids, c) && Processed(req, rs) && NobodyElses(req, rs) && AllMerge(c, c.expected)
    requires forall e :: e in c.expected ==> PolicyConforms(Merged(c, e), e, c.detailed)
    ensures AllRecognized(req, rs) && AllClonesAgree(req, ids, rs)
  {
    forall k | 0 <= k < |rs| ensures Recognized(Effective(rs, rs[k]), req.Facts()) && ClonesAgreeIn(req, ids, rs, k) {
      OwnPolicyConformsIff(req, ids, rs, c, k);
      assert c.expected[k] in c.expected;
    }
  }

  lemma RecognizedConform(req: Request, ids: seq<PolicyIds>, rs: seq<Resolved>, c: Inputs, e: ExpectedPolicyReport)
    requires OwnCase(req, ids, c) && Processed(req, rs) && NobodyElses(req, rs) && AllMerge(c, c.expected)
    requires AllRecognized(req, rs) && AllClonesAgree(req, ids, rs) && e in c.expected
    ensures PolicyConforms(Merged(c, e), e, c.detailed)
  {
    var k :| 0 <= k < |c.expected| && c.expected[k] == e;
    OwnReportAt(req, ids, rs, c, 0);
    OwnPolicyConformsIff(req, ids, rs, c, k);
  }

  /** Rule by rule, the account conforms exactly when no policy was refused and clones agree. */
  lemma OwnPoliciesConformIff(req: Request, ids: seq<PolicyIds>, rs: seq<Resolved>, c: Inputs)
    requires OwnCase(req, ids, c) && Processed(req, rs) && NobodyElses(req, rs) && AllMerge(c, c.expected)
    ensures (forall e :: e in c.expected ==> PolicyConforms(Merged(c, e), e, c.detailed))
       <==> AllRecognized(req, rs) && AllClonesAgree(req, ids, rs)
  {
    if forall e :: e in c.expected ==> PolicyConforms(Merged(c, e), e, c.detailed) {
      ConformingAreRecognized(req, ids, rs, c);
    }
    if AllRecognized(req, rs) && AllClonesAgree(req, ids, rs) {
      forall e | e in c.expected ensures PolicyConforms(Merged(c, e), e, c.detailed) {
        RecognizedConform(req, ids, rs, c, e);
      }
    }
  }

  // ---------------------------------------------------------------
  // Check four
  // ---------------------------------------------------------------

  lemma ActualAppend(a: seq<DutyEntry>, b: seq<DutyEntry>)
    ensures ActualOutstanding(a + b) == ActualOutstanding(a) + ActualOutstanding(b)
  {
  }

  lemma {:induction false} ListedDutiesAreSum(policyId: string, us: seq<UnresolvedDuty>, mode: DutyMode)
    ensures multiset(ActualOutstanding(ListedDuties(policyId, us, mode)))
         == Sum((u: UnresolvedDuty) => UnresolvedBag(policyId, mode, u), us)
    decreases |us|
  {
    if us != [] {
      ListedDutiesAreSum(policyId, us[1..], mode);
      var here :=
        if mode == DutyMode.Deny && us[0].IsPlainPolicyObligation() then [] else [DutyEntry(policyId, us[0].action)];
      ActualAppend(here, ListedDuties(policyId, us[1..], mode));
      assert multiset(ActualOutstanding(here)) == UnresolvedBag(policyId, mode, us[0]);
    }
  }

  ghost function EvaluationBag(mode: DutyMode, e: PolicyEvaluation): Bag {
    multiset(ActualOutstanding(ListedDuties(e.policyId, e.outcome.unresolvedDuties, mode)))
  }

  lemma {:induction false} AllDutiesAreSum(es: seq<PolicyEvaluation>, mode: DutyMode)
    ensures multiset(ActualOutstanding(AllDuties(es, mode))) == Sum((e: PolicyEvaluation) => EvaluationBag(mode, e), es)
    decreases |es|
  {
    if es != [] {
      AllDutiesAreSum(es[1..], mode);
      ActualAppend(ListedDuties(es[0].policyId, es[0].outcome.unresolvedDuties, mode), AllDuties(es[1..], mode));
    }
  }

  function ListingOf(mode: DutyMode, e: PolicyEvaluation): Listing {
    Listing(e.policyId, e.policy.lists, mode)
  }

  ghost function AccountBag(mode: DutyMode, facts: Case, e: PolicyEvaluation): Bag {
    Sum(ListingOf(mode, e).OfReport(), DetailedReports(e.policy, facts))
  }

  ghost function MissingBag(mode: DutyMode, facts: Case, e: PolicyEvaluation): Bag {
    Missing(ListingOf(mode, e), e.policy, facts)
  }

  lemma AccountPlusMissing(req: Request, ids: seq<PolicyIds>, rs: seq<Resolved>, mode: DutyMode, k: nat)
    requires Accountable(req, ids, rs) && k < |rs|
    ensures |Evaluations(rs, rs, req)| == |rs|
    ensures var e := Evaluations(rs, rs, req)[k];
      AccountBag(mode, req.Facts(), e) + MissingBag(mode, req.Facts(), e) == EvaluationBag(mode, e)
  {
    EvaluationOf(req, ids, rs, k);
    var e := Evaluations(rs, rs, req)[k];
    assert Recognized(e.policy, req.Facts());
    PolicyLists(ListingOf(mode, e), e.policy, req.Facts());
    ListedDutiesAreSum(e.policyId, e.outcome.unresolvedDuties, mode);
  }

  ghost function Accounts(mode: DutyMode, facts: Case): PolicyEvaluation -> Bag {
    (e: PolicyEvaluation) => AccountBag(mode, facts, e)
  }

  ghost function MissingEntries(mode: DutyMode, facts: Case): PolicyEvaluation -> Bag {
    (e: PolicyEvaluation) => MissingBag(mode, facts, e)
  }

  /** The entries the comparer does not expect because it takes their duties for obligations. */
  ghost function DroppedBag(ids: seq<PolicyIds>, mode: DutyMode, facts: Case, e: PolicyEvaluation): Bag {
    match MergedIds(ids, e.policyId)
    case Err(_) => multiset{}
    case Ok(shadow) =>
      Sum(Dropped(e.policyId, e.policy.lists, shadow.Lists(), mode), DetailedReports(e.policy, facts))
  }

  ghost function DroppedEntries(ids: seq<PolicyIds>, mode: DutyMode, facts: Case): PolicyEvaluation -> Bag {
    (e: PolicyEvaluation) => DroppedBag(ids, mode, facts, e)
  }

  lemma OwnExpectedIsAccount(req: Request, ids: seq<PolicyIds>, rs: seq<Resolved>, c: Inputs)
    requires OwnCase(req, ids, c) && Accountable(req, ids, rs) && AllClonesAgree(req, ids, rs)
    ensures AllMerge(c, c.expected)
    ensures multiset(ExpectedOutstanding(c, c.expected))
          + Sum(DroppedEntries(ids, c.mode, req.Facts()), Evaluations(rs, rs, req))
         == Sum(Accounts(c.mode, req.Facts()), Evaluations(rs, rs, req))
  {
    OwnCaseMerges(req, ids, rs, c);
    NobodySkipped(rs, rs, req);
    ExpectedOutstandingIsSum(c, c.expected);
    var es := Evaluations(rs, rs, req);
    var f := (e: ExpectedPolicyReport) => PolicyBag(c, e);
    forall k | 0 <= k < |rs|
      ensures f(c.expected[k]) + DroppedEntries(ids, c.mode, req.Facts())(es[k]) == Accounts(c.mode, req.Facts())(es[k])
    {
      OwnPolicyBag(req, ids, rs, c, k);
    }
    SumsAdd(f, c.expected, DroppedEntries(ids, c.mode, req.Facts()), Accounts(c.mode, req.Facts()), es);
  }

  lemma OwnPolicyBag(req: Request, ids: seq<PolicyIds>, rs: seq<Resolved>, c: Inputs, k: nat)
    requires OwnCase(req, ids, c) && Accountable(req, ids, rs) && k < |rs| && ClonesAgreeIn(req, ids, rs, k)
    ensures |Evaluations(rs, rs, req)| == |rs| == |c.expected|
    ensures var e := Evaluations(rs, rs, req)[k];
      PolicyBag(c, c.expected[k]) + DroppedBag(ids, c.mode, req.Facts(), e) == AccountBag(c.mode, req.Facts(), e)
  {
    EvaluationOf(req, ids, rs, k);
    OwnExpectation(req, ids, rs, c, k);
    OwnReportAt(req, ids, rs, c, k);
    ShadowOf(req, ids, rs, k);
    var a := c.detailed.policyReports[k];
    assert a == PolicyReport(a.policyId, ReportsOf(req, rs, k), None);
    OwnOutstandingIsListed(
      Effective(rs, rs[k]).lists, Shadow(req, ids, k), c.mode, ReportsOf(req, rs, k), c.expected[k].ruleReports,
      a.policyId);
  }

  /** No duty in force for the request was cut off by the bound on consequences. */
  ghost predicate Uncut(req: Request, rs: seq<Resolved>) {
    forall k :: 0 <= k < |rs| ==> !AnyCut(Effective(rs, rs[k]), req.Facts())
  }

  lemma MissingIffAnyCut(req: Request, ids: seq<PolicyIds>, rs: seq<Resolved>, mode: DutyMode)
    requires Accountable(req, ids, rs)
    ensures Sum(MissingEntries(mode, req.Facts()), Evaluations(rs, rs, req)) == multiset{} <==> Uncut(req, rs)
  {
    NobodySkipped(rs, rs, req);
    var es, h := Evaluations(rs, rs, req), MissingEntries(mode, req.Facts());
    SumEmptyIff(h, es);
    forall k | 0 <= k < |rs| ensures h(es[k]) == multiset{} <==> !AnyCut(Effective(rs, rs[k]), req.Facts()) {
      NothingMissingIffUncut(ListingOf(mode, es[k]), es[k].policy, req.Facts());
    }
  }

  /** In the `k`th policy no duty to be listed shares its id with an obligation. */
  ghost predicate ApartIn(req: Request, ids: seq<PolicyIds>, rs: seq<Resolved>, k: nat)
    requires k < |rs|
  {
    && k < |req.policies| && MergedIds(ids, req.policies[k].id).Ok?
    && !SharedWithObligation(Effective(rs, rs[k]), req.Facts(), Shadow(req, ids, k))
  }

  ghost predicate ObligationsApart(req: Request, ids: seq<PolicyIds>, rs: seq<Resolved>) {
    forall k :: 0 <= k < |rs| ==> ApartIn(req, ids, rs, k)
  }

  lemma DroppedIffShared(req: Request, ids: seq<PolicyIds>, rs: seq<Resolved>, k: nat)
    requires Accountable(req, ids, rs) && k < |rs|
    ensures |Evaluations(rs, rs, req)| == |rs|
    ensures DroppedBag(ids, req.config.dutyMode, req.Facts(), Evaluations(rs, rs, req)[k]) == multiset{}
       <==> ApartIn(req, ids, rs, k)
  {
    EvaluationOf(req, ids, rs, k);
    ShadowOf(req, ids, rs, k);
    var e, m := Evaluations(rs, rs, req)[k], Shadow(req, ids, k);
    NothingDroppedIff(e.policyId, e.policy.lists, m, req.config.dutyMode, DetailedReports(e.policy, req.Facts()));
    NoneTakenIff(e.policy, req.Facts(), m);
  }

  lemma DroppedIffAnyShared(req: Request, ids: seq<PolicyIds>, rs: seq<Resolved>)
    requires Accountable(req, ids, rs)
    ensures Sum(DroppedEntries(ids, req.config.dutyMode, req.Facts()), Evaluations(rs, rs, req)) == multiset{}
       <==> ObligationsApart(req, ids, rs)
  {
    NobodySkipped(rs, rs, req);
    var es, h := Evaluations(rs, rs, req), DroppedEntries(ids, req.config.dutyMode, req.Facts());
    SumEmptyIff(h, es);
    forall k | 0 <= k < |rs| ensures h(es[k]) == multiset{} <==> ApartIn(req, ids, rs, k) {
      DroppedIffShared(req, ids, rs, k);
    }
  }

  lemma WithoutErrors(es: seq<PolicyEvaluation>, mode: DutyMode)
    requires es != [] && forall k :: 0 <= k < |es| ==> !es[k].outcome.decision.Error?
    ensures Respond(es, mode) == Response(Combine(es), AllDuties(es, mode))
  {
    assert Combine(es) != WireDecision.Error;
  }

  /** An accountable request is answered without an error, so its duties are listed. */
  lemma AnswerIs(req: Request, ids: seq<PolicyIds>, rs: seq<Resolved>)
    requires Accountable(req, ids, rs)
    ensures AnswerTo(req).response
         == Response(Combine(Evaluations(rs, rs, req)), AllDuties(Evaluations(rs, rs, req), req.config.dutyMode))
  {
    NobodySkipped(rs, rs, req);
    var es := Evaluations(rs, rs, req);
    forall k | 0 <= k < |es| ensures !es[k].outcome.decision.Error? {
      EvaluationOf(req, ids, rs, k);
    }
    WithoutErrors(es, req.config.dutyMode);
    AnswerIsProcessed(req, rs);
  }

  /** The coarse answer lists the account's outstanding duties and the ones that were cut off. */
  lemma AccountsPlusMissing(req: Request, ids: seq<PolicyIds>, rs: seq<Resolved>, mode: DutyMode)
    requires Accountable(req, ids, rs)
    ensures var es := Evaluations(rs, rs, req);
      Sum(Accounts(mode, req.Facts()), es) + Sum(MissingEntries(mode, req.Facts()), es)
      == multiset(ActualOutstanding(AllDuties(es, mode)))
  {
    NobodySkipped(rs, rs, req);
    var es := Evaluations(rs, rs, req);
    AllDutiesAreSum(es, mode);
    var g := (e: PolicyEvaluation) => EvaluationBag(mode, e);
    forall e | e in es ensures Accounts(mode, req.Facts())(e) + MissingEntries(mode, req.Facts())(e) == g(e) {
      var k :| 0 <= k < |es| && es[k] == e;
      AccountPlusMissing(req, ids, rs, mode, k);
    }
    SumAdds(Accounts(mode, req.Facts()), MissingEntries(mode, req.Facts()), g, es);
  }

  /** Where clones agree, the outstanding duties agree exactly when none was cut off or taken for another. */
  lemma OwnDutiesConformIff(req: Request, ids: seq<PolicyIds>, rs: seq<Resolved>, c: Inputs)
    requires OwnCase(req, ids, c) && Accountable(req, ids, rs) && AllClonesAgree(req, ids, rs)
    ensures AllMerge(c, c.expected)
    ensures DutiesConform(c) <==> Uncut(req, rs) && ObligationsApart(req, ids, rs)
  {
    OwnExpectedIsAccount(req, ids, rs, c);
    AnswerIs(req, ids, rs);
    AccountsPlusMissing(req, ids, rs, c.mode);
    MissingIffAnyCut(req, ids, rs, c.mode);
    DroppedIffAnyShared(req, ids, rs);
    SamePlusTwo(multiset(ExpectedOutstanding(c, c.expected)),
               Sum(DroppedEntries(ids, c.mode, req.Facts()), Evaluations(rs, rs, req)),
               Sum(MissingEntries(c.mode, req.Facts()), Evaluations(rs, rs, req)));
  }

  // ---------------------------------------------------------------
  // Check three
  // ---------------------------------------------------------------

  ghost predicate VerdictAgreesAt(vs: seq<PolicyVerdict>, es: seq<PolicyEvaluation>, k: nat)
    requires |vs| == |es| && k < |es|
  {
    Consistent(vs[k], es[k].outcome.decision)
  }

  /** Nothing is refused, and no denial is read as an Allow. */
  ghost predicate ErrByDenying(vs: seq<PolicyVerdict>, es: seq<PolicyEvaluation>)
    requires |vs| == |es|
  {
    forall k :: 0 <= k < |es| ==>
      !es[k].outcome.decision.Error? && (es[k].outcome.decision.Deny? ==> vs[k] != PolicyVerdict.Allow)
  }

  /** Verdicts that err only by denying pin the combined decision exactly when it denies or none of them errs. */
  lemma PinnedAgreesIff(vs: seq<PolicyVerdict>, es: seq<PolicyEvaluation>)
    requires |vs| == |es| && ErrByDenying(vs, es)
    ensures (PinnedDecision(vs).Some? ==> PinnedDecision(vs).value == Combine(es))
       <==> ((exists k :: 0 <= k < |es| && es[k].outcome.decision.Deny?)
             || (forall k :: 0 <= k < |es| ==> VerdictAgreesAt(vs, es, k)))
  {
    if k :| 0 <= k < |es| && es[k].outcome.decision.Deny? {
      assert vs[k] != PolicyVerdict.Allow;
    } else {
      forall k | 0 <= k < |es| ensures VerdictAgreesAt(vs, es, k) <==> vs[k] != PolicyVerdict.Deny {
      }
    }
  }

  /** In the `k`th policy no duty is read as an obligation outstanding though the engine allows. */
  ghost predicate ReadRightIn(req: Request, ids: seq<PolicyIds>, rs: seq<Resolved>, k: nat)
    requires k < |rs|
  {
    && k < |req.policies| && MergedIds(ids, req.policies[k].id).Ok?
    && !AllowedThoughRead(Effective(rs, rs[k]), req.Facts(), Shadow(req, ids, k))
  }

  ghost predicate DeniedIn(req: Request, rs: seq<Resolved>, k: nat)
    requires k < |rs|
  {
    !Permits(Effective(rs, rs[k]), req.Facts())
  }

  /** Some policy denies, or every allowed one is read right. */
  ghost predicate DecisionsReadRight(req: Request, ids: seq<PolicyIds>, rs: seq<Resolved>) {
    || (exists k :: 0 <= k < |rs| && DeniedIn(req, rs, k))
    || (forall k :: 0 <= k < |rs| ==> ReadRightIn(req, ids, rs, k))
  }

  lemma OwnVerdictAgrees(req: Request, ids: seq<PolicyIds>, rs: seq<Resolved>, c: Inputs, k: nat)
    requires OwnCase(req, ids, c) && Accountable(req, ids, rs) && k < |rs| && ClonesAgreeIn(req, ids, rs, k)
    requires !AnyCut(Effective(rs, rs[k]), req.Facts())
    ensures |Evaluations(rs, rs, req)| == |rs| == |c.expected| && MergedIds(c.policyIds, c.expected[k].policyId).Ok?
    ensures Consistent(
        Verdict(Merged(c, c.expected[k]), c.expected[k].ruleReports, c.mode, c.behaviour),
        Evaluations(rs, rs, req)[k].outcome.decision)
      <==> ReadRightIn(req, ids, rs, k)
    ensures DeniedIn(req, rs, k) ==> ReadRightIn(req, ids, rs, k)
    ensures DeniedIn(req, rs, k) <==> Evaluations(rs, rs, req)[k].outcome.decision.Deny?
  {
    EvaluationOf(req, ids, rs, k);
    OwnExpectation(req, ids, rs, c, k);
    OwnReportAt(req, ids, rs, c, k);
    ShadowOf(req, ids, rs, k);
    AgreeingTreeTells(Shadow(req, ids, k), ReportsOf(req, rs, k), c.expected[k].ruleReports);
    UncutErrsByDenying(Effective(rs, rs[k]), req.Facts(), Shadow(req, ids, k), c.expected[k].ruleReports);
  }

  lemma OwnVerdictAt(req: Request, ids: seq<PolicyIds>, rs: seq<Resolved>, c: Inputs, k: nat)
    requires OwnCase(req, ids, c) && Accountable(req, ids, rs) && AllMerge(c, c.expected)
    requires k < |rs| && ClonesAgreeIn(req, ids, rs, k) && !AnyCut(Effective(rs, rs[k]), req.Facts())
    ensures |Evaluations(rs, rs, req)| == |rs| == |c.expected|
    ensures var v, d := Verdicts(c, c.expected)[k], Evaluations(rs, rs, req)[k].outcome.decision;
      && !d.Error?
      && (Consistent(v, d) <==> ReadRightIn(req, ids, rs, k))
      && (DeniedIn(req, rs, k) <==> d.Deny?)
      && (d.Deny? ==> v != PolicyVerdict.Allow)
  {
    EvaluationOf(req, ids, rs, k);
    OwnVerdictAgrees(req, ids, rs, c, k);
  }

  lemma DeniedAt(req: Request, ids: seq<PolicyIds>, rs: seq<Resolved>, k: nat)
    requires Accountable(req, ids, rs) && k < |rs|
    ensures |Evaluations(rs, rs, req)| == |rs|
    ensures Evaluations(rs, rs, req)[k].outcome.decision.Deny? <==> DeniedIn(req, rs, k)
  {
    EvaluationOf(req, ids, rs, k);
    DecidesIff(Effective(rs, rs[k]), req.Facts());
  }

  lemma SomeDeniedIff(req: Request, ids: seq<PolicyIds>, rs: seq<Resolved>)
    requires Accountable(req, ids, rs)
    ensures |Evaluations(rs, rs, req)| == |rs|
    ensures (exists k :: 0 <= k < |rs| && Evaluations(rs, rs, req)[k].outcome.decision.Deny?)
       <==> (exists k :: 0 <= k < |rs| && DeniedIn(req, rs, k))
  {
    NobodySkipped(rs, rs, req);
    var es := Evaluations(rs, rs, req);
    forall k | 0 <= k < |rs| ensures DeniedIn(req, rs, k) <==> es[k].outcome.decision.Deny? {
      DeniedAt(req, ids, rs, k);
    }
  }

  lemma AllReadRightIff(req: Request, ids: seq<PolicyIds>, rs: seq<Resolved>, c: Inputs)
    requires OwnCase(req, ids, c) && Accountable(req, ids, rs) && AllMerge(c, c.expected)
    requires AllClonesAgree(req, ids, rs) && Uncut(req, rs)
    ensures |Evaluations(rs, rs, req)| == |rs| == |c.expected|
    ensures (forall k :: 0 <= k < |rs| ==> VerdictAgreesAt(Verdicts(c, c.expected), Evaluations(rs, rs, req), k))
       <==> (forall k :: 0 <= k < |rs| ==> ReadRightIn(req, ids, rs, k))
  {
    OwnCaseMerges(req, ids, rs, c);
    NobodySkipped(rs, rs, req);
    forall k | 0 <= k < |rs|
      ensures VerdictAgreesAt(Verdicts(c, c.expected), Evaluations(rs, rs, req), k) <==> ReadRightIn(req, ids, rs, k)
    {
      assert ClonesAgreeIn(req, ids, rs, k);
      OwnVerdictAt(req, ids, rs, c, k);
    }
  }

  lemma OwnVerdictsErrByDenying(req: Request, ids: seq<PolicyIds>, rs: seq<Resolved>, c: Inputs)
    requires OwnCase(req, ids, c) && Accountable(req, ids, rs) && AllMerge(c, c.expected)
    requires AllClonesAgree(req, ids, rs) && Uncut(req, rs)
    ensures |Evaluations(rs, rs, req)| == |rs| == |c.expected|
    ensures ErrByDenying(Verdicts(c, c.expected), Evaluations(rs, rs, req))
  {
    OwnCaseMerges(req, ids, rs, c);
    NobodySkipped(rs, rs, req);
    var es, vs := Evaluations(rs, rs, req), Verdicts(c, c.expected);
    forall k | 0 <= k < |es|
      ensures !es[k].outcome.decision.Error? && (es[k].outcome.decision.Deny? ==> vs[k] != PolicyVerdict.Allow)
    {
      assert ClonesAgreeIn(req, ids, rs, k);
      OwnVerdictAt(req, ids, rs, c, k);
    }
  }

  /** Where nothing is cut off, the decision agrees exactly when it is a denial or no verdict misreads it. */
  lemma OwnDecisionConformsIff(req: Request, ids: seq<PolicyIds>, rs: seq<Resolved>, c: Inputs)
    requires OwnCase(req, ids, c) && Accountable(req, ids, rs) && AllClonesAgree(req, ids, rs) && Uncut(req, rs)
    ensures AllMerge(c, c.expected)
    ensures DecisionConforms(c) <==> DecisionsReadRight(req, ids, rs)
  {
    OwnCaseMerges(req, ids, rs, c);
    AnswerIs(req, ids, rs);
    OwnVerdictsErrByDenying(req, ids, rs, c);
    PinnedAgreesIff(Verdicts(c, c.expected), Evaluations(rs, rs, req));
    SomeDeniedIff(req, ids, rs);
    AllReadRightIff(req, ids, rs, c);
  }

  lemma AccountablePassesIff(req: Request, ids: seq<PolicyIds>, rs: seq<Resolved>, c: Inputs)
    requires OwnCase(req, ids, c) && Accountable(req, ids, rs)
    ensures AllMerge(c, c.expected)
    ensures Conforms(c)
       <==> (Uncut(req, rs) && AllClonesAgree(req, ids, rs)
             && ObligationsApart(req, ids, rs) && DecisionsReadRight(req, ids, rs))
  {
    OwnCaseMerges(req, ids, rs, c);
    OwnPoliciesConformIff(req, ids, rs, c);
    if AllClonesAgree(req, ids, rs) {
      OwnDutiesConformIff(req, ids, rs, c);
      if Uncut(req, rs) {
        OwnDecisionConformsIff(req, ids, rs, c);
      }
    }
  }

  // ---------------------------------------------------------------
  // Requests some of whose policies are not evaluated
  // ---------------------------------------------------------------

  lemma {:induction false} EvaluatedOrSkipped(all: seq<Resolved>, rs: seq<Resolved>, req: Request)
    ensures |Evaluations(all, rs, req)| + |Skipped(rs, req)| == |rs|
    ensures Skipped(rs, req) == [] <==> NobodyElses(req, rs)
    ensures forall k :: 0 <= k < |Evaluations(all, rs, req)| ==>
      exists j :: 0 <= j < |rs| && Evaluations(all, rs, req)[k] == EvaluateOne(all, rs[j], req.Facts())
  {
    if rs != [] {
      EvaluatedOrSkipped(all, rs[..|rs| - 1], req);
      assert EvaluateOne(all, rs[|rs| - 1], req.Facts()) == EvaluateOne(all, rs[|rs| - 1], req.Facts());
    }
  }

  lemma UnprocessedIsRefused(req: Request)
    requires forall rs :: !Processed(req, rs)
    ensures AnswerTo(req).response.decision != WireDecision.Allow
    ensures AnswerTo(req).detailed == DetailedEvaluation([], [])
  {
    if req.policies != [] && ResolvedPolicies(req.policies, req.policies).Ok? {
      assert !Processed(req, ResolvedPolicies(req.policies, req.policies).value);
    }
  }

  lemma UnprocessedNeverPasses(req: Request, c: Inputs)
    requires forall rs :: !Processed(req, rs)
    requires c.response == AnswerTo(req).response && c.detailed == AnswerTo(req).detailed
    requires AllMerge(c, c.expected)
    ensures !Conforms(c)
  {
    UnprocessedIsRefused(req);
    if c.expected == [] {
      assert PinnedDecision(Verdicts(c, c.expected)) == Some(WireDecision.Allow);
    } else {
      assert c.expected[0] in c.expected && !PolicyConforms(Merged(c, c.expected[0]), c.expected[0], c.detailed);
    }
  }

  /** A policy addressed to somebody else keeps the case from passing. */
  lemma SkippedNeverPasses(req: Request, rs: seq<Resolved>, c: Inputs)
    requires Processed(req, rs) && !NobodyElses(req, rs) && c.detailed == AnswerTo(req).detailed
    ensures !EveryPolicyAccountedFor(c)
  {
    AnswerIsProcessed(req, rs);
    EvaluatedOrSkipped(rs, rs, req);
  }

  lemma ReportedIds(req: Request, rs: seq<Resolved>, detailed: DetailedEvaluation, k: nat)
    requires Processed(req, rs) && NobodyElses(req, rs) && k < |rs| && detailed == AnswerTo(req).detailed
    ensures |detailed.policyReports| == |rs| == |req.policies|
    ensures detailed.policyReports[k].policyId == req.policies[k].id
    ensures detailed.policyReports[k].evaluationError.None? <==> Recognized(Effective(rs, rs[k]), req.Facts())
  {
    ReportsAre(req, rs, detailed, k);
    ReportStates(rs, rs[k], req.Facts());
    assert ResolvedPolicy(req.policies, req.policies[k]) == Ok(rs[k]);
    ResolvedKeepsId(req.policies, req.policies[k]);
  }

  /**
   Whatever a case expects of the engine's own answer, it passes only if the engine looked at the
   policies, none of them was somebody else's, and the case names each of them; with distinct ids,
   none was refused for an unknown action either.
   */
  lemma PassingAccountsForAll(req: Request, c: Inputs) returns (rs: seq<Resolved>)
    requires c.response == AnswerTo(req).response && c.detailed == AnswerTo(req).detailed
    requires AllMerge(c, c.expected) && Conforms(c)
    ensures Processed(req, rs) && NobodyElses(req, rs) && |rs| == |req.policies| > 0
    ensures c.expected != [] && forall k :: 0 <= k < |rs| ==> PolicyExpected(c.expected, req.policies[k].id)
    ensures DistinctIds(Headers(req.policies)) ==> AllRecognized(req, rs)
  {
    if forall t :: !Processed(req, t) {
      UnprocessedNeverPasses(req, c);
    }
    rs :| Processed(req, rs);
    if !NobodyElses(req, rs) {
      SkippedNeverPasses(req, rs, c);
    }
    forall k | 0 <= k < |rs| ensures PolicyExpected(c.expected, req.policies[k].id) {
      ReportedIds(req, rs, c.detailed, k);
      assert c.detailed.policyReports[k] in c.detailed.policyReports;
    }
    assert PolicyExpected(c.expected, req.policies[0].id);
    forall k | 0 <= k < |rs| && DistinctIds(Headers(req.policies))
      ensures Recognized(Effective(rs, rs[k]), req.Facts())
    {
      ExpectedIsRecognized(req, rs, c, k);
    }
  }

  lemma ExpectedIsRecognized(req: Request, rs: seq<Resolved>, c: Inputs, k: nat)
    requires Processed(req, rs) && NobodyElses(req, rs) && k < |rs| == |req.policies|
    requires c.detailed == AnswerTo(req).detailed && DistinctIds(Headers(req.policies))
    requires AllMerge(c, c.expected) && Conforms(c) && PolicyExpected(c.expected, req.policies[k].id)
    ensures Recognized(Effective(rs, rs[k]), req.Facts())
  {
    ReportedIds(req, rs, c.detailed, k);
    forall j | 0 <= j < k ensures c.detailed.policyReports[j].policyId != c.detailed.policyReports[k].policyId {
      ReportedIds(req, rs, c.detailed, j);
      assert Headers(req.policies)[j].id != Headers(req.policies)[k].id;
    }
    FindPolicyAt(c.detailed.policyReports, k);
    var e :| e in c.expected && e.policyId == req.policies[k].id;
    assert PolicyConforms(Merged(c, e), e, c.detailed);
  }

  /** A case that expects nothing of the engine's own answer never passes, whatever was asked. */
  lemma NothingExpectedNeverPasses(req: Request, c: Inputs)
    requires c.expected == []
    requires c.response == AnswerTo(req).response && c.detailed == AnswerTo(req).detailed
    ensures AllMerge(c, c.expected) && !Conforms(c)
  {
    if Conforms(c) {
      var rs := PassingAccountsForAll(req, c);
    }
  }

  lemma ReportedMerges(req: Request, ids: seq<PolicyIds>, rs: seq<Resolved>, c: Inputs, k: nat)
    requires OwnCase(req, ids, c) && Processed(req, rs) && k < |c.expected|
    ensures MergedIds(c.policyIds, c.expected[k].policyId).Ok?
  {
    var j := ReportedIsOne(req, rs, c.detailed, k);
    assert RestatesReport(ids, c.expected[k], c.detailed.policyReports[k]);
    ShadowOf(req, ids, rs, j);
  }

  /** Whatever is reported on is one of the resolved policies. */
  lemma ReportedIsOne(req: Request, rs: seq<Resolved>, detailed: DetailedEvaluation, k: nat) returns (j: nat)
    requires Processed(req, rs) && detailed == AnswerTo(req).detailed && k < |detailed.policyReports|
    ensures j < |rs| && detailed.policyReports[k].policyId == rs[j].policy.id
  {
    AnswerIsProcessed(req, rs);
    EvaluatedOrSkipped(rs, rs, req);
    var es := Evaluations(rs, rs, req);
    assert detailed.policyReports[k] == ReportOne(es[k], req.Facts());
    j :| 0 <= j < |rs| && es[k] == EvaluateOne(rs, rs[j], req.Facts());
    ReportStates(rs, rs[j], req.Facts());
  }

  /** Policies the engine reports on are policies of the request, so their shadows merge. */
  lemma AllReportedMerge(req: Request, ids: seq<PolicyIds>, rs: seq<Resolved>, c: Inputs)
    requires OwnCase(req, ids, c) && Processed(req, rs)
    ensures AllMerge(c, c.expected)
  {
    forall e | e in c.expected ensures MergedIds(c.policyIds, e.policyId).Ok? {
      var k :| 0 <= k < |c.expected| && c.expected[k] == e;
      ReportedMerges(req, ids, rs, c, k);
    }
  }

  // ---------------------------------------------------------------
  // The theorem
  // ---------------------------------------------------------------

  /** In the `k`th policy the clones of a composite rule are alike in what the comparer looks at. */
  ghost predicate CompositesAlikeIn(req: Request, ids: seq<PolicyIds>, rs: seq<Resolved>, k: nat)
    requires k < |rs|
  {
    && k < |req.policies| && MergedIds(ids, req.policies[k].id).Ok?
    && SameLists(Effective(rs, rs[k]).lists, Shadow(req, ids, k))
    && CompositesAlike(Effective(rs, rs[k]), req.Facts(), Shadow(req, ids, k))
  }

  ghost predicate AllCompositesAlike(req: Request, ids: seq<PolicyIds>, rs: seq<Resolved>) {
    forall k :: 0 <= k < |rs| ==> CompositesAlikeIn(req, ids, rs, k)
  }

  lemma ClonesAgreeAt(req: Request, ids: seq<PolicyIds>, rs: seq<Resolved>, k: nat)
    requires Shadowed(req, ids) && Processed(req, rs) && k < |rs|
    ensures ClonesAgreeIn(req, ids, rs, k) <==> CompositesAlikeIn(req, ids, rs, k)
  {
    ShadowOf(req, ids, rs, k);
    ClonesAgreeIff(Effective(rs, rs[k]), req.Facts(), Shadow(req, ids, k));
  }

  lemma AllClonesAgreeIff(req: Request, ids: seq<PolicyIds>, rs: seq<Resolved>)
    requires Shadowed(req, ids) && Processed(req, rs)
    ensures AllClonesAgree(req, ids, rs) <==> AllCompositesAlike(req, ids, rs)
  {
    forall k | 0 <= k < |rs| ensures ClonesAgreeIn(req, ids, rs, k) <==> CompositesAlikeIn(req, ids, rs, k) {
      ClonesAgreeAt(req, ids, rs, k);
    }
  }

  /**
   What it takes for a request's own answer to pass: the engine looks at the policies, every one
   of them is addressed to the caller and names known actions only, no duty in force has a chain
   of consequences longer than the engine walks, the clones of composite rules are alike, and under
   deny mode no duty that is due is mistaken for an obligation of the same id.
   */
  ghost predicate PassesItself(req: Request, ids: seq<PolicyIds>) {
    match ResolvedPolicies(req.policies, req.policies)
    case Err(_) => false
    case Ok(rs) =>
      && Processed(req, rs)
      && NobodyElses(req, rs)
      && AllRecognized(req, rs)
      && Uncut(req, rs)
      && AllCompositesAlike(req, ids, rs)
      && ObligationsApart(req, ids, rs)
      && DecisionsReadRight(req, ids, rs)
  }

  lemma ProcessedPassesIff(req: Request, ids: seq<PolicyIds>, rs: seq<Resolved>, c: Inputs)
    requires OwnCase(req, ids, c) && Processed(req, rs)
    ensures AllMerge(c, c.expected)
    ensures Conforms(c)
       <==> (NobodyElses(req, rs) && AllRecognized(req, rs) && Uncut(req, rs)
             && AllCompositesAlike(req, ids, rs) && ObligationsApart(req, ids, rs) && DecisionsReadRight(req, ids, rs))
  {
    AllReportedMerge(req, ids, rs, c);
    AllClonesAgreeIff(req, ids, rs);
    if !NobodyElses(req, rs) {
      SkippedNeverPasses(req, rs, c);
    } else if !AllRecognized(req, rs) {
      OwnPoliciesConformIff(req, ids, rs, c);
    } else {
      AccountablePassesIff(req, ids, rs, c);
    }
  }

  /** For every request: its own answer, expected of it, passes the comparer exactly when the above holds. */
  lemma OwnAccountPassesIff(req: Request, ids: seq<PolicyIds>, c: Inputs)
    requires OwnCase(req, ids, c)
    ensures AllMerge(c, c.expected)
    ensures Conforms(c) <==> PassesItself(req, ids)
  {
    if rs :| Processed(req, rs) {
      ProcessedPassesIff(req, ids, rs, c);
    } else {
      UnprocessedIsRefused(req);
      NothingExpectedNeverPasses(req, c);
    }
  }
}
