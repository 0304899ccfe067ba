/**
 What the engine answers to a whole request: which policies it looks at, what it reports of them,
 what it decides and which duties it lists, said of the request itself.
 */
module Answers {
  import opened Wrappers
  import opened Collections
  import opened Constraints
  import opened Actions
  import opened Inheritance
  import opened Rules
  import opened Policies
  import opened Merging
  import opened Heritage
  import opened Decisions
  import opened DecisionMeaning
  import opened AccountMeaning
  import opened Reports
  import opened Evaluation

  // ---------------------------------------------------------------
  // Which policies are looked at
  // ---------------------------------------------------------------

  /** The claim says the caller is this party, or the request that the party is one of the caller's collections. */
  ghost predicate KnownAs(req: Request, claim: string, party: string) {
    && claim in req.world.claims
    && (|| req.world.claims[claim] == Single(party)
        || (exists vs :: req.world.claims[claim] == Multi(vs) && party in vs)
        || party in req.partyCollections)
  }

  /** The request's configuration reads this claim for policies of that kind. */
  ghost predicate Reads(req: Request, kind: string, claim: string) {
    || req.config.partyIdentityClaim == Some(claim)
    || (kind == "Agreement" && req.config.agreementAssigneeClaim == Some(claim))
  }

  /** The policy names an assignee whom a claim the engine reads does not show the caller to be. */
  ghost predicate ForAnother(p: WirePolicy, req: Request) {
    && p.kind != "Offer"
    && exists party, claim ::
      p.assignee == Some(party) && Reads(req, p.kind, claim) && !KnownAs(req, claim, party)
  }

  lemma NotAssigneeIff(req: Request, claim: string, party: string)
    ensures NotAssignee(req, claim, party) <==> !KnownAs(req, claim, party)
  {
  }

  lemma MismatchIff(p: WirePolicy, req: Request)
    ensures PartyMismatch(p, req) <==> ForAnother(p, req)
  {
    forall party, claim ensures NotAssignee(req, claim, party) <==> !KnownAs(req, claim, party) {
      NotAssigneeIff(req, claim, party);
    }
    if PartyMismatch(p, req) {
      var claim := if p.kind == "Agreement" && req.config.agreementAssigneeClaim.Some?
          && NotAssignee(req, req.config.agreementAssigneeClaim.value, p.assignee.value)
        then req.config.agreementAssigneeClaim.value
        else req.config.partyIdentityClaim.value;
      assert p.assignee == Some(p.assignee.value) && Reads(req, p.kind, claim);
    }
  }

  /** Some policy has, of its own or from an ancestor, a profile that is not the loaded one. */
  ghost predicate AnotherProfile(rs: seq<Resolved>, loaded: string) {
    exists r, profile :: r in rs && profile in r.policy.profile && profile != loaded
  }

  lemma UnknownProfileIff(rs: seq<Resolved>, loaded: string)
    ensures UnknownProfile(rs, loaded) <==> AnotherProfile(rs, loaded)
  {
    if r, profile :| r in rs && profile in r.policy.profile && profile != loaded {
      var k :| 0 <= k < |rs| && rs[k] == r;
      var j :| 0 <= j < |r.policy.profile| && r.policy.profile[j] == profile;
      assert rs[k].policy.profile[j] != loaded;
    }
    if k, j :| 0 <= k < |rs| && 0 <= j < |rs[k].policy.profile| && rs[k].policy.profile[j] != loaded {
      assert rs[k] in rs && rs[k].policy.profile[j] in rs[k].policy.profile;
    }
  }

  // ---------------------------------------------------------------
  // One policy
  // ---------------------------------------------------------------

  /** Of the policies with this id, the last inherits strategies that differ. */
  ghost predicate VoidOnCollision(all: seq<Resolved>, id: Id) {
    exists k: nat :: IsLastOf(all, id, k) && all[k].conflictsDiffer
  }

  ghost predicate IsLastOf(all: seq<Resolved>, id: Id, k: nat) {
    && k < |all| && all[k].policy.id == id
    && forall j :: k < j < |all| ==> all[j].policy.id != id
  }

  lemma {:induction false} ForcedIff(all: seq<Resolved>, id: Id)
    ensures ForcedInvalid(all, id) <==> VoidOnCollision(all, id)
  {
    if all != [] {
      var n := |all| - 1;
      var before := all[..n];
      if all[n].policy.id == id {
        assert IsLastOf(all, id, n);
      } else {
        ForcedIff(before, id);
        forall k: nat ensures IsLastOf(before, id, k) <==> IsLastOf(all, id, k) {
          assert forall j :: 0 <= j < n ==> before[j] == all[j];
          assert all[n].policy.id != id;
        }
      }
    }
  }

  /** The policy that is decided: the resolved one, void on collision where its line's strategies differ. */
  ghost function AsDecided(all: seq<Resolved>, r: Resolved): Policy {
    Policy(
      RuleLists(r.policy.permissions, r.policy.prohibitions, r.policy.obligations),
      if VoidOnCollision(all, r.policy.id) then Invalid else r.policy.conflict)
  }

  /** What every policy of the request is decided against. */
  function Asked(req: Request): Case {
    Case(req.world, req.config, Query(req.action, req.datasetId, req.assetCollections))
  }

  ghost predicate NamesUnknown(p: Policy, c: Case) {
    exists a :: Named(p, a) && !Recognizes(c.config.actions, a)
  }

  /** What is reported of one policy: its account, or an unknown action that it names. */
  ghost predicate ReportsOn(report: PolicyReport, id: Id, p: Policy, c: Case) {
    && report.policyId == id
    && (if NamesUnknown(p, c) then
          && report.ruleReports == [] && report.evaluationError.Some?
          && Named(p, report.evaluationError.value) && !Recognizes(c.config.actions, report.evaluationError.value)
        else
          && report.evaluationError.None? && InOrder(report.ruleReports, ReportStanding)
          && forall r :: r in report.ruleReports <==>
               SaidOfPermission(p, c, r) || SaidOfProhibition(p, c, r) || SaidOfDuty(p, c, r))
  }

  lemma OneReport(all: seq<Resolved>, r: Resolved, c: Case)
    ensures ReportsOn(ReportOne(EvaluateOne(all, r, c), c), r.policy.id, AsDecided(all, r), c)
    ensures EvaluateOne(all, r, c).outcome == Decide(AsDecided(all, r), c)
    ensures EvaluateOne(all, r, c).policyId == r.policy.id
  {
    ForcedIff(all, r.policy.id);
    var p := AsDecided(all, r);
    assert Effective(all, r) == p;
    RefusedIffUnknown(p, c);
    AccountInOrder(p, c);
    forall x: RuleReport
      ensures x in DetailedReports(p, c)
         <==> SaidOfPermission(p, c, x) || SaidOfProhibition(p, c, x) || SaidOfDuty(p, c, x)
    {
      AccountMeans(p, c, x);
    }
  }

  // ---------------------------------------------------------------
  // All of them
  // ---------------------------------------------------------------

  ghost function LookedAt(rs: seq<Resolved>, req: Request): seq<Resolved> {
    Kept(rs, (r: Resolved) => !ForAnother(r.policy, req))
  }

  ghost function LeftOut(rs: seq<Resolved>, req: Request): seq<Resolved> {
    Kept(rs, (r: Resolved) => ForAnother(r.policy, req))
  }

  ghost predicate AreEvaluated(es: seq<PolicyEvaluation>, all: seq<Resolved>, rs: seq<Resolved>, req: Request) {
    |es| == |rs| && forall k :: 0 <= k < |es| ==> es[k] == EvaluateOne(all, rs[k], Asked(req))
  }

  ghost predicate AreIds(ids: seq<Id>, rs: seq<Resolved>) {
    |ids| == |rs| && forall k :: 0 <= k < |ids| ==> ids[k] == rs[k].policy.id
  }

  lemma {:induction false} EvaluatesKept(all: seq<Resolved>, rs: seq<Resolved>, req: Request)
    ensures AreEvaluated(Evaluations(all, rs, req), all, LookedAt(rs, req), req)
  {
    if rs != [] {
      var before, last := rs[..|rs| - 1], rs[|rs| - 1];
      EvaluatesKept(all, before, req);
      MismatchIff(last.policy, req);
      KeptOneMore(before, last, (r: Resolved) => !ForAnother(r.policy, req));
      assert rs == before + [last];
      assert LookedAt(rs, req) == LookedAt(before, req) + if ForAnother(last.policy, req) then [] else [last];
    }
  }

  lemma {:induction false} SkipsLeftOut(rs: seq<Resolved>, req: Request)
    ensures AreIds(Skipped(rs, req), LeftOut(rs, req))
  {
    if rs != [] {
      var before, last := rs[..|rs| - 1], rs[|rs| - 1];
      SkipsLeftOut(before, req);
      MismatchIff(last.policy, req);
      KeptOneMore(before, last, (r: Resolved) => ForAnother(r.policy, req));
      assert rs == before + [last];
      assert LeftOut(rs, req) == LeftOut(before, req) + if ForAnother(last.policy, req) then [last] else [];
    }
  }

  ghost predicate ReportsOnAll(reports: seq<PolicyReport>, all: seq<Resolved>, rs: seq<Resolved>, c: Case) {
    && |reports| == |rs|
    && forall k :: 0 <= k < |rs| ==> ReportsOn(reports[k], rs[k].policy.id, AsDecided(all, rs[k]), c)
  }

  lemma ReportsAll(es: seq<PolicyEvaluation>, all: seq<Resolved>, rs: seq<Resolved>, req: Request)
    requires AreEvaluated(es, all, rs, req)
    ensures ReportsOnAll(ReportAll(es, Asked(req)), all, rs, Asked(req))
  {
    forall k | 0 <= k < |rs|
      ensures ReportsOn(ReportAll(es, Asked(req))[k], rs[k].policy.id, AsDecided(all, rs[k]), Asked(req))
    {
      OneReport(all, rs[k], Asked(req));
    }
  }

  // ---------------------------------------------------------------
  // The duties listed
  // ---------------------------------------------------------------

  /** Under deny mode an obligation of the policy itself is not listed: the denial says as much. */
  predicate Mentioned(mode: DutyMode, u: UnresolvedDuty) {
    !(mode == DutyMode.Deny && u.address.attachment == Obligation && u.address.depth == 0)
  }

  function Entries(id: Id, us: seq<UnresolvedDuty>): (r: seq<DutyEntry>)
    ensures |r| == |us| && forall k :: 0 <= k < |r| ==> r[k] == DutyEntry(id, us[k].action)
  {
    seq(|us|, k requires 0 <= k < |us| => DutyEntry(id, us[k].action))
  }

  /** The duties outstanding on one policy, in its order. */
  ghost function Owed(id: Id, p: Policy, c: Case): seq<DutyEntry> {
    Entries(id, Kept(Decide(p, c).unresolvedDuties, (u: UnresolvedDuty) => Mentioned(c.config.dutyMode, u)))
  }

  ghost function OwedByAll(all: seq<Resolved>, rs: seq<Resolved>, c: Case): seq<DutyEntry> {
    if rs == [] then []
    else Owed(rs[0].policy.id, AsDecided(all, rs[0]), c) + OwedByAll(all, rs[1..], c)
  }

  lemma {:induction false} ListsMentioned(id: Id, us: seq<UnresolvedDuty>, mode: DutyMode)
    ensures ListedDuties(id, us, mode) == Entries(id, Kept(us, (u: UnresolvedDuty) => Mentioned(mode, u)))
  {
    if us != [] {
      ListsMentioned(id, us[1..], mode);
    }
  }

  lemma {:induction false} ListsAll(es: seq<PolicyEvaluation>, all: seq<Resolved>, rs: seq<Resolved>, req: Request)
    requires AreEvaluated(es, all, rs, req)
    ensures AllDuties(es, req.config.dutyMode) == OwedByAll(all, rs, Asked(req))
  {
    if es != [] {
      OneReport(all, rs[0], Asked(req));
      ListsMentioned(es[0].policyId, es[0].outcome.unresolvedDuties, req.config.dutyMode);
      ListsAll(es[1..], all, rs[1..], req);
      assert AllDuties(es, req.config.dutyMode)
        == Owed(rs[0].policy.id, AsDecided(all, rs[0]), Asked(req)) + OwedByAll(all, rs[1..], Asked(req));
    }
  }

  // ---------------------------------------------------------------
  // The answer
  // ---------------------------------------------------------------

  ghost predicate SomeUnknown(all: seq<Resolved>, rs: seq<Resolved>, c: Case) {
    exists r :: r in rs && NamesUnknown(AsDecided(all, r), c)
  }

  ghost predicate AllAllowed(all: seq<Resolved>, rs: seq<Resolved>, c: Case) {
    forall r :: r in rs ==> Allowed(AsDecided(all, r), c)
  }

  /** An unknown action is an error; otherwise every policy looked at has to allow, and there has to be one. */
  ghost predicate Responds(response: Response, all: seq<Resolved>, rs: seq<Resolved>, c: Case) {
    if SomeUnknown(all, rs, c) then response == Response(WireDecision.Error, [])
    else
      && response.decision == (if rs != [] && AllAllowed(all, rs, c) then WireDecision.Allow else WireDecision.Deny)
      && response.duties == OwedByAll(all, rs, c)
  }

  lemma OneDecision(all: seq<Resolved>, r: Resolved, c: Case)
    ensures var d := EvaluateOne(all, r, c).outcome.decision;
      && (d.Error? <==> NamesUnknown(AsDecided(all, r), c))
      && (!d.Error? ==> (d.Allow? <==> Allowed(AsDecided(all, r), c)))
  {
    OneReport(all, r, c);
    RefusedIffUnknown(AsDecided(all, r), c);
    if !NamesUnknown(AsDecided(all, r), c) {
      DecisionMeans(AsDecided(all, r), c);
    }
  }

  ghost predicate SomeError(es: seq<PolicyEvaluation>) {
    exists k :: 0 <= k < |es| && es[k].outcome.decision.Error?
  }

  lemma ErrorIff(es: seq<PolicyEvaluation>, all: seq<Resolved>, rs: seq<Resolved>, req: Request)
    requires AreEvaluated(es, all, rs, req)
    ensures SomeError(es) <==> SomeUnknown(all, rs, Asked(req))
  {
    if k :| 0 <= k < |es| && es[k].outcome.decision.Error? {
      OneDecision(all, rs[k], Asked(req));
      assert rs[k] in rs;
    }
    if r :| r in rs && NamesUnknown(AsDecided(all, r), Asked(req)) {
      var k :| 0 <= k < |rs| && rs[k] == r;
      OneDecision(all, r, Asked(req));
      assert es[k].outcome.decision.Error?;
    }
  }

  lemma AllowIff(es: seq<PolicyEvaluation>, all: seq<Resolved>, rs: seq<Resolved>, req: Request)
    requires AreEvaluated(es, all, rs, req) && !SomeUnknown(all, rs, Asked(req))
    ensures (exists k :: 0 <= k < |es| && es[k].outcome.decision.Deny?) <==> !AllAllowed(all, rs, Asked(req))
  {
    if k :| 0 <= k < |es| && es[k].outcome.decision.Deny? {
      OneDecision(all, rs[k], Asked(req));
      assert rs[k] in rs;
    }
    if r :| r in rs && !Allowed(AsDecided(all, r), Asked(req)) {
      var k :| 0 <= k < |rs| && rs[k] == r;
      OneDecision(all, r, Asked(req));
      assert es[k].outcome.decision.Deny?;
    }
  }

  lemma RespondsTo(es: seq<PolicyEvaluation>, all: seq<Resolved>, rs: seq<Resolved>, req: Request)
    requires AreEvaluated(es, all, rs, req)
    ensures Responds(Respond(es, req.config.dutyMode), all, rs, Asked(req))
  {
    ListsAll(es, all, rs, req);
    ErrorIff(es, all, rs, req);
    if !SomeUnknown(all, rs, Asked(req)) {
      AllowIff(es, all, rs, req);
      assert !SomeError(es);
    } else {
      assert SomeError(es);
    }
  }

  /** Every policy can be resolved: all that inheritance reaches is known, and nothing inherits from itself. */
  ghost predicate Resolvable(policies: seq<WirePolicy>) {
    forall p :: p in policies ==> WellFounded(ParentsOf(Headers(policies)), p.id)
  }

  ghost predicate MergedFrom(policies: seq<WirePolicy>, p: WirePolicy, r: Resolved) {
    exists line :: IsLine(policies, p, line) && Merges(line, r)
  }

  ghost predicate AreMerged(policies: seq<WirePolicy>, rs: seq<Resolved>) {
    |rs| == |policies| && forall k :: 0 <= k < |rs| ==> MergedFrom(policies, policies[k], rs[k])
  }

  const NOTHING: DetailedEvaluation := DetailedEvaluation([], [])

  /** What is answered once the policies are resolved. */
  ghost predicate IsAnswer(req: Request, rs: seq<Resolved>, a: Answer) {
    if AnotherProfile(rs, req.profileId) then a == Answer(Response(WireDecision.Error, []), NOTHING)
    else
      && AreIds(a.detailed.skippedPolicies, LeftOut(rs, req))
      && ReportsOnAll(a.detailed.policyReports, rs, LookedAt(rs, req), Asked(req))
      && Responds(a.response, rs, LookedAt(rs, req), Asked(req))
  }

  lemma ResolvedAreMerged(policies: seq<WirePolicy>)
    ensures ResolvedPolicies(policies, policies).Ok? <==> Resolvable(policies)
    ensures Resolvable(policies) ==> AreMerged(policies, ResolvedPolicies(policies, policies).value)
  {
    var parents := ParentsOf(Headers(policies));
    forall p | p in policies ensures ResolvedPolicy(policies, p).Ok? <==> WellFounded(parents, p.id) {
      SucceedsIffWellFounded(parents, p.id);
    }
    if Resolvable(policies) {
      forall k | 0 <= k < |policies| ensures ResolvedPolicy(policies, policies[k]).Ok? {
        assert policies[k] in policies;
      }
      forall k | 0 <= k < |policies|
        ensures MergedFrom(policies, policies[k], ResolvedPolicies(policies, policies).value[k])
      {
        ResolvedMeans(policies, policies[k]);
      }
    }
  }

  /** The answer to every request: an empty one is denied, an unresolvable one an error, any other is this. */
  lemma AnswerMeans(req: Request)
    ensures req.policies == [] ==> AnswerTo(req) == Answer(Response(WireDecision.Deny, []), NOTHING)
    ensures !Resolvable(req.policies) ==> AnswerTo(req) == Answer(Response(WireDecision.Error, []), NOTHING)
    ensures req.policies != [] && Resolvable(req.policies) ==>
      exists rs :: AreMerged(req.policies, rs) && IsAnswer(req, rs, AnswerTo(req))
  {
    ResolvedAreMerged(req.policies);
    if req.policies != [] && Resolvable(req.policies) {
      var rs := ResolvedPolicies(req.policies, req.policies).value;
      UnknownProfileIff(rs, req.profileId);
      EvaluatesKept(rs, rs, req);
      SkipsLeftOut(rs, req);
      var es := Evaluations(rs, rs, req);
      ReportsAll(es, rs, LookedAt(rs, req), req);
      RespondsTo(es, rs, LookedAt(rs, req), req);
      assert IsAnswer(req, rs, AnswerTo(req));
    }
  }
}
