/** The engine's answer to a whole request: the coarse response and the detailed evaluation. */
module Evaluation {
  import opened Wrappers
  import opened Constraints
  import opened Inheritance
  import opened Policies
  import opened Merging
  import opened Decisions
  import opened Reports

  datatype Request = Request(
    datasetId: string,
    action: string,
    profileId: string,
    config: Config,
    policies: seq<WirePolicy>,
    world: World,
    assetCollections: seq<string>,
    partyCollections: seq<string>)
  {
    function Facts(): Case {
      Case(world, config, Query(action, datasetId, assetCollections))
    }
  }

  // ---------------------------------------------------------------
  // Which policies are evaluated
  // ---------------------------------------------------------------

  /** The caller is not known, under `key`, to be `assignee` or a member of it. */
  predicate NotAssignee(req: Request, key: string, assignee: string) {
    !(key in req.world.claims && (req.world.claims[key].Matches(assignee) || assignee in req.partyCollections))
  }

  /** The policy is addressed to somebody else. An offer never is. */
  predicate PartyMismatch(p: WirePolicy, req: Request) {
    && p.kind != "Offer"
    && p.assignee.Some?
    && (|| (p.kind == "Agreement" && req.config.agreementAssigneeClaim.Some?
            && NotAssignee(req, req.config.agreementAssigneeClaim.value, p.assignee.value))
        || (req.config.partyIdentityClaim.Some?
            && NotAssignee(req, req.config.partyIdentityClaim.value, p.assignee.value)))
  }

  predicate UnknownProfile(rs: seq<Resolved>, loaded: string) {
    exists k, j :: 0 <= k < |rs| && 0 <= j < |rs[k].policy.profile| && rs[k].policy.profile[j] != loaded
  }

  /** Whether a policy id is voided on collision: of policies that share one, the last says. */
  predicate ForcedInvalid(all: seq<Resolved>, id: Id) {
    if all == [] then false
    else
      var last := all[|all| - 1];
      if last.policy.id == id then last.conflictsDiffer else ForcedInvalid(all[..|all| - 1], id)
  }

  /** The policy as decided: void on collision when its declared strategies differ. */
  function Effective(all: seq<Resolved>, r: Resolved): Policy {
    Policy(r.policy.Lists(), if ForcedInvalid(all, r.policy.id) then Invalid else r.policy.conflict)
  }

  datatype PolicyEvaluation = PolicyEvaluation(policyId: Id, policy: Policy, outcome: DecisionOutcome)

  function EvaluateOne(all: seq<Resolved>, r: Resolved, c: Case): PolicyEvaluation {
    PolicyEvaluation(r.policy.id, Effective(all, r), Decide(Effective(all, r), c))
  }

  function Evaluations(all: seq<Resolved>, rs: seq<Resolved>, req: Request): seq<PolicyEvaluation> {
    if rs == [] then []
    else
      var last := rs[|rs| - 1];
      var before := Evaluations(all, rs[..|rs| - 1], req);
      if PartyMismatch(last.policy, req) then before else before + [EvaluateOne(all, last, req.Facts())]
  }

  function Skipped(rs: seq<Resolved>, req: Request): seq<Id> {
    if rs == [] then []
    else
      var last := rs[|rs| - 1];
      var before := Skipped(rs[..|rs| - 1], req);
      if PartyMismatch(last.policy, req) then before + [last.policy.id] else before
  }

  // ---------------------------------------------------------------
  // The answer
  // ---------------------------------------------------------------

  /** Across policies an error outweighs a denial, and a denial outweighs a permission. */
  function Combine(es: seq<PolicyEvaluation>): WireDecision {
    if exists k :: 0 <= k < |es| && es[k].outcome.decision.Error? then WireDecision.Error
    else if exists k :: 0 <= k < |es| && es[k].outcome.decision.Deny? then WireDecision.Deny
    else WireDecision.Allow
  }

  /** The duties of one policy that the coarse answer lists. */
  function ListedDuties(policyId: Id, duties: seq<UnresolvedDuty>, mode: DutyMode): seq<DutyEntry> {
    if duties == [] then []
    else
      (if mode == DutyMode.Deny && duties[0].IsPlainPolicyObligation() then []
       else [DutyEntry(policyId, duties[0].action)])
      + ListedDuties(policyId, duties[1..], mode)
  }

  function AllDuties(es: seq<PolicyEvaluation>, mode: DutyMode): seq<DutyEntry> {
    if es == [] then []
    else ListedDuties(es[0].policyId, es[0].outcome.unresolvedDuties, mode) + AllDuties(es[1..], mode)
  }

  function Respond(es: seq<PolicyEvaluation>, mode: DutyMode): Response {
    if es == [] then Response(WireDecision.Deny, [])
    else
      var decision := Combine(es);
      Response(decision, if decision == WireDecision.Error then [] else AllDuties(es, mode))
  }

  function ReportOne(e: PolicyEvaluation, c: Case): PolicyReport {
    match e.outcome.decision
    case Error(action) => PolicyReport(e.policyId, [], Some(action))
    case _ => PolicyReport(e.policyId, DetailedReports(e.policy, c), None)
  }

  function ReportAll(es: seq<PolicyEvaluation>, c: Case): (r: seq<PolicyReport>)
    ensures |r| == |es| && forall k :: 0 <= k < |r| ==> r[k] == ReportOne(es[k], c)
  {
    seq(|es|, k requires 0 <= k < |es| => ReportOne(es[k], c))
  }

  datatype Answer = Answer(response: Response, detailed: DetailedEvaluation)

  ghost function AnswerTo(req: Request): Answer {
    if req.policies == [] then Answer(Response(WireDecision.Deny, []), DetailedEvaluation([], []))
    else
      match ResolvedPolicies(req.policies, req.policies)
      case Err(_) => Answer(Response(WireDecision.Error, []), DetailedEvaluation([], []))
      case Ok(rs) =>
        if UnknownProfile(rs, req.profileId) then Answer(Response(WireDecision.Error, []), DetailedEvaluation([], []))
        else
          var es := Evaluations(rs, rs, req);
          Answer(Respond(es, req.config.dutyMode), DetailedEvaluation(ReportAll(es, req.Facts()), Skipped(rs, req)))
  }

  method EvaluateAll(rs: seq<Resolved>, req: Request) returns (evaluations: seq<PolicyEvaluation>, skipped: seq<Id>)
    ensures evaluations == Evaluations(rs, rs, req) && skipped == Skipped(rs, req)
  {
    skipped, evaluations := [], [];
    for k := 0 to |rs|
      invariant skipped == Skipped(rs[..k], req) && evaluations == Evaluations(rs, rs[..k], req)
    {
      assert rs[..k + 1][..k] == rs[..k];
      if PartyMismatch(rs[k].policy, req) {
        skipped := skipped + [rs[k].policy.id];
      } else {
        evaluations := evaluations + [EvaluateOne(rs, rs[k], req.Facts())];
      }
    }
    assert rs[..|rs|] == rs;
  }

  method EvaluateRequestDetailed(req: Request) returns (answer: Answer)
    ensures answer == AnswerTo(req)
  {
    if req.policies == [] {
      return Answer(Response(WireDecision.Deny, []), DetailedEvaluation([], []));
    }
    var resolved := ResolveInheritFrom(req.policies);
    if resolved.Err? {
      return Answer(Response(WireDecision.Error, []), DetailedEvaluation([], []));
    }
    if UnknownProfile(resolved.value, req.profileId) {
      return Answer(Response(WireDecision.Error, []), DetailedEvaluation([], []));
    }
    var evaluations, skipped := EvaluateAll(resolved.value, req);
    return Answer(
      Respond(evaluations, req.config.dutyMode),
      DetailedEvaluation(ReportAll(evaluations, req.Facts()), skipped));
  }

  lemma {:induction false} NobodySkipped(all: seq<Resolved>, rs: seq<Resolved>, req: Request)
    requires forall k :: 0 <= k < |rs| ==> !PartyMismatch(rs[k].policy, req)
    ensures Skipped(rs, req) == [] && |Evaluations(all, rs, req)| == |rs|
    ensures forall k :: 0 <= k < |rs| ==> Evaluations(all, rs, req)[k] == EvaluateOne(all, rs[k], req.Facts())
  {
    if rs != [] {
      NobodySkipped(all, rs[..|rs| - 1], req);
    }
  }
}
