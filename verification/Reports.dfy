/** What a conformance case expects, and what the engine answered. */
module Reports {
  import opened Wrappers
  import opened Rules
  import opened Decisions

  datatype RuleKind = PermissionKind | ProhibitionKind | DutyKind

  /** An expected report names an RDF rule and states what it has an opinion on. */
  datatype ExpectedRuleReport = ExpectedRuleReport(
    kind: RuleKind,
    rule: string,
    activation: Option<string>,
    attempt: Option<string>,
    performance: Option<string>,
    deontic: Option<string>)
  {
    function Key(): RuleKey { RuleKey(kind, rule) }
  }

  datatype RuleKey = RuleKey(kind: RuleKind, rule: string)

  datatype ExpectedPolicyReport = ExpectedPolicyReport(policyId: string, ruleReports: seq<ExpectedRuleReport>)

  /** The engine's account of one policy; an error means it refused to evaluate it. */
  datatype PolicyReport = PolicyReport(policyId: string, ruleReports: seq<RuleReport>, evaluationError: Option<string>)

  datatype DetailedEvaluation = DetailedEvaluation(policyReports: seq<PolicyReport>, skippedPolicies: seq<string>)

  datatype WireDecision = Allow | Deny | Error

  datatype DutyEntry = DutyEntry(policyId: string, action: string)

  datatype Response = Response(decision: WireDecision, duties: seq<DutyEntry>)

  function ActivationName(s: Activation): string {
    match s
    case Active => "Active"
    case Inactive => "Inactive"
  }

  function AttemptName(s: Attempt): string {
    match s
    case Attempted => "Attempted"
    case NotAttempted => "NotAttempted"
  }

  function PerformanceName(s: Performance): string {
    match s
    case Performed => "Performed"
    case Unperformed => "Unperformed"
    case Unknown => "Unknown"
  }

  function DeonticName(s: Deontic): string {
    match s
    case NonSet => "NonSet"
    case Violated => "Violated"
    case Fulfilled => "Fulfilled"
  }

  // ---------------------------------------------------------------
  // Naming the rule a report is about
  // ---------------------------------------------------------------

  /** The RDF rule an index-addressed report is about, read off the merged id shadow. */
  function RuleIdOf(m: IdLists, r: RuleReport): Option<RuleKey> {
    match r
    case PermissionReport(i, _, _, _, _) =>
      if i < |m.permissions| then Some(RuleKey(PermissionKind, m.permissions[i].ruleId)) else None
    case ProhibitionReport(i, _, _, _, _) =>
      if i < |m.prohibitions| then Some(RuleKey(ProhibitionKind, m.prohibitions[i].ruleId)) else None
    case DutyReport(a, _, _, _) =>
      match IdsAt(m, a)
      case None => None
      case Some(node) => Some(RuleKey(DutyKind, node.ruleId))
  }

  function DutyAction(m: IdLists, a: DutyAddress): string {
    match IdsAt(m, a)
    case None => ""
    case Some(node) => node.action
  }

  /** `id` anywhere in one duty's chain of consequences. */
  function FindInChain(root: RuleIds, id: string): Option<RuleIds> {
    if root.ruleId == id then Some(root)
    else if root.consequence.None? then None
    else FindInChain(root.consequence.value, id)
  }

  function FindInList(duties: seq<RuleIds>, id: string): Option<RuleIds> {
    if duties == [] then None
    else FindInChain(duties[0], id).OrElse(FindInList(duties[1..], id))
  }

  function FindInDuties(permissions: seq<RuleIds>, id: string): Option<RuleIds> {
    if permissions == [] then None
    else FindInList(permissions[0].duty, id).OrElse(FindInDuties(permissions[1..], id))
  }

  function FindInRemedies(prohibitions: seq<RuleIds>, id: string): Option<RuleIds> {
    if prohibitions == [] then None
    else FindInList(prohibitions[0].remedy, id).OrElse(FindInRemedies(prohibitions[1..], id))
  }

  function FindRuleIds(m: IdLists, id: string): Option<RuleIds> {
    FindInList(m.obligations, id).OrElse(FindInDuties(m.permissions, id)).OrElse(FindInRemedies(m.prohibitions, id))
  }

  /** The node carries no consequence; an id nobody knows counts as terminal. */
  predicate IsTerminal(m: IdLists, id: string) {
    match FindRuleIds(m, id)
    case None => true
    case Some(node) => node.consequence.None?
  }

  predicate IsPlainPolicyObligation(m: IdLists, id: string) {
    exists k :: 0 <= k < |m.obligations| && m.obligations[k].ruleId == id
  }

  predicate InObligationChain(m: IdLists, id: string) {
    exists k :: 0 <= k < |m.obligations| && FindInChain(m.obligations[k], id).Some?
  }

  // ---------------------------------------------------------------
  // The verdict an expected tree implies
  // ---------------------------------------------------------------

  datatype PolicyVerdict = Allow | Deny | Indeterminate

  predicate StatedActive(e: seq<ExpectedRuleReport>, kind: RuleKind) {
    exists k :: 0 <= k < |e| && e[k].kind == kind && e[k].activation == Some("Active")
  }

  /** A duty expected to be due and not done, at the end of its chain. */
  predicate StatedOutstanding(m: IdLists, x: ExpectedRuleReport) {
    && x.kind == DutyKind
    && x.activation == Some("Active")
    && x.performance == Some("Unperformed")
    && IsTerminal(m, x.rule)
  }

  predicate StatedObligationOutstanding(m: IdLists, e: seq<ExpectedRuleReport>) {
    exists k :: 0 <= k < |e| && StatedOutstanding(m, e[k]) && InObligationChain(m, e[k].rule)
  }

  function Verdict(m: IdLists, e: seq<ExpectedRuleReport>, mode: DutyMode, behaviour: Behaviour): PolicyVerdict {
    if StatedActive(e, ProhibitionKind) || (mode == DutyMode.Deny && StatedObligationOutstanding(m, e)) then
      PolicyVerdict.Deny
    else if StatedActive(e, PermissionKind) then PolicyVerdict.Allow
    else if m.permissions == [] then
      (match behaviour case Open => PolicyVerdict.Allow case Closed => PolicyVerdict.Deny)
    else if mode == DutyMode.Deny then PolicyVerdict.Deny
    else PolicyVerdict.Indeterminate
  }

  /** The decision the per-policy verdicts pin for the whole request, if they pin one. */
  function PinnedDecision(verdicts: seq<PolicyVerdict>): Option<WireDecision> {
    if PolicyVerdict.Deny in verdicts then Some(WireDecision.Deny)
    else if forall k :: 0 <= k < |verdicts| ==> verdicts[k] == PolicyVerdict.Allow then Some(WireDecision.Allow)
    else None
  }
}
