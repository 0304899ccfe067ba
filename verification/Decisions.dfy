/** The engine's decision about one policy, and its detailed account of the same policy. */
module Decisions {
  import opened Wrappers
  import opened Collections
  import opened Constraints
  import opened Actions
  import opened Rules
  import opened Policies

  datatype DutyMode = Advise | Deny

  datatype Behaviour = Open | Closed

  datatype Config = Config(
    actions: Taxonomy,
    dutyMode: DutyMode,
    behaviour: Behaviour,
    partyIdentityClaim: Option<string>,
    agreementAssigneeClaim: Option<string>)

  /** What is asked about: an action, an asset, and the collections that asset belongs to. */
  datatype Query = Query(action: string, target: string, collections: seq<string>)

  /** Everything one policy is decided against. */
  datatype Case = Case(world: World, config: Config, query: Query)

  datatype Policy = Policy(lists: RuleLists, conflict: ConflictStrategy)

  // ---------------------------------------------------------------
  // One rule
  // ---------------------------------------------------------------

  predicate Matches(r: Rule, w: World) {
    forall k :: 0 <= k < |r.constraints| ==> Evaluate(r.constraints[k], w)
  }

  predicate RefinementSatisfied(r: Rule, w: World) {
    r.refinement.Some? ==> Evaluate(r.refinement.value, w)
  }

  predicate Applies(r: Rule, c: Case) {
    && (r.target.Some? ==> r.target.value == c.query.target || r.target.value in c.query.collections)
    && Covers(c.config.actions, r.action, c.query.action)
    && RefinementSatisfied(r, c.world)
  }

  /** A permission in play, or a prohibition that fires. */
  predicate InPlay(r: Rule, c: Case) {
    Applies(r, c) && Matches(r, c.world)
  }

  /** An unconstrained duty is never satisfied: nothing could confirm it. */
  predicate DutySatisfied(r: Rule, w: World) {
    r.constraints != [] && Matches(r, w) && RefinementSatisfied(r, w)
  }

  const MAX_CONSEQUENCE_DEPTH: nat := 4

  datatype OutstandingDuty = OutstandingDuty(action: string, depth: nat)

  /** The duty still outstanding once consequences have been followed from `d`. */
  function OutstandingAt(d: Rule, w: World, depth: nat): Option<OutstandingDuty>
    decreases d
  {
    if DutySatisfied(d, w) then None
    else if d.consequence.Some? && depth < MAX_CONSEQUENCE_DEPTH then
      OutstandingAt(d.consequence.value, w, depth + 1)
    else Some(OutstandingDuty(d.action, depth))
  }

  function Outstanding(d: Rule, w: World): Option<OutstandingDuty> {
    OutstandingAt(d, w, 0)
  }

  predicate DutiesResolved(r: Rule, w: World) {
    forall k :: 0 <= k < |r.duty| ==> Outstanding(r.duty[k], w).None?
  }

  predicate Grants(r: Rule, c: Case) {
    InPlay(r, c) && (c.config.dutyMode == DutyMode.Deny ==> DutiesResolved(r, c.world))
  }

  // ---------------------------------------------------------------
  // Unresolved duties
  // ---------------------------------------------------------------

  datatype UnresolvedDuty = UnresolvedDuty(action: string, address: DutyAddress)
  {
    predicate IsPlainPolicyObligation() {
      address.attachment == Obligation && address.depth == 0
    }
  }

  function ChainUnresolved(d: Rule, attachment: DutyAttachment, index: nat, w: World): seq<UnresolvedDuty> {
    match Outstanding(d, w)
    case None => []
    case Some(o) => [UnresolvedDuty(o.action, DutyAddress(attachment, index, o.depth))]
  }

  /** The outstanding duties among `duties[j..]`. */
  function ListUnresolved(duties: seq<Rule>, attachment: DutyAttachment, w: World, j: nat): seq<UnresolvedDuty>
    requires j <= |duties|
    decreases |duties| - j
  {
    if j == |duties| then []
    else ChainUnresolved(duties[j], attachment, j, w) + ListUnresolved(duties, attachment, w, j + 1)
  }

  function UnresolvedObligations(p: Policy, w: World): seq<UnresolvedDuty> {
    ListUnresolved(p.lists.obligations, Obligation, w, 0)
  }

  /** The duties outstanding on the permissions in play from the `i`th on. */
  function UnresolvedPermissionDuties(p: Policy, c: Case, i: nat): seq<UnresolvedDuty>
    requires i <= |p.lists.permissions|
    decreases |p.lists.permissions| - i
  {
    if i == |p.lists.permissions| then []
    else
      var r := p.lists.permissions[i];
      (if InPlay(r, c) then ListUnresolved(r.duty, PermissionDuty(i), c.world, 0) else [])
      + UnresolvedPermissionDuties(p, c, i + 1)
  }

  /** The remedies outstanding on the prohibitions that fire from the `i`th on. */
  function UnresolvedRemedies(p: Policy, c: Case, superseded: bool, i: nat): seq<UnresolvedDuty>
    requires i <= |p.lists.prohibitions|
    decreases |p.lists.prohibitions| - i
  {
    if superseded || i == |p.lists.prohibitions| then []
    else
      var r := p.lists.prohibitions[i];
      (if InPlay(r, c) then ListUnresolved(r.remedy, ProhibitionRemedy(i), c.world, 0) else [])
      + UnresolvedRemedies(p, c, superseded, i + 1)
  }

  // ---------------------------------------------------------------
  // Unrecognized actions
  // ---------------------------------------------------------------

  function FirstUnknown(rules: seq<Rule>, actions: Taxonomy): Option<string> {
    if rules == [] then None
    else if !Recognizes(actions, rules[0].action) then Some(rules[0].action)
    else FirstUnknown(rules[1..], actions)
  }

  function FirstUnknownInChain(d: Rule, actions: Taxonomy, depth: nat): Option<string>
    decreases d
  {
    if !Recognizes(actions, d.action) then Some(d.action)
    else if depth >= MAX_CONSEQUENCE_DEPTH || d.consequence.None? then None
    else FirstUnknownInChain(d.consequence.value, actions, depth + 1)
  }

  function FirstUnknownInChains(ds: seq<Rule>, actions: Taxonomy): Option<string> {
    if ds == [] then None
    else FirstUnknownInChain(ds[0], actions, 0).OrElse(FirstUnknownInChains(ds[1..], actions))
  }

  function FirstUnknownRemedy(rules: seq<Rule>, actions: Taxonomy): Option<string> {
    if rules == [] then None
    else FirstUnknownInChains(rules[0].remedy, actions).OrElse(FirstUnknownRemedy(rules[1..], actions))
  }

  function FirstUnknownDuty(rules: seq<Rule>, actions: Taxonomy): Option<string> {
    if rules == [] then None
    else FirstUnknownInChains(rules[0].duty, actions).OrElse(FirstUnknownDuty(rules[1..], actions))
  }

  /** An obligation's own action was checked before; only what lies below it is new. */
  function FirstUnknownConsequence(rules: seq<Rule>, actions: Taxonomy): Option<string> {
    if rules == [] then None
    else
      var below :=
        if rules[0].consequence.Some? then FirstUnknownInChain(rules[0].consequence.value, actions, 1) else None;
      below.OrElse(FirstUnknownConsequence(rules[1..], actions))
  }

  function FirstUnrecognized(p: Policy, actions: Taxonomy): Option<string> {
    FirstUnknown(p.lists.prohibitions, actions)
    .OrElse(FirstUnknown(p.lists.permissions, actions))
    .OrElse(FirstUnknown(p.lists.obligations, actions))
    .OrElse(FirstUnknownRemedy(p.lists.prohibitions, actions))
    .OrElse(FirstUnknownDuty(p.lists.permissions, actions))
    .OrElse(FirstUnknownConsequence(p.lists.obligations, actions))
  }

  // ---------------------------------------------------------------
  // The decision
  // ---------------------------------------------------------------

  datatype Decision = Allow | Deny | Error(action: string)

  datatype DecisionOutcome = DecisionOutcome(decision: Decision, unresolvedDuties: seq<UnresolvedDuty>)

  predicate AnyInPlay(rules: seq<Rule>, c: Case) {
    exists i :: 0 <= i < |rules| && InPlay(rules[i], c)
  }

  predicate AnyGrants(rules: seq<Rule>, c: Case) {
    exists i :: 0 <= i < |rules| && Grants(rules[i], c)
  }

  /** A permission grants, a prohibition fires, and the policy says the permission wins. */
  predicate PermissionWins(p: Policy, c: Case) {
    AnyInPlay(p.lists.prohibitions, c) && AnyGrants(p.lists.permissions, c) && p.conflict == Perm
  }

  predicate ObligationOutstanding(p: Policy, w: World) {
    UnresolvedObligations(p, w) != []
  }

  function Decide(p: Policy, c: Case): DecisionOutcome {
    match FirstUnrecognized(p, c.config.actions)
    case Some(action) => DecisionOutcome(Decision.Error(action), [])
    case None =>
      var denied := AnyInPlay(p.lists.prohibitions, c);
      var granted := AnyGrants(p.lists.permissions, c);
      var requirementMet := match c.config.behaviour
        case Open => p.lists.permissions == [] || granted
        case Closed => granted;
      var conflictActive := denied && granted;
      var permissionWins := conflictActive && p.conflict == Perm;
      var first :=
        if conflictActive then (if permissionWins then Decision.Allow else Decision.Deny)
        else if denied then Decision.Deny
        else if requirementMet then Decision.Allow
        else Decision.Deny;
      var obligations := UnresolvedObligations(p, c.world);
      var unresolved :=
        obligations + UnresolvedPermissionDuties(p, c, 0) + UnresolvedRemedies(p, c, permissionWins, 0);
      DecisionOutcome(
        if c.config.dutyMode == DutyMode.Deny && obligations != [] then Decision.Deny else first,
        unresolved)
  }

  // ---------------------------------------------------------------
  // The detailed account
  // ---------------------------------------------------------------

  datatype Activation = Active | Inactive

  datatype Attempt = Attempted | NotAttempted

  datatype Performance = Performed | Unperformed | Unknown

  datatype Deontic = NonSet | Violated | Fulfilled

  datatype RuleReport =
    | PermissionReport(
        ruleIndex: nat, activation: Activation, attempt: Attempt, performance: Performance, deontic: Deontic)
    | ProhibitionReport(
        ruleIndex: nat, activation: Activation, attempt: Attempt, performance: Performance, deontic: Deontic)
    | DutyReport(address: DutyAddress, activation: Activation, performance: Performance, deontic: Deontic)

  function DutyReportFor(address: DutyAddress, inForce: bool, satisfied: bool): RuleReport {
    if !inForce then DutyReport(address, Inactive, Unknown, NonSet)
    else if satisfied then DutyReport(address, Active, Performed, Fulfilled)
    else DutyReport(address, Active, Unperformed, Violated)
  }

  /** A duty and every consequence below it; the first one past the bound ends the list. */
  function ChainReports(d: Rule, attachment: DutyAttachment, index: nat, depth: nat, inForce: bool, w: World)
    : seq<RuleReport>
    decreases d
  {
    var effective := inForce && depth <= MAX_CONSEQUENCE_DEPTH;
    var satisfied := DutySatisfied(d, w);
    var here := DutyReportFor(DutyAddress(attachment, index, depth), effective, satisfied);
    if depth > MAX_CONSEQUENCE_DEPTH || d.consequence.None? then [here]
    else [here] + ChainReports(d.consequence.value, attachment, index, depth + 1, effective && !satisfied, w)
  }

  function ListReports(duties: seq<Rule>, attachment: DutyAttachment, inForce: bool, w: World, j: nat): seq<RuleReport>
    requires j <= |duties|
    decreases |duties| - j
  {
    if j == |duties| then []
    else ChainReports(duties[j], attachment, j, 0, inForce, w) + ListReports(duties, attachment, inForce, w, j + 1)
  }

  /** A granting permission that some duty, conflict or obligation still holds back is not active. */
  predicate PermissionActive(p: Policy, c: Case, i: nat)
    requires i < |p.lists.permissions|
  {
    && Grants(p.lists.permissions[i], c)
    && DutiesResolved(p.lists.permissions[i], c.world)
    && (AnyInPlay(p.lists.prohibitions, c) ==> p.conflict == Perm)
    && !(c.config.dutyMode == DutyMode.Deny && ObligationOutstanding(p, c.world))
  }

  predicate ProhibitionActive(p: Policy, c: Case, i: nat)
    requires i < |p.lists.prohibitions|
  {
    InPlay(p.lists.prohibitions[i], c) && !PermissionWins(p, c)
  }

  function AttemptOf(r: Rule, c: Case): Attempt {
    if Applies(r, c) then Attempted else NotAttempted
  }

  function PermissionReportFor(p: Policy, c: Case, i: nat): RuleReport
    requires i < |p.lists.permissions|
  {
    var attempt := AttemptOf(p.lists.permissions[i], c);
    if PermissionActive(p, c, i) then PermissionReport(i, Active, attempt, Performed, Fulfilled)
    else PermissionReport(i, Inactive, attempt, Unperformed, NonSet)
  }

  function ProhibitionReportFor(p: Policy, c: Case, i: nat): RuleReport
    requires i < |p.lists.prohibitions|
  {
    var attempt := AttemptOf(p.lists.prohibitions[i], c);
    if ProhibitionActive(p, c, i) then ProhibitionReport(i, Active, attempt, Performed, Violated)
    else ProhibitionReport(i, Inactive, attempt, Unknown, NonSet)
  }

  /** The reports on one permission and its duties. */
  function PermissionPart(p: Policy, c: Case, i: nat): seq<RuleReport>
    requires i < |p.lists.permissions|
  {
    var r := p.lists.permissions[i];
    [PermissionReportFor(p, c, i)] + ListReports(r.duty, PermissionDuty(i), InPlay(r, c), c.world, 0)
  }

  function ProhibitionPart(p: Policy, c: Case, i: nat): seq<RuleReport>
    requires i < |p.lists.prohibitions|
  {
    var r := p.lists.prohibitions[i];
    [ProhibitionReportFor(p, c, i)]
    + ListReports(r.remedy, ProhibitionRemedy(i), ProhibitionActive(p, c, i), c.world, 0)
  }

  function PermissionReports(p: Policy, c: Case, i: nat): seq<RuleReport>
    requires i <= |p.lists.permissions|
    decreases |p.lists.permissions| - i
  {
    if i == |p.lists.permissions| then []
    else PermissionPart(p, c, i) + PermissionReports(p, c, i + 1)
  }

  function ProhibitionReports(p: Policy, c: Case, i: nat): seq<RuleReport>
    requires i <= |p.lists.prohibitions|
    decreases |p.lists.prohibitions| - i
  {
    if i == |p.lists.prohibitions| then []
    else ProhibitionPart(p, c, i) + ProhibitionReports(p, c, i + 1)
  }

  function DetailedReports(p: Policy, c: Case): seq<RuleReport> {
    PermissionReports(p, c, 0)
    + ProhibitionReports(p, c, 0)
    + ListReports(p.lists.obligations, Obligation, true, c.world, 0)
  }

  method DutyChainReports(root: Rule, attachment: DutyAttachment, index: nat, rootInForce: bool, w: World)
    returns (reports: seq<RuleReport>)
    ensures reports == ChainReports(root, attachment, index, 0, rootInForce, w)
  {
    reports := [];
    var current, inForce, depth := root, rootInForce, 0;
    while true
      invariant reports + ChainReports(current, attachment, index, depth, inForce, w)
             == ChainReports(root, attachment, index, 0, rootInForce, w)
      decreases current
    {
      var effective := inForce && depth <= MAX_CONSEQUENCE_DEPTH;
      var satisfied := DutySatisfied(current, w);
      var here := DutyReportFor(DutyAddress(attachment, index, depth), effective, satisfied);
      if depth > MAX_CONSEQUENCE_DEPTH || current.consequence.None? {
        return reports + [here];
      }
      Associates(
        reports, [here],
        ChainReports(current.consequence.value, attachment, index, depth + 1, effective && !satisfied, w));
      reports := reports + [here];
      inForce := effective && !satisfied;
      current := current.consequence.value;
      depth := depth + 1;
    }
  }

  method DutyListReports(duties: seq<Rule>, attachment: DutyAttachment, inForce: bool, w: World)
    returns (reports: seq<RuleReport>)
    ensures reports == ListReports(duties, attachment, inForce, w, 0)
  {
    reports := [];
    for j := 0 to |duties|
      invariant reports + ListReports(duties, attachment, inForce, w, j)
             == ListReports(duties, attachment, inForce, w, 0)
    {
      var chain := DutyChainReports(duties[j], attachment, j, inForce, w);
      Associates(reports, chain, ListReports(duties, attachment, inForce, w, j + 1));
      reports := reports + chain;
    }
  }

  method DerivePermissionReports(p: Policy, c: Case) returns (reports: seq<RuleReport>)
    ensures reports == PermissionReports(p, c, 0)
  {
    reports := [];
    for i := 0 to |p.lists.permissions|
      invariant reports + PermissionReports(p, c, i) == PermissionReports(p, c, 0)
    {
      var r := p.lists.permissions[i];
      var duties := DutyListReports(r.duty, PermissionDuty(i), InPlay(r, c), c.world);
      Associates(reports, PermissionPart(p, c, i), PermissionReports(p, c, i + 1));
      reports := reports + ([PermissionReportFor(p, c, i)] + duties);
    }
  }

  method DeriveProhibitionReports(p: Policy, c: Case) returns (reports: seq<RuleReport>)
    ensures reports == ProhibitionReports(p, c, 0)
  {
    reports := [];
    for i := 0 to |p.lists.prohibitions|
      invariant reports + ProhibitionReports(p, c, i) == ProhibitionReports(p, c, 0)
    {
      var r := p.lists.prohibitions[i];
      var remedies := DutyListReports(r.remedy, ProhibitionRemedy(i), ProhibitionActive(p, c, i), c.world);
      Associates(reports, ProhibitionPart(p, c, i), ProhibitionReports(p, c, i + 1));
      reports := reports + ([ProhibitionReportFor(p, c, i)] + remedies);
    }
  }

  method DeriveDetailedRuleReports(p: Policy, c: Case) returns (reports: seq<RuleReport>)
    ensures reports == DetailedReports(p, c)
  {
    var permissions := DerivePermissionReports(p, c);
    var prohibitions := DeriveProhibitionReports(p, c);
    var obligations := DutyListReports(p.lists.obligations, Obligation, true, c.world);
    reports := permissions + prohibitions + obligations;
  }
}
