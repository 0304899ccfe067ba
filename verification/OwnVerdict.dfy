/** The verdict read off the engine's own account of a policy, beside the engine's decision. */
module OwnVerdict {
  import opened Wrappers
  import opened Constraints
  import opened Actions
  import opened Rules
  import opened Policies
  import opened Decisions
  import opened Reports
  import opened Bags
  import opened Places
  import opened InForce
  import opened OwnAccount
  import opened CutOffs

  // ---------------------------------------------------------------
  // Which rules the account shows as active
  // ---------------------------------------------------------------

  predicate AnyPermissionActive(p: Policy, c: Case) {
    exists i :: 0 <= i < |p.lists.permissions| && PermissionActive(p, c, i)
  }

  predicate AnyProhibitionActive(p: Policy, c: Case) {
    exists i :: 0 <= i < |p.lists.prohibitions| && ProhibitionActive(p, c, i)
  }

  ghost predicate IsPermissionOf(p: Policy, c: Case, i: nat, r: RuleReport) {
    r.PermissionReport? ==> i <= r.ruleIndex < |p.lists.permissions| && r == PermissionReportFor(p, c, r.ruleIndex)
  }

  ghost predicate IsProhibitionOf(p: Policy, c: Case, i: nat, r: RuleReport) {
    r.ProhibitionReport? ==> i <= r.ruleIndex < |p.lists.prohibitions| && r == ProhibitionReportFor(p, c, r.ruleIndex)
  }

  lemma {:induction false} PermissionsReported(p: Policy, c: Case, i: nat)
    requires i <= |p.lists.permissions|
    ensures forall k :: i <= k < |p.lists.permissions| ==> PermissionReportFor(p, c, k) in PermissionReports(p, c, i)
    ensures forall r :: r in PermissionReports(p, c, i) ==> !r.ProhibitionReport? && IsPermissionOf(p, c, i, r)
    decreases |p.lists.permissions| - i
  {
    if i < |p.lists.permissions| {
      var r := p.lists.permissions[i];
      PermissionsReported(p, c, i + 1);
      ListPlaces(r.duty, PermissionDuty(i), InPlay(r, c), c.world, 0);
    }
  }

  lemma {:induction false} ProhibitionsReported(p: Policy, c: Case, i: nat)
    requires i <= |p.lists.prohibitions|
    ensures forall k :: i <= k < |p.lists.prohibitions| ==> ProhibitionReportFor(p, c, k) in ProhibitionReports(p, c, i)
    ensures forall r :: r in ProhibitionReports(p, c, i) ==> !r.PermissionReport? && IsProhibitionOf(p, c, i, r)
    decreases |p.lists.prohibitions| - i
  {
    if i < |p.lists.prohibitions| {
      var r := p.lists.prohibitions[i];
      ProhibitionsReported(p, c, i + 1);
      ListPlaces(r.remedy, ProhibitionRemedy(i), ProhibitionActive(p, c, i), c.world, 0);
    }
  }

  lemma ActiveRulesReported(p: Policy, c: Case)
    ensures var s := DetailedReports(p, c);
      && (ActiveReportOf(s, PermissionKind) <==> AnyPermissionActive(p, c))
      && (ActiveReportOf(s, ProhibitionKind) <==> AnyProhibitionActive(p, c))
  {
    PermissionsReported(p, c, 0);
    ProhibitionsReported(p, c, 0);
    ListPlaces(p.lists.obligations, Obligation, true, c.world, 0);
    var s := DetailedReports(p, c);
    if i :| 0 <= i < |p.lists.permissions| && PermissionActive(p, c, i) {
      assert PermissionReportFor(p, c, i) in s;
    }
    if i :| 0 <= i < |p.lists.prohibitions| && ProhibitionActive(p, c, i) {
      assert ProhibitionReportFor(p, c, i) in s;
    }
  }

  ghost predicate ActiveReportOf(s: seq<RuleReport>, kind: RuleKind) {
    exists r :: r in s && r.activation == Active && KindOfReport(r) == kind
  }

  function KindOfReport(r: RuleReport): RuleKind {
    match r
    case PermissionReport(_, _, _, _, _) => PermissionKind
    case ProhibitionReport(_, _, _, _, _) => ProhibitionKind
    case DutyReport(_, _, _, _) => DutyKind
  }

  lemma OwnReportStates(m: IdLists, r: RuleReport)
    requires RuleIdOf(m, r).Some?
    ensures OwnReport(m, r).activation == Some("Active") <==> r.activation == Active
    ensures OwnReport(m, r).kind == KindOfReport(r)
  {
    NamesAreExact(r.activation, r.performance);
  }

  /** A tree that tells of an account states some rule of a kind active exactly when the account does. */
  lemma ToldActive(m: IdLists, s: seq<RuleReport>, e: seq<ExpectedRuleReport>, kind: RuleKind)
    requires Tells(m, s, e)
    ensures StatedActive(e, kind) <==> ActiveReportOf(s, kind)
  {
    if k :| 0 <= k < |e| && e[k].kind == kind && e[k].activation == Some("Active") {
      assert e[k] in e;
      var r :| r in s && Restates(m, e[k], r);
      OwnReportStates(m, r);
    }
    if r :| r in s && r.activation == Active && KindOfReport(r) == kind {
      OwnReportStates(m, r);
      var k :| 0 <= k < |e| && e[k] == OwnReport(m, r);
      assert e[k].kind == kind && e[k].activation == Some("Active");
    }
  }

  lemma ToldRules(p: Policy, c: Case, m: IdLists, e: seq<ExpectedRuleReport>)
    requires Tells(m, DetailedReports(p, c), e)
    ensures StatedActive(e, PermissionKind) <==> AnyPermissionActive(p, c)
    ensures StatedActive(e, ProhibitionKind) <==> AnyProhibitionActive(p, c)
  {
    ActiveRulesReported(p, c);
    ToldActive(m, DetailedReports(p, c), e, PermissionKind);
    ToldActive(m, DetailedReports(p, c), e, ProhibitionKind);
  }

  // ---------------------------------------------------------------
  // Which obligations the account shows as outstanding
  // ---------------------------------------------------------------

  /** An obligation outstanding at the end of its chain, not merely where the walk stopped. */
  predicate ShownOutstanding(d: Rule, w: World) {
    Outstanding(d, w).Some? && !CutAt(d, w, 0)
  }

  predicate AnyShown(p: Policy, w: World) {
    exists j :: 0 <= j < |p.lists.obligations| && ShownOutstanding(p.lists.obligations[j], w)
  }

  /** A listing under which no duty is left out for being a plain obligation. */
  function Everything(p: Policy): Listing {
    Listing("", p.lists, Advise)
  }

  lemma ShownInChain(p: Policy, w: World, j: nat)
    requires j < |p.lists.obligations|
    ensures Sum(Everything(p).OfReport(), ChainReports(p.lists.obligations[j], Obligation, j, 0, true, w)) != multiset{}
       <==> ShownOutstanding(p.lists.obligations[j], w)
  {
    assert RootRule(p.lists, Obligation, j) == Some(p.lists.obligations[j]);
    ChainLists(Everything(p), p.lists.obligations[j], Obligation, j, 0, true, w);
  }

  predicate ShownIn(duties: seq<Rule>, w: World, k: nat) {
    k < |duties| && ShownOutstanding(duties[k], w)
  }

  ghost predicate SomeShown(duties: seq<Rule>, w: World, j: nat) {
    exists k :: j <= k && ShownIn(duties, w, k)
  }

  lemma ShownHereOrLater(duties: seq<Rule>, w: World, j: nat)
    ensures SomeShown(duties, w, j) <==> ShownIn(duties, w, j) || SomeShown(duties, w, j + 1)
  {
    if k :| j <= k && ShownIn(duties, w, k) {
      assert k == j || (j + 1 <= k && ShownIn(duties, w, k));
    }
  }

  lemma {:induction false} ShownInList(p: Policy, w: World, j: nat)
    requires j <= |p.lists.obligations|
    ensures Sum(Everything(p).OfReport(), ListReports(p.lists.obligations, Obligation, true, w, j)) != multiset{}
       <==> SomeShown(p.lists.obligations, w, j)
    decreases |p.lists.obligations| - j
  {
    var f := Everything(p).OfReport();
    var duties := p.lists.obligations;
    if j < |duties| {
      ShownInList(p, w, j + 1);
      ShownInChain(p, w, j);
      var chain := ChainReports(duties[j], Obligation, j, 0, true, w);
      var rest := ListReports(duties, Obligation, true, w, j + 1);
      SumAppend(f, chain, rest);
      EmptyUnion(Sum(f, chain), Sum(f, rest));
      ShownHereOrLater(duties, w, j);
    }
  }

  lemma SomeShownIff(p: Policy, w: World)
    ensures AnyShown(p, w) <==> SomeShown(p.lists.obligations, w, 0)
  {
    if j :| 0 <= j < |p.lists.obligations| && ShownOutstanding(p.lists.obligations[j], w) {
      assert ShownIn(p.lists.obligations, w, j);
    }
  }

  /** The account's reports on obligations are those of the obligation list. */
  lemma ObligationReportsOnly(p: Policy, c: Case, r: RuleReport)
    ensures r in DetailedReports(p, c) && r.DutyReport? && r.address.attachment == Obligation
       <==> r in ListReports(p.lists.obligations, Obligation, true, c.world, 0)
  {
    ListPlaces(p.lists.obligations, Obligation, true, c.world, 0);
    PermissionPlaces(p, c, 0);
    ProhibitionPlaces(p, c, 0);
    assert r in PermissionReports(p, c, 0) ==> UnderPermission(p.lists, PlaceOf(r), 0);
    assert r in ProhibitionReports(p, c, 0) ==> UnderProhibition(p.lists, PlaceOf(r), 0);
  }

  ghost predicate SomeListed(p: Policy, s: seq<RuleReport>) {
    exists k :: 0 <= k < |s| && Listed(p.lists, Advise, s[k])
  }

  lemma SomeListedIff(p: Policy, s: seq<RuleReport>)
    ensures SomeListed(p, s) <==> Sum(Everything(p).OfReport(), s) != multiset{}
  {
    var f := Everything(p).OfReport();
    SumEmptyIff(f, s);
    forall k | 0 <= k < |s| ensures f(s[k]) != multiset{} <==> Listed(p.lists, Advise, s[k]) {
    }
  }

  lemma ShownIsListed(p: Policy, w: World)
    ensures SomeListed(p, ListReports(p.lists.obligations, Obligation, true, w, 0)) <==> AnyShown(p, w)
  {
    SomeListedIff(p, ListReports(p.lists.obligations, Obligation, true, w, 0));
    ShownInList(p, w, 0);
    SomeShownIff(p, w);
  }

  lemma ObligationReported(p: Policy, c: Case)
    ensures (exists r :: r in DetailedReports(p, c) && Listed(p.lists, Advise, r) && r.address.attachment == Obligation)
       <==> AnyShown(p, c.world)
  {
    var list := ListReports(p.lists.obligations, Obligation, true, c.world, 0);
    ShownIsListed(p, c.world);
    if AnyShown(p, c.world) {
      var k :| 0 <= k < |list| && Listed(p.lists, Advise, list[k]);
      ObligationReportsOnly(p, c, list[k]);
    }
    if r :| r in DetailedReports(p, c) && Listed(p.lists, Advise, r) && r.address.attachment == Obligation {
      ObligationReportsOnly(p, c, r);
      var k :| 0 <= k < |list| && list[k] == r;
    }
  }

  /** A duty due and not done at the end of its chain, hanging on a rule, whose id also occurs under an obligation. */
  ghost predicate DueElsewhere(p: Policy, c: Case, m: IdLists, a: DutyAddress) {
    && InForceAt(p, c, a) && !SatisfiedAt(p, c, a) && RuleAt(p.lists, a).value.consequence.None?
    && a.attachment != Obligation && OfObligationId(m, a)
  }

  /** Some obligation is read as outstanding: one is, or a duty elsewhere of an obligation's id is. */
  ghost predicate ReadOutstanding(p: Policy, c: Case, m: IdLists) {
    AnyShown(p, c.world) || exists a :: DueElsewhere(p, c, m, a)
  }

  /** A report the comparer reads as that of an obligation still outstanding. */
  ghost predicate ReadAsObligation(p: Policy, c: Case, m: IdLists, r: RuleReport) {
    r in DetailedReports(p, c) && Listed(p.lists, Advise, r) && OfObligationId(m, r.address)
  }

  lemma ReadElsewhere(p: Policy, c: Case, m: IdLists)
    ensures (exists r :: ReadAsObligation(p, c, m, r) && r.address.attachment != Obligation)
       <==> exists a :: DueElsewhere(p, c, m, a)
  {
    if r :| ReadAsObligation(p, c, m, r) && r.address.attachment != Obligation {
      ActiveDutyReports(p, c, r);
      assert DueElsewhere(p, c, m, r.address);
    }
    if a :| DueElsewhere(p, c, m, a) {
      ActiveDutyReports(p, c, DutyReportFor(a, true, false));
      assert ReadAsObligation(p, c, m, DutyReportFor(a, true, false));
    }
  }

  lemma SomeReadIff(p: Policy, c: Case, m: IdLists)
    requires Faithful(p, m)
    ensures (exists r :: ReadAsObligation(p, c, m, r)) <==> ReadOutstanding(p, c, m)
  {
    ReadElsewhere(p, c, m);
    ObligationReported(p, c);
    if AnyShown(p, c.world) {
      var r :| r in DetailedReports(p, c) && Listed(p.lists, Advise, r) && r.address.attachment == Obligation;
      AddressesAgree(p.lists, m, r.address);
      assert ShareId(m, r.address, r.address);
      assert ReadAsObligation(p, c, m, r);
    }
  }

  lemma ToldObligations(p: Policy, c: Case, m: IdLists, e: seq<ExpectedRuleReport>)
    requires Faithful(p, m) && Tells(m, DetailedReports(p, c), e)
    ensures StatedObligationOutstanding(m, e) <==> ReadOutstanding(p, c, m)
  {
    SomeReadIff(p, c, m);
    var s := DetailedReports(p, c);
    if r :| ReadAsObligation(p, c, m, r) {
      StatedByAddress(p.lists, m, r);
      var k :| 0 <= k < |e| && e[k] == OwnReport(m, r);
      assert StatedOutstanding(m, e[k]) && InObligationChain(m, e[k].rule);
    }
    if k :| 0 <= k < |e| && StatedOutstanding(m, e[k]) && InObligationChain(m, e[k].rule) {
      assert e[k] in e;
      var r :| r in s && Restates(m, e[k], r);
      StatedByAddress(p.lists, m, r);
      assert ReadAsObligation(p, c, m, r);
    }
  }

  // ---------------------------------------------------------------
  // Verdict and decision
  // ---------------------------------------------------------------

  /** The verdict pins nothing, or it pins the decision. */
  predicate Consistent(v: PolicyVerdict, d: Decision) {
    match v
    case Allow => d.Allow?
    case Deny => d.Deny?
    case Indeterminate => true
  }

  /**
   A policy that denies only because of obligations whose chains run past the walk's bound,
   and that would otherwise be open: no permission, no prohibition in force.
   */
  ghost predicate DeniedOnlyByCutObligations(p: Policy, c: Case, m: IdLists) {
    && c.config.dutyMode == DutyMode.Deny
    && c.config.behaviour == Open
    && p.lists.permissions == []
    && !AnyInPlay(p.lists.prohibitions, c)
    && ObligationOutstanding(p, c.world)
    && !ReadOutstanding(p, c, m)
  }

  /** What permissions and prohibitions come to, obligations aside. */
  predicate RulesAllow(p: Policy, c: Case) {
    if AnyInPlay(p.lists.prohibitions, c) then AnyGrants(p.lists.permissions, c) && p.conflict == Perm
    else AnyGrants(p.lists.permissions, c) || (c.config.behaviour == Open && p.lists.permissions == [])
  }

  predicate Permits(p: Policy, c: Case) {
    RulesAllow(p, c) && !(c.config.dutyMode == DutyMode.Deny && ObligationOutstanding(p, c.world))
  }

  /** A policy of known actions is decided by its rules and, under deny mode, its obligations. */
  lemma DecidesIff(p: Policy, c: Case)
    requires Recognized(p, c)
    ensures Decide(p, c).decision == if Permits(p, c) then Decision.Allow else Decision.Deny
  {
  }

  /**
   Under deny mode, a policy whose rules allow and whose obligations are all met, while a duty on
   some rule is due that shares its id with a duty under an obligation.
   */
  ghost predicate AllowedThoughRead(p: Policy, c: Case, m: IdLists) {
    && c.config.dutyMode == DutyMode.Deny
    && RulesAllow(p, c)
    && !ObligationOutstanding(p, c.world)
    && exists a :: DueElsewhere(p, c, m, a)
  }

  predicate OutstandingIn(duties: seq<Rule>, w: World, k: nat) {
    k < |duties| && Outstanding(duties[k], w).Some?
  }

  ghost predicate SomeOutstanding(duties: seq<Rule>, w: World, j: nat) {
    exists k :: j <= k && OutstandingIn(duties, w, k)
  }

  lemma ThisOrLater(duties: seq<Rule>, w: World, j: nat)
    ensures SomeOutstanding(duties, w, j) <==> OutstandingIn(duties, w, j) || SomeOutstanding(duties, w, j + 1)
  {
    if k :| j <= k && OutstandingIn(duties, w, k) {
      assert k == j || (j + 1 <= k && OutstandingIn(duties, w, k));
    }
  }

  lemma {:induction false} UnresolvedIffOutstanding(duties: seq<Rule>, attachment: DutyAttachment, w: World, j: nat)
    requires j <= |duties|
    ensures ListUnresolved(duties, attachment, w, j) != [] <==> SomeOutstanding(duties, w, j)
    decreases |duties| - j
  {
    if j < |duties| {
      UnresolvedIffOutstanding(duties, attachment, w, j + 1);
      OneUnresolvedMore(duties, attachment, w, j);
      ThisOrLater(duties, w, j);
    }
  }

  lemma OneUnresolvedMore(duties: seq<Rule>, attachment: DutyAttachment, w: World, j: nat)
    requires j < |duties|
    ensures ListUnresolved(duties, attachment, w, j) != []
       <==> OutstandingIn(duties, w, j) || ListUnresolved(duties, attachment, w, j + 1) != []
  {
    var here, rest := ChainUnresolved(duties[j], attachment, j, w), ListUnresolved(duties, attachment, w, j + 1);
    assert ListUnresolved(duties, attachment, w, j) == here + rest;
    assert |here + rest| == |here| + |rest|;
  }

  /** The verdict of a tree that tells of the account, in terms of what is active and what is read. */
  ghost function ReadVerdict(p: Policy, c: Case, m: IdLists): PolicyVerdict {
    if AnyProhibitionActive(p, c) || (c.config.dutyMode == DutyMode.Deny && ReadOutstanding(p, c, m)) then
      PolicyVerdict.Deny
    else if AnyPermissionActive(p, c) then PolicyVerdict.Allow
    else if p.lists.permissions == [] then
      (match c.config.behaviour case Open => PolicyVerdict.Allow case Closed => PolicyVerdict.Deny)
    else if c.config.dutyMode == DutyMode.Deny then PolicyVerdict.Deny
    else PolicyVerdict.Indeterminate
  }

  lemma ToldVerdict(p: Policy, c: Case, m: IdLists, e: seq<ExpectedRuleReport>)
    requires Faithful(p, m) && Tells(m, DetailedReports(p, c), e)
    ensures Verdict(m, e, c.config.dutyMode, c.config.behaviour) == ReadVerdict(p, c, m)
  {
    ToldRules(p, c, m, e);
    ToldObligations(p, c, m, e);
  }

  /**
   The verdict the comparer reads off a tree that tells of the engine's account agrees with
   what the engine decided, except exactly for a policy denied only by cut-off obligations and for
   one allowed though a duty that shares an obligation's id is due.
   */
  lemma VerdictAgreesIff(p: Policy, c: Case, m: IdLists, e: seq<ExpectedRuleReport>)
    requires Faithful(p, m) && Recognized(p, c) && Tells(m, DetailedReports(p, c), e)
    ensures Consistent(Verdict(m, e, c.config.dutyMode, c.config.behaviour), Decide(p, c).decision)
       <==> !DeniedOnlyByCutObligations(p, c, m) && !AllowedThoughRead(p, c, m)
  {
    ToldVerdict(p, c, m, e);
    ShownIsOutstanding(p, c.world);
    ActiveIffInPlay(p, c);
    DecidesIff(p, c);
    if c.config.dutyMode == DutyMode.Deny && !ObligationOutstanding(p, c.world) {
      GrantingIsActive(p, c);
    }
  }

  lemma ShownIsOutstanding(p: Policy, w: World)
    ensures AnyShown(p, w) ==> ObligationOutstanding(p, w)
  {
    UnresolvedIffOutstanding(p.lists.obligations, Obligation, w, 0);
    if j :| 0 <= j < |p.lists.obligations| && ShownOutstanding(p.lists.obligations[j], w) {
      assert OutstandingIn(p.lists.obligations, w, j);
    }
  }

  lemma ActiveIffInPlay(p: Policy, c: Case)
    ensures AnyProhibitionActive(p, c) <==> AnyInPlay(p.lists.prohibitions, c) && !PermissionWins(p, c)
    ensures AnyPermissionActive(p, c) ==> AnyGrants(p.lists.permissions, c)
  {
    if AnyInPlay(p.lists.prohibitions, c) && !PermissionWins(p, c) {
      var i :| 0 <= i < |p.lists.prohibitions| && InPlay(p.lists.prohibitions[i], c);
      assert ProhibitionActive(p, c, i);
    }
    if i :| 0 <= i < |p.lists.permissions| && PermissionActive(p, c, i) {
      assert Grants(p.lists.permissions[i], c);
    }
    if i :| 0 <= i < |p.lists.prohibitions| && ProhibitionActive(p, c, i) {
      assert InPlay(p.lists.prohibitions[i], c);
    }
  }

  /** In deny mode a permission that grants is active, unless a prohibition or an obligation denies. */
  lemma GrantingIsActive(p: Policy, c: Case)
    requires c.config.dutyMode == DutyMode.Deny && !ObligationOutstanding(p, c.world)
    ensures AnyGrants(p.lists.permissions, c) && (AnyInPlay(p.lists.prohibitions, c) ==> p.conflict == Perm)
       ==> AnyPermissionActive(p, c)
  {
    if AnyGrants(p.lists.permissions, c) && (AnyInPlay(p.lists.prohibitions, c) ==> p.conflict == Perm) {
      var i :| 0 <= i < |p.lists.permissions| && Grants(p.lists.permissions[i], c);
      assert PermissionActive(p, c, i);
    }
  }

  lemma UncutVerdictAgrees(p: Policy, c: Case, m: IdLists)
    requires !CutIn(p.lists.obligations, c.world)
    ensures !DeniedOnlyByCutObligations(p, c, m)
  {
    UnresolvedIffOutstanding(p.lists.obligations, Obligation, c.world, 0);
    if ObligationOutstanding(p, c.world) {
      var k :| 0 <= k && OutstandingIn(p.lists.obligations, c.world, k);
      assert ShownOutstanding(p.lists.obligations[k], c.world);
    }
  }

  /** Where no obligation is cut off, a verdict errs only by denying what the engine allows. */
  lemma UncutErrsByDenying(p: Policy, c: Case, m: IdLists, e: seq<ExpectedRuleReport>)
    requires Faithful(p, m) && Recognized(p, c) && Tells(m, DetailedReports(p, c), e)
    requires !CutIn(p.lists.obligations, c.world)
    ensures Consistent(Verdict(m, e, c.config.dutyMode, c.config.behaviour), Decide(p, c).decision)
       <==> !AllowedThoughRead(p, c, m)
    ensures Decide(p, c).decision.Deny? <==> !Permits(p, c)
    ensures !Permits(p, c) ==> !AllowedThoughRead(p, c, m)
  {
    UncutVerdictAgrees(p, c, m);
    VerdictAgreesIff(p, c, m, e);
    DecidesIff(p, c);
  }

  // ---------------------------------------------------------------
  // The exception is real
  // ---------------------------------------------------------------

  /** An unconstrained duty with `n` consequences below it: never satisfied. */
  function Deep(n: nat): Rule {
    Rule("inform", None, [], None, [], [], if n == 0 then None else Some(Deep(n - 1)))
  }

  /** Its shadow, each id one character longer than the next. */
  function DeepIds(n: nat): RuleIds {
    RuleIds(seq(n + 1, _ => 'd'), "inform", [], [], if n == 0 then None else Some(DeepIds(n - 1)))
  }

  lemma {:induction false} DeepShape(n: nat)
    ensures SameShape(Deep(n), DeepIds(n))
  {
    if n > 0 {
      DeepShape(n - 1);
    }
  }

  lemma {:induction false} DeepWalk(n: nat, depth: nat)
    ensures WalkIds(DeepIds(n), depth) == if depth <= n then Some(DeepIds(n - depth)) else None
    decreases depth
  {
    if 0 < depth && 0 < n {
      DeepWalk(n - 1, depth - 1);
    }
  }

  lemma DeepNodesDiffer(n: nat)
    ensures DistinctNodes(IdLists([], [], [DeepIds(n)]))
  {
    var m := IdLists([], [], [DeepIds(n)]);
    forall a, b | KeyAt(m, a).Some? && KeyAt(m, a) == KeyAt(m, b) ensures a == b {
      DeepWalk(n, a.address.depth);
      DeepWalk(n, b.address.depth);
      assert |KeyAt(m, a).value.rule| == n - a.address.depth + 1 && |KeyAt(m, b).value.rule| == n - b.address.depth + 1;
    }
  }

  lemma {:induction false} DeepOutstanding(n: nat, w: World, depth: nat)
    requires depth <= MAX_CONSEQUENCE_DEPTH < n + depth
    ensures CutAt(Deep(n), w, depth) && OutstandingAt(Deep(n), w, depth).Some?
    decreases n
  {
    if depth < MAX_CONSEQUENCE_DEPTH {
      DeepOutstanding(n - 1, w, depth + 1);
    }
  }

  lemma {:induction false} DeepIsRecognized(n: nat, actions: Taxonomy, depth: nat)
    requires Recognizes(actions, "inform")
    ensures FirstUnknownInChain(Deep(n), actions, depth).None?
    decreases n
  {
    if n > 0 {
      DeepIsRecognized(n - 1, actions, depth + 1);
    }
  }

  /**
   One obligation with five consequences, none of them done, under deny mode and open
   behaviour: the engine denies, and its own account is read as pinning Allow.
   */
  lemma DeepChainIsMisjudged(w: World) returns (p: Policy, c: Case, m: IdLists, e: seq<ExpectedRuleReport>)
    ensures Faithful(p, m) && Recognized(p, c)
    ensures IsOwnTree(m, DetailedReports(p, c), e) && ClonesAgree(m, DetailedReports(p, c))
    ensures Verdict(m, e, c.config.dutyMode, c.config.behaviour) == PolicyVerdict.Allow
    ensures Decide(p, c).decision == Decision.Deny
  {
    var duties := [Deep(5)];
    p := Policy(RuleLists([], [], duties), Invalid);
    m := IdLists([], [], [DeepIds(5)]);
    var actions := [ActionDecl("inform", None)];
    c := Case(w, Config(actions, DutyMode.Deny, Open, None, None), Query("inform", "asset", []));
    DeepIsFaithful(p, c, m, actions);
    ReportsResolve(p, c, m);
    DistinctNodesAgree(p, c, m);
    e := OwnTreeExists(m, DetailedReports(p, c), |DetailedReports(p, c)|);
    AgreeingTreeTells(m, DetailedReports(p, c), e);
    DeepIsCut(p, c, m);
    CutObligationsAreMisjudged(p, c, m, e);
  }

  /** A policy denied only by cut-off obligations: its tree pins Allow. */
  lemma CutObligationsAreMisjudged(p: Policy, c: Case, m: IdLists, e: seq<ExpectedRuleReport>)
    requires Faithful(p, m) && Recognized(p, c) && Tells(m, DetailedReports(p, c), e)
    requires DeniedOnlyByCutObligations(p, c, m)
    ensures Verdict(m, e, c.config.dutyMode, c.config.behaviour) == PolicyVerdict.Allow
    ensures Decide(p, c).decision == Decision.Deny
  {
    ToldRules(p, c, m, e);
    ToldObligations(p, c, m, e);
    ActiveIffInPlay(p, c);
  }

  lemma DeepIsCut(p: Policy, c: Case, m: IdLists)
    requires p.lists == RuleLists([], [], [Deep(5)])
    ensures ObligationOutstanding(p, c.world) && !ReadOutstanding(p, c, m)
  {
    var duties := p.lists.obligations;
    DeepOutstanding(5, c.world, 0);
    UnresolvedIffOutstanding(duties, Obligation, c.world, 0);
    assert OutstandingIn(duties, c.world, 0) && CutAt(duties[0], c.world, 0);
  }

  lemma DeepIsFaithful(p: Policy, c: Case, m: IdLists, actions: Taxonomy)
    requires p == Policy(RuleLists([], [], [Deep(5)]), Invalid) && m == IdLists([], [], [DeepIds(5)])
    requires c.config.actions == actions == [ActionDecl("inform", None)]
    ensures Faithful(p, m) && DistinctNodes(m) && Recognized(p, c)
  {
    DeepShape(5);
    DeepNodesDiffer(5);
    DistinctIsCoherent(m);
    assert actions[0].id == "inform";
    DeepIsRecognized(4, actions, 1);
    var duties := [Deep(5)];
    assert duties[1..] == [];
    assert FirstUnknown(duties[1..], actions).None? && FirstUnknownConsequence(duties[1..], actions).None?;
  }
}
