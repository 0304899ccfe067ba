/**
 What an expected tree asks for, said of its entries and of the merged rule nodes: when a stated state
 agrees, which duties are expected to be outstanding, what verdict is read, and what it takes to pass.
 */
module Expectations {
  import opened Wrappers
  import opened Collections
  import opened Rules
  import opened Merging
  import opened Heritage
  import opened Decisions
  import opened Reports
  import opened Lexicographic
  import opened Compare
  import opened Conformance

  // ---------------------------------------------------------------
  // Stated states
  // ---------------------------------------------------------------

  /** What the expectation states of a report is so, each state under its own name. */
  ghost predicate StatesTruly(x: ExpectedRuleReport, r: RuleReport, d: Dimension) {
    match d
    case ActivationState =>
      || x.activation == None
      || (x.activation == Some("Active") && r.activation == Active)
      || (x.activation == Some("Inactive") && r.activation == Inactive)
    case AttemptState =>
      || x.attempt == None
      || (!r.DutyReport? && x.attempt == Some("Attempted") && r.attempt == Attempted)
      || (!r.DutyReport? && x.attempt == Some("NotAttempted") && r.attempt == NotAttempted)
    case PerformanceState =>
      || x.performance == None
      || (x.performance == Some("Performed") && r.performance == Performed)
      || (x.performance == Some("Unperformed") && r.performance == Unperformed)
      || (x.performance == Some("Unknown") && r.performance == Performance.Unknown)
    case DeonticState =>
      || x.deontic == None
      || (x.deontic == Some("NonSet") && r.deontic == NonSet)
      || (x.deontic == Some("Violated") && r.deontic == Violated)
      || (x.deontic == Some("Fulfilled") && r.deontic == Fulfilled)
  }

  lemma AgreesIff(x: ExpectedRuleReport, r: RuleReport, d: Dimension)
    ensures Agrees(x, r, d) <==> StatesTruly(x, r, d)
  {
  }

  /** What disagrees is reported under the policy and the rule, a duty's attempt as one there cannot be. */
  lemma MismatchNames(policyId: string, x: ExpectedRuleReport, r: RuleReport, d: Dimension)
    ensures StateMismatch(policyId, x, r, d)
         == if r.DutyReport? && d == AttemptState then StateMissing(policyId, x.rule, d)
            else StateDiffers(policyId, x.rule, d)
  {
  }

  // ---------------------------------------------------------------
  // The rule a report is about
  // ---------------------------------------------------------------

  /** The report is about a node of this kind and id: of its list by index, of a duty by address. */
  ghost predicate Concerns(m: IdLists, r: RuleReport, kind: RuleKind, id: string) {
    match r
    case PermissionReport(i, _, _, _, _) =>
      kind == PermissionKind && i < |m.permissions| && m.permissions[i].ruleId == id
    case ProhibitionReport(i, _, _, _, _) =>
      kind == ProhibitionKind && i < |m.prohibitions| && m.prohibitions[i].ruleId == id
    case DutyReport(a, _, _, _) =>
      kind == DutyKind && exists node :: NodeAt(m, a, node) && node.ruleId == id
  }

  /** The node stands so many consequences below the duty the address names. */
  ghost predicate NodeAt(m: IdLists, a: DutyAddress, node: RuleIds) {
    match a.attachment
    case Obligation => Hangs(m.obligations, a.index, a.depth, node)
    case PermissionDuty(i) => i < |m.permissions| && Hangs(m.permissions[i].duty, a.index, a.depth, node)
    case ProhibitionRemedy(i) => i < |m.prohibitions| && Hangs(m.prohibitions[i].remedy, a.index, a.depth, node)
  }

  ghost predicate Hangs(duties: seq<RuleIds>, index: nat, depth: nat, node: RuleIds) {
    index < |duties| && Below(duties[index], depth, node)
  }

  /** `node` is `depth` consequences below `d`. */
  ghost predicate Below(d: RuleIds, depth: nat, node: RuleIds) {
    if depth == 0 then node == d
    else exists up :: Below(d, depth - 1, up) && up.consequence == Some(node)
  }

  lemma {:induction false} WalkDown(d: RuleIds, depth: nat)
    requires depth > 0
    ensures WalkIds(d, depth) == match WalkIds(d, depth - 1)
      case None => None
      case Some(up) => up.consequence
    decreases depth
  {
    if depth > 1 && d.consequence.Some? {
      WalkDown(d.consequence.value, depth - 1);
    }
  }

  lemma {:induction false} BelowIff(d: RuleIds, depth: nat, node: RuleIds)
    ensures Below(d, depth, node) <==> WalkIds(d, depth) == Some(node)
    decreases depth
  {
    if depth > 0 {
      WalkDown(d, depth);
      forall up ensures Below(d, depth - 1, up) <==> WalkIds(d, depth - 1) == Some(up) {
        BelowIff(d, depth - 1, up);
      }
    }
  }

  lemma NodeAtIff(m: IdLists, a: DutyAddress, node: RuleIds)
    ensures NodeAt(m, a, node) <==> IdsAt(m, a) == Some(node)
  {
    var root := RootIds(m, a.attachment, a.index);
    if root.Some? {
      BelowIff(root.value, a.depth, node);
    }
  }

  lemma ConcernsIff(m: IdLists, r: RuleReport, key: RuleKey)
    ensures Concerns(m, r, key.kind, key.rule) <==> RuleIdOf(m, r) == Some(key)
  {
    if r.DutyReport? {
      forall node ensures NodeAt(m, r.address, node) <==> IdsAt(m, r.address) == Some(node) {
        NodeAtIff(m, r.address, node);
      }
      if IdsAt(m, r.address).Some? {
        assert NodeAt(m, r.address, IdsAt(m, r.address).value);
      }
    }
  }

  // ---------------------------------------------------------------
  // Duties by their ids
  // ---------------------------------------------------------------

  /** A duty and the consequences below it. */
  function ChainOf(d: RuleIds): seq<RuleIds> {
    [d] + if d.consequence.None? then [] else ChainOf(d.consequence.value)
  }

  function ChainsOf(ds: seq<RuleIds>): seq<RuleIds> {
    if ds == [] then [] else ChainOf(ds[0]) + ChainsOf(ds[1..])
  }

  function DutiesOf(r: RuleIds): seq<RuleIds> { ChainsOf(r.duty) }
  function RemediesOf(r: RuleIds): seq<RuleIds> { ChainsOf(r.remedy) }

  /** Every duty of a policy: those of the policy, then those of its permissions, then the remedies. */
  function DutyNodes(m: IdLists): seq<RuleIds> {
    ChainsOf(m.obligations) + Gathered(m.permissions, DutiesOf) + Gathered(m.prohibitions, RemediesOf)
  }

  /** The first of these nodes that has the id, if one has. */
  ghost predicate IsFirstOf(nodes: seq<RuleIds>, id: string, found: Option<RuleIds>) {
    match found
    case None => forall k :: 0 <= k < |nodes| ==> nodes[k].ruleId != id
    case Some(node) => exists k :: FirstNamed(nodes, id, k) && nodes[k] == node
  }

  ghost predicate FirstNamed(nodes: seq<RuleIds>, id: string, k: int) {
    && 0 <= k < |nodes| && nodes[k].ruleId == id
    && forall j :: 0 <= j < k ==> nodes[j].ruleId != id
  }

  lemma FirstOfBoth(a: seq<RuleIds>, b: seq<RuleIds>, id: string, x: Option<RuleIds>, y: Option<RuleIds>)
    requires IsFirstOf(a, id, x) && IsFirstOf(b, id, y)
    ensures IsFirstOf(a + b, id, x.OrElse(y))
  {
    if x.Some? {
      var k :| FirstNamed(a, id, k) && a[k] == x.value;
      assert FirstNamed(a + b, id, k);
    } else if y.Some? {
      var k :| FirstNamed(b, id, k) && b[k] == y.value;
      forall j | 0 <= j < |a| + k ensures (a + b)[j].ruleId != id {
        if j >= |a| {
          assert (a + b)[j] == b[j - |a|];
        }
      }
      assert FirstNamed(a + b, id, |a| + k);
    }
  }

  lemma {:induction false} FirstInChain(d: RuleIds, id: string)
    ensures IsFirstOf(ChainOf(d), id, FindInChain(d, id))
    decreases d
  {
    if d.ruleId == id {
      assert FirstNamed(ChainOf(d), id, 0);
    } else if d.consequence.Some? {
      FirstInChain(d.consequence.value, id);
      FirstOfBoth([d], ChainOf(d.consequence.value), id, None, FindInChain(d.consequence.value, id));
    }
  }

  lemma {:induction false} FirstInList(ds: seq<RuleIds>, id: string)
    ensures IsFirstOf(ChainsOf(ds), id, FindInList(ds, id))
  {
    if ds != [] {
      FirstInChain(ds[0], id);
      FirstInList(ds[1..], id);
      FirstOfBoth(ChainOf(ds[0]), ChainsOf(ds[1..]), id, FindInChain(ds[0], id), FindInList(ds[1..], id));
    }
  }

  lemma {:induction false} FirstInDuties(rs: seq<RuleIds>, id: string)
    ensures IsFirstOf(Gathered(rs, DutiesOf), id, FindInDuties(rs, id))
  {
    if rs != [] {
      FirstInList(rs[0].duty, id);
      FirstInDuties(rs[1..], id);
      FirstOfBoth(
        DutiesOf(rs[0]), Gathered(rs[1..], DutiesOf), id, FindInList(rs[0].duty, id), FindInDuties(rs[1..], id));
    }
  }

  lemma {:induction false} FirstInRemedies(rs: seq<RuleIds>, id: string)
    ensures IsFirstOf(Gathered(rs, RemediesOf), id, FindInRemedies(rs, id))
  {
    if rs != [] {
      FirstInList(rs[0].remedy, id);
      FirstInRemedies(rs[1..], id);
      FirstOfBoth(
        RemediesOf(rs[0]), Gathered(rs[1..], RemediesOf), id,
        FindInList(rs[0].remedy, id), FindInRemedies(rs[1..], id));
    }
  }

  /** Looking an id up among all duties finds the first that has it. */
  lemma FindsTheFirst(m: IdLists, id: string)
    ensures IsFirstOf(DutyNodes(m), id, FindRuleIds(m, id))
  {
    FirstInList(m.obligations, id);
    FirstInDuties(m.permissions, id);
    FirstInRemedies(m.prohibitions, id);
    var a, b, c := FindInList(m.obligations, id), FindInDuties(m.permissions, id), FindInRemedies(m.prohibitions, id);
    FirstOfBoth(ChainsOf(m.obligations), Gathered(m.permissions, DutiesOf), id, a, b);
    FirstOfBoth(
      ChainsOf(m.obligations) + Gathered(m.permissions, DutiesOf), Gathered(m.prohibitions, RemediesOf), id,
      a.OrElse(b), c);
  }

  /** The first duty of this id, if there is one, has no consequence. */
  ghost predicate EndsItsChain(m: IdLists, id: string) {
    forall k :: FirstNamed(DutyNodes(m), id, k) ==> DutyNodes(m)[k].consequence.None?
  }

  lemma OneFirst(nodes: seq<RuleIds>, id: string, i: int, k: int)
    requires FirstNamed(nodes, id, i) && FirstNamed(nodes, id, k)
    ensures i == k
  {
  }

  lemma TerminalIff(m: IdLists, id: string)
    ensures IsTerminal(m, id) <==> EndsItsChain(m, id)
  {
    FindsTheFirst(m, id);
    var nodes, found := DutyNodes(m), FindRuleIds(m, id);
    if found.Some? {
      var k :| FirstNamed(nodes, id, k) && nodes[k] == found.value;
      forall i | FirstNamed(nodes, id, i) ensures i == k {
        OneFirst(nodes, id, i, k);
      }
    }
  }

  // ---------------------------------------------------------------
  // Duties expected to be outstanding
  // ---------------------------------------------------------------

  /** The expectation is of a duty, and states it to be due and not performed. */
  predicate SaidToBeOwed(x: ExpectedRuleReport) {
    x.kind == DutyKind && x.activation == Some("Active") && x.performance == Some("Unperformed")
  }

  ghost predicate IsObligation(m: IdLists, id: string) {
    exists o :: o in m.obligations && o.ruleId == id
  }

  /** It also ends its chain, and is not an obligation of the policy itself under deny mode. */
  ghost predicate Demanded(m: IdLists, mode: DutyMode, x: ExpectedRuleReport) {
    && SaidToBeOwed(x) && EndsItsChain(m, x.rule)
    && (mode == DutyMode.Deny ==> !IsObligation(m, x.rule))
  }

  lemma DemandedIff(m: IdLists, mode: DutyMode, x: ExpectedRuleReport)
    ensures MustBeListed(m, mode, x) <==> Demanded(m, mode, x)
  {
    TerminalIff(m, x.rule);
    if o :| o in m.obligations && o.ruleId == x.rule {
      var k :| 0 <= k < |m.obligations| && m.obligations[k] == o;
    }
  }

  /** A report about the rule counts when it is active, and each does when none is. */
  ghost predicate Stands(m: IdLists, reports: seq<RuleReport>, x: ExpectedRuleReport, r: RuleReport) {
    && Concerns(m, r, x.kind, x.rule)
    && (r.activation == Active
        || forall q :: q in reports && Concerns(m, q, x.kind, x.rule) ==> q.activation == Inactive)
  }

  ghost function Standing(m: IdLists, reports: seq<RuleReport>, x: ExpectedRuleReport): seq<RuleReport> {
    Kept(reports, (r: RuleReport) => Stands(m, reports, x, r))
  }

  lemma {:induction false} ClonesAreKept(m: IdLists, reports: seq<RuleReport>, key: RuleKey)
    ensures Clones(m, reports, key) == Kept(reports, (r: RuleReport) => Concerns(m, r, key.kind, key.rule))
  {
    if reports != [] {
      var before, last := reports[..|reports| - 1], reports[|reports| - 1];
      assert reports == before + [last];
      ClonesAreKept(m, before, key);
      ConcernsIff(m, last, key);
      KeptOneMore(before, last, (r: RuleReport) => Concerns(m, r, key.kind, key.rule));
    }
  }

  lemma {:induction false} ActiveAreKept(reports: seq<RuleReport>)
    ensures ActiveOf(reports) == Kept(reports, (r: RuleReport) => r.activation == Active)
  {
    if reports != [] {
      var before, last := reports[..|reports| - 1], reports[|reports| - 1];
      assert reports == before + [last];
      ActiveAreKept(before);
      KeptOneMore(before, last, (r: RuleReport) => r.activation == Active);
    }
  }

  lemma {:induction false} KeptTwice<T>(s: seq<T>, p: T -> bool, q: T -> bool, both: T -> bool)
    requires forall x :: x in s ==> (both(x) <==> p(x) && q(x))
    ensures Kept(Kept(s, p), q) == Kept(s, both)
  {
    if s != [] {
      var rest := Kept(s[1..], p);
      KeptTwice(s[1..], p, q, both);
      if p(s[0]) {
        assert Kept(s, p) == [s[0]] + rest && ([s[0]] + rest)[1..] == rest;
        assert Kept([s[0]] + rest, q) == (if q(s[0]) then [s[0]] else []) + Kept(rest, q);
      } else {
        assert Kept(s, p) == rest;
      }
    }
  }

  lemma {:induction false} KeptAlike<T>(s: seq<T>, p: T -> bool, q: T -> bool)
    requires forall x :: x in s ==> (p(x) <==> q(x))
    ensures Kept(s, p) == Kept(s, q)
  {
    if s != [] {
      KeptAlike(s[1..], p, q);
    }
  }

  /** The reports an expectation is held against are those that stand, in the engine's order. */
  lemma SelectedStand(m: IdLists, reports: seq<RuleReport>, x: ExpectedRuleReport)
    ensures Selected(Clones(m, reports, x.Key())) == Standing(m, reports, x)
  {
    var about := (r: RuleReport) => Concerns(m, r, x.kind, x.rule);
    var active := (r: RuleReport) => r.activation == Active;
    var stands := (r: RuleReport) => Stands(m, reports, x, r);
    var clones := Clones(m, reports, x.Key());
    ClonesAreKept(m, reports, x.Key());
    ActiveAreKept(clones);
    KeptMembers(reports, about);
    KeptMembers(clones, active);
    if ActiveOf(clones) == [] {
      forall r | r in clones ensures r.activation == Inactive {
        assert r !in ActiveOf(clones);
      }
      KeptAlike(reports, about, stands);
    } else {
      assert ActiveOf(clones)[0] in ActiveOf(clones);
      KeptTwice(reports, about, active, stands);
    }
  }

  /** The action of the duty a report is about. */
  ghost function ActionAt(m: IdLists, r: RuleReport): string {
    if r.DutyReport? && exists node :: NodeAt(m, r.address, node) then
      var node :| NodeAt(m, r.address, node);
      node.action
    else ""
  }

  ghost function PairsOf(policyId: string, m: IdLists, rs: seq<RuleReport>): (r: seq<Pair>)
    ensures |r| == |rs| && forall k :: 0 <= k < |r| ==> r[k] == (policyId, ActionAt(m, rs[k]))
  {
    seq(|rs|, k requires 0 <= k < |rs| => (policyId, ActionAt(m, rs[k])))
  }

  /** What one expectation demands: an entry for each report about the duty that stands. */
  ghost function DemandOf(policyId: string, m: IdLists, mode: DutyMode, reports: seq<RuleReport>, x: ExpectedRuleReport)
    : seq<Pair>
  {
    if Demanded(m, mode, x) then PairsOf(policyId, m, Standing(m, reports, x)) else []
  }

  lemma ActionIs(m: IdLists, r: RuleReport)
    requires r.DutyReport?
    ensures DutyAction(m, r.address) == ActionAt(m, r)
  {
    forall node ensures NodeAt(m, r.address, node) <==> IdsAt(m, r.address) == Some(node) {
      NodeAtIff(m, r.address, node);
    }
    if IdsAt(m, r.address).Some? {
      assert NodeAt(m, r.address, IdsAt(m, r.address).value);
    }
  }

  lemma {:induction false} PairsAre(policyId: string, m: IdLists, rs: seq<RuleReport>)
    requires forall r :: r in rs ==> r.DutyReport?
    ensures DutyPairs(policyId, m, rs) == PairsOf(policyId, m, rs)
  {
    if rs != [] {
      assert rs[0] in rs;
      ActionIs(m, rs[0]);
      PairsAre(policyId, m, rs[1..]);
    }
  }

  /**
   An expectation adds its entries exactly when it is of a duty, stated active and unperformed, that
   ends its chain and is not an obligation under deny mode; one for each report that stands.
   */
  lemma AddsWhatIsDemanded(policyId: string, m: IdLists, mode: DutyMode, actual: PolicyReport, x: ExpectedRuleReport)
    ensures RuleOutstanding(policyId, m, mode, actual, x) == DemandOf(policyId, m, mode, actual.ruleReports, x)
    ensures RuleOutstanding(policyId, m, mode, actual, x) != []
       <==> Demanded(m, mode, x) && exists r :: r in actual.ruleReports && Stands(m, actual.ruleReports, x, r)
  {
    var stands := (r: RuleReport) => Stands(m, actual.ruleReports, x, r);
    var standing := Standing(m, actual.ruleReports, x);
    DemandedIff(m, mode, x);
    SelectedStand(m, actual.ruleReports, x);
    KeptMembers(actual.ruleReports, stands);
    if Demanded(m, mode, x) {
      PairsAre(policyId, m, standing);
      if standing != [] {
        assert standing[0] in standing;
      }
    }
  }

  /** So an expectation that leaves activation or performance unsaid adds nothing. */
  lemma UnsaidAddsNothing(policyId: string, m: IdLists, mode: DutyMode, actual: PolicyReport, x: ExpectedRuleReport)
    requires x.activation.None? || x.performance.None?
    ensures RuleOutstanding(policyId, m, mode, actual, x) == []
  {
    AddsWhatIsDemanded(policyId, m, mode, actual, x);
  }

  /** The first report with this policy id, if there is one. */
  ghost function OwnReport(reports: seq<PolicyReport>, id: string): Option<PolicyReport> {
    var own := Kept(reports, (r: PolicyReport) => r.policyId == id);
    if own == [] then None else Some(own[0])
  }

  lemma {:induction false} FindsOwnReport(reports: seq<PolicyReport>, id: string)
    ensures FindPolicy(reports, id) == OwnReport(reports, id)
  {
    if reports != [] {
      FindsOwnReport(reports[1..], id);
    }
  }

  ghost function DemandsOf(
      policyId: string, m: IdLists, mode: DutyMode, reports: seq<RuleReport>, xs: seq<ExpectedRuleReport>): seq<Pair>
  {
    if xs == [] then []
    else DemandOf(policyId, m, mode, reports, xs[0]) + DemandsOf(policyId, m, mode, reports, xs[1..])
  }

  /** The merged rule nodes of the policy an expectation names. */
  ghost function NodesOf(c: Inputs, e: ExpectedPolicyReport): IdLists
    requires MergedIds(c.policyIds, e.policyId).Ok?
  {
    var merged := MergedIds(c.policyIds, e.policyId).value;
    IdLists(merged.permissions, merged.prohibitions, merged.obligations)
  }

  ghost function PolicyDemands(c: Inputs, e: ExpectedPolicyReport): seq<Pair>
    requires MergedIds(c.policyIds, e.policyId).Ok?
  {
    match OwnReport(c.detailed.policyReports, e.policyId)
    case None => []
    case Some(actual) => DemandsOf(e.policyId, NodesOf(c, e), c.mode, actual.ruleReports, e.ruleReports)
  }

  /** What all expected policies demand of the list of outstanding duties. */
  ghost function AllDemands(c: Inputs, es: seq<ExpectedPolicyReport>): seq<Pair>
    requires AllMerge(c, es)
  {
    if es == [] then []
    else PolicyDemands(c, es[0]) + AllDemands(c, es[1..])
  }

  lemma {:induction false} DemandsOneMore(
      policyId: string, m: IdLists, mode: DutyMode, reports: seq<RuleReport>, xs: seq<ExpectedRuleReport>,
      x: ExpectedRuleReport)
    ensures DemandsOf(policyId, m, mode, reports, xs + [x])
         == DemandsOf(policyId, m, mode, reports, xs) + DemandOf(policyId, m, mode, reports, x)
  {
    if xs == [] {
      assert xs + [x] == [x] && [x][1..] == [];
    } else {
      assert (xs + [x])[1..] == xs[1..] + [x];
      DemandsOneMore(policyId, m, mode, reports, xs[1..], x);
      Associates(
        DemandOf(policyId, m, mode, reports, xs[0]), DemandsOf(policyId, m, mode, reports, xs[1..]),
        DemandOf(policyId, m, mode, reports, x));
    }
  }

  lemma {:induction false} RulesDemand(
      policyId: string, m: IdLists, mode: DutyMode, actual: PolicyReport, xs: seq<ExpectedRuleReport>)
    ensures RulesOutstanding(policyId, m, mode, actual, xs) == DemandsOf(policyId, m, mode, actual.ruleReports, xs)
  {
    if xs != [] {
      var before, last := xs[..|xs| - 1], xs[|xs| - 1];
      assert xs == before + [last];
      RulesDemand(policyId, m, mode, actual, before);
      AddsWhatIsDemanded(policyId, m, mode, actual, last);
      DemandsOneMore(policyId, m, mode, actual.ruleReports, before, last);
    }
  }

  lemma PolicyDemand(c: Inputs, e: ExpectedPolicyReport)
    requires MergedIds(c.policyIds, e.policyId).Ok?
    ensures Merged(c, e) == NodesOf(c, e)
    ensures PolicyOutstanding(e, Merged(c, e), c.mode, c.detailed) == PolicyDemands(c, e)
  {
    FindsOwnReport(c.detailed.policyReports, e.policyId);
    var own := OwnReport(c.detailed.policyReports, e.policyId);
    if own.Some? {
      RulesDemand(e.policyId, NodesOf(c, e), c.mode, own.value, e.ruleReports);
    }
  }

  lemma {:induction false} AllOneMore(c: Inputs, es: seq<ExpectedPolicyReport>, e: ExpectedPolicyReport)
    requires AllMerge(c, es + [e])
    ensures AllMerge(c, es) && MergedIds(c.policyIds, e.policyId).Ok?
    ensures AllDemands(c, es + [e]) == AllDemands(c, es) + PolicyDemands(c, e)
  {
    assert forall x :: x in es ==> x in es + [e];
    assert e in es + [e];
    if es == [] {
      assert es + [e] == [e] && [e][1..] == [];
    } else {
      assert (es + [e])[1..] == es[1..] + [e];
      AllOneMore(c, es[1..], e);
      Associates(PolicyDemands(c, es[0]), AllDemands(c, es[1..]), PolicyDemands(c, e));
    }
  }

  /** The duties a case expects to be outstanding are those its trees demand. */
  lemma {:induction false} ExpectsWhatIsDemanded(c: Inputs, es: seq<ExpectedPolicyReport>)
    requires AllMerge(c, es)
    ensures ExpectedOutstanding(c, es) == AllDemands(c, es)
  {
    if es != [] {
      var before, last := es[..|es| - 1], es[|es| - 1];
      assert es == before + [last];
      AllOneMore(c, before, last);
      ExpectsWhatIsDemanded(c, before);
      PolicyDemand(c, last);
    }
  }

  // ---------------------------------------------------------------
  // The verdict
  // ---------------------------------------------------------------

  ghost predicate SaidActive(e: seq<ExpectedRuleReport>, kind: RuleKind) {
    exists x :: x in e && x.kind == kind && x.activation == Some("Active")
  }

  /** The id is that of an obligation of the policy or of a consequence below one. */
  ghost predicate UnderObligation(m: IdLists, id: string) {
    exists o, depth: nat, node :: o in m.obligations && Below(o, depth, node) && node.ruleId == id
  }

  ghost predicate SaidToOweObligation(m: IdLists, e: seq<ExpectedRuleReport>) {
    exists x :: x in e && SaidToBeOwed(x) && EndsItsChain(m, x.rule) && UnderObligation(m, x.rule)
  }

  lemma {:induction false} FoundBelow(d: RuleIds, id: string) returns (depth: nat, node: RuleIds)
    requires FindInChain(d, id).Some?
    ensures WalkIds(d, depth) == Some(node) && node.ruleId == id
  {
    if d.ruleId == id {
      depth, node := 0, d;
    } else {
      depth, node := FoundBelow(d.consequence.value, id);
      depth := depth + 1;
    }
  }

  lemma {:induction false} BelowIsFound(d: RuleIds, id: string, depth: nat)
    requires WalkIds(d, depth).Some? && WalkIds(d, depth).value.ruleId == id
    ensures FindInChain(d, id).Some?
    decreases depth
  {
    if depth > 0 {
      BelowIsFound(d.consequence.value, id, depth - 1);
    }
  }

  lemma UnderObligationIff(m: IdLists, id: string)
    ensures InObligationChain(m, id) <==> UnderObligation(m, id)
  {
    if k :| 0 <= k < |m.obligations| && FindInChain(m.obligations[k], id).Some? {
      var depth, node := FoundBelow(m.obligations[k], id);
      BelowIff(m.obligations[k], depth, node);
      assert m.obligations[k] in m.obligations && Below(m.obligations[k], depth, node);
    }
    if o, depth: nat, node :| o in m.obligations && Below(o, depth, node) && node.ruleId == id {
      var k :| 0 <= k < |m.obligations| && m.obligations[k] == o;
      BelowIff(o, depth, node);
      BelowIsFound(m.obligations[k], id, depth);
    }
  }

  lemma SaidActiveIff(e: seq<ExpectedRuleReport>, kind: RuleKind)
    ensures StatedActive(e, kind) <==> SaidActive(e, kind)
  {
    if x :| x in e && x.kind == kind && x.activation == Some("Active") {
      var k :| 0 <= k < |e| && e[k] == x;
    }
  }

  lemma SaidToOweIff(m: IdLists, e: seq<ExpectedRuleReport>)
    ensures StatedObligationOutstanding(m, e) <==> SaidToOweObligation(m, e)
  {
    forall x | x in e
      ensures (StatedOutstanding(m, x) && InObligationChain(m, x.rule))
         <==> (SaidToBeOwed(x) && EndsItsChain(m, x.rule) && UnderObligation(m, x.rule))
    {
      TerminalIff(m, x.rule);
      UnderObligationIff(m, x.rule);
    }
    if x :| x in e && SaidToBeOwed(x) && EndsItsChain(m, x.rule) && UnderObligation(m, x.rule) {
      var k :| 0 <= k < |e| && e[k] == x;
    }
  }

  ghost predicate SaysDenied(m: IdLists, e: seq<ExpectedRuleReport>, mode: DutyMode) {
    SaidActive(e, ProhibitionKind) || (mode == DutyMode.Deny && SaidToOweObligation(m, e))
  }

  /** The verdict read off a tree: what it says, and for a policy of which it says nothing, what is presumed. */
  lemma VerdictMeans(m: IdLists, e: seq<ExpectedRuleReport>, mode: DutyMode, behaviour: Behaviour)
    ensures Verdict(m, e, mode, behaviour) == PolicyVerdict.Allow
       <==> !SaysDenied(m, e, mode)
            && (SaidActive(e, PermissionKind) || (m.permissions == [] && behaviour == Open))
    ensures Verdict(m, e, mode, behaviour) == PolicyVerdict.Indeterminate
       <==> !SaysDenied(m, e, mode)
            && !SaidActive(e, PermissionKind) && m.permissions != [] && mode == DutyMode.Advise
  {
    SaidActiveIff(e, ProhibitionKind);
    SaidActiveIff(e, PermissionKind);
    SaidToOweIff(m, e);
  }

  // ---------------------------------------------------------------
  // Passing
  // ---------------------------------------------------------------

  ghost predicate ReadsAllowed(m: IdLists, e: seq<ExpectedRuleReport>, mode: DutyMode, behaviour: Behaviour) {
    && !SaysDenied(m, e, mode)
    && (SaidActive(e, PermissionKind) || (m.permissions == [] && behaviour == Open))
  }

  ghost predicate ReadsDenied(m: IdLists, e: seq<ExpectedRuleReport>, mode: DutyMode, behaviour: Behaviour) {
    || SaysDenied(m, e, mode)
    || (!SaidActive(e, PermissionKind) && if m.permissions == [] then behaviour == Closed else mode == DutyMode.Deny)
  }

  /** Some report is about the rule, and every one that stands is as the expectation states it. */
  ghost predicate ExpectationMet(m: IdLists, reports: seq<RuleReport>, x: ExpectedRuleReport) {
    && (exists r :: r in reports && Concerns(m, r, x.kind, x.rule))
    && forall r, d :: r in reports && Stands(m, reports, x, r) ==> StatesTruly(x, r, d)
  }

  ghost predicate ReportExpected(m: IdLists, xs: seq<ExpectedRuleReport>, r: RuleReport) {
    exists x :: x in xs && Concerns(m, r, x.kind, x.rule)
  }

  ghost predicate ReportMatches(m: IdLists, e: ExpectedPolicyReport, actual: PolicyReport) {
    && actual.evaluationError == None
    && (forall r :: r in actual.ruleReports ==> ReportExpected(m, e.ruleReports, r))
    && (forall x :: x in e.ruleReports ==> ExpectationMet(m, actual.ruleReports, x))
  }

  ghost predicate PolicyPasses(c: Inputs, e: ExpectedPolicyReport)
    requires MergedIds(c.policyIds, e.policyId).Ok?
  {
    match OwnReport(c.detailed.policyReports, e.policyId)
    case None => false
    case Some(actual) => ReportMatches(NodesOf(c, e), e, actual)
  }

  /** No policy was skipped, and every one reported is expected. */
  ghost predicate AllAccountedFor(c: Inputs) {
    && c.detailed.skippedPolicies == []
    && forall a :: a in c.detailed.policyReports ==> exists e :: e in c.expected && e.policyId == a.policyId
  }

  ghost predicate TreeAllows(c: Inputs, e: ExpectedPolicyReport) {
    MergedIds(c.policyIds, e.policyId).Ok? && ReadsAllowed(NodesOf(c, e), e.ruleReports, c.mode, c.behaviour)
  }

  ghost predicate TreeDenies(c: Inputs, e: ExpectedPolicyReport) {
    MergedIds(c.policyIds, e.policyId).Ok? && ReadsDenied(NodesOf(c, e), e.ruleReports, c.mode, c.behaviour)
  }

  /** One tree that reads as a denial pins a denial; trees that all read as Allow pin Allow; others pin nothing. */
  ghost predicate AsRead<E>(es: seq<E>, allows: E -> bool, denies: E -> bool, d: WireDecision) {
    && ((exists e :: e in es && denies(e)) ==> d == WireDecision.Deny)
    && ((forall e :: e in es ==> allows(e)) ==> d == WireDecision.Allow)
  }

  ghost predicate DecisionAsRead(c: Inputs) {
    AsRead(
      c.expected,
      (e: ExpectedPolicyReport) => TreeAllows(c, e),
      (e: ExpectedPolicyReport) => TreeDenies(c, e),
      c.response.decision)
  }

  ghost predicate Passes(c: Inputs)
    requires AllMerge(c, c.expected)
  {
    && (forall e :: e in c.expected ==> PolicyPasses(c, e))
    && AllAccountedFor(c)
    && DecisionAsRead(c)
    && multiset(AllDemands(c, c.expected)) == multiset(Listed(c.response.duties))
    && (forall d :: c.statedDecision == Some(d) ==> c.response.decision == d)
  }

  function Listed(duties: seq<DutyEntry>): (r: seq<Pair>)
    ensures |r| == |duties| && forall k :: 0 <= k < |r| ==> r[k] == (duties[k].policyId, duties[k].action)
  {
    seq(|duties|, k requires 0 <= k < |duties| => (duties[k].policyId, duties[k].action))
  }

  lemma StandsIff(m: IdLists, reports: seq<RuleReport>, x: ExpectedRuleReport, r: RuleReport)
    ensures About(m, reports, x.Key(), r) <==> r in reports && Concerns(m, r, x.kind, x.rule)
    ensures Counts(m, reports, x.Key(), r) <==> r in reports && Stands(m, reports, x, r)
  {
    forall q ensures About(m, reports, x.Key(), q) <==> q in reports && Concerns(m, q, x.kind, x.rule) {
      ConcernsIff(m, q, x.Key());
    }
  }

  lemma ExpectationMetIff(m: IdLists, reports: seq<RuleReport>, x: ExpectedRuleReport)
    ensures RuleConforms(m, reports, x) <==> ExpectationMet(m, reports, x)
  {
    forall r
      ensures About(m, reports, x.Key(), r) <==> r in reports && Concerns(m, r, x.kind, x.rule)
      ensures Counts(m, reports, x.Key(), r) <==> r in reports && Stands(m, reports, x, r)
    {
      StandsIff(m, reports, x, r);
    }
    forall r, d ensures Agrees(x, r, d) <==> StatesTruly(x, r, d) {
      AgreesIff(x, r, d);
    }
  }

  lemma ReportExpectedIff(m: IdLists, e: ExpectedPolicyReport, r: RuleReport)
    ensures ReportAccountedFor(m, e, r) <==> ReportExpected(m, e.ruleReports, r)
  {
    forall x | x in e.ruleReports ensures Concerns(m, r, x.kind, x.rule) <==> RuleIdOf(m, r) == Some(x.Key()) {
      ConcernsIff(m, r, x.Key());
    }
  }

  lemma ReportMatchesIff(m: IdLists, e: ExpectedPolicyReport, actual: PolicyReport)
    ensures ActualConforms(m, e, actual) <==> ReportMatches(m, e, actual)
  {
    forall r ensures ReportAccountedFor(m, e, r) <==> ReportExpected(m, e.ruleReports, r) {
      ReportExpectedIff(m, e, r);
    }
    forall x ensures RuleConforms(m, actual.ruleReports, x) <==> ExpectationMet(m, actual.ruleReports, x) {
      ExpectationMetIff(m, actual.ruleReports, x);
    }
  }

  lemma PolicyPassesIff(c: Inputs, e: ExpectedPolicyReport)
    requires MergedIds(c.policyIds, e.policyId).Ok?
    ensures PolicyConforms(Merged(c, e), e, c.detailed) <==> PolicyPasses(c, e)
  {
    PolicyDemand(c, e);
    FindsOwnReport(c.detailed.policyReports, e.policyId);
    var own := OwnReport(c.detailed.policyReports, e.policyId);
    if own.Some? {
      ReportMatchesIff(NodesOf(c, e), e, own.value);
    }
  }

  lemma OneVerdict(c: Inputs, k: nat)
    requires AllMerge(c, c.expected) && k < |c.expected|
    ensures Verdicts(c, c.expected)[k] == PolicyVerdict.Allow <==> TreeAllows(c, c.expected[k])
    ensures Verdicts(c, c.expected)[k] == PolicyVerdict.Deny <==> TreeDenies(c, c.expected[k])
  {
    PolicyDemand(c, c.expected[k]);
    VerdictMeans(NodesOf(c, c.expected[k]), c.expected[k].ruleReports, c.mode, c.behaviour);
  }

  lemma PinnedAsRead<E>(vs: seq<PolicyVerdict>, es: seq<E>, allows: E -> bool, denies: E -> bool, d: WireDecision)
    requires |vs| == |es|
    requires forall k :: 0 <= k < |vs| ==>
      && (vs[k] == PolicyVerdict.Allow <==> allows(es[k]))
      && (vs[k] == PolicyVerdict.Deny <==> denies(es[k]))
    ensures (PinnedDecision(vs).Some? ==> PinnedDecision(vs).value == d) <==> AsRead(es, allows, denies, d)
  {
    forall k | 0 <= k < |es| ensures es[k] in es {
    }
    if PolicyVerdict.Deny in vs {
      var k :| 0 <= k < |vs| && vs[k] == PolicyVerdict.Deny;
      assert es[k] in es && denies(es[k]) && !allows(es[k]);
    }
    if e :| e in es && denies(e) {
      var k :| 0 <= k < |es| && es[k] == e;
      assert vs[k] in vs;
    }
  }

  lemma DecisionAsReadIff(c: Inputs)
    requires AllMerge(c, c.expected)
    ensures DecisionConforms(c) <==> DecisionAsRead(c)
  {
    var allows, denies := (e: ExpectedPolicyReport) => TreeAllows(c, e), (e: ExpectedPolicyReport) => TreeDenies(c, e);
    forall k | 0 <= k < |c.expected|
      ensures Verdicts(c, c.expected)[k] == PolicyVerdict.Allow <==> allows(c.expected[k])
      ensures Verdicts(c, c.expected)[k] == PolicyVerdict.Deny <==> denies(c.expected[k])
    {
      OneVerdict(c, k);
    }
    PinnedAsRead(Verdicts(c, c.expected), c.expected, allows, denies, c.response.decision);
  }

  /** A case passes exactly when the engine's answer is in every respect what its trees and its policies ask for. */
  lemma ConformsIff(c: Inputs)
    requires AllMerge(c, c.expected)
    ensures Conforms(c) <==> Passes(c)
  {
    forall e | e in c.expected ensures PolicyConforms(Merged(c, e), e, c.detailed) <==> PolicyPasses(c, e) {
      PolicyPassesIff(c, e);
    }
    DecisionAsReadIff(c);
    ExpectsWhatIsDemanded(c, c.expected);
    assert ActualOutstanding(c.response.duties) == Listed(c.response.duties);
    assert EveryPolicyAccountedFor(c) <==> AllAccountedFor(c);
  }
}
