/**
 What the engine says of one policy, report by report and duty by duty: which reports its account
 holds, with which states and in which order, and which duties it lists as outstanding.
 */
module AccountMeaning {
  import opened Constraints
  import opened Rules
  import opened Policies
  import opened Decisions
  import opened DecisionMeaning
  import InForce

  // ---------------------------------------------------------------
  // What is in force
  // ---------------------------------------------------------------

  /** A permission that bears on the request is in force when its duties are settled and the policy allows. */
  ghost predicate PermissionInForce(p: Policy, c: Case, i: nat) {
    && i < |p.lists.permissions| && BearsOn(p.lists.permissions[i], c)
    && AllSettled(p.lists.permissions[i].duty, c.world) && Allowed(p, c)
  }

  /** A prohibition that bears on the request is in force unless a granted permission wins. */
  ghost predicate ProhibitionInForce(p: Policy, c: Case, i: nat) {
    && i < |p.lists.prohibitions| && BearsOn(p.lists.prohibitions[i], c)
    && (SomeGranted(p.lists.permissions, c) ==> p.conflict != Perm)
  }

  /** What a duty hangs on holds it up: the policy, a permission that bears on the request, a prohibition in force. */
  ghost predicate Upheld(p: Policy, c: Case, attachment: DutyAttachment) {
    match attachment
    case Obligation => true
    case PermissionDuty(i) => i < |p.lists.permissions| && BearsOn(p.lists.permissions[i], c)
    case ProhibitionRemedy(i) => ProhibitionInForce(p, c, i)
  }

  /** A duty is due when it is upheld, within the bound, and no duty it is the fallback of is done. */
  ghost predicate Due(p: Policy, c: Case, a: DutyAddress) {
    && RuleAt(p.lists, a).Some? && a.depth <= 4 && Upheld(p, c, a.attachment)
    && forall k: nat :: k < a.depth ==> !DoneAt(RootRule(p.lists, a.attachment, a.index).value, c.world, k)
  }

  lemma PermissionActiveIff(p: Policy, c: Case, i: nat)
    requires i < |p.lists.permissions|
    ensures PermissionActive(p, c, i) <==> PermissionInForce(p, c, i)
  {
    var r := p.lists.permissions[i];
    GrantsIff(r, c);
    DutiesResolvedIff(r.duty, c.world);
    AnyInPlayIff(p.lists.prohibitions, c);
    ObligationsIff(p, c.world);
    assert r in p.lists.permissions;
  }

  lemma ProhibitionActiveIff(p: Policy, c: Case, i: nat)
    requires i < |p.lists.prohibitions|
    ensures ProhibitionActive(p, c, i) <==> ProhibitionInForce(p, c, i)
  {
    InPlayIff(p.lists.prohibitions[i], c);
    AnyGrantsIff(p.lists.permissions, c);
  }

  lemma HoldsUpIff(p: Policy, c: Case, attachment: DutyAttachment)
    ensures InForce.HoldsUp(p, c, attachment) <==> Upheld(p, c, attachment)
  {
    match attachment
    case Obligation =>
    case PermissionDuty(i) =>
      if i < |p.lists.permissions| {
        InPlayIff(p.lists.permissions[i], c);
      }
    case ProhibitionRemedy(i) =>
      if i < |p.lists.prohibitions| {
        ProhibitionActiveIff(p, c, i);
      }
  }

  lemma {:induction false} ReachedIff(d: Rule, w: World, depth: nat)
    requires WalkRule(d, depth).Some?
    ensures InForce.Reached(d, w, depth) <==> forall k: nat :: k < depth ==> !DoneAt(d, w, k)
    decreases depth
  {
    if depth > 0 {
      SatisfiedIff(d, w);
      assert DoneAt(d, w, 0) <==> Done(d, w);
      ReachedIff(d.consequence.value, w, depth - 1);
      NextDone(d, w);
      if InForce.Reached(d, w, depth) {
        forall k: nat | k < depth ensures !DoneAt(d, w, k) {
          if k > 0 {
            assert DoneAt(d, w, (k - 1) + 1) <==> DoneAt(d.consequence.value, w, k - 1);
          }
        }
      }
      if forall k: nat :: k < depth ==> !DoneAt(d, w, k) {
        forall k: nat | k < depth - 1 ensures !DoneAt(d.consequence.value, w, k) {
          assert !DoneAt(d, w, k + 1);
        }
      }
    }
  }

  // ---------------------------------------------------------------
  // The account
  // ---------------------------------------------------------------

  ghost predicate SaidOfPermission(p: Policy, c: Case, r: RuleReport) {
    && r.PermissionReport? && r.ruleIndex < |p.lists.permissions|
    && (r.attempt == Attempted <==> Concerns(p.lists.permissions[r.ruleIndex], c))
    && (if PermissionInForce(p, c, r.ruleIndex) then
          r.activation == Active && r.performance == Performed && r.deontic == Fulfilled
        else r.activation == Inactive && r.performance == Unperformed && r.deontic == NonSet)
  }

  ghost predicate SaidOfProhibition(p: Policy, c: Case, r: RuleReport) {
    && r.ProhibitionReport? && r.ruleIndex < |p.lists.prohibitions|
    && (r.attempt == Attempted <==> Concerns(p.lists.prohibitions[r.ruleIndex], c))
    && (if ProhibitionInForce(p, c, r.ruleIndex) then
          r.activation == Active && r.performance == Performed && r.deontic == Violated
        else r.activation == Inactive && r.performance == Unknown && r.deontic == NonSet)
  }

  /** One hop past those the engine looks at is still reported, as inactive. */
  ghost predicate SaidOfDuty(p: Policy, c: Case, r: RuleReport) {
    && r.DutyReport? && RuleAt(p.lists, r.address).Some? && r.address.depth <= 5
    && (if !Due(p, c, r.address) then
          r.activation == Inactive && r.performance == Unknown && r.deontic == NonSet
        else if Done(RuleAt(p.lists, r.address).value, c.world) then
          r.activation == Active && r.performance == Performed && r.deontic == Fulfilled
        else r.activation == Active && r.performance == Unperformed && r.deontic == Violated)
  }

  lemma {:induction false} ChainLength(
      d: Rule, attachment: DutyAttachment, index: nat, depth: nat, inForce: bool, w: World, k: nat)
    requires depth <= 5
    ensures k < |ChainReports(d, attachment, index, depth, inForce, w)|
       <==> WalkRule(d, k).Some? && depth + k <= 5
    decreases d
  {
    if depth <= 4 && d.consequence.Some? {
      var satisfied := DutySatisfied(d, w);
      var below := ChainReports(
        d.consequence.value, attachment, index, depth + 1, inForce && depth <= MAX_CONSEQUENCE_DEPTH && !satisfied, w);
      assert |ChainReports(d, attachment, index, depth, inForce, w)| == 1 + |below|;
      if k > 0 {
        ChainLength(d.consequence.value, attachment, index, depth + 1,
          inForce && depth <= MAX_CONSEQUENCE_DEPTH && !satisfied, w, k - 1);
      }
    }
  }

  /** What is said of one duty of a chain whose root is, or is not, upheld. */
  ghost predicate SaidOfHop(d: Rule, attachment: DutyAttachment, index: nat, upheld: bool, w: World, r: RuleReport) {
    && r.DutyReport? && r.address.attachment == attachment && r.address.index == index
    && WalkRule(d, r.address.depth).Some? && r.address.depth <= 5
    && r == DutyReportFor(
         r.address,
         upheld && r.address.depth <= 4 && forall k: nat :: k < r.address.depth ==> !DoneAt(d, w, k),
         Done(WalkRule(d, r.address.depth).value, w))
  }

  lemma ChainSays(d: Rule, attachment: DutyAttachment, index: nat, inForce: bool, w: World, r: RuleReport)
    ensures r in ChainReports(d, attachment, index, 0, inForce, w)
       <==> SaidOfHop(d, attachment, index, inForce, w, r)
  {
    var chain := ChainReports(d, attachment, index, 0, inForce, w);
    forall k: nat | k < |chain| ensures SaidOfHop(d, attachment, index, inForce, w, chain[k])
      && chain[k].address.depth == k
    {
      HopSays(d, attachment, index, inForce, w, k);
    }
    if SaidOfHop(d, attachment, index, inForce, w, r) {
      ChainLength(d, attachment, index, 0, inForce, w, r.address.depth);
      assert r == chain[r.address.depth];
    }
  }

  lemma HopSays(d: Rule, attachment: DutyAttachment, index: nat, inForce: bool, w: World, k: nat)
    requires k < |ChainReports(d, attachment, index, 0, inForce, w)|
    ensures var r := ChainReports(d, attachment, index, 0, inForce, w)[k];
      SaidOfHop(d, attachment, index, inForce, w, r) && r.address.depth == k
  {
    InForce.HopReport(d, attachment, index, 0, inForce, w, k);
    ChainLength(d, attachment, index, 0, inForce, w, k);
    ReachedIff(d, w, k);
    SatisfiedIff(WalkRule(d, k).value, w);
  }

  /** What is said of the duties of one list. */
  ghost predicate SaidInList(duties: seq<Rule>, attachment: DutyAttachment, upheld: bool, w: World, r: RuleReport) {
    && r.DutyReport? && r.address.index < |duties|
    && SaidOfHop(duties[r.address.index], attachment, r.address.index, upheld, w, r)
  }

  lemma ListSays(duties: seq<Rule>, attachment: DutyAttachment, inForce: bool, w: World, r: RuleReport)
    ensures r in ListReports(duties, attachment, inForce, w, 0)
       <==> SaidInList(duties, attachment, inForce, w, r)
  {
    InForce.InSomeChain(duties, attachment, inForce, w, 0, r);
    forall k | 0 <= k < |duties|
      ensures InForce.InChain(duties, attachment, inForce, w, k, r)
         <==> SaidOfHop(duties[k], attachment, k, inForce, w, r)
    {
      ChainSays(duties[k], attachment, k, inForce, w, r);
    }
  }

  lemma ListSaysOfDuty(p: Policy, c: Case, duties: seq<Rule>, attachment: DutyAttachment, r: RuleReport)
    requires r.DutyReport? && r.address.attachment == attachment
    requires RootRule(p.lists, attachment, r.address.index) == At(duties, r.address.index)
    ensures SaidInList(duties, attachment, Upheld(p, c, attachment), c.world, r) <==> SaidOfDuty(p, c, r)
  {
  }

  lemma AccountOfDuties(p: Policy, c: Case, r: RuleReport)
    requires r.DutyReport?
    ensures r in DetailedReports(p, c) <==> SaidOfDuty(p, c, r)
  {
    InForce.DutiesUnderPermissions(p, c, 0, r);
    InForce.DutiesUnderProhibitions(p, c, 0, r);
    HoldsUpIff(p, c, r.address.attachment);
    ListSays(p.lists.obligations, Obligation, true, c.world, r);
    forall i | 0 <= i < |p.lists.permissions|
      ensures InForce.UnderPermissionAt(p, c, i, r)
         <==> r.address.attachment == PermissionDuty(i) && SaidOfDuty(p, c, r)
    {
      var rule := p.lists.permissions[i];
      ListSays(rule.duty, PermissionDuty(i), InPlay(rule, c), c.world, r);
      if r.address.attachment == PermissionDuty(i) {
        ListSaysOfDuty(p, c, rule.duty, PermissionDuty(i), r);
      }
    }
    forall i | 0 <= i < |p.lists.prohibitions|
      ensures InForce.UnderProhibitionAt(p, c, i, r)
         <==> r.address.attachment == ProhibitionRemedy(i) && SaidOfDuty(p, c, r)
    {
      var rule := p.lists.prohibitions[i];
      ListSays(rule.remedy, ProhibitionRemedy(i), ProhibitionActive(p, c, i), c.world, r);
      if r.address.attachment == ProhibitionRemedy(i) {
        ListSaysOfDuty(p, c, rule.remedy, ProhibitionRemedy(i), r);
      }
    }
    if r.address.attachment == Obligation {
      ListSaysOfDuty(p, c, p.lists.obligations, Obligation, r);
    }
  }

  lemma {:induction false} OwnReportsOfPermissions(p: Policy, c: Case, i: nat, r: RuleReport)
    requires i <= |p.lists.permissions| && !r.DutyReport?
    ensures r in PermissionReports(p, c, i)
       <==> r.PermissionReport? && i <= r.ruleIndex < |p.lists.permissions|
            && r == PermissionReportFor(p, c, r.ruleIndex)
    decreases |p.lists.permissions| - i
  {
    if i < |p.lists.permissions| {
      var rule := p.lists.permissions[i];
      ListSays(rule.duty, PermissionDuty(i), InPlay(rule, c), c.world, r);
      OwnReportsOfPermissions(p, c, i + 1, r);
      assert r in PermissionReports(p, c, i) <==>
        r == PermissionReportFor(p, c, i) || r in PermissionReports(p, c, i + 1);
    }
  }

  lemma {:induction false} OwnReportsOfProhibitions(p: Policy, c: Case, i: nat, r: RuleReport)
    requires i <= |p.lists.prohibitions| && !r.DutyReport?
    ensures r in ProhibitionReports(p, c, i)
       <==> r.ProhibitionReport? && i <= r.ruleIndex < |p.lists.prohibitions|
            && r == ProhibitionReportFor(p, c, r.ruleIndex)
    decreases |p.lists.prohibitions| - i
  {
    if i < |p.lists.prohibitions| {
      var rule := p.lists.prohibitions[i];
      ListSays(rule.remedy, ProhibitionRemedy(i), ProhibitionActive(p, c, i), c.world, r);
      OwnReportsOfProhibitions(p, c, i + 1, r);
      assert r in ProhibitionReports(p, c, i) <==>
        r == ProhibitionReportFor(p, c, i) || r in ProhibitionReports(p, c, i + 1);
    }
  }

  lemma AccountOfRules(p: Policy, c: Case, r: RuleReport)
    requires !r.DutyReport?
    ensures r in DetailedReports(p, c) <==> SaidOfPermission(p, c, r) || SaidOfProhibition(p, c, r)
  {
    OwnReportsOfPermissions(p, c, 0, r);
    OwnReportsOfProhibitions(p, c, 0, r);
    ListSays(p.lists.obligations, Obligation, true, c.world, r);
    if r.PermissionReport? && r.ruleIndex < |p.lists.permissions| {
      PermissionActiveIff(p, c, r.ruleIndex);
      AppliesIff(p.lists.permissions[r.ruleIndex], c);
    }
    if r.ProhibitionReport? && r.ruleIndex < |p.lists.prohibitions| {
      ProhibitionActiveIff(p, c, r.ruleIndex);
      AppliesIff(p.lists.prohibitions[r.ruleIndex], c);
    }
  }

  /** The account of a policy holds exactly the reports that say this of its rules and duties. */
  lemma AccountMeans(p: Policy, c: Case, r: RuleReport)
    ensures r in DetailedReports(p, c)
       <==> SaidOfPermission(p, c, r) || SaidOfProhibition(p, c, r) || SaidOfDuty(p, c, r)
  {
    if r.DutyReport? {
      AccountOfDuties(p, c, r);
    } else {
      AccountOfRules(p, c, r);
    }
  }

  // ---------------------------------------------------------------
  // The order of the account
  // ---------------------------------------------------------------

  /** Where something stands: its list, the rule in it, the duty under that rule (0 for the rule itself), the hop. */
  datatype Standing = Standing(list: nat, rule: nat, duty: nat, hop: nat)
  {
    predicate Before(other: Standing) {
      || list < other.list
      || (list == other.list && rule < other.rule)
      || (list == other.list && rule == other.rule && duty < other.duty)
      || (list == other.list && rule == other.rule && duty == other.duty && hop < other.hop)
    }
  }

  /** A later item never stands where an earlier one does, nor before it. */
  ghost predicate InOrder<T>(s: seq<T>, standing: T -> Standing) {
    forall i, j :: 0 <= i < j < |s| ==> standing(s[i]).Before(standing(s[j]))
  }

  lemma JoinedInOrder<T>(a: seq<T>, b: seq<T>, standing: T -> Standing)
    requires InOrder(a, standing) && InOrder(b, standing)
    requires forall x, y :: x in a && y in b ==> standing(x).Before(standing(y))
    ensures InOrder(a + b, standing)
  {
    forall i, j | 0 <= i < j < |a + b| ensures standing((a + b)[i]).Before(standing((a + b)[j])) {
      if i < |a| <= j {
        assert (a + b)[i] in a && (a + b)[j] in b;
      }
    }
  }

  /** Permissions with their duties, prohibitions with their remedies, then the obligations. */
  function ReportStanding(r: RuleReport): Standing {
    match r
    case PermissionReport(i, _, _, _, _) => Standing(0, i, 0, 0)
    case ProhibitionReport(i, _, _, _, _) => Standing(1, i, 0, 0)
    case DutyReport(a, _, _, _) =>
      match a.attachment
      case PermissionDuty(i) => Standing(0, i, a.index + 1, a.depth)
      case ProhibitionRemedy(i) => Standing(1, i, a.index + 1, a.depth)
      case Obligation => Standing(2, 0, a.index + 1, a.depth)
  }

  ghost predicate OfChain(r: RuleReport, attachment: DutyAttachment, index: nat, depth: nat) {
    r.DutyReport? && r.address.attachment == attachment && r.address.index == index && r.address.depth >= depth
  }

  lemma {:induction false} ChainMembers(
      d: Rule, attachment: DutyAttachment, index: nat, depth: nat, inForce: bool, w: World)
    ensures forall r :: r in ChainReports(d, attachment, index, depth, inForce, w) ==>
      OfChain(r, attachment, index, depth)
    decreases d
  {
    var goesOn := inForce && depth <= MAX_CONSEQUENCE_DEPTH && !DutySatisfied(d, w);
    if d.consequence.Some? {
      ChainMembers(d.consequence.value, attachment, index, depth + 1, goesOn, w);
    }
  }

  lemma LaterInChain(a: RuleReport, b: RuleReport, attachment: DutyAttachment, index: nat, depth: nat)
    requires OfChain(a, attachment, index, depth) && a.address.depth == depth
    requires OfChain(b, attachment, index, depth + 1)
    ensures ReportStanding(a).Before(ReportStanding(b))
  {
  }

  lemma {:induction false} ChainInOrder(
      d: Rule, attachment: DutyAttachment, index: nat, depth: nat, inForce: bool, w: World)
    ensures InOrder(ChainReports(d, attachment, index, depth, inForce, w), ReportStanding)
    decreases d
  {
    var satisfied := DutySatisfied(d, w);
    var effective := inForce && depth <= MAX_CONSEQUENCE_DEPTH;
    if depth <= MAX_CONSEQUENCE_DEPTH && d.consequence.Some? {
      var here := DutyReportFor(DutyAddress(attachment, index, depth), effective, satisfied);
      var below := ChainReports(d.consequence.value, attachment, index, depth + 1, effective && !satisfied, w);
      ChainInOrder(d.consequence.value, attachment, index, depth + 1, effective && !satisfied, w);
      ChainMembers(d.consequence.value, attachment, index, depth + 1, effective && !satisfied, w);
      forall x, y | x in [here] && y in below ensures ReportStanding(x).Before(ReportStanding(y)) {
        LaterInChain(x, y, attachment, index, depth);
      }
      JoinedInOrder([here], below, ReportStanding);
    }
  }

  lemma {:induction false} ListInOrder(
      duties: seq<Rule>, attachment: DutyAttachment, inForce: bool, w: World, j: nat)
    requires j <= |duties|
    ensures InOrder(ListReports(duties, attachment, inForce, w, j), ReportStanding)
    ensures forall r :: r in ListReports(duties, attachment, inForce, w, j) ==>
      r.DutyReport? && r.address.attachment == attachment && r.address.index >= j
    decreases |duties| - j
  {
    if j < |duties| {
      ChainInOrder(duties[j], attachment, j, 0, inForce, w);
      ChainMembers(duties[j], attachment, j, 0, inForce, w);
      ListInOrder(duties, attachment, inForce, w, j + 1);
      JoinedInOrder(
        ChainReports(duties[j], attachment, j, 0, inForce, w),
        ListReports(duties, attachment, inForce, w, j + 1),
        ReportStanding);
    }
  }

  /** One rule's report and those on its duties. */
  lemma PartInOrder(own: RuleReport, duties: seq<RuleReport>, list: nat, rule: nat)
    requires ReportStanding(own) == Standing(list, rule, 0, 0)
    requires InOrder(duties, ReportStanding)
    requires forall r :: r in duties ==>
      r.DutyReport? && ReportStanding(r).list == list && ReportStanding(r).rule == rule
    ensures InOrder([own] + duties, ReportStanding)
    ensures forall r :: r in [own] + duties ==> ReportStanding(r).list == list && ReportStanding(r).rule == rule
  {
    JoinedInOrder([own], duties, ReportStanding);
  }

  lemma {:induction false} PermissionsInOrder(p: Policy, c: Case, i: nat)
    requires i <= |p.lists.permissions|
    ensures InOrder(PermissionReports(p, c, i), ReportStanding)
    ensures forall r :: r in PermissionReports(p, c, i) ==>
      ReportStanding(r).list == 0 && i <= ReportStanding(r).rule
    decreases |p.lists.permissions| - i
  {
    if i < |p.lists.permissions| {
      var r := p.lists.permissions[i];
      ListInOrder(r.duty, PermissionDuty(i), InPlay(r, c), c.world, 0);
      PartInOrder(
        PermissionReportFor(p, c, i), ListReports(r.duty, PermissionDuty(i), InPlay(r, c), c.world, 0), 0, i);
      PermissionsInOrder(p, c, i + 1);
      JoinedInOrder(PermissionPart(p, c, i), PermissionReports(p, c, i + 1), ReportStanding);
    }
  }

  lemma {:induction false} ProhibitionsInOrder(p: Policy, c: Case, i: nat)
    requires i <= |p.lists.prohibitions|
    ensures InOrder(ProhibitionReports(p, c, i), ReportStanding)
    ensures forall r :: r in ProhibitionReports(p, c, i) ==>
      ReportStanding(r).list == 1 && i <= ReportStanding(r).rule
    decreases |p.lists.prohibitions| - i
  {
    if i < |p.lists.prohibitions| {
      var r := p.lists.prohibitions[i];
      var active := ProhibitionActive(p, c, i);
      ListInOrder(r.remedy, ProhibitionRemedy(i), active, c.world, 0);
      PartInOrder(
        ProhibitionReportFor(p, c, i), ListReports(r.remedy, ProhibitionRemedy(i), active, c.world, 0), 1, i);
      ProhibitionsInOrder(p, c, i + 1);
      JoinedInOrder(ProhibitionPart(p, c, i), ProhibitionReports(p, c, i + 1), ReportStanding);
    }
  }

  /** The account goes through the policy in order; with `AccountMeans` this says what sequence it is. */
  lemma AccountInOrder(p: Policy, c: Case)
    ensures InOrder(DetailedReports(p, c), ReportStanding)
  {
    PermissionsInOrder(p, c, 0);
    ProhibitionsInOrder(p, c, 0);
    ListInOrder(p.lists.obligations, Obligation, true, c.world, 0);
    JoinedInOrder(PermissionReports(p, c, 0), ProhibitionReports(p, c, 0), ReportStanding);
    JoinedInOrder(
      PermissionReports(p, c, 0) + ProhibitionReports(p, c, 0),
      ListReports(p.lists.obligations, Obligation, true, c.world, 0),
      ReportStanding);
  }

  // ---------------------------------------------------------------
  // The duties listed as outstanding
  // ---------------------------------------------------------------

  /** The unsettled chains of duties that are upheld, each at the last duty looked at. */
  ghost predicate IsListed(p: Policy, c: Case, u: UnresolvedDuty) {
    var root := RootRule(p.lists, u.address.attachment, u.address.index);
    && root.Some? && Upheld(p, c, u.address.attachment)
    && !Settled(root.value, c.world) && LastLookedAt(root.value, u.address.depth)
    && u.action == WalkRule(root.value, u.address.depth).value.action
  }

  ghost predicate ListedOf(d: Rule, attachment: DutyAttachment, index: nat, w: World, u: UnresolvedDuty) {
    && u.address.attachment == attachment && u.address.index == index
    && !Settled(d, w) && LastLookedAt(d, u.address.depth)
    && u.action == WalkRule(d, u.address.depth).value.action
  }

  lemma {:induction false} DeeperIsThere(d: Rule, k: nat, n: nat)
    requires k <= n && WalkRule(d, n).Some?
    ensures WalkRule(d, k).Some? && (k < n ==> WalkRule(d, k).value.consequence.Some?)
    decreases k
  {
    if k > 0 {
      DeeperIsThere(d.consequence.value, k - 1, n - 1);
    }
  }

  lemma OneLast(d: Rule, k: nat, n: nat)
    requires LastLookedAt(d, k) && LastLookedAt(d, n)
    ensures k == n
  {
    if k <= n {
      DeeperIsThere(d, k, n);
    } else {
      DeeperIsThere(d, n, k);
    }
  }

  lemma ChainLists(d: Rule, attachment: DutyAttachment, index: nat, w: World, u: UnresolvedDuty)
    ensures u in ChainUnresolved(d, attachment, index, w) <==> ListedOf(d, attachment, index, w, u)
  {
    OutstandingIff(d, w);
    if Outstanding(d, w).Some? && ListedOf(d, attachment, index, w, u) {
      OneLast(d, u.address.depth, Outstanding(d, w).value.depth);
    }
  }

  lemma {:induction false} ListLists(duties: seq<Rule>, attachment: DutyAttachment, w: World, j: nat, u: UnresolvedDuty)
    requires j <= |duties|
    ensures u in ListUnresolved(duties, attachment, w, j)
       <==> j <= u.address.index < |duties| && ListedOf(duties[u.address.index], attachment, u.address.index, w, u)
    decreases |duties| - j
  {
    if j < |duties| {
      ChainLists(duties[j], attachment, j, w, u);
      ListLists(duties, attachment, w, j + 1, u);
    }
  }

  lemma PermissionLists(p: Policy, c: Case, i: nat, u: UnresolvedDuty)
    requires i < |p.lists.permissions|
    ensures InPlay(p.lists.permissions[i], c)
         && u in ListUnresolved(p.lists.permissions[i].duty, PermissionDuty(i), c.world, 0)
       <==> u.address.attachment == PermissionDuty(i) && IsListed(p, c, u)
  {
    InPlayIff(p.lists.permissions[i], c);
    ListLists(p.lists.permissions[i].duty, PermissionDuty(i), c.world, 0, u);
  }

  lemma {:induction false} PermissionsList(p: Policy, c: Case, i: nat, u: UnresolvedDuty)
    requires i <= |p.lists.permissions|
    ensures u in UnresolvedPermissionDuties(p, c, i)
       <==> u.address.attachment.PermissionDuty? && i <= u.address.attachment.ruleIndex && IsListed(p, c, u)
    decreases |p.lists.permissions| - i
  {
    if i < |p.lists.permissions| {
      var r, rest := p.lists.permissions[i], UnresolvedPermissionDuties(p, c, i + 1);
      PermissionLists(p, c, i, u);
      PermissionsList(p, c, i + 1, u);
      assert u in UnresolvedPermissionDuties(p, c, i)
        <==> (InPlay(r, c) && u in ListUnresolved(r.duty, PermissionDuty(i), c.world, 0)) || u in rest;
    }
  }

  lemma ProhibitionLists(p: Policy, c: Case, i: nat, u: UnresolvedDuty)
    requires i < |p.lists.prohibitions| && !PermissionWins(p, c)
    ensures InPlay(p.lists.prohibitions[i], c)
         && u in ListUnresolved(p.lists.prohibitions[i].remedy, ProhibitionRemedy(i), c.world, 0)
       <==> u.address.attachment == ProhibitionRemedy(i) && IsListed(p, c, u)
  {
    ProhibitionActiveIff(p, c, i);
    ListLists(p.lists.prohibitions[i].remedy, ProhibitionRemedy(i), c.world, 0, u);
  }

  /** Where a permission wins no prohibition is in force, and none of their remedies is listed. */
  lemma OutweighedListsNothing(p: Policy, c: Case, u: UnresolvedDuty)
    requires PermissionWins(p, c) && u.address.attachment.ProhibitionRemedy?
    ensures !IsListed(p, c, u)
  {
    if u.address.attachment.ruleIndex < |p.lists.prohibitions| {
      ProhibitionActiveIff(p, c, u.address.attachment.ruleIndex);
    }
  }

  lemma {:induction false} ProhibitionsList(p: Policy, c: Case, i: nat, u: UnresolvedDuty)
    requires i <= |p.lists.prohibitions|
    ensures u in UnresolvedRemedies(p, c, PermissionWins(p, c), i)
       <==> u.address.attachment.ProhibitionRemedy? && i <= u.address.attachment.ruleIndex && IsListed(p, c, u)
    decreases |p.lists.prohibitions| - i
  {
    if PermissionWins(p, c) {
      if u.address.attachment.ProhibitionRemedy? {
        OutweighedListsNothing(p, c, u);
      }
    } else if i < |p.lists.prohibitions| {
      var r, rest := p.lists.prohibitions[i], UnresolvedRemedies(p, c, false, i + 1);
      ProhibitionLists(p, c, i, u);
      ProhibitionsList(p, c, i + 1, u);
      assert u in UnresolvedRemedies(p, c, false, i)
        <==> (InPlay(r, c) && u in ListUnresolved(r.remedy, ProhibitionRemedy(i), c.world, 0)) || u in rest;
    }
  }

  lemma ObligationsList(p: Policy, c: Case, u: UnresolvedDuty)
    ensures u in UnresolvedObligations(p, c.world) <==> u.address.attachment.Obligation? && IsListed(p, c, u)
  {
    ListLists(p.lists.obligations, Obligation, c.world, 0, u);
  }

  lemma UnresolvedInParts(p: Policy, c: Case)
    requires !Decide(p, c).decision.Error?
    ensures Decide(p, c).unresolvedDuties
         == UnresolvedObligations(p, c.world) + UnresolvedPermissionDuties(p, c, 0)
            + UnresolvedRemedies(p, c, PermissionWins(p, c), 0)
  {
    RefusedIffUnknown(p, c);
  }

  lemma InOneOfThree<T>(a: seq<T>, b: seq<T>, c: seq<T>, x: T)
    ensures x in a + b + c <==> x in a || x in b || x in c
  {
  }

  /** The coarse answer lists exactly these duties of a policy that is not refused. */
  lemma ListedMeans(p: Policy, c: Case, u: UnresolvedDuty)
    requires !Decide(p, c).decision.Error?
    ensures u in Decide(p, c).unresolvedDuties <==> IsListed(p, c, u)
  {
    UnresolvedInParts(p, c);
    InOneOfThree(
      UnresolvedObligations(p, c.world), UnresolvedPermissionDuties(p, c, 0),
      UnresolvedRemedies(p, c, PermissionWins(p, c), 0), u);
    ObligationsList(p, c, u);
    PermissionsList(p, c, 0, u);
    ProhibitionsList(p, c, 0, u);
  }

  /** Obligations first, then the duties of permissions, then the remedies. */
  function ListedStanding(u: UnresolvedDuty): Standing {
    match u.address.attachment
    case Obligation => Standing(0, 0, u.address.index, 0)
    case PermissionDuty(i) => Standing(1, i, u.address.index, 0)
    case ProhibitionRemedy(i) => Standing(2, i, u.address.index, 0)
  }

  lemma {:induction false} ListListsInOrder(duties: seq<Rule>, attachment: DutyAttachment, w: World, j: nat)
    requires j <= |duties|
    ensures InOrder(ListUnresolved(duties, attachment, w, j), ListedStanding)
    ensures forall u :: u in ListUnresolved(duties, attachment, w, j) ==>
      u.address.attachment == attachment && u.address.index >= j
    decreases |duties| - j
  {
    if j < |duties| {
      ListListsInOrder(duties, attachment, w, j + 1);
      JoinedInOrder(
        ChainUnresolved(duties[j], attachment, j, w), ListUnresolved(duties, attachment, w, j + 1), ListedStanding);
    }
  }

  /** What is listed of one rule stands before what is listed of later ones. */
  lemma RuleBeforeLater(own: seq<UnresolvedDuty>, rest: seq<UnresolvedDuty>, list: nat, i: nat)
    requires InOrder(own, ListedStanding) && InOrder(rest, ListedStanding)
    requires forall u :: u in own ==> ListedStanding(u).list == list && ListedStanding(u).rule == i
    requires forall u :: u in rest ==> ListedStanding(u).list == list && ListedStanding(u).rule > i
    ensures InOrder(own + rest, ListedStanding)
  {
    JoinedInOrder(own, rest, ListedStanding);
  }

  lemma PermissionsListLater(p: Policy, c: Case, i: nat)
    requires i <= |p.lists.permissions|
    ensures forall u :: u in UnresolvedPermissionDuties(p, c, i) ==>
      ListedStanding(u).list == 1 && ListedStanding(u).rule >= i
  {
    forall u | u in UnresolvedPermissionDuties(p, c, i)
      ensures ListedStanding(u).list == 1 && ListedStanding(u).rule >= i
    {
      PermissionsList(p, c, i, u);
    }
  }

  lemma {:induction false} PermissionsListInOrder(p: Policy, c: Case, i: nat)
    requires i <= |p.lists.permissions|
    ensures InOrder(UnresolvedPermissionDuties(p, c, i), ListedStanding)
    decreases |p.lists.permissions| - i
  {
    if i < |p.lists.permissions| {
      var r := p.lists.permissions[i];
      var own := if InPlay(r, c) then ListUnresolved(r.duty, PermissionDuty(i), c.world, 0) else [];
      ListListsInOrder(r.duty, PermissionDuty(i), c.world, 0);
      PermissionsListInOrder(p, c, i + 1);
      PermissionsListLater(p, c, i + 1);
      RuleBeforeLater(own, UnresolvedPermissionDuties(p, c, i + 1), 1, i);
    }
  }

  lemma ProhibitionsListLater(p: Policy, c: Case, i: nat)
    requires i <= |p.lists.prohibitions|
    ensures forall u :: u in UnresolvedRemedies(p, c, PermissionWins(p, c), i) ==>
      ListedStanding(u).list == 2 && ListedStanding(u).rule >= i
  {
    forall u | u in UnresolvedRemedies(p, c, PermissionWins(p, c), i)
      ensures ListedStanding(u).list == 2 && ListedStanding(u).rule >= i
    {
      ProhibitionsList(p, c, i, u);
    }
  }

  lemma OneProhibitionMore(p: Policy, c: Case, i: nat)
    requires i < |p.lists.prohibitions|
    requires InOrder(UnresolvedRemedies(p, c, false, i + 1), ListedStanding)
    requires forall u :: u in UnresolvedRemedies(p, c, false, i + 1) ==>
      ListedStanding(u).list == 2 && ListedStanding(u).rule > i
    ensures InOrder(UnresolvedRemedies(p, c, false, i), ListedStanding)
  {
    var r := p.lists.prohibitions[i];
    var own := if InPlay(r, c) then ListUnresolved(r.remedy, ProhibitionRemedy(i), c.world, 0) else [];
    ListListsInOrder(r.remedy, ProhibitionRemedy(i), c.world, 0);
    RuleBeforeLater(own, UnresolvedRemedies(p, c, false, i + 1), 2, i);
  }

  lemma {:induction false} ProhibitionsListInOrder(p: Policy, c: Case, i: nat)
    requires i <= |p.lists.prohibitions|
    ensures InOrder(UnresolvedRemedies(p, c, PermissionWins(p, c), i), ListedStanding)
    decreases |p.lists.prohibitions| - i
  {
    if i < |p.lists.prohibitions| && !PermissionWins(p, c) {
      ProhibitionsListInOrder(p, c, i + 1);
      ProhibitionsListLater(p, c, i + 1);
      OneProhibitionMore(p, c, i);
    }
  }

  /** They are listed in the order of the policy, none of them twice. */
  lemma ListedInOrder(p: Policy, c: Case)
    ensures InOrder(Decide(p, c).unresolvedDuties, ListedStanding)
  {
    var wins := PermissionWins(p, c);
    ListListsInOrder(p.lists.obligations, Obligation, c.world, 0);
    PermissionsListInOrder(p, c, 0);
    ProhibitionsListInOrder(p, c, 0);
    PermissionsListLater(p, c, 0);
    ProhibitionsListLater(p, c, 0);
    JoinedInOrder(UnresolvedObligations(p, c.world), UnresolvedPermissionDuties(p, c, 0), ListedStanding);
    JoinedInOrder(
      UnresolvedObligations(p, c.world) + UnresolvedPermissionDuties(p, c, 0),
      UnresolvedRemedies(p, c, wins, 0),
      ListedStanding);
  }
}
