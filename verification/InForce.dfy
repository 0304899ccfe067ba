/** Which duties of a policy are in force for a request: the ones its account reports active. */
module InForce {
  import opened Constraints
  import opened Rules
  import opened Decisions

  /** The walk down a chain comes to this depth: no duty above it is satisfied. */
  predicate Reached(d: Rule, w: World, depth: nat)
    decreases depth
  {
    depth == 0 || (!DutySatisfied(d, w) && d.consequence.Some? && Reached(d.consequence.value, w, depth - 1))
  }

  /** What the duty hangs on is in play: the policy always is. */
  predicate HoldsUp(p: Policy, c: Case, attachment: DutyAttachment) {
    match attachment
    case Obligation => true
    case PermissionDuty(i) => i < |p.lists.permissions| && InPlay(p.lists.permissions[i], c)
    case ProhibitionRemedy(i) => i < |p.lists.prohibitions| && ProhibitionActive(p, c, i)
  }

  predicate InForceAt(p: Policy, c: Case, a: DutyAddress) {
    && RuleAt(p.lists, a).Some?
    && a.depth <= MAX_CONSEQUENCE_DEPTH
    && HoldsUp(p, c, a.attachment)
    && Reached(RootRule(p.lists, a.attachment, a.index).value, c.world, a.depth)
  }

  predicate SatisfiedAt(p: Policy, c: Case, a: DutyAddress)
    requires RuleAt(p.lists, a).Some?
  {
    DutySatisfied(RuleAt(p.lists, a).value, c.world)
  }

  /** The report on a duty in force. */
  predicate OfDutyInForce(p: Policy, c: Case, r: RuleReport) {
    && r.DutyReport?
    && InForceAt(p, c, r.address)
    && r == DutyReportFor(r.address, true, SatisfiedAt(p, c, r.address))
  }

  /** What the `k`th report of a chain says, and that the chain is long enough to say it of every duty in force. */
  lemma {:induction false} HopReport(
      d: Rule, attachment: DutyAttachment, index: nat, depth: nat, inForce: bool, w: World, k: nat)
    ensures var chain := ChainReports(d, attachment, index, depth, inForce, w);
      var effective := inForce && Reached(d, w, k) && depth + k <= MAX_CONSEQUENCE_DEPTH;
      && (effective ==> k < |chain|)
      && (k < |chain| ==>
        && WalkRule(d, k).Some?
        && chain[k] == DutyReportFor(
             DutyAddress(attachment, index, depth + k), effective, DutySatisfied(WalkRule(d, k).value, w)))
    decreases k
  {
    if k > 0 && depth <= MAX_CONSEQUENCE_DEPTH && d.consequence.Some? {
      var goesOn := inForce && depth <= MAX_CONSEQUENCE_DEPTH && !DutySatisfied(d, w);
      var below := ChainReports(d.consequence.value, attachment, index, depth + 1, goesOn, w);
      HopReport(d.consequence.value, attachment, index, depth + 1, goesOn, w, k - 1);
      assert ChainReports(d, attachment, index, depth, inForce, w)[1..] == below;
    }
  }

  /** The report on a hop of this chain that is in force. */
  predicate OfHop(d: Rule, attachment: DutyAttachment, index: nat, w: World, r: RuleReport) {
    && r.DutyReport?
    && r.address.attachment == attachment && r.address.index == index && r.address.depth <= MAX_CONSEQUENCE_DEPTH
    && WalkRule(d, r.address.depth).Some? && Reached(d, w, r.address.depth)
    && r == DutyReportFor(r.address, true, DutySatisfied(WalkRule(d, r.address.depth).value, w))
  }

  lemma ActiveInChain(d: Rule, attachment: DutyAttachment, index: nat, inForce: bool, w: World, r: RuleReport)
    ensures r in ChainReports(d, attachment, index, 0, inForce, w) && r.activation == Active
       <==> inForce && OfHop(d, attachment, index, w, r)
  {
    var chain := ChainReports(d, attachment, index, 0, inForce, w);
    if r in chain && r.activation == Active {
      var k :| 0 <= k < |chain| && chain[k] == r;
      HopReport(d, attachment, index, 0, inForce, w, k);
    }
    if inForce && OfHop(d, attachment, index, w, r) {
      HopReport(d, attachment, index, 0, inForce, w, r.address.depth);
      assert chain[r.address.depth] == r;
    }
  }

  ghost predicate InChain(duties: seq<Rule>, attachment: DutyAttachment, inForce: bool, w: World, k: nat, r: RuleReport)
    requires k < |duties|
  {
    r in ChainReports(duties[k], attachment, k, 0, inForce, w)
  }

  lemma {:induction false} InSomeChain(
      duties: seq<Rule>, attachment: DutyAttachment, inForce: bool, w: World, j: nat, r: RuleReport)
    requires j <= |duties|
    ensures r in ListReports(duties, attachment, inForce, w, j)
       <==> exists k :: j <= k < |duties| && InChain(duties, attachment, inForce, w, k, r)
    decreases |duties| - j
  {
    if j < |duties| {
      InSomeChain(duties, attachment, inForce, w, j + 1, r);
      var own, rest := ChainReports(duties[j], attachment, j, 0, inForce, w),
        ListReports(duties, attachment, inForce, w, j + 1);
      assert r in own + rest <==> r in own || r in rest;
      assert InChain(duties, attachment, inForce, w, j, r) <==> r in own;
    }
  }

  predicate OfList(duties: seq<Rule>, attachment: DutyAttachment, w: World, r: RuleReport) {
    r.DutyReport? && r.address.index < |duties| && OfHop(duties[r.address.index], attachment, r.address.index, w, r)
  }

  lemma ActiveInList(duties: seq<Rule>, attachment: DutyAttachment, inForce: bool, w: World, r: RuleReport)
    ensures r in ListReports(duties, attachment, inForce, w, 0) && r.activation == Active
       <==> inForce && OfList(duties, attachment, w, r)
  {
    InSomeChain(duties, attachment, inForce, w, 0, r);
    if k :| 0 <= k < |duties| && InChain(duties, attachment, inForce, w, k, r) {
      ActiveInChain(duties[k], attachment, k, inForce, w, r);
    }
    if inForce && OfList(duties, attachment, w, r) {
      ActiveInChain(duties[r.address.index], attachment, r.address.index, inForce, w, r);
      assert InChain(duties, attachment, inForce, w, r.address.index, r);
    }
  }

  ghost predicate UnderPermissionAt(p: Policy, c: Case, i: nat, r: RuleReport)
    requires i < |p.lists.permissions|
  {
    var rule := p.lists.permissions[i];
    r in ListReports(rule.duty, PermissionDuty(i), InPlay(rule, c), c.world, 0)
  }

  ghost predicate UnderProhibitionAt(p: Policy, c: Case, i: nat, r: RuleReport)
    requires i < |p.lists.prohibitions|
  {
    r in ListReports(p.lists.prohibitions[i].remedy, ProhibitionRemedy(i), ProhibitionActive(p, c, i), c.world, 0)
  }

  lemma {:induction false} DutiesUnderPermissions(p: Policy, c: Case, i: nat, r: RuleReport)
    requires i <= |p.lists.permissions| && r.DutyReport?
    ensures r in PermissionReports(p, c, i)
       <==> exists k :: i <= k < |p.lists.permissions| && UnderPermissionAt(p, c, k, r)
    decreases |p.lists.permissions| - i
  {
    if i < |p.lists.permissions| {
      DutiesUnderPermissions(p, c, i + 1, r);
      var own, rest := [PermissionReportFor(p, c, i)], PermissionReports(p, c, i + 1);
      assert r !in own;
      assert r in PermissionReports(p, c, i) <==> UnderPermissionAt(p, c, i, r) || r in rest;
    }
  }

  lemma {:induction false} DutiesUnderProhibitions(p: Policy, c: Case, i: nat, r: RuleReport)
    requires i <= |p.lists.prohibitions| && r.DutyReport?
    ensures r in ProhibitionReports(p, c, i)
       <==> exists k :: i <= k < |p.lists.prohibitions| && UnderProhibitionAt(p, c, k, r)
    decreases |p.lists.prohibitions| - i
  {
    if i < |p.lists.prohibitions| {
      DutiesUnderProhibitions(p, c, i + 1, r);
      var own, rest := [ProhibitionReportFor(p, c, i)], ProhibitionReports(p, c, i + 1);
      assert r !in own;
      assert r in ProhibitionReports(p, c, i) <==> UnderProhibitionAt(p, c, i, r) || r in rest;
    }
  }

  /** Of what hangs on one rule, or on the policy, the active reports are those on duties in force. */
  lemma ActiveUnder(p: Policy, c: Case, duties: seq<Rule>, attachment: DutyAttachment, inForce: bool, r: RuleReport)
    requires r.DutyReport? && (inForce <==> HoldsUp(p, c, attachment))
    requires inForce ==> forall k: nat :: RootRule(p.lists, attachment, k) == At(duties, k)
    ensures r in ListReports(duties, attachment, inForce, c.world, 0) && r.activation == Active
       <==> OfDutyInForce(p, c, r) && r.address.attachment == attachment
  {
    ActiveInList(duties, attachment, inForce, c.world, r);
    if inForce {
      assert RootRule(p.lists, attachment, r.address.index) == At(duties, r.address.index);
    }
  }

  lemma ActiveUnderPermissions(p: Policy, c: Case, r: RuleReport)
    requires r.DutyReport?
    ensures r in PermissionReports(p, c, 0) && r.activation == Active
       <==> OfDutyInForce(p, c, r) && r.address.attachment.PermissionDuty?
  {
    DutiesUnderPermissions(p, c, 0, r);
    forall i | 0 <= i < |p.lists.permissions|
      ensures UnderPermissionAt(p, c, i, r) && r.activation == Active
         <==> OfDutyInForce(p, c, r) && r.address.attachment == PermissionDuty(i)
    {
      var rule := p.lists.permissions[i];
      ActiveUnder(p, c, rule.duty, PermissionDuty(i), InPlay(rule, c), r);
    }
  }

  lemma ActiveUnderProhibitions(p: Policy, c: Case, r: RuleReport)
    requires r.DutyReport?
    ensures r in ProhibitionReports(p, c, 0) && r.activation == Active
       <==> OfDutyInForce(p, c, r) && r.address.attachment.ProhibitionRemedy?
  {
    DutiesUnderProhibitions(p, c, 0, r);
    forall i | 0 <= i < |p.lists.prohibitions|
      ensures UnderProhibitionAt(p, c, i, r) && r.activation == Active
         <==> OfDutyInForce(p, c, r) && r.address.attachment == ProhibitionRemedy(i)
    {
      ActiveUnder(p, c, p.lists.prohibitions[i].remedy, ProhibitionRemedy(i), ProhibitionActive(p, c, i), r);
    }
  }

  /** The active duty reports of an account are those on the duties in force. */
  lemma ActiveDutyReports(p: Policy, c: Case, r: RuleReport)
    requires r.DutyReport?
    ensures r in DetailedReports(p, c) && r.activation == Active <==> OfDutyInForce(p, c, r)
  {
    ActiveUnderPermissions(p, c, r);
    ActiveUnderProhibitions(p, c, r);
    ActiveUnder(p, c, p.lists.obligations, Obligation, true, r);
  }
}
