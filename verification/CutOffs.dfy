/**
 Where the engine's two accounts of outstanding duties part: a chain of consequences longer
 than the engine walks. The coarse answer lists the last duty it reached, the detailed account
 has no terminal duty to show for it.
 */
module CutOffs {
  import opened Wrappers
  import opened Collections
  import opened Constraints
  import opened Rules
  import opened Decisions
  import opened Bags
  import opened Places
  import opened OwnAccount

  /** The walk from `d` ends at the depth bound with a consequence still to go. */
  predicate CutAt(d: Rule, w: World, depth: nat)
    decreases d
  {
    if DutySatisfied(d, w) || d.consequence.None? then false
    else depth >= MAX_CONSEQUENCE_DEPTH || CutAt(d.consequence.value, w, depth + 1)
  }

  predicate CutIn(duties: seq<Rule>, w: World) {
    exists j :: 0 <= j < |duties| && CutAt(duties[j], w, 0)
  }

  predicate CutUnderPermission(p: Policy, c: Case, i: nat)
    requires i < |p.lists.permissions|
  {
    InPlay(p.lists.permissions[i], c) && CutIn(p.lists.permissions[i].duty, c.world)
  }

  predicate CutUnderProhibition(p: Policy, c: Case, i: nat)
    requires i < |p.lists.prohibitions|
  {
    ProhibitionActive(p, c, i) && CutIn(p.lists.prohibitions[i].remedy, c.world)
  }

  /** Some duty in force for this request is outstanding past the bound. */
  predicate AnyCut(p: Policy, c: Case) {
    || CutIn(p.lists.obligations, c.world)
    || (exists i :: 0 <= i < |p.lists.permissions| && CutUnderPermission(p, c, i))
    || (exists i :: 0 <= i < |p.lists.prohibitions| && CutUnderProhibition(p, c, i))
  }

  /** What one listing is about: the policy, its rules, and the duty mode. */
  datatype Listing = Listing(policyId: string, rules: RuleLists, mode: DutyMode)
  {
    ghost function OfReport(): RuleReport -> Bag {
      Reported(policyId, rules, mode)
    }

    ghost function OfUnresolved(): UnresolvedDuty -> Bag {
      (u: UnresolvedDuty) => UnresolvedBag(policyId, mode, u)
    }
  }

  ghost function UnresolvedBag(policyId: string, mode: DutyMode, u: UnresolvedDuty): Bag {
    if mode == DutyMode.Deny && u.IsPlainPolicyObligation() then multiset{} else multiset{(policyId, u.action)}
  }

  ghost function ChainBag(l: Listing, attachment: DutyAttachment, index: nat, o: Option<OutstandingDuty>): Bag {
    match o
    case None => multiset{}
    case Some(out) =>
      UnresolvedBag(l.policyId, l.mode, UnresolvedDuty(out.action, DutyAddress(attachment, index, out.depth)))
  }

  lemma {:induction false} CutIsOutstanding(d: Rule, w: World, depth: nat)
    requires CutAt(d, w, depth) && depth <= MAX_CONSEQUENCE_DEPTH
    ensures OutstandingAt(d, w, depth).Some? && OutstandingAt(d, w, depth).value.depth == MAX_CONSEQUENCE_DEPTH
    decreases d
  {
    if depth < MAX_CONSEQUENCE_DEPTH {
      CutIsOutstanding(d.consequence.value, w, depth + 1);
    }
  }

  /** The report on one hop lists that hop exactly when it is in force, unmet and the last of its chain. */
  lemma HopLists(l: Listing, d: Rule, address: DutyAddress, effective: bool, w: World)
    requires RuleAt(l.rules, address) == Some(d)
    ensures var here := DutyReportFor(address, effective, DutySatisfied(d, w));
      Sum(l.OfReport(), [here])
      == if effective && !DutySatisfied(d, w) && d.consequence.None?
         then UnresolvedBag(l.policyId, l.mode, UnresolvedDuty(d.action, address)) else multiset{}
  {
    SumOfOne(l.OfReport(), DutyReportFor(address, effective, DutySatisfied(d, w)));
  }

  /** What a chain has to list from this hop on. */
  ghost function ToList(
      l: Listing, d: Rule, attachment: DutyAttachment, index: nat, depth: nat, inForce: bool, w: World): Bag
  {
    if !inForce || depth > MAX_CONSEQUENCE_DEPTH || CutAt(d, w, depth) then multiset{}
    else ChainBag(l, attachment, index, OutstandingAt(d, w, depth))
  }

  /** This hop or the hops below it list that, never both. */
  lemma ThisHopOrBelow(
      l: Listing, d: Rule, attachment: DutyAttachment, index: nat, depth: nat, inForce: bool, w: World)
    ensures var goesOn := inForce && depth <= MAX_CONSEQUENCE_DEPTH && !DutySatisfied(d, w);
      ToList(l, d, attachment, index, depth, inForce, w)
      == if d.consequence.Some? then ToList(l, d.consequence.value, attachment, index, depth + 1, goesOn, w)
         else if goesOn then
           UnresolvedBag(l.policyId, l.mode, UnresolvedDuty(d.action, DutyAddress(attachment, index, depth)))
         else multiset{}
  {
  }

  lemma HopThenBelow(f: RuleReport -> Bag, here: RuleReport, below: seq<RuleReport>, chain: seq<RuleReport>)
    requires chain == [here] + below && Sum(f, [here]) == multiset{}
    ensures Sum(f, chain) == Sum(f, below)
  {
    SumAppend(f, [here], below);
  }

  lemma LastHopLists(
      l: Listing, d: Rule, attachment: DutyAttachment, index: nat, depth: nat, inForce: bool, w: World)
    requires RuleAt(l.rules, DutyAddress(attachment, index, depth)) == Some(d)
    requires depth > MAX_CONSEQUENCE_DEPTH || d.consequence.None?
    ensures Sum(l.OfReport(), ChainReports(d, attachment, index, depth, inForce, w))
         == ToList(l, d, attachment, index, depth, inForce, w)
  {
    var effective := inForce && depth <= MAX_CONSEQUENCE_DEPTH;
    HopLists(l, d, DutyAddress(attachment, index, depth), effective, w);
    ThisHopOrBelow(l, d, attachment, index, depth, inForce, w);
  }

  lemma MiddleHopLists(
      l: Listing, d: Rule, attachment: DutyAttachment, index: nat, depth: nat, inForce: bool, w: World)
    requires RuleAt(l.rules, DutyAddress(attachment, index, depth)) == Some(d)
    requires depth <= MAX_CONSEQUENCE_DEPTH && d.consequence.Some?
    requires var goesOn := inForce && !DutySatisfied(d, w);
      Sum(l.OfReport(), ChainReports(d.consequence.value, attachment, index, depth + 1, goesOn, w))
      == ToList(l, d.consequence.value, attachment, index, depth + 1, goesOn, w)
    ensures Sum(l.OfReport(), ChainReports(d, attachment, index, depth, inForce, w))
         == ToList(l, d, attachment, index, depth, inForce, w)
  {
    var goesOn := inForce && !DutySatisfied(d, w);
    var address := DutyAddress(attachment, index, depth);
    HopLists(l, d, address, inForce, w);
    ThisHopOrBelow(l, d, attachment, index, depth, inForce, w);
    HopThenBelow(
      l.OfReport(), DutyReportFor(address, inForce, DutySatisfied(d, w)),
      ChainReports(d.consequence.value, attachment, index, depth + 1, goesOn, w),
      ChainReports(d, attachment, index, depth, inForce, w));
  }

  /** A chain's reports list exactly its outstanding duty, unless the chain is not in force or is cut off. */
  lemma {:induction false} ChainLists(
      l: Listing, d: Rule, attachment: DutyAttachment, index: nat, depth: nat, inForce: bool, w: World)
    requires RuleAt(l.rules, DutyAddress(attachment, index, depth)) == Some(d)
    ensures Sum(l.OfReport(), ChainReports(d, attachment, index, depth, inForce, w))
         == ToList(l, d, attachment, index, depth, inForce, w)
    decreases d
  {
    if depth <= MAX_CONSEQUENCE_DEPTH && d.consequence.Some? {
      NextAddress(l.rules, attachment, index, depth);
      ChainLists(l, d.consequence.value, attachment, index, depth + 1, inForce && !DutySatisfied(d, w), w);
      MiddleHopLists(l, d, attachment, index, depth, inForce, w);
    } else {
      LastHopLists(l, d, attachment, index, depth, inForce, w);
    }
  }

  lemma NextAddress(rules: RuleLists, attachment: DutyAttachment, index: nat, depth: nat)
    requires RuleAt(rules, DutyAddress(attachment, index, depth)).Some?
    ensures RuleAt(rules, DutyAddress(attachment, index, depth + 1))
         == RuleAt(rules, DutyAddress(attachment, index, depth)).value.consequence
  {
    WalkOn(RootRule(rules, attachment, index).value, depth);
  }

  ghost predicate IsList(rules: RuleLists, attachment: DutyAttachment, duties: seq<Rule>) {
    forall j {:trigger duties[j]} :: 0 <= j < |duties| ==> RootRule(rules, attachment, j) == Some(duties[j])
  }

  /** One chain's part of the missing entries. */
  ghost function MissingOf(l: Listing, d: Rule, attachment: DutyAttachment, j: nat, w: World): Bag {
    if CutAt(d, w, 0) then ChainBag(l, attachment, j, Outstanding(d, w)) else multiset{}
  }

  ghost function MissingEach(l: Listing, duties: seq<Rule>, attachment: DutyAttachment, w: World): (r: seq<Bag>)
    ensures |r| == |duties| && forall j :: 0 <= j < |r| ==> r[j] == MissingOf(l, duties[j], attachment, j, w)
  {
    seq(|duties|, j requires 0 <= j < |duties| => MissingOf(l, duties[j], attachment, j, w))
  }

  /** What the coarse answer lists and the detailed account does not. */
  ghost function MissingFrom(l: Listing, duties: seq<Rule>, attachment: DutyAttachment, w: World): Bag {
    Total(MissingEach(l, duties, attachment, w))
  }

  lemma MissingOfIffCut(l: Listing, d: Rule, attachment: DutyAttachment, j: nat, w: World)
    ensures MissingOf(l, d, attachment, j, w) == multiset{} <==> !CutAt(d, w, 0)
  {
    if CutAt(d, w, 0) {
      CutIsOutstanding(d, w, 0);
    }
  }

  lemma MissingIffCut(l: Listing, duties: seq<Rule>, attachment: DutyAttachment, w: World)
    ensures MissingFrom(l, duties, attachment, w) == multiset{} <==> !CutIn(duties, w)
  {
    var each := MissingEach(l, duties, attachment, w);
    TotalEmptyIff(each);
    forall j | 0 <= j < |duties| ensures each[j] == multiset{} <==> !CutAt(duties[j], w, 0) {
      MissingOfIffCut(l, duties[j], attachment, j, w);
    }
  }

  /** One chain's share of the listing below. */
  lemma ChainShare(l: Listing, duties: seq<Rule>, attachment: DutyAttachment, w: World, j: nat)
    requires j < |duties| && IsList(l.rules, attachment, duties)
    ensures Sum(l.OfReport(), ChainReports(duties[j], attachment, j, 0, true, w))
          + MissingOf(l, duties[j], attachment, j, w)
         == Sum(l.OfUnresolved(), ChainUnresolved(duties[j], attachment, j, w))
  {
    assert RootRule(l.rules, attachment, j) == Some(duties[j]);
    ChainLists(l, duties[j], attachment, j, 0, true, w);
    SumOfChain(l, duties[j], attachment, j, w);
  }

  lemma SumOfChain(l: Listing, d: Rule, attachment: DutyAttachment, j: nat, w: World)
    ensures Sum(l.OfUnresolved(), ChainUnresolved(d, attachment, j, w)) == ChainBag(l, attachment, j, Outstanding(d, w))
  {
    if Outstanding(d, w).Some? {
      SumOfOne(l.OfUnresolved(), ChainUnresolved(d, attachment, j, w)[0]);
    }
  }

  lemma ChainIsSilent(l: Listing, duties: seq<Rule>, attachment: DutyAttachment, w: World, j: nat)
    requires j < |duties| && IsList(l.rules, attachment, duties)
    ensures Sum(l.OfReport(), ChainReports(duties[j], attachment, j, 0, false, w)) == multiset{}
  {
    assert RootRule(l.rules, attachment, j) == Some(duties[j]);
    ChainLists(l, duties[j], attachment, j, 0, false, w);
  }

  // ---------------------------------------------------------------
  // A list of duties, chain by chain
  // ---------------------------------------------------------------

  ghost function Chains(duties: seq<Rule>, attachment: DutyAttachment, inForce: bool, w: World)
    : (r: seq<seq<RuleReport>>)
    ensures |r| == |duties|
    ensures forall j :: 0 <= j < |r| ==> r[j] == ChainReports(duties[j], attachment, j, 0, inForce, w)
  {
    seq(|duties|, j requires 0 <= j < |duties| => ChainReports(duties[j], attachment, j, 0, inForce, w))
  }

  lemma {:induction false} ListIsChains(duties: seq<Rule>, attachment: DutyAttachment, inForce: bool, w: World, j: nat)
    requires j <= |duties|
    ensures ListReports(duties, attachment, inForce, w, j) == Flatten(Chains(duties, attachment, inForce, w)[j..])
    decreases |duties| - j
  {
    if j < |duties| {
      ListIsChains(duties, attachment, inForce, w, j + 1);
      var chains := Chains(duties, attachment, inForce, w);
      assert chains[j..][1..] == chains[j + 1..];
    }
  }

  ghost function Unresolved(duties: seq<Rule>, attachment: DutyAttachment, w: World): (r: seq<seq<UnresolvedDuty>>)
    ensures |r| == |duties|
    ensures forall j :: 0 <= j < |r| ==> r[j] == ChainUnresolved(duties[j], attachment, j, w)
  {
    seq(|duties|, j requires 0 <= j < |duties| => ChainUnresolved(duties[j], attachment, j, w))
  }

  lemma {:induction false} ListIsUnresolved(duties: seq<Rule>, attachment: DutyAttachment, w: World, j: nat)
    requires j <= |duties|
    ensures ListUnresolved(duties, attachment, w, j) == Flatten(Unresolved(duties, attachment, w)[j..])
    decreases |duties| - j
  {
    if j < |duties| {
      ListIsUnresolved(duties, attachment, w, j + 1);
      var chains := Unresolved(duties, attachment, w);
      assert chains[j..][1..] == chains[j + 1..];
    }
  }

  lemma ListLists(l: Listing, duties: seq<Rule>, attachment: DutyAttachment, w: World)
    requires IsList(l.rules, attachment, duties)
    ensures Sum(l.OfReport(), ListReports(duties, attachment, true, w, 0)) + MissingFrom(l, duties, attachment, w)
         == Sum(l.OfUnresolved(), ListUnresolved(duties, attachment, w, 0))
  {
    ListIsChains(duties, attachment, true, w, 0);
    ListIsUnresolved(duties, attachment, w, 0);
    var chains, unresolved := Chains(duties, attachment, true, w), Unresolved(duties, attachment, w);
    var missing := MissingEach(l, duties, attachment, w);
    assert chains[0..] == chains && unresolved[0..] == unresolved;
    forall j | 0 <= j < |duties|
      ensures Sum(l.OfReport(), chains[j]) + missing[j] == Sum(l.OfUnresolved(), unresolved[j])
    {
      ChainShare(l, duties, attachment, w, j);
    }
    PartsSideBySide(l.OfReport(), chains, l.OfUnresolved(), unresolved, missing);
  }

  lemma ListSilent(l: Listing, duties: seq<Rule>, attachment: DutyAttachment, w: World)
    requires IsList(l.rules, attachment, duties)
    ensures Sum(l.OfReport(), ListReports(duties, attachment, false, w, 0)) == multiset{}
  {
    ListIsChains(duties, attachment, false, w, 0);
    var chains := Chains(duties, attachment, false, w);
    assert chains[0..] == chains;
    forall j | 0 <= j < |duties| ensures Sum(l.OfReport(), chains[j]) == multiset{} {
      ChainIsSilent(l, duties, attachment, w, j);
    }
    EmptyParts(l.OfReport(), chains);
  }

  // ---------------------------------------------------------------
  // A whole policy
  // ---------------------------------------------------------------

  /** What is missing of one permission's duties, or of one prohibition's remedies. */
  ghost function MissingUnder(
      l: Listing, duties: seq<Rule>, attachment: DutyAttachment, inForce: bool, w: World): Bag
  {
    if inForce then MissingFrom(l, duties, attachment, w) else multiset{}
  }

  ghost function MissingDutiesEach(l: Listing, p: Policy, c: Case): (r: seq<Bag>)
    ensures |r| == |p.lists.permissions|
    ensures forall i :: 0 <= i < |r| ==>
      var rule := p.lists.permissions[i];
      r[i] == MissingUnder(l, rule.duty, PermissionDuty(i), InPlay(rule, c), c.world)
  {
    seq(|p.lists.permissions|, i requires 0 <= i < |p.lists.permissions| =>
      var rule := p.lists.permissions[i];
      MissingUnder(l, rule.duty, PermissionDuty(i), InPlay(rule, c), c.world))
  }

  ghost function MissingRemediesEach(l: Listing, p: Policy, c: Case): (r: seq<Bag>)
    ensures |r| == |p.lists.prohibitions|
    ensures forall i :: 0 <= i < |r| ==>
      r[i] == MissingUnder(l, p.lists.prohibitions[i].remedy, ProhibitionRemedy(i), ProhibitionActive(p, c, i), c.world)
  {
    seq(|p.lists.prohibitions|, i requires 0 <= i < |p.lists.prohibitions| =>
      MissingUnder(l, p.lists.prohibitions[i].remedy, ProhibitionRemedy(i), ProhibitionActive(p, c, i), c.world))
  }

  ghost function MissingPermissionDuties(l: Listing, p: Policy, c: Case): Bag {
    Total(MissingDutiesEach(l, p, c))
  }

  ghost function MissingRemedies(l: Listing, p: Policy, c: Case): Bag {
    Total(MissingRemediesEach(l, p, c))
  }

  ghost function Missing(l: Listing, p: Policy, c: Case): Bag {
    MissingFrom(l, p.lists.obligations, Obligation, c.world)
    + MissingPermissionDuties(l, p, c)
    + MissingRemedies(l, p, c)
  }

  function InForceOnly(unresolved: seq<UnresolvedDuty>, inForce: bool): seq<UnresolvedDuty> {
    if inForce then unresolved else []
  }

  /** One rule's own report and its duties' reports, beside what the coarse answer reads of the duties. */
  lemma RuleShare(l: Listing, own: RuleReport, duties: seq<Rule>, attachment: DutyAttachment, inForce: bool, w: World)
    requires IsList(l.rules, attachment, duties) && !own.DutyReport?
    ensures Sum(l.OfReport(), [own] + ListReports(duties, attachment, inForce, w, 0))
          + MissingUnder(l, duties, attachment, inForce, w)
         == Sum(l.OfUnresolved(), InForceOnly(ListUnresolved(duties, attachment, w, 0), inForce))
  {
    SumOfOne(l.OfReport(), own);
    SumAppend(l.OfReport(), [own], ListReports(duties, attachment, inForce, w, 0));
    if inForce {
      ListLists(l, duties, attachment, w);
    } else {
      ListSilent(l, duties, attachment, w);
    }
  }

  ghost function PermissionParts(p: Policy, c: Case): (r: seq<seq<RuleReport>>)
    ensures |r| == |p.lists.permissions|
    ensures forall i :: 0 <= i < |r| ==> r[i] == PermissionPart(p, c, i)
  {
    seq(|p.lists.permissions|, i requires 0 <= i < |p.lists.permissions| => PermissionPart(p, c, i))
  }

  lemma {:induction false} PermissionsAreParts(p: Policy, c: Case, i: nat)
    requires i <= |p.lists.permissions|
    ensures PermissionReports(p, c, i) == Flatten(PermissionParts(p, c)[i..])
    decreases |p.lists.permissions| - i
  {
    if i < |p.lists.permissions| {
      PermissionsAreParts(p, c, i + 1);
      var parts := PermissionParts(p, c);
      assert parts[i..][1..] == parts[i + 1..] && parts[i..][0] == parts[i];
    }
  }

  ghost function DutyParts(p: Policy, c: Case): (r: seq<seq<UnresolvedDuty>>)
    ensures |r| == |p.lists.permissions|
    ensures forall i :: 0 <= i < |r| ==>
      var rule := p.lists.permissions[i];
      r[i] == InForceOnly(ListUnresolved(rule.duty, PermissionDuty(i), c.world, 0), InPlay(rule, c))
  {
    seq(|p.lists.permissions|, i requires 0 <= i < |p.lists.permissions| =>
      var rule := p.lists.permissions[i];
      InForceOnly(ListUnresolved(rule.duty, PermissionDuty(i), c.world, 0), InPlay(rule, c)))
  }

  lemma {:induction false} DutiesAreParts(p: Policy, c: Case, i: nat)
    requires i <= |p.lists.permissions|
    ensures UnresolvedPermissionDuties(p, c, i) == Flatten(DutyParts(p, c)[i..])
    decreases |p.lists.permissions| - i
  {
    if i < |p.lists.permissions| {
      DutiesAreParts(p, c, i + 1);
      var parts := DutyParts(p, c);
      assert parts[i..][1..] == parts[i + 1..] && parts[i..][0] == parts[i];
    }
  }

  lemma PermissionsList(l: Listing, p: Policy, c: Case)
    requires l.rules == p.lists
    ensures Sum(l.OfReport(), PermissionReports(p, c, 0)) + MissingPermissionDuties(l, p, c)
         == Sum(l.OfUnresolved(), UnresolvedPermissionDuties(p, c, 0))
  {
    PermissionsAreParts(p, c, 0);
    DutiesAreParts(p, c, 0);
    var parts, unresolved, missing := PermissionParts(p, c), DutyParts(p, c), MissingDutiesEach(l, p, c);
    assert parts[0..] == parts && unresolved[0..] == unresolved;
    forall i | 0 <= i < |parts|
      ensures Sum(l.OfReport(), parts[i]) + missing[i] == Sum(l.OfUnresolved(), unresolved[i])
    {
      var rule := p.lists.permissions[i];
      RuleShare(l, PermissionReportFor(p, c, i), rule.duty, PermissionDuty(i), InPlay(rule, c), c.world);
    }
    PartsSideBySide(l.OfReport(), parts, l.OfUnresolved(), unresolved, missing);
  }

  ghost function ProhibitionParts(p: Policy, c: Case): (r: seq<seq<RuleReport>>)
    ensures |r| == |p.lists.prohibitions|
    ensures forall i :: 0 <= i < |r| ==> r[i] == ProhibitionPart(p, c, i)
  {
    seq(|p.lists.prohibitions|, i requires 0 <= i < |p.lists.prohibitions| => ProhibitionPart(p, c, i))
  }

  lemma {:induction false} ProhibitionsAreParts(p: Policy, c: Case, i: nat)
    requires i <= |p.lists.prohibitions|
    ensures ProhibitionReports(p, c, i) == Flatten(ProhibitionParts(p, c)[i..])
    decreases |p.lists.prohibitions| - i
  {
    if i < |p.lists.prohibitions| {
      ProhibitionsAreParts(p, c, i + 1);
      var parts := ProhibitionParts(p, c);
      assert parts[i..][1..] == parts[i + 1..] && parts[i..][0] == parts[i];
    }
  }

  ghost function RemedyParts(p: Policy, c: Case): (r: seq<seq<UnresolvedDuty>>)
    ensures |r| == |p.lists.prohibitions|
    ensures forall i :: 0 <= i < |r| ==>
      r[i] == InForceOnly(ListUnresolved(p.lists.prohibitions[i].remedy, ProhibitionRemedy(i), c.world, 0),
                          ProhibitionActive(p, c, i))
  {
    seq(|p.lists.prohibitions|, i requires 0 <= i < |p.lists.prohibitions| =>
      InForceOnly(ListUnresolved(p.lists.prohibitions[i].remedy, ProhibitionRemedy(i), c.world, 0),
                  ProhibitionActive(p, c, i)))
  }

  lemma {:induction false} EmptiesFlatten<T>(parts: seq<seq<T>>)
    requires forall k :: 0 <= k < |parts| ==> parts[k] == []
    ensures Flatten(parts) == []
  {
    if parts != [] {
      EmptiesFlatten(parts[1..]);
    }
  }

  lemma {:induction false} RemediesAreParts(p: Policy, c: Case, i: nat)
    requires i <= |p.lists.prohibitions|
    ensures UnresolvedRemedies(p, c, PermissionWins(p, c), i) == Flatten(RemedyParts(p, c)[i..])
    decreases |p.lists.prohibitions| - i
  {
    if PermissionWins(p, c) {
      EmptiesFlatten(RemedyParts(p, c)[i..]);
    } else if i < |p.lists.prohibitions| {
      RemediesAreParts(p, c, i + 1);
      var parts := RemedyParts(p, c);
      assert parts[i..][1..] == parts[i + 1..] && parts[i..][0] == parts[i];
    }
  }

  lemma RemediesList(l: Listing, p: Policy, c: Case)
    requires l.rules == p.lists
    ensures Sum(l.OfReport(), ProhibitionReports(p, c, 0)) + MissingRemedies(l, p, c)
         == Sum(l.OfUnresolved(), UnresolvedRemedies(p, c, PermissionWins(p, c), 0))
  {
    ProhibitionsAreParts(p, c, 0);
    RemediesAreParts(p, c, 0);
    var parts, unresolved, missing := ProhibitionParts(p, c), RemedyParts(p, c), MissingRemediesEach(l, p, c);
    assert parts[0..] == parts && unresolved[0..] == unresolved;
    forall i | 0 <= i < |parts|
      ensures Sum(l.OfReport(), parts[i]) + missing[i] == Sum(l.OfUnresolved(), unresolved[i])
    {
      RuleShare(l, ProhibitionReportFor(p, c, i), p.lists.prohibitions[i].remedy, ProhibitionRemedy(i),
                ProhibitionActive(p, c, i), c.world);
    }
    PartsSideBySide(l.OfReport(), parts, l.OfUnresolved(), unresolved, missing);
  }

  /** Three sums that differ by a bag each, put one after the other, in two orders. */
  lemma ThreeSums<T(!new), U(!new)>(
      f: T -> Bag, a: seq<T>, b: seq<T>, c: seq<T>, g: U -> Bag, u: seq<U>, v: seq<U>, w: seq<U>,
      k: Bag, m: Bag, n: Bag)
    requires Sum(f, a) + m == Sum(g, v) && Sum(f, b) + n == Sum(g, w) && Sum(f, c) + k == Sum(g, u)
    ensures Sum(f, a + b + c) + (k + m + n) == Sum(g, u + v + w)
  {
    SumOfThree(f, a, b, c);
    SumOfThree(g, u, v, w);
    RegroupThree(Sum(f, a), Sum(f, b), Sum(f, c), Sum(g, u), Sum(g, v), Sum(g, w), k, m, n);
  }

  lemma SumOfThree<T(!new)>(f: T -> Bag, a: seq<T>, b: seq<T>, c: seq<T>)
    ensures Sum(f, a + b + c) == Sum(f, a) + Sum(f, b) + Sum(f, c)
  {
    SumAppend(f, a + b, c);
    SumAppend(f, a, b);
  }

  lemma RegroupThree(a: Bag, b: Bag, c: Bag, u: Bag, v: Bag, w: Bag, k: Bag, m: Bag, n: Bag)
    requires a + m == v && b + n == w && c + k == u
    ensures (a + b + c) + (k + m + n) == u + v + w
  {
  }

  lemma DecisionListsAll(p: Policy, c: Case)
    requires FirstUnrecognized(p, c.config.actions).None?
    ensures Decide(p, c).unresolvedDuties
         == UnresolvedObligations(p, c.world) + UnresolvedPermissionDuties(p, c, 0)
          + UnresolvedRemedies(p, c, PermissionWins(p, c), 0)
  {
  }

  /** The coarse answer lists what the detailed account does, and the duties that were cut off. */
  lemma PolicyLists(l: Listing, p: Policy, c: Case)
    requires l.rules == p.lists && FirstUnrecognized(p, c.config.actions).None?
    ensures Sum(l.OfReport(), DetailedReports(p, c)) + Missing(l, p, c)
         == Sum(l.OfUnresolved(), Decide(p, c).unresolvedDuties)
  {
    PermissionsList(l, p, c);
    RemediesList(l, p, c);
    ListLists(l, p.lists.obligations, Obligation, c.world);
    DecisionListsAll(p, c);
    ThreeSums(
      l.OfReport(), PermissionReports(p, c, 0), ProhibitionReports(p, c, 0),
      ListReports(p.lists.obligations, Obligation, true, c.world, 0),
      l.OfUnresolved(), UnresolvedObligations(p, c.world), UnresolvedPermissionDuties(p, c, 0),
      UnresolvedRemedies(p, c, PermissionWins(p, c), 0),
      MissingFrom(l, p.lists.obligations, Obligation, c.world), MissingPermissionDuties(l, p, c),
      MissingRemedies(l, p, c));
  }

  lemma MissingDutiesIffCut(l: Listing, p: Policy, c: Case)
    ensures MissingPermissionDuties(l, p, c) == multiset{}
       <==> forall k :: 0 <= k < |p.lists.permissions| ==> !CutUnderPermission(p, c, k)
  {
    var each := MissingDutiesEach(l, p, c);
    TotalEmptyIff(each);
    forall i | 0 <= i < |each| ensures each[i] == multiset{} <==> !CutUnderPermission(p, c, i) {
      MissingIffCut(l, p.lists.permissions[i].duty, PermissionDuty(i), c.world);
    }
  }

  lemma MissingRemediesIffCut(l: Listing, p: Policy, c: Case)
    ensures MissingRemedies(l, p, c) == multiset{}
       <==> forall k :: 0 <= k < |p.lists.prohibitions| ==> !CutUnderProhibition(p, c, k)
  {
    var each := MissingRemediesEach(l, p, c);
    TotalEmptyIff(each);
    forall i | 0 <= i < |each| ensures each[i] == multiset{} <==> !CutUnderProhibition(p, c, i) {
      MissingIffCut(l, p.lists.prohibitions[i].remedy, ProhibitionRemedy(i), c.world);
    }
  }

  /** Nothing is missing from the detailed account exactly when no duty in force was cut off. */
  lemma NothingMissingIffUncut(l: Listing, p: Policy, c: Case)
    ensures Missing(l, p, c) == multiset{} <==> !AnyCut(p, c)
  {
    var o := MissingFrom(l, p.lists.obligations, Obligation, c.world);
    var d, r := MissingPermissionDuties(l, p, c), MissingRemedies(l, p, c);
    EmptyUnion(o, d);
    EmptyUnion(o + d, r);
    MissingIffCut(l, p.lists.obligations, Obligation, c.world);
    MissingDutiesIffCut(l, p, c);
    MissingRemediesIffCut(l, p, c);
  }
}
