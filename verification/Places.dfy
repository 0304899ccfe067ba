/** The places a policy's reports are about: every report has one, and no two share one. */
module Places {
  import opened Wrappers
  import opened Constraints
  import opened Rules
  import opened Decisions
  import opened Reports

  datatype Place = OfPermission(index: nat) | OfProhibition(index: nat) | OfDuty(address: DutyAddress)

  function PlaceOf(r: RuleReport): Place {
    match r
    case PermissionReport(i, _, _, _, _) => OfPermission(i)
    case ProhibitionReport(i, _, _, _, _) => OfProhibition(i)
    case DutyReport(a, _, _, _) => OfDuty(a)
  }

  predicate IsPlace(rules: RuleLists, place: Place) {
    match place
    case OfPermission(i) => i < |rules.permissions|
    case OfProhibition(i) => i < |rules.prohibitions|
    case OfDuty(a) => RuleAt(rules, a).Some?
  }

  function KeyAt(m: IdLists, place: Place): Option<RuleKey> {
    match place
    case OfPermission(i) =>
      if i < |m.permissions| then Some(RuleKey(PermissionKind, m.permissions[i].ruleId)) else None
    case OfProhibition(i) =>
      if i < |m.prohibitions| then Some(RuleKey(ProhibitionKind, m.prohibitions[i].ruleId)) else None
    case OfDuty(a) =>
      match IdsAt(m, a)
      case None => None
      case Some(node) => Some(RuleKey(DutyKind, node.ruleId))
  }

  /** Both addresses hold a node of the shadow, and the two nodes carry one id. */
  predicate ShareId(m: IdLists, a: DutyAddress, b: DutyAddress) {
    IdsAt(m, a).Some? && IdsAt(m, b).Some? && IdsAt(m, a).value.ruleId == IdsAt(m, b).value.ruleId
  }

  /** Whether a duty ends its chain can be told from its id: all nodes of that id end theirs, or none does. */
  ghost predicate Coherent(m: IdLists) {
    forall a, b :: ShareId(m, a, b) ==>
      (IdsAt(m, a).value.consequence.None? <==> IdsAt(m, b).value.consequence.None?)
  }

  predicate IsPlain(a: DutyAddress) {
    a.attachment == Obligation && a.depth == 0
  }

  /** No RDF rule sits at two places of the policy: none of its rules is composite. */
  ghost predicate DistinctNodes(m: IdLists) {
    forall a, b :: KeyAt(m, a).Some? && KeyAt(m, a) == KeyAt(m, b) ==> a == b
  }

  lemma DistinctIsCoherent(m: IdLists)
    requires DistinctNodes(m)
    ensures Coherent(m)
  {
    forall a, b | ShareId(m, a, b) ensures a == b {
      assert KeyAt(m, OfDuty(a)) == KeyAt(m, OfDuty(b));
    }
  }

  lemma KeyOfReport(m: IdLists, r: RuleReport)
    ensures RuleIdOf(m, r) == KeyAt(m, PlaceOf(r))
  {
  }

  lemma PlacesHaveKeys(rules: RuleLists, m: IdLists, place: Place)
    requires SameLists(rules, m)
    ensures IsPlace(rules, place) <==> KeyAt(m, place).Some?
  {
    if place.OfDuty? {
      AddressesAgree(rules, m, place.address);
    }
  }

  // ---------------------------------------------------------------
  // Every report of a policy is about a place of its own
  // ---------------------------------------------------------------

  ghost predicate DistinctPlaces(s: seq<RuleReport>) {
    forall i, j :: 0 <= i < j < |s| ==> PlaceOf(s[i]) != PlaceOf(s[j])
  }

  lemma DistinctAppend(a: seq<RuleReport>, b: seq<RuleReport>)
    requires DistinctPlaces(a) && DistinctPlaces(b)
    requires forall x, y :: x in a && y in b ==> PlaceOf(x) != PlaceOf(y)
    ensures DistinctPlaces(a + b)
  {
    forall i, j | 0 <= i < j < |a + b| ensures PlaceOf((a + b)[i]) != PlaceOf((a + b)[j]) {
      if i < |a| <= j {
        assert (a + b)[i] in a && (a + b)[j] in b;
      }
    }
  }

  lemma {:induction false} WalkOn(d: Rule, depth: nat)
    requires WalkRule(d, depth).Some?
    ensures WalkRule(d, depth + 1) == WalkRule(d, depth).value.consequence
    decreases depth
  {
    if depth > 0 {
      WalkOn(d.consequence.value, depth - 1);
    }
  }

  /** `r` reports on a duty of the given list, from the `j`th on. */
  ghost predicate OnList(r: RuleReport, duties: seq<Rule>, attachment: DutyAttachment, j: nat) {
    && r.DutyReport?
    && r.address.attachment == attachment
    && j <= r.address.index < |duties|
    && WalkRule(duties[r.address.index], r.address.depth).Some?
  }

  /** The `k`th report of a chain is about the `k`th hop. */
  ghost predicate OnChain(chain: seq<RuleReport>, root: Rule, attachment: DutyAttachment, index: nat, depth: nat) {
    forall k {:trigger chain[k]} :: 0 <= k < |chain| ==>
      && chain[k].DutyReport?
      && chain[k].address == DutyAddress(attachment, index, depth + k)
      && WalkRule(root, depth + k).Some?
  }

  lemma {:induction false} ChainPlaces(
      root: Rule, d: Rule, attachment: DutyAttachment, index: nat, depth: nat, inForce: bool, w: World)
    requires WalkRule(root, depth) == Some(d)
    ensures OnChain(ChainReports(d, attachment, index, depth, inForce, w), root, attachment, index, depth)
    decreases d
  {
    var chain := ChainReports(d, attachment, index, depth, inForce, w);
    if depth <= MAX_CONSEQUENCE_DEPTH && d.consequence.Some? {
      WalkOn(root, depth);
      var effective := inForce && depth <= MAX_CONSEQUENCE_DEPTH;
      ChainPlaces(root, d.consequence.value, attachment, index, depth + 1, effective && !DutySatisfied(d, w), w);
      OnChainFromBelow(chain, root, attachment, index, depth);
    }
  }

  lemma OnChainFromBelow(chain: seq<RuleReport>, root: Rule, attachment: DutyAttachment, index: nat, depth: nat)
    requires |chain| > 0 && OnChain(chain[1..], root, attachment, index, depth + 1)
    requires chain[0].DutyReport? && chain[0].address == DutyAddress(attachment, index, depth)
    requires WalkRule(root, depth).Some?
    ensures OnChain(chain, root, attachment, index, depth)
  {
    var rest := chain[1..];
    forall k {:trigger chain[k]} | 0 <= k < |chain|
      ensures chain[k].DutyReport? && chain[k].address == DutyAddress(attachment, index, depth + k)
           && WalkRule(root, depth + k).Some?
    {
      if k > 0 {
        var r := rest[k - 1];
        assert chain[k] == r;
        assert r.DutyReport? && r.address == DutyAddress(attachment, index, depth + 1 + (k - 1));
      }
    }
  }

  lemma ChainIsOnList(duties: seq<Rule>, attachment: DutyAttachment, inForce: bool, w: World, j: nat)
    requires j < |duties|
    ensures var chain := ChainReports(duties[j], attachment, j, 0, inForce, w);
      DistinctPlaces(chain)
      && forall r :: r in chain ==> OnList(r, duties, attachment, j) && r.address.index == j
  {
    var chain := ChainReports(duties[j], attachment, j, 0, inForce, w);
    ChainPlaces(duties[j], duties[j], attachment, j, 0, inForce, w);
    forall r | r in chain ensures OnList(r, duties, attachment, j) && r.address.index == j {
      var k :| 0 <= k < |chain| && chain[k] == r;
    }
  }

  lemma {:induction false} ListPlaces(duties: seq<Rule>, attachment: DutyAttachment, inForce: bool, w: World, j: nat)
    requires j <= |duties|
    ensures var list := ListReports(duties, attachment, inForce, w, j);
      DistinctPlaces(list) && forall r :: r in list ==> OnList(r, duties, attachment, j)
    decreases |duties| - j
  {
    if j < |duties| {
      ListPlaces(duties, attachment, inForce, w, j + 1);
      ChainIsOnList(duties, attachment, inForce, w, j);
      DistinctAppend(ChainReports(duties[j], attachment, j, 0, inForce, w),
                     ListReports(duties, attachment, inForce, w, j + 1));
    }
  }

  /** `place` belongs to a permission from the `i`th on: the permission itself, or one of its duties. */
  predicate UnderPermission(rules: RuleLists, place: Place, i: nat) {
    match place
    case OfPermission(k) => i <= k
    case OfProhibition(_) => false
    case OfDuty(a) => a.attachment.PermissionDuty? && i <= a.attachment.ruleIndex
  }

  predicate UnderProhibition(rules: RuleLists, place: Place, i: nat) {
    match place
    case OfPermission(_) => false
    case OfProhibition(k) => i <= k
    case OfDuty(a) => a.attachment.ProhibitionRemedy? && i <= a.attachment.ruleIndex
  }

  /** The place is that of one permission or of a duty of it. */
  predicate OfPermissionOnly(place: Place, i: nat) {
    place == OfPermission(i) || (place.OfDuty? && place.address.attachment == PermissionDuty(i))
  }

  predicate OfProhibitionOnly(place: Place, i: nat) {
    place == OfProhibition(i) || (place.OfDuty? && place.address.attachment == ProhibitionRemedy(i))
  }

  lemma OnePermissionPlaces(p: Policy, c: Case, i: nat)
    requires i < |p.lists.permissions|
    ensures var s := PermissionPart(p, c, i);
      DistinctPlaces(s) && forall r :: r in s ==> OfPermissionOnly(PlaceOf(r), i) && IsPlace(p.lists, PlaceOf(r))
  {
    var r := p.lists.permissions[i];
    ListPlaces(r.duty, PermissionDuty(i), InPlay(r, c), c.world, 0);
    DistinctAppend([PermissionReportFor(p, c, i)], ListReports(r.duty, PermissionDuty(i), InPlay(r, c), c.world, 0));
  }

  lemma OneProhibitionPlaces(p: Policy, c: Case, i: nat)
    requires i < |p.lists.prohibitions|
    ensures var s := ProhibitionPart(p, c, i);
      DistinctPlaces(s) && forall r :: r in s ==> OfProhibitionOnly(PlaceOf(r), i) && IsPlace(p.lists, PlaceOf(r))
  {
    var r := p.lists.prohibitions[i];
    var inForce := ProhibitionActive(p, c, i);
    ListPlaces(r.remedy, ProhibitionRemedy(i), inForce, c.world, 0);
    DistinctAppend([ProhibitionReportFor(p, c, i)], ListReports(r.remedy, ProhibitionRemedy(i), inForce, c.world, 0));
  }

  lemma JoinedPermissions(rules: RuleLists, part: seq<RuleReport>, rest: seq<RuleReport>, i: nat)
    requires DistinctPlaces(part)
    requires forall r :: r in part ==> OfPermissionOnly(PlaceOf(r), i) && IsPlace(rules, PlaceOf(r))
    requires DistinctPlaces(rest)
    requires forall r :: r in rest ==> UnderPermission(rules, PlaceOf(r), i + 1) && IsPlace(rules, PlaceOf(r))
    ensures DistinctPlaces(part + rest)
    ensures forall r :: r in part + rest ==> UnderPermission(rules, PlaceOf(r), i) && IsPlace(rules, PlaceOf(r))
  {
    forall x, y | x in part && y in rest ensures PlaceOf(x) != PlaceOf(y) {
      assert OfPermissionOnly(PlaceOf(x), i) && UnderPermission(rules, PlaceOf(y), i + 1);
    }
    DistinctAppend(part, rest);
    forall r | r in part + rest ensures UnderPermission(rules, PlaceOf(r), i) && IsPlace(rules, PlaceOf(r)) {
      assert r in part || r in rest;
    }
  }

  lemma {:induction false} PermissionPlaces(p: Policy, c: Case, i: nat)
    requires i <= |p.lists.permissions|
    ensures var s := PermissionReports(p, c, i);
      DistinctPlaces(s)
      && forall r :: r in s ==> UnderPermission(p.lists, PlaceOf(r), i) && IsPlace(p.lists, PlaceOf(r))
    decreases |p.lists.permissions| - i
  {
    if i < |p.lists.permissions| {
      PermissionPlaces(p, c, i + 1);
      OnePermissionPlaces(p, c, i);
      assert PermissionReports(p, c, i) == PermissionPart(p, c, i) + PermissionReports(p, c, i + 1);
      JoinedPermissions(p.lists, PermissionPart(p, c, i), PermissionReports(p, c, i + 1), i);
    }
  }

  lemma JoinedProhibitions(rules: RuleLists, part: seq<RuleReport>, rest: seq<RuleReport>, i: nat)
    requires DistinctPlaces(part)
    requires forall r :: r in part ==> OfProhibitionOnly(PlaceOf(r), i) && IsPlace(rules, PlaceOf(r))
    requires DistinctPlaces(rest)
    requires forall r :: r in rest ==> UnderProhibition(rules, PlaceOf(r), i + 1) && IsPlace(rules, PlaceOf(r))
    ensures DistinctPlaces(part + rest)
    ensures forall r :: r in part + rest ==> UnderProhibition(rules, PlaceOf(r), i) && IsPlace(rules, PlaceOf(r))
  {
    forall x, y | x in part && y in rest ensures PlaceOf(x) != PlaceOf(y) {
      assert OfProhibitionOnly(PlaceOf(x), i) && UnderProhibition(rules, PlaceOf(y), i + 1);
    }
    DistinctAppend(part, rest);
    forall r | r in part + rest ensures UnderProhibition(rules, PlaceOf(r), i) && IsPlace(rules, PlaceOf(r)) {
      assert r in part || r in rest;
    }
  }

  lemma {:induction false} ProhibitionPlaces(p: Policy, c: Case, i: nat)
    requires i <= |p.lists.prohibitions|
    ensures var s := ProhibitionReports(p, c, i);
      DistinctPlaces(s)
      && forall r :: r in s ==> UnderProhibition(p.lists, PlaceOf(r), i) && IsPlace(p.lists, PlaceOf(r))
    decreases |p.lists.prohibitions| - i
  {
    if i < |p.lists.prohibitions| {
      ProhibitionPlaces(p, c, i + 1);
      OneProhibitionPlaces(p, c, i);
      assert ProhibitionReports(p, c, i) == ProhibitionPart(p, c, i) + ProhibitionReports(p, c, i + 1);
      JoinedProhibitions(p.lists, ProhibitionPart(p, c, i), ProhibitionReports(p, c, i + 1), i);
    }
  }

  lemma ReportPlaces(p: Policy, c: Case)
    ensures DistinctPlaces(DetailedReports(p, c))
    ensures forall r :: r in DetailedReports(p, c) ==> IsPlace(p.lists, PlaceOf(r))
  {
    var a, b := PermissionReports(p, c, 0), ProhibitionReports(p, c, 0);
    var o := ListReports(p.lists.obligations, Obligation, true, c.world, 0);
    PermissionPlaces(p, c, 0);
    ProhibitionPlaces(p, c, 0);
    ListPlaces(p.lists.obligations, Obligation, true, c.world, 0);
    DistinctAppend(a, b);
    DistinctAppend(a + b, o);
  }

  /** Every report the engine derives resolves to a rule of the shadow: none is ever a translator bug. */
  lemma ReportsResolve(p: Policy, c: Case, m: IdLists)
    requires SameLists(p.lists, m)
    ensures forall r :: r in DetailedReports(p, c) ==> RuleIdOf(m, r).Some?
  {
    ReportPlaces(p, c);
    forall r | r in DetailedReports(p, c) ensures RuleIdOf(m, r).Some? {
      KeyOfReport(m, r);
      PlacesHaveKeys(p.lists, m, PlaceOf(r));
    }
  }

  // ---------------------------------------------------------------
  // Looking a node up by its id
  // ---------------------------------------------------------------

  lemma {:induction false} FindInChainFinds(root: RuleIds, id: string)
    ensures FindInChain(root, id).Some? ==>
      exists depth: nat :: WalkIds(root, depth) == FindInChain(root, id) && FindInChain(root, id).value.ruleId == id
    ensures FindInChain(root, id).None? ==>
      forall depth: nat :: WalkIds(root, depth).Some? ==> WalkIds(root, depth).value.ruleId != id
    decreases root
  {
    assert WalkIds(root, 0) == Some(root);
    if root.ruleId != id && root.consequence.Some? {
      var next := root.consequence.value;
      FindInChainFinds(next, id);
      if FindInChain(next, id).Some? {
        var depth: nat :| WalkIds(next, depth) == FindInChain(next, id) && FindInChain(next, id).value.ruleId == id;
        assert WalkIds(root, depth + 1) == FindInChain(root, id);
      } else {
        forall depth: nat | WalkIds(root, depth).Some? ensures WalkIds(root, depth).value.ruleId != id {
          if depth > 0 { assert WalkIds(next, depth - 1) == WalkIds(root, depth); }
        }
      }
    }
  }

  lemma {:induction false} FindInListFinds(duties: seq<RuleIds>, id: string)
    ensures FindInList(duties, id).Some? ==>
      exists k :: 0 <= k < |duties| && FindInChain(duties[k], id) == FindInList(duties, id)
    ensures FindInList(duties, id).None? ==> forall k :: 0 <= k < |duties| ==> FindInChain(duties[k], id).None?
  {
    if duties != [] {
      FindInListFinds(duties[1..], id);
      if FindInChain(duties[0], id).None? && FindInList(duties[1..], id).Some? {
        var k :| 0 <= k < |duties[1..]| && FindInChain(duties[1..][k], id) == FindInList(duties[1..], id);
        assert duties[k + 1] == duties[1..][k];
      }
      forall k | 0 <= k < |duties| && FindInList(duties, id).None? ensures FindInChain(duties[k], id).None? {
        if k > 0 { assert duties[k] == duties[1..][k - 1]; }
      }
    }
  }

  lemma {:induction false} FindInDutiesFinds(permissions: seq<RuleIds>, id: string)
    ensures FindInDuties(permissions, id).Some? ==>
      exists i :: 0 <= i < |permissions| && FindInList(permissions[i].duty, id) == FindInDuties(permissions, id)
    ensures FindInDuties(permissions, id).None? ==>
      forall i :: 0 <= i < |permissions| ==> FindInList(permissions[i].duty, id).None?
  {
    if permissions != [] {
      FindInDutiesFinds(permissions[1..], id);
      if FindInList(permissions[0].duty, id).None? && FindInDuties(permissions[1..], id).Some? {
        var i :| 0 <= i < |permissions[1..]|
          && FindInList(permissions[1..][i].duty, id) == FindInDuties(permissions[1..], id);
        assert permissions[i + 1] == permissions[1..][i];
      }
      forall i | 0 <= i < |permissions| && FindInDuties(permissions, id).None?
        ensures FindInList(permissions[i].duty, id).None?
      {
        if i > 0 { assert permissions[i] == permissions[1..][i - 1]; }
      }
    }
  }

  lemma {:induction false} FindInRemediesFinds(prohibitions: seq<RuleIds>, id: string)
    ensures FindInRemedies(prohibitions, id).Some? ==>
      exists i :: 0 <= i < |prohibitions| && FindInList(prohibitions[i].remedy, id) == FindInRemedies(prohibitions, id)
    ensures FindInRemedies(prohibitions, id).None? ==>
      forall i :: 0 <= i < |prohibitions| ==> FindInList(prohibitions[i].remedy, id).None?
  {
    if prohibitions != [] {
      FindInRemediesFinds(prohibitions[1..], id);
      if FindInList(prohibitions[0].remedy, id).None? && FindInRemedies(prohibitions[1..], id).Some? {
        var i :| 0 <= i < |prohibitions[1..]|
          && FindInList(prohibitions[1..][i].remedy, id) == FindInRemedies(prohibitions[1..], id);
        assert prohibitions[i + 1] == prohibitions[1..][i];
      }
      forall i | 0 <= i < |prohibitions| && FindInRemedies(prohibitions, id).None?
        ensures FindInList(prohibitions[i].remedy, id).None?
      {
        if i > 0 { assert prohibitions[i] == prohibitions[1..][i - 1]; }
      }
    }
  }

  /** Whatever a lookup finds in a list of duties sits at an address of that list. */
  lemma ListHit(duties: seq<RuleIds>, id: string) returns (index: nat, depth: nat)
    requires FindInList(duties, id).Some?
    ensures index < |duties| && WalkIds(duties[index], depth) == FindInList(duties, id)
    ensures FindInList(duties, id).value.ruleId == id
  {
    FindInListFinds(duties, id);
    var k :| 0 <= k < |duties| && FindInChain(duties[k], id) == FindInList(duties, id);
    FindInChainFinds(duties[k], id);
    var d: nat :| WalkIds(duties[k], d) == FindInChain(duties[k], id) && FindInChain(duties[k], id).value.ruleId == id;
    index, depth := k, d;
  }

  /** A lookup by id finds a node at some duty address that carries the id. */
  lemma FindRuleIdsHit(m: IdLists, id: string) returns (a: DutyAddress)
    requires FindRuleIds(m, id).Some?
    ensures IdsAt(m, a) == FindRuleIds(m, id) && FindRuleIds(m, id).value.ruleId == id
  {
    if FindInList(m.obligations, id).Some? {
      var index, depth := ListHit(m.obligations, id);
      a := DutyAddress(Obligation, index, depth);
    } else if FindInDuties(m.permissions, id).Some? {
      FindInDutiesFinds(m.permissions, id);
      var i :| 0 <= i < |m.permissions| && FindInList(m.permissions[i].duty, id) == FindInDuties(m.permissions, id);
      var index, depth := ListHit(m.permissions[i].duty, id);
      a := DutyAddress(PermissionDuty(i), index, depth);
    } else {
      FindInRemediesFinds(m.prohibitions, id);
      var i :| 0 <= i < |m.prohibitions|
        && FindInList(m.prohibitions[i].remedy, id) == FindInRemedies(m.prohibitions, id);
      var index, depth := ListHit(m.prohibitions[i].remedy, id);
      a := DutyAddress(ProhibitionRemedy(i), index, depth);
    }
  }

  lemma ChainMiss(duties: seq<RuleIds>, id: string, index: nat, depth: nat)
    requires FindInList(duties, id).None? && index < |duties| && WalkIds(duties[index], depth).Some?
    ensures WalkIds(duties[index], depth).value.ruleId != id
  {
    FindInListFinds(duties, id);
    FindInChainFinds(duties[index], id);
  }

  lemma FindRuleIdsMiss(m: IdLists, id: string, a: DutyAddress)
    requires FindRuleIds(m, id).None? && IdsAt(m, a).Some?
    ensures IdsAt(m, a).value.ruleId != id
  {
    match a.attachment
    case Obligation => ChainMiss(m.obligations, id, a.index, a.depth);
    case PermissionDuty(i) =>
      FindInDutiesFinds(m.permissions, id);
      ChainMiss(m.permissions[i].duty, id, a.index, a.depth);
    case ProhibitionRemedy(i) =>
      FindInRemediesFinds(m.prohibitions, id);
      ChainMiss(m.prohibitions[i].remedy, id, a.index, a.depth);
  }

  /** A lookup by an id that some node carries finds a node that carries it, if not always that one. */
  lemma FindsACarrier(m: IdLists, a: DutyAddress) returns (b: DutyAddress)
    requires IdsAt(m, a).Some?
    ensures FindRuleIds(m, IdsAt(m, a).value.ruleId) == IdsAt(m, b) && ShareId(m, a, b)
  {
    var id := IdsAt(m, a).value.ruleId;
    if FindRuleIds(m, id).None? {
      FindRuleIdsMiss(m, id, a);
      assert false;
    }
    b := FindRuleIdsHit(m, id);
  }

  /** In a coherent shadow the lookup tells, for each node, whether that node ends its chain. */
  lemma TerminalByAddress(m: IdLists, a: DutyAddress)
    requires Coherent(m) && IdsAt(m, a).Some?
    ensures IsTerminal(m, IdsAt(m, a).value.ruleId) <==> IdsAt(m, a).value.consequence.None?
  {
    var b := FindsACarrier(m, a);
  }

  /** The duty shares its id with some duty that hangs under an obligation, be it itself. */
  ghost predicate OfObligationId(m: IdLists, a: DutyAddress) {
    exists b :: ShareId(m, a, b) && b.attachment == Obligation
  }

  /** A duty's id is found in an obligation's chain exactly when some node of that id hangs there. */
  lemma ObligationChainByAddress(m: IdLists, a: DutyAddress)
    requires IdsAt(m, a).Some?
    ensures InObligationChain(m, IdsAt(m, a).value.ruleId) <==> OfObligationId(m, a)
    ensures a.attachment == Obligation ==> OfObligationId(m, a)
  {
    var id := IdsAt(m, a).value.ruleId;
    assert ShareId(m, a, a);
    if InObligationChain(m, id) {
      var k :| 0 <= k < |m.obligations| && FindInChain(m.obligations[k], id).Some?;
      FindInChainFinds(m.obligations[k], id);
      var depth: nat :| WalkIds(m.obligations[k], depth) == FindInChain(m.obligations[k], id)
        && FindInChain(m.obligations[k], id).value.ruleId == id;
      assert ShareId(m, a, DutyAddress(Obligation, k, depth));
    }
    if b :| ShareId(m, a, b) && b.attachment == Obligation {
      FindInChainFinds(m.obligations[b.index], id);
    }
  }

  /** What hangs on the policy itself is found among its obligations. */
  lemma PlainIsFound(m: IdLists, a: DutyAddress)
    requires IsPlain(a) && IdsAt(m, a).Some?
    ensures IsPlainPolicyObligation(m, IdsAt(m, a).value.ruleId)
  {
    assert m.obligations[a.index].ruleId == IdsAt(m, a).value.ruleId;
  }
}
