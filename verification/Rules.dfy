/** The rules of a policy, and the tree of RDF ids that shadows them. */
module Rules {
  import opened Wrappers
  import opened Constraints

  /**
   The engine's rule. Its own `odrl:duty`, `odrl:remedy` and `odrl:consequence` are rules too;
   which of the three is read depends on where the rule sits.
   */
  datatype Rule = Rule(
    action: string,
    target: Option<string>,
    constraints: seq<Constraint>,
    refinement: Option<Constraint>,
    duty: seq<Rule>,
    remedy: seq<Rule>,
    consequence: Option<Rule>)

  /** One rule's RDF id and action, and those of every rule nested in it. */
  datatype RuleIds = RuleIds(
    ruleId: string,
    action: string,
    duty: seq<RuleIds>,
    remedy: seq<RuleIds>,
    consequence: Option<RuleIds>)

  /** The two trees have the same nesting everywhere, and the same action at every place. */
  ghost predicate SameShape(r: Rule, ids: RuleIds)
    decreases r
  {
    && r.action == ids.action
    && SameShapes(r.duty, ids.duty)
    && SameShapes(r.remedy, ids.remedy)
    && (r.consequence.Some? <==> ids.consequence.Some?)
    && (r.consequence.Some? ==> SameShape(r.consequence.value, ids.consequence.value))
  }

  ghost predicate SameShapes(rs: seq<Rule>, idss: seq<RuleIds>)
    decreases rs
  {
    |rs| == |idss| && forall k :: 0 <= k < |rs| ==> SameShape(rs[k], idss[k])
  }

  /** Behind lists of one shape, what stands in front has one shape exactly when the whole does. */
  lemma SameShapesCancel(a: seq<Rule>, ai: seq<RuleIds>, b: seq<Rule>, bi: seq<RuleIds>)
    requires SameShapes(b, bi)
    ensures SameShapes(a + b, ai + bi) <==> SameShapes(a, ai)
  {
    if SameShapes(a, ai) {
      forall k | 0 <= k < |a + b| ensures SameShape((a + b)[k], (ai + bi)[k]) {
        if k >= |a| {
          assert (a + b)[k] == b[k - |a|] && (ai + bi)[k] == bi[k - |a|];
        }
      }
    }
    if SameShapes(a + b, ai + bi) {
      forall k | 0 <= k < |a| ensures SameShape(a[k], ai[k]) {
        assert (a + b)[k] == a[k] && (ai + bi)[k] == ai[k];
      }
    }
  }

  // ---------------------------------------------------------------
  // Addresses of duties
  // ---------------------------------------------------------------

  /** Where a duty hangs: on the policy, on one permission, or on one prohibition. */
  datatype DutyAttachment =
    | Obligation
    | PermissionDuty(ruleIndex: nat)
    | ProhibitionRemedy(ruleIndex: nat)

  /** A duty as a report names it: attachment, place in that list, and consequence hops. */
  datatype DutyAddress = DutyAddress(attachment: DutyAttachment, index: nat, depth: nat)

  /** The rule `depth` consequence hops below `r`. */
  function WalkRule(r: Rule, depth: nat): Option<Rule>
    decreases depth
  {
    if depth == 0 then Some(r)
    else if r.consequence.None? then None
    else WalkRule(r.consequence.value, depth - 1)
  }

  function WalkIds(ids: RuleIds, depth: nat): Option<RuleIds>
    decreases depth
  {
    if depth == 0 then Some(ids)
    else if ids.consequence.None? then None
    else WalkIds(ids.consequence.value, depth - 1)
  }

  lemma {:induction false} WalksAgree(r: Rule, ids: RuleIds, depth: nat)
    requires SameShape(r, ids)
    ensures WalkRule(r, depth).Some? <==> WalkIds(ids, depth).Some?
    ensures WalkRule(r, depth).Some? ==> SameShape(WalkRule(r, depth).value, WalkIds(ids, depth).value)
    decreases depth
  {
    if depth > 0 && r.consequence.Some? {
      WalksAgree(r.consequence.value, ids.consequence.value, depth - 1);
    }
  }

  // ---------------------------------------------------------------
  // The rule lists of one policy, and of its shadow
  // ---------------------------------------------------------------

  datatype RuleLists = RuleLists(permissions: seq<Rule>, prohibitions: seq<Rule>, obligations: seq<Rule>)

  datatype IdLists = IdLists(permissions: seq<RuleIds>, prohibitions: seq<RuleIds>, obligations: seq<RuleIds>)

  ghost predicate SameLists(r: RuleLists, m: IdLists) {
    && SameShapes(r.permissions, m.permissions)
    && SameShapes(r.prohibitions, m.prohibitions)
    && SameShapes(r.obligations, m.obligations)
  }

  function RootRule(r: RuleLists, attachment: DutyAttachment, index: nat): Option<Rule> {
    match attachment
    case Obligation => At(r.obligations, index)
    case PermissionDuty(i) => if i < |r.permissions| then At(r.permissions[i].duty, index) else None
    case ProhibitionRemedy(i) => if i < |r.prohibitions| then At(r.prohibitions[i].remedy, index) else None
  }

  function RootIds(m: IdLists, attachment: DutyAttachment, index: nat): Option<RuleIds> {
    match attachment
    case Obligation => At(m.obligations, index)
    case PermissionDuty(i) => if i < |m.permissions| then At(m.permissions[i].duty, index) else None
    case ProhibitionRemedy(i) => if i < |m.prohibitions| then At(m.prohibitions[i].remedy, index) else None
  }

  function At<T>(s: seq<T>, i: nat): Option<T> {
    if i < |s| then Some(s[i]) else None
  }

  function RuleAt(r: RuleLists, a: DutyAddress): Option<Rule> {
    match RootRule(r, a.attachment, a.index)
    case None => None
    case Some(root) => WalkRule(root, a.depth)
  }

  function IdsAt(m: IdLists, a: DutyAddress): Option<RuleIds> {
    match RootIds(m, a.attachment, a.index)
    case None => None
    case Some(root) => WalkIds(root, a.depth)
  }

  lemma RootsAgree(r: RuleLists, m: IdLists, attachment: DutyAttachment, index: nat)
    requires SameLists(r, m)
    ensures RootRule(r, attachment, index).Some? <==> RootIds(m, attachment, index).Some?
    ensures RootRule(r, attachment, index).Some? ==>
      SameShape(RootRule(r, attachment, index).value, RootIds(m, attachment, index).value)
  {
    match attachment
    case Obligation =>
    case PermissionDuty(i) =>
      if i < |r.permissions| {
        assert SameShape(r.permissions[i], m.permissions[i]);
        assert SameShapes(r.permissions[i].duty, m.permissions[i].duty);
      }
    case ProhibitionRemedy(i) =>
      if i < |r.prohibitions| {
        assert SameShape(r.prohibitions[i], m.prohibitions[i]);
        assert SameShapes(r.prohibitions[i].remedy, m.prohibitions[i].remedy);
      }
  }

  /** Every duty address that is valid among the rules finds a node of the shadow, with that rule's action. */
  lemma AddressesAgree(r: RuleLists, m: IdLists, a: DutyAddress)
    requires SameLists(r, m)
    ensures RuleAt(r, a).Some? <==> IdsAt(m, a).Some?
    ensures RuleAt(r, a).Some? ==>
      SameShape(RuleAt(r, a).value, IdsAt(m, a).value) && RuleAt(r, a).value.action == IdsAt(m, a).value.action
  {
    RootsAgree(r, m, a.attachment, a.index);
    var root := RootRule(r, a.attachment, a.index);
    if root.Some? {
      WalksAgree(root.value, RootIds(m, a.attachment, a.index).value, a.depth);
    }
  }
}
