/** Inputs on which the comparer misreads the engine's own account of a policy. */
module Misreadings {
  import opened Wrappers
  import opened Constraints
  import opened Actions
  import opened Rules
  import opened Policies
  import opened Decisions
  import opened Reports
  import opened Conformance
  import opened Places
  import opened InForce
  import opened OwnAccount
  import opened CutOffs
  import opened OwnVerdict
  import opened Composites
  import opened Atomization

  // ---------------------------------------------------------------
  // A duty that is an obligation and the consequence of another
  // ---------------------------------------------------------------

  lemma {:induction false} DeepRules(n: nat, depth: nat, w: World)
    ensures WalkRule(Deep(n), depth) == if depth <= n then Some(Deep(n - depth)) else None
    ensures !DutySatisfied(Deep(n), w)
    decreases depth
  {
    if 0 < depth && 0 < n {
      DeepRules(n - 1, depth - 1, w);
    }
  }

  const TWO_PLACES: Policy := Policy(RuleLists([], [], [Deep(1), Deep(0)]), Invalid)

  const TWO_PLACES_IDS: IdLists := IdLists([], [], [DeepIds(1), DeepIds(0)])

  lemma TwoPlacesRecognized(c: Case)
    requires Recognizes(c.config.actions, "inform")
    ensures Recognized(TWO_PLACES, c)
  {
    var actions, obligations := c.config.actions, TWO_PLACES.lists.obligations;
    DeepIsRecognized(0, actions, 1);
    assert obligations[1..] == [Deep(0)] && obligations[1..][1..] == [];
    assert FirstUnknown(obligations[1..][1..], actions).None?;
    assert FirstUnknownConsequence(obligations[1..][1..], actions).None?;
    assert FirstUnknown(obligations[1..], actions).None? && FirstUnknownConsequence(obligations[1..], actions).None?;
  }

  lemma TwoPlacesFaithful(c: Case)
    ensures Faithful(TWO_PLACES, TWO_PLACES_IDS)
    ensures CompositesAlike(TWO_PLACES, c, TWO_PLACES_IDS) && !AnyCut(TWO_PLACES, c)
  {
    var p, m := TWO_PLACES, TWO_PLACES_IDS;
    DeepShape(1);
    DeepShape(0);
    forall a: DutyAddress
      ensures IdsAt(m, a).Some? ==> (IdsAt(m, a).value.consequence.None? <==> |IdsAt(m, a).value.ruleId| == 1)
      ensures RuleAt(p.lists, a).Some? ==> !SatisfiedAt(p, c, a)
    {
      DeepWalk(1, a.depth);
      DeepWalk(0, a.depth);
      DeepRules(1, a.depth, c.world);
      DeepRules(0, a.depth, c.world);
    }
  }

  /**
   One RDF duty as an obligation of the policy and as the consequence of another, neither done: under
   deny mode the engine lists the one below the other, and no restatement of its own account has it
   expected, though the clones agree and nothing is cut off.
   */
  lemma DutyOfTwoPlaces(c: Case) returns (p: Policy, m: IdLists)
    requires c.config.dutyMode == DutyMode.Deny && Recognizes(c.config.actions, "inform")
    ensures Faithful(p, m) && Recognized(p, c) && ClonesAgree(m, DetailedReports(p, c)) && !AnyCut(p, c)
    ensures SharedWithObligation(p, c, m)
    ensures forall policyId, e :: IsOwnTree(m, DetailedReports(p, c), e) ==>
      ExpectedBag(p, c, m, e, policyId) != ListedBag(p, c, policyId)
  {
    p, m := TWO_PLACES, TWO_PLACES_IDS;
    TwoPlacesRecognized(c);
    TwoPlacesFaithful(c);
    ClonesAgreeIff(p, c, m);
    DeepWalk(1, 1);
    DeepRules(1, 1, c.world);
    DeepRules(1, 0, c.world);
    assert m.obligations[1].ruleId == DeepIds(0).ruleId;
    assert ListedUnderAnObligation(p, c, m, DutyAddress(Obligation, 0, 1));
    forall policyId, e | IsOwnTree(m, DetailedReports(p, c), e)
      ensures ExpectedBag(p, c, m, e, policyId) != ListedBag(p, c, policyId)
    {
      ExpectedIsListedIff(p, c, m, e, policyId);
    }
  }

  // ---------------------------------------------------------------
  // A duty of a permission that some obligation would fall back on
  // ---------------------------------------------------------------

  const TELL: Rule := Rule("inform", None, [], None, [], [], None)
  const LEND: Rule := Rule("read", None, [], None, [TELL], [], None)
  const BROWSE: Rule := Rule("read", None, [], None, [], [], None)
  const REGISTER: Rule := Rule("inform", None, [Atomic("embargo", IsNoneOf, "on")], None, [], [], Some(TELL))

  const TELL_IDS: RuleIds := RuleIds("tell", "inform", [], [], None)
  const LEND_IDS: RuleIds := RuleIds("lend", "read", [TELL_IDS], [], None)
  const BROWSE_IDS: RuleIds := RuleIds("browse", "read", [], [], None)
  const REGISTER_IDS: RuleIds := RuleIds("register", "inform", [], [], Some(TELL_IDS))

  /** Reading is permitted twice, once with a duty that is also what the one obligation falls back on. */
  const LIBRARY: Policy := Policy(RuleLists([LEND, BROWSE], [], [REGISTER]), Invalid)

  const LIBRARY_IDS: IdLists := IdLists([LEND_IDS, BROWSE_IDS], [], [REGISTER_IDS])

  const DECLARED: Taxonomy := [ActionDecl("inform", None), ActionDecl("read", None)]

  /** A request to read, without claims, under deny mode. */
  function Reader(compare: (string, string) -> Option<Ordering>): Case {
    Case(World(map[], compare), Config(DECLARED, DutyMode.Deny, Closed, None, None), Query("read", "book", []))
  }

  lemma LibraryShape()
    ensures SameLists(LIBRARY.lists, LIBRARY_IDS)
  {
    assert SameShape(TELL, TELL_IDS);
    assert SameShape(LEND, LEND_IDS) && SameShape(BROWSE, BROWSE_IDS) && SameShape(REGISTER, REGISTER_IDS);
  }

  /** The three places of a duty in the library's policy. */
  lemma LibraryDuties(a: DutyAddress)
    ensures RuleAt(LIBRARY.lists, a) ==
      if a == DutyAddress(PermissionDuty(0), 0, 0) || a == DutyAddress(Obligation, 0, 1) then Some(TELL)
      else if a == DutyAddress(Obligation, 0, 0) then Some(REGISTER) else None
    ensures IdsAt(LIBRARY_IDS, a) ==
      if a == DutyAddress(PermissionDuty(0), 0, 0) || a == DutyAddress(Obligation, 0, 1) then Some(TELL_IDS)
      else if a == DutyAddress(Obligation, 0, 0) then Some(REGISTER_IDS) else None
  {
    if a.depth > 1 {
      assert WalkRule(REGISTER, a.depth) == WalkRule(TELL, a.depth - 1);
      assert WalkIds(REGISTER_IDS, a.depth) == WalkIds(TELL_IDS, a.depth - 1);
    }
  }

  lemma LibraryFaithful()
    ensures Faithful(LIBRARY, LIBRARY_IDS)
  {
    LibraryShape();
    forall a, b | ShareId(LIBRARY_IDS, a, b)
      ensures IdsAt(LIBRARY_IDS, a).value.consequence.None? <==> IdsAt(LIBRARY_IDS, b).value.consequence.None?
    {
      LibraryDuties(a);
      LibraryDuties(b);
      assert "tell"[0] != "register"[0];
    }
  }

  lemma LibraryRecognized(compare: (string, string) -> Option<Ordering>)
    ensures Recognized(LIBRARY, Reader(compare))
  {
    var permissions, duties, obligations := LIBRARY.lists.permissions, [TELL], LIBRARY.lists.obligations;
    assert DECLARED[0].id == "inform" && DECLARED[1].id == "read";
    assert permissions[1..] == [BROWSE] && permissions[1..][1..] == [];
    assert duties[1..] == [] && obligations[1..] == [];
    assert FirstUnknownInChain(TELL, DECLARED, 0).None? && FirstUnknownInChain(TELL, DECLARED, 1).None?;
    assert FirstUnknownInChains(duties[1..], DECLARED).None?;
    assert FirstUnknown(permissions[1..][1..], DECLARED).None?;
    assert FirstUnknownDuty(permissions[1..][1..], DECLARED).None?;
    assert FirstUnknown(permissions[1..], DECLARED).None? && FirstUnknownDuty(permissions[1..], DECLARED).None?;
    assert FirstUnknown(obligations[1..], DECLARED).None? && FirstUnknownConsequence(obligations[1..], DECLARED).None?;
  }

  /** The obligation is met, and so is not outstanding; the duty it shares with a permission never is. */
  lemma LibraryDutiesDone(c: Case)
    requires c.world.claims == map[]
    ensures DutySatisfied(REGISTER, c.world) && !DutySatisfied(TELL, c.world)
    ensures !ObligationOutstanding(LIBRARY, c.world) && !CutIn(LIBRARY.lists.obligations, c.world)
  {
    assert EvaluateAtomic("embargo", IsNoneOf, "on", c.world);
    assert Evaluate(REGISTER.constraints[0], c.world);
    UnresolvedIffOutstanding(LIBRARY.lists.obligations, Obligation, c.world, 0);
  }

  lemma LibraryAllows(compare: (string, string) -> Option<Ordering>)
    ensures RulesAllow(LIBRARY, Reader(compare)) && InPlay(LEND, Reader(compare))
  {
    var c := Reader(compare);
    assert Applies(BROWSE, c) && Applies(LEND, c);
    assert LIBRARY.lists.permissions[1] == BROWSE && Grants(BROWSE, c);
  }

  lemma LibraryAlike(compare: (string, string) -> Option<Ordering>)
    ensures SameLists(LIBRARY.lists, LIBRARY_IDS) && CompositesAlike(LIBRARY, Reader(compare), LIBRARY_IDS)
  {
    var c, m := Reader(compare), LIBRARY_IDS;
    LibraryShape();
    forall id ensures PermissionsAlike(LIBRARY, c, m, id) {
      assert "lend"[0] != "browse"[0];
    }
    LibraryDutiesDone(c);
    forall a, b | ShareId(m, a, b) && InForceAt(LIBRARY, c, a) && InForceAt(LIBRARY, c, b)
      ensures SatisfiedAt(LIBRARY, c, a) <==> SatisfiedAt(LIBRARY, c, b)
    {
      LibraryDuties(a);
      LibraryDuties(b);
      assert "tell"[0] != "register"[0];
    }
  }

  lemma LibraryIsRead(compare: (string, string) -> Option<Ordering>)
    ensures AllowedThoughRead(LIBRARY, Reader(compare), LIBRARY_IDS)
  {
    var c, m := Reader(compare), LIBRARY_IDS;
    var a, b := DutyAddress(PermissionDuty(0), 0, 0), DutyAddress(Obligation, 0, 1);
    LibraryAllows(compare);
    LibraryDutiesDone(c);
    LibraryDuties(a);
    LibraryDuties(b);
    assert ShareId(m, a, b) && OfObligationId(m, a);
    assert InForceAt(LIBRARY, c, a) && DueElsewhere(LIBRARY, c, m, a);
  }

  /**
   Under deny mode the engine allows the request, every obligation being met; every restatement of
   its own account is read as a denial.
   */
  lemma SharedDutyIsMisjudged(compare: (string, string) -> Option<Ordering>)
    returns (p: Policy, c: Case, m: IdLists)
    ensures Faithful(p, m) && Recognized(p, c) && ClonesAgree(m, DetailedReports(p, c))
    ensures !CutIn(p.lists.obligations, c.world)
    ensures AllowedThoughRead(p, c, m) && Decide(p, c).decision == Decision.Allow
    ensures forall e :: IsOwnTree(m, DetailedReports(p, c), e) ==>
      Verdict(m, e, c.config.dutyMode, c.config.behaviour) == PolicyVerdict.Deny
  {
    p, c, m := LIBRARY, Reader(compare), LIBRARY_IDS;
    LibraryFaithful();
    LibraryRecognized(compare);
    LibraryAlike(compare);
    ClonesAgreeIff(p, c, m);
    LibraryIsRead(compare);
    LibraryDutiesDone(c);
    DecidesIff(p, c);
    forall e | IsOwnTree(m, DetailedReports(p, c), e)
      ensures Verdict(m, e, c.config.dutyMode, c.config.behaviour) == PolicyVerdict.Deny
    {
      AgreeingTreeTells(m, DetailedReports(p, c), e);
      UncutErrsByDenying(p, c, m, e);
    }
  }

  // ---------------------------------------------------------------
  // A composite rule attempted in part
  // ---------------------------------------------------------------

  const RETRO: Shared := Shared("retro", [Atomic("purpose", Eq, "study")], [], [], None)

  /** One permission to read with two targets, for a purpose, as its two atomic rules. */
  function TwoTargets(): seq<Atom> {
    Product(RETRO, [RefinedAction("read", None)], [Some("book"), Some("film")])
  }

  lemma TwoTargetsAre()
    ensures |TwoTargets()| == 2
    ensures TwoTargets()[0] == AtomFor(RETRO, RefinedAction("read", None), Some("book"))
    ensures TwoTargets()[1] == AtomFor(RETRO, RefinedAction("read", None), Some("film"))
  {
    var actions := [RefinedAction("read", None)];
    assert actions[..0] == [];
  }

  /**
   Asked about the one target without the purpose, neither atomic rule is active and only one is
   attempted: no expectation that states an attempt of the rule conforms, whatever else it states.
   */
  lemma TwoTargetsNeverConform(compare: (string, string) -> Option<Ordering>) returns (p: Policy, c: Case, m: IdLists)
    ensures p.lists == RuleLists(RulesOf(TwoTargets()), [], []) && m == IdLists(IdsOfAtoms(TwoTargets()), [], [])
    ensures Faithful(p, m) && Recognized(p, c)
    ensures forall x: ExpectedRuleReport :: x.Key() == RuleKey(PermissionKind, "retro") && x.attempt.Some? ==>
      !RuleConforms(m, DetailedReports(p, c), x)
  {
    p := Policy(RuleLists(RulesOf(TwoTargets()), [], []), Invalid);
    m := IdLists(IdsOfAtoms(TwoTargets()), [], []);
    c := Reader(compare);
    TwoTargetsFaithful(p, c, m);
    TwoTargetsSplit(p, c, m);
    forall x: ExpectedRuleReport | x.Key() == RuleKey(PermissionKind, "retro") && x.attempt.Some?
      ensures !RuleConforms(m, DetailedReports(p, c), x)
    {
      SplitPermissionsNeverConform(p, c, m, "retro", x);
    }
  }

  lemma TwoTargetsFaithful(p: Policy, c: Case, m: IdLists)
    requires p.lists == RuleLists(RulesOf(TwoTargets()), [], []) && m == IdLists(IdsOfAtoms(TwoTargets()), [], [])
    requires c.config.actions == DECLARED
    ensures Faithful(p, m) && Recognized(p, c)
  {
    TwoTargetsAre();
    forall k | 0 <= k < 2 ensures SameShape(p.lists.permissions[k], m.permissions[k]) {
    }
    forall a: DutyAddress ensures IdsAt(m, a).None? {
    }
    var permissions := p.lists.permissions;
    assert DECLARED[1].id == "read";
    assert permissions[1..][1..] == [];
    assert FirstUnknown(permissions[1..][1..], DECLARED).None?;
    assert FirstUnknownDuty(permissions[1..][1..], DECLARED).None?;
    assert FirstUnknown(permissions[1..], DECLARED).None? && FirstUnknownDuty(permissions[1..], DECLARED).None?;
  }

  lemma TwoTargetsSplit(p: Policy, c: Case, m: IdLists)
    requires p.lists == RuleLists(RulesOf(TwoTargets()), [], []) && m == IdLists(IdsOfAtoms(TwoTargets()), [], [])
    requires SameLists(p.lists, m) && c.world.claims == map[] && c.query == Query("read", "book", [])
    ensures !PermissionsAlike(p, c, m, "retro")
  {
    TwoTargetsAre();
    assert "book"[0] != "film"[0];
    assert Applies(p.lists.permissions[0], c) && !Applies(p.lists.permissions[1], c);
    assert !EvaluateAtomic("purpose", Eq, "study", c.world);
    forall i: nat | i < 2 ensures !PermissionActive(p, c, i) {
      assert !Evaluate(p.lists.permissions[i].constraints[0], c.world);
    }
    assert PermissionOf(m, 0, "retro") && PermissionOf(m, 1, "retro");
  }
}
