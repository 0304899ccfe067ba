/** Translating one policy, request and state of the world into the engine's own request. */
module Translation {
  import opened Wrappers
  import opened Collections
  import opened Constraints
  import opened Actions
  import opened Graph
  import opened Triples
  import opened Rules
  import opened Policies
  import opened Decisions
  import opened Evaluation
  import opened Dnf
  import opened GroundTruth

  datatype PartyRef = Individual(name: string) | Collection(name: string)

  datatype SourceKind = PermissionRule | ProhibitionRule

  datatype RuleInfo = RuleInfo(
    kind: SourceKind,
    assignee: Option<PartyRef>,
    action: Option<string>,
    target: Option<PartyRef>,
    constraint: Option<ConstraintForm>,
    nestedDuty: Option<string>)

  datatype PolicyInfo = PolicyInfo(id: string, rules: seq<RuleInfo>)

  datatype RequestInfo = RequestInfo(assignee: string, action: string, target: Option<string>)

  datatype Outcome = Ready(request: Request) | Skip(reason: Reason)

  /** Everything around a policy: the request, the world's facts, and the engine's comparison of literals. */
  datatype Setting = Setting(
    req: RequestInfo,
    sotw: Graph,
    datasetId: string,
    compare: (string, string) -> Option<Ordering>)

  const ISSUED := "http://purl.org/dc/terms/issued"
  const CONFIG_ID := "https://ds42.org/profiles/compliance-runner"

  const BASE_VOCABULARY: Taxonomy := [
    ActionDecl("use", None),
    ActionDecl("read", Some("use")),
    ActionDecl("write", Some("use")),
    ActionDecl("distribute", Some("use")),
    ActionDecl("transfer", None),
    ActionDecl("sell", Some("transfer")),
    ActionDecl("give", Some("transfer")),
    ActionDecl("compensate", None)]

  const BASE_CONFIG := Config(BASE_VOCABULARY, Advise, Closed, None, None)

  // ---------------------------------------------------------------
  // Facts of the world
  // ---------------------------------------------------------------

  /** The world states that `member` is part of `collection`, both by local name. */
  predicate IsMemberOf(sotw: Graph, member: string, collection: string) {
    exists k ::
      && 0 <= k < |sotw|
      && sotw[k].property == ODRL + "partOf"
      && LocalName(NodeId(sotw[k].subject)) == member
      && TermId(sotw[k].value).Some?
      && LocalName(TermId(sotw[k].value).value) == collection
  }

  /** `t` names a report on the duty, and that report says it was violated. */
  predicate ReportsViolation(sotw: Graph, t: Triple, duty: string) {
    var node := NodeId(t.subject);
    && t.property == REPORT + "rule"
    && TermId(t.value).Some? && LocalName(TermId(t.value).value) == LocalName(duty)
    && ObjectId(sotw, node, RDF_TYPE) == Some(REPORT + "DutyReport")
    && ObjectId(sotw, node, REPORT + "deonticState").Some?
    && LocalName(ObjectId(sotw, node, REPORT + "deonticState").value) == "Violated"
  }

  predicate DutyIsViolated(sotw: Graph, duty: string) {
    exists k :: 0 <= k < |sotw| && ReportsViolation(sotw, sotw[k], duty)
  }

  /** The literal of the first `dct:issued` triple. */
  function CurrentTime(sotw: Graph): Option<string> {
    if sotw == [] then None
    else if sotw[0].property == ISSUED then
      (match sotw[0].value case Literal(now) => Some(now) case Resource(_) => None)
    else CurrentTime(sotw[1..])
  }

  function ClaimsOf(s: Setting): Claims {
    var claims := map["sub" := Single(s.req.assignee)];
    match CurrentTime(s.sotw)
    case None => claims
    case Some(now) => claims["dateTime" := Single(now)]
  }

  function WorldOf(s: Setting): World {
    World(ClaimsOf(s), s.compare)
  }

  // ---------------------------------------------------------------
  // One rule
  // ---------------------------------------------------------------

  predicate AssigneeMatches(r: RuleInfo, s: Setting) {
    match r.assignee
    case None => true
    case Some(Individual(name)) => name == s.req.assignee
    case Some(Collection(name)) => IsMemberOf(s.sotw, s.req.assignee, name)
  }

  predicate TargetMatches(r: RuleInfo, s: Setting) {
    match r.target
    case None => true
    case Some(Individual(name)) => s.req.target == Some(name)
    case Some(Collection(name)) => s.req.target.Some? && IsMemberOf(s.sotw, s.req.target.value, name)
  }

  /** The rule is about this party and asset, and no duty of it is known to be violated. */
  predicate InScope(r: RuleInfo, s: Setting) {
    && AssigneeMatches(r, s)
    && TargetMatches(r, s)
    && !(r.nestedDuty.Some? && DutyIsViolated(s.sotw, r.nestedDuty.value))
  }

  // ---------------------------------------------------------------
  // Scope, said of the request and the triples
  // ---------------------------------------------------------------

  /** A triple says that something of this local name is part of something of that one. */
  ghost predicate Joined(sotw: Graph, member: string, collection: string) {
    exists t, n :: t in sotw && JoinedBy(t, n, member, collection)
  }

  ghost predicate JoinedBy(t: Triple, n: Node, member: string, collection: string) {
    && t.property == ODRL + "partOf" && t.value == Resource(n)
    && IsCalled(NodeId(t.subject), member) && IsCalled(NodeId(n), collection)
  }

  ghost predicate SuitsAssignee(r: RuleInfo, s: Setting) {
    || r.assignee == None
    || r.assignee == Some(Individual(s.req.assignee))
    || exists c :: r.assignee == Some(Collection(c)) && Joined(s.sotw, s.req.assignee, c)
  }

  ghost predicate SuitsTarget(r: RuleInfo, s: Setting) {
    || r.target == None
    || exists asked :: s.req.target == Some(asked)
         && (r.target == Some(Individual(asked))
             || exists c :: r.target == Some(Collection(c)) && Joined(s.sotw, asked, c))
  }

  /** A triple says that a report is on the duty, and that report is a duty report of a violation. */
  ghost predicate SaidViolated(sotw: Graph, duty: string) {
    exists t, n, name :: t in sotw && ReportedBy(sotw, t, n, duty, name)
  }

  ghost predicate ReportedBy(sotw: Graph, t: Triple, n: Node, duty: string, name: string) {
    && t.property == REPORT + "rule" && t.value == Resource(n)
    && IsCalled(NodeId(n), name) && IsCalled(duty, name)
    && FirstIs(sotw, NodeId(t.subject), RDF_TYPE, REPORT + "DutyReport")
    && exists state :: FirstIs(sotw, NodeId(t.subject), REPORT + "deonticState", state) && IsCalled(state, "Violated")
  }

  /** The rule is addressed to this party and asset, and no duty of it is said to be violated. */
  ghost predicate Suits(r: RuleInfo, s: Setting) {
    && SuitsAssignee(r, s) && SuitsTarget(r, s)
    && forall duty :: r.nestedDuty == Some(duty) ==> !SaidViolated(s.sotw, duty)
  }

  lemma JoinedIff(sotw: Graph, member: string, collection: string)
    ensures IsMemberOf(sotw, member, collection) <==> Joined(sotw, member, collection)
  {
    if t, n :| t in sotw && JoinedBy(t, n, member, collection) {
      LocalNameIff(NodeId(t.subject), member);
      LocalNameIff(NodeId(n), collection);
      var k :| 0 <= k < |sotw| && sotw[k] == t;
    }
    if IsMemberOf(sotw, member, collection) {
      var k :| 0 <= k < |sotw| && sotw[k].property == ODRL + "partOf"
        && LocalName(NodeId(sotw[k].subject)) == member && TermId(sotw[k].value).Some?
        && LocalName(TermId(sotw[k].value).value) == collection;
      LocalNameIff(NodeId(sotw[k].subject), member);
      LocalNameIff(NodeId(sotw[k].value.node), collection);
      assert sotw[k] in sotw && JoinedBy(sotw[k], sotw[k].value.node, member, collection);
    }
  }

  lemma ViolationIff(sotw: Graph, t: Triple, duty: string)
    ensures ReportsViolation(sotw, t, duty) <==> exists n, name :: ReportedBy(sotw, t, n, duty, name)
  {
    var node := NodeId(t.subject);
    ObjectIdIff(sotw, node, RDF_TYPE, REPORT + "DutyReport");
    forall state
      ensures ObjectId(sotw, node, REPORT + "deonticState") == Some(state)
         <==> FirstIs(sotw, node, REPORT + "deonticState", state)
      ensures LocalName(state) == "Violated" <==> IsCalled(state, "Violated")
    {
      ObjectIdIff(sotw, node, REPORT + "deonticState", state);
      LocalNameIff(state, "Violated");
    }
    if n, name :| ReportedBy(sotw, t, n, duty, name) {
      LocalNameIff(NodeId(n), name);
      LocalNameIff(duty, name);
    }
    if ReportsViolation(sotw, t, duty) {
      LocalNameIff(NodeId(t.value.node), LocalName(duty));
      LocalNameIff(duty, LocalName(duty));
      assert ReportedBy(sotw, t, t.value.node, duty, LocalName(duty));
    }
  }

  lemma SaidViolatedIff(sotw: Graph, duty: string)
    ensures DutyIsViolated(sotw, duty) <==> SaidViolated(sotw, duty)
  {
    forall t ensures ReportsViolation(sotw, t, duty) <==> exists n, name :: ReportedBy(sotw, t, n, duty, name) {
      ViolationIff(sotw, t, duty);
    }
    if t, n, name :| t in sotw && ReportedBy(sotw, t, n, duty, name) {
      var k :| 0 <= k < |sotw| && sotw[k] == t;
      assert ReportsViolation(sotw, sotw[k], duty);
    }
    if k :| 0 <= k < |sotw| && ReportsViolation(sotw, sotw[k], duty) {
      var n, name :| ReportedBy(sotw, sotw[k], n, duty, name);
      assert sotw[k] in sotw;
    }
  }

  lemma AssigneeIff(r: RuleInfo, s: Setting)
    ensures AssigneeMatches(r, s) <==> SuitsAssignee(r, s)
  {
    if r.assignee.Some? && r.assignee.value.Collection? {
      JoinedIff(s.sotw, s.req.assignee, r.assignee.value.name);
    }
  }

  lemma TargetIff(r: RuleInfo, s: Setting)
    ensures TargetMatches(r, s) <==> SuitsTarget(r, s)
  {
    if r.target.Some? && r.target.value.Collection? && s.req.target.Some? {
      JoinedIff(s.sotw, s.req.target.value, r.target.value.name);
    }
  }

  /** What is skipped is exactly what does not suit the request. */
  lemma InScopeIff(r: RuleInfo, s: Setting)
    ensures InScope(r, s) <==> Suits(r, s)
  {
    AssigneeIff(r, s);
    TargetIff(r, s);
    if r.nestedDuty.Some? {
      SaidViolatedIff(s.sotw, r.nestedDuty.value);
    }
  }

  // ---------------------------------------------------------------
  // The engine's rules
  // ---------------------------------------------------------------

  /** A rule that names no action is about whatever is asked. */
  function ActionFor(r: RuleInfo, s: Setting): string {
    match r.action
    case None => s.req.action
    case Some(a) => a
  }

  function BaseConstraints(r: RuleInfo, s: Setting): seq<Constraint> {
    match r.assignee
    case None => []
    case Some(Individual(name)) => [Atomic("sub", Eq, name)]
    case Some(Collection(_)) => [Atomic("sub", Eq, s.req.assignee)]
  }

  function Disjuncts(r: RuleInfo): Result<seq<Conjunct>, Reason> {
    match r.constraint
    case None => Ok([[]])
    case Some(form) => Expand(form)
  }

  function EngineRule(r: RuleInfo, s: Setting, disjunct: Conjunct): Rule {
    Rule(ActionFor(r, s), None, BaseConstraints(r, s) + disjunct, None, [], [], None)
  }

  function EngineRules(r: RuleInfo, s: Setting, disjuncts: seq<Conjunct>): (rs: seq<Rule>)
    ensures |rs| == |disjuncts| && forall k :: 0 <= k < |rs| ==> rs[k] == EngineRule(r, s, disjuncts[k])
  {
    seq(|disjuncts|, k requires 0 <= k < |disjuncts| => EngineRule(r, s, disjuncts[k]))
  }

  // ---------------------------------------------------------------
  // The policy
  // ---------------------------------------------------------------

  /** The engine rules of the source rules of one kind, or the reason one of any kind cannot be compiled. */
  function RulesOfKind(rules: seq<RuleInfo>, s: Setting, kind: SourceKind): Result<seq<Rule>, Reason> {
    if rules == [] then Ok([])
    else if !InScope(rules[0], s) then RulesOfKind(rules[1..], s, kind)
    else
      match Disjuncts(rules[0])
      case Err(e) => Err(e)
      case Ok(disjuncts) =>
        var here := if rules[0].kind == kind then EngineRules(rules[0], s, disjuncts) else [];
        Behind(here, RulesOfKind(rules[1..], s, kind))
  }

  function RequestFor(policy: PolicyInfo, s: Setting, permissions: seq<Rule>, prohibitions: seq<Rule>): Request {
    Request(
      s.datasetId, s.req.action, CONFIG_ID, BASE_CONFIG,
      if permissions == [] && prohibitions == [] then []
      else [WirePolicy(policy.id, "Set", "urn:uuid:unspecified-assigner", None,
                       permissions, prohibitions, [], Invalid, None, [])],
      WorldOf(s), [], [])
  }

  function Translated(policy: PolicyInfo, s: Setting): Outcome {
    match RulesOfKind(policy.rules, s, PermissionRule)
    case Err(e) => Skip(e)
    case Ok(permissions) =>
      match RulesOfKind(policy.rules, s, ProhibitionRule)
      case Err(e) => Skip(e)
      case Ok(prohibitions) => Ready(RequestFor(policy, s, permissions, prohibitions))
  }

  lemma {:induction false} KindsFailTogether(rules: seq<RuleInfo>, s: Setting)
    ensures RulesOfKind(rules, s, PermissionRule).Err? <==> RulesOfKind(rules, s, ProhibitionRule).Err?
    ensures RulesOfKind(rules, s, PermissionRule).Err? ==>
      RulesOfKind(rules, s, PermissionRule).error == RulesOfKind(rules, s, ProhibitionRule).error
  {
    if rules != [] {
      KindsFailTogether(rules[1..], s);
    }
  }

  /** The inner loop: one engine rule for each disjunct. */
  method BuildRules(r: RuleInfo, s: Setting, disjuncts: seq<Conjunct>) returns (rs: seq<Rule>)
    ensures rs == EngineRules(r, s, disjuncts)
  {
    rs := [];
    for k := 0 to |disjuncts|
      invariant rs == EngineRules(r, s, disjuncts)[..k]
    {
      rs := rs + [EngineRule(r, s, disjuncts[k])];
    }
    assert EngineRules(r, s, disjuncts)[..|disjuncts|] == EngineRules(r, s, disjuncts);
  }

  lemma SkipRule(rules: seq<RuleInfo>, s: Setting, kind: SourceKind, k: nat, out: seq<Rule>, added: seq<Rule>)
    requires k < |rules|
    requires InScope(rules[k], s) ==> Disjuncts(rules[k]).Ok?
    requires added == if InScope(rules[k], s) && rules[k].kind == kind
                      then EngineRules(rules[k], s, Disjuncts(rules[k]).value) else []
    ensures Behind(out, RulesOfKind(rules[k..], s, kind)) == Behind(out + added, RulesOfKind(rules[k + 1..], s, kind))
  {
    assert rules[k..][1..] == rules[k + 1..];
    assert out + [] == out;
    BehindTwice(out, added, RulesOfKind(rules[k + 1..], s, kind));
  }

  method TranslateRules(rules: seq<RuleInfo>, s: Setting)
    returns (error: Option<Reason>, permissions: seq<Rule>, prohibitions: seq<Rule>)
    ensures error.Some? ==> RulesOfKind(rules, s, PermissionRule) == Err(error.value)
    ensures error.None? ==> RulesOfKind(rules, s, PermissionRule) == Ok(permissions)
    ensures error.None? ==> RulesOfKind(rules, s, ProhibitionRule) == Ok(prohibitions)
  {
    permissions, prohibitions := [], [];
    assert rules[0..] == rules;
    BehindNothing(RulesOfKind(rules, s, PermissionRule));
    BehindNothing(RulesOfKind(rules, s, ProhibitionRule));
    for k := 0 to |rules|
      invariant RulesOfKind(rules, s, PermissionRule) == Behind(permissions, RulesOfKind(rules[k..], s, PermissionRule))
      invariant RulesOfKind(rules, s, ProhibitionRule)
             == Behind(prohibitions, RulesOfKind(rules[k..], s, ProhibitionRule))
    {
      var permitted: seq<Rule>, prohibited: seq<Rule> := [], [];
      if InScope(rules[k], s) {
        var disjuncts: Result<seq<Conjunct>, Reason> := Ok([[]]);
        if rules[k].constraint.Some? {
          disjuncts := ToDnf(rules[k].constraint.value);
        }
        if disjuncts.Err? {
          return Some(disjuncts.error), permissions, prohibitions;
        }
        var built := BuildRules(rules[k], s, disjuncts.value);
        match rules[k].kind {
          case PermissionRule => permitted := built;
          case ProhibitionRule => prohibited := built;
        }
      }
      SkipRule(rules, s, PermissionRule, k, permissions, permitted);
      SkipRule(rules, s, ProhibitionRule, k, prohibitions, prohibited);
      permissions := permissions + permitted;
      prohibitions := prohibitions + prohibited;
    }
    BehindTheEnd(permissions, RulesOfKind(rules[|rules|..], s, PermissionRule));
    BehindTheEnd(prohibitions, RulesOfKind(rules[|rules|..], s, ProhibitionRule));
    error := None;
  }

  method Translate(policy: PolicyInfo, s: Setting) returns (t: Outcome)
    ensures t == Translated(policy, s)
  {
    var error, permissions, prohibitions := TranslateRules(policy.rules, s);
    if error.Some? {
      return Skip(error.value);
    }
    return Ready(RequestFor(policy, s, permissions, prohibitions));
  }

  // ---------------------------------------------------------------
  // When a policy is skipped
  // ---------------------------------------------------------------

  function ObstaclesOf(r: RuleInfo): seq<Reason> {
    match r.constraint
    case None => []
    case Some(form) => Obstacles(form)
  }

  ghost predicate Blocks(r: RuleInfo, s: Setting) {
    Suits(r, s) && ObstaclesOf(r) != []
  }

  ghost predicate AnyBlocked(rules: seq<RuleInfo>, s: Setting) {
    exists k :: 0 <= k < |rules| && Blocks(rules[k], s)
  }

  /** The first rule that blocks translation does so for this reason: its leftmost obstacle. */
  ghost predicate BlockedFor(rules: seq<RuleInfo>, s: Setting, reason: Reason) {
    exists k :: 0 <= k < |rules| && FirstBlocked(rules, s, k) && reason == ObstaclesOf(rules[k])[0]
  }

  ghost predicate FirstBlocked(rules: seq<RuleInfo>, s: Setting, k: nat)
    requires k < |rules|
  {
    Blocks(rules[k], s) && forall j :: 0 <= j < k ==> !Blocks(rules[j], s)
  }

  lemma {:induction false} SkippedByFirst(rules: seq<RuleInfo>, s: Setting, kind: SourceKind)
    ensures RulesOfKind(rules, s, kind).Err? <==> AnyBlocked(rules, s)
    ensures RulesOfKind(rules, s, kind).Err? ==> BlockedFor(rules, s, RulesOfKind(rules, s, kind).error)
  {
    if rules != [] {
      SkippedByFirst(rules[1..], s, kind);
      InScopeIff(rules[0], s);
      if rules[0].constraint.Some? {
        RefusedAtLeftmost(rules[0].constraint.value);
      }
      if Blocks(rules[0], s) {
        assert FirstBlocked(rules, s, 0);
      } else {
        BlockedLater(rules, s);
      }
    }
  }

  lemma BlockedLater(rules: seq<RuleInfo>, s: Setting)
    requires rules != [] && !Blocks(rules[0], s)
    ensures AnyBlocked(rules, s) <==> AnyBlocked(rules[1..], s)
    ensures forall reason :: BlockedFor(rules[1..], s, reason) ==> BlockedFor(rules, s, reason)
  {
    var rest := rules[1..];
    if k :| 0 < k < |rules| && Blocks(rules[k], s) {
      assert rest[k - 1] == rules[k];
    }
    if k :| 0 <= k < |rest| && Blocks(rest[k], s) {
      assert rules[k + 1] == rest[k];
    }
    forall reason | BlockedFor(rest, s, reason) ensures BlockedFor(rules, s, reason) {
      var k :| 0 <= k < |rest| && FirstBlocked(rest, s, k) && reason == ObstaclesOf(rest[k])[0];
      forall j | 0 <= j < k + 1 ensures !Blocks(rules[j], s) {
        if j > 0 { assert rules[j] == rest[j - 1]; }
      }
      assert FirstBlocked(rules, s, k + 1);
    }
  }

  /**
   Translation is skipped exactly when a rule that suits the request has an obstacle; the first such rule's
   leftmost is the reason.
   */
  lemma SkippedIffBlocked(policy: PolicyInfo, s: Setting)
    ensures Translated(policy, s).Skip? <==> AnyBlocked(policy.rules, s)
    ensures Translated(policy, s).Skip? ==> BlockedFor(policy.rules, s, Translated(policy, s).reason)
  {
    SkippedByFirst(policy.rules, s, PermissionRule);
    KindsFailTogether(policy.rules, s);
  }

  // ---------------------------------------------------------------
  // What a source rule says, and what its engine rules do
  // ---------------------------------------------------------------

  /** What the base vocabulary declares to be included in what. */
  predicate Includes(broader: string, narrower: string) {
    || (broader == "use" && (narrower == "read" || narrower == "write" || narrower == "distribute"))
    || (broader == "transfer" && (narrower == "sell" || narrower == "give"))
  }

  /** The rule names no action, the asked one, or one that includes it. */
  predicate AsksFor(r: RuleInfo, s: Setting) {
    || r.action == None
    || r.action == Some(s.req.action)
    || (r.action.Some? && Includes(r.action.value, s.req.action))
  }

  /** The source rule's own reading: it suits the request, is about the asked action, and its constraint is true. */
  ghost predicate RuleActive(r: RuleInfo, s: Setting) {
    && Suits(r, s)
    && AsksFor(r, s)
    && forall form :: r.constraint == Some(form) ==> Holds(form, TruthIn(WorldOf(s)))
  }

  lemma NamesDiffer()
    ensures forall i, j :: 0 <= i < j < |BASE_VOCABULARY| ==> BASE_VOCABULARY[i].id != BASE_VOCABULARY[j].id
  {
    assert "use"[0] == 'u' && "read"[0] == 'r' && "write"[0] == 'w' && "distribute"[0] == 'd';
    assert "transfer"[0] == 't' && "sell"[0] == 's' && "give"[0] == 'g' && "compensate"[0] == 'c';
    forall i, j | 0 <= i < j < |BASE_VOCABULARY| ensures BASE_VOCABULARY[i].id != BASE_VOCABULARY[j].id {
      assert BASE_VOCABULARY[i].id[0] != BASE_VOCABULARY[j].id[0];
    }
  }

  lemma IncludesAt(k: nat, parent: string)
    requires k < |BASE_VOCABULARY|
    ensures BASE_VOCABULARY[k].includedIn == Some(parent) <==> Includes(parent, BASE_VOCABULARY[k].id)
  {
    assert "use"[0] == 'u' && "read"[0] == 'r' && "write"[0] == 'w' && "distribute"[0] == 'd';
    assert "transfer"[0] == 't' && "sell"[0] == 's' && "give"[0] == 'g' && "compensate"[0] == 'c';
  }

  lemma IncludesNamesKnown(parent: string, action: string)
    requires Includes(parent, action)
    ensures Recognizes(BASE_VOCABULARY, action)
  {
    assert BASE_VOCABULARY[1].id == "read" && BASE_VOCABULARY[2].id == "write";
    assert BASE_VOCABULARY[3].id == "distribute" && BASE_VOCABULARY[5].id == "sell" && BASE_VOCABULARY[6].id == "give";
  }

  lemma BroaderIs(action: string, parent: string)
    ensures Broader(BASE_VOCABULARY, action) == Some(parent) <==> Includes(parent, action)
  {
    if Includes(parent, action) {
      IncludesNamesKnown(parent, action);
    }
    if k: nat :| k < |BASE_VOCABULARY| && BASE_VOCABULARY[k].id == action {
      NamesDiffer();
      DistinctEdges(BASE_VOCABULARY, k);
      IncludesAt(k, parent);
    }
  }

  lemma TopsAreDistinct(parent: string, action: string)
    requires Includes(parent, action)
    ensures parent[..1] != action[..1]
  {
    assert "use"[0] == 'u' && "transfer"[0] == 't';
    assert "read"[0] == 'r' && "write"[0] == 'w' && "distribute"[0] == 'd' && "sell"[0] == 's' && "give"[0] == 'g';
  }

  lemma TopsAreTops(parent: string, action: string)
    requires Includes(parent, action)
    ensures Broader(BASE_VOCABULARY, parent).None? && parent != action
  {
    TopsAreDistinct(parent, action);
    var k := if parent == "use" then 0 else 4;
    assert BASE_VOCABULARY[k].id == parent;
    NamesDiffer();
    DistinctEdges(BASE_VOCABULARY, k);
  }

  /** The base vocabulary includes one action in another exactly as listed, and nothing further. */
  lemma VocabularyIff(rule: string, asked: string)
    ensures Covers(BASE_VOCABULARY, rule, asked) <==> rule == asked || Includes(rule, asked)
  {
    BroaderIs(asked, rule);
    if Broader(BASE_VOCABULARY, asked).Some? {
      var parent := Broader(BASE_VOCABULARY, asked).value;
      BroaderIs(asked, parent);
      TopsAreTops(parent, asked);
      assert !CoversFrom(BASE_VOCABULARY, rule, parent, {} + {asked});
    }
  }

  lemma AsksForIff(r: RuleInfo, s: Setting)
    ensures Covers(BASE_VOCABULARY, ActionFor(r, s), s.req.action) <==> AsksFor(r, s)
  {
    VocabularyIff(ActionFor(r, s), s.req.action);
  }

  const VOCABULARY_NAMES := {"use", "read", "write", "distribute", "transfer", "sell", "give", "compensate"}

  lemma KnownNames(action: string)
    ensures Recognizes(BASE_VOCABULARY, action) <==> action in VOCABULARY_NAMES
  {
    assert BASE_VOCABULARY[0].id == "use" && BASE_VOCABULARY[1].id == "read" && BASE_VOCABULARY[2].id == "write";
    assert BASE_VOCABULARY[3].id == "distribute" && BASE_VOCABULARY[4].id == "transfer";
    assert BASE_VOCABULARY[5].id == "sell" && BASE_VOCABULARY[6].id == "give";
    assert BASE_VOCABULARY[7].id == "compensate";
  }

  function FactsOf(s: Setting): Case {
    Case(WorldOf(s), BASE_CONFIG, Query(s.req.action, s.datasetId, []))
  }

  /** The injected identity constraints are always met by the injected identity claim. */
  lemma BaseConstraintsHold(r: RuleInfo, s: Setting)
    requires AssigneeMatches(r, s)
    ensures AllHold(BaseConstraints(r, s), TruthIn(WorldOf(s)))
  {
    assert "sub" != "dateTime" by { assert "sub"[0] != "dateTime"[0]; }
    assert ClaimsOf(s)["sub"] == Single(s.req.assignee);
  }

  lemma EngineRuleInPlay(r: RuleInfo, s: Setting, disjunct: Conjunct)
    requires AssigneeMatches(r, s)
    ensures InPlay(EngineRule(r, s, disjunct), FactsOf(s))
       <==> Covers(BASE_VOCABULARY, ActionFor(r, s), s.req.action) && AllHold(disjunct, TruthIn(WorldOf(s)))
  {
    BaseConstraintsHold(r, s);
    JoinHolds(BaseConstraints(r, s), disjunct, TruthIn(WorldOf(s)));
    var rule := EngineRule(r, s, disjunct);
    assert Matches(rule, WorldOf(s)) <==> AllHold(rule.constraints, TruthIn(WorldOf(s)));
  }

  /** A source rule that suits the request is active exactly when one of its engine rules is in play. */
  lemma RuleActiveIffInPlay(r: RuleInfo, s: Setting)
    requires Suits(r, s) && Disjuncts(r).Ok?
    ensures RuleActive(r, s) <==> AnyInPlay(EngineRules(r, s, Disjuncts(r).value), FactsOf(s))
  {
    AssigneeIff(r, s);
    AsksForIff(r, s);
    var disjuncts := Disjuncts(r).value;
    var rs := EngineRules(r, s, disjuncts);
    forall k | 0 <= k < |rs|
      ensures InPlay(rs[k], FactsOf(s))
         <==> Covers(BASE_VOCABULARY, ActionFor(r, s), s.req.action) && AllHold(disjuncts[k], TruthIn(WorldOf(s)))
    {
      EngineRuleInPlay(r, s, disjuncts[k]);
    }
    if r.constraint.Some? {
      ExpandPreservesMeaning(r.constraint.value, TruthIn(WorldOf(s)));
    } else {
      assert disjuncts == [[]] && AllHold(disjuncts[0], TruthIn(WorldOf(s)));
    }
    if RuleActive(r, s) {
      assert SomeHolds(disjuncts, TruthIn(WorldOf(s)));
      var k :| 0 <= k < |disjuncts| && AllHold(disjuncts[k], TruthIn(WorldOf(s)));
      assert InPlay(rs[k], FactsOf(s));
    }
  }

  lemma AnyInPlayAppend(a: seq<Rule>, b: seq<Rule>, c: Case)
    ensures AnyInPlay(a + b, c) <==> AnyInPlay(a, c) || AnyInPlay(b, c)
  {
    if i :| 0 <= i < |a| && InPlay(a[i], c) {
      assert (a + b)[i] == a[i];
    }
    if i :| 0 <= i < |b| && InPlay(b[i], c) {
      assert (a + b)[|a| + i] == b[i];
    }
  }

  ghost predicate AnyRuleActive(rules: seq<RuleInfo>, s: Setting, kind: SourceKind) {
    exists k :: 0 <= k < |rules| && rules[k].kind == kind && RuleActive(rules[k], s)
  }

  lemma {:induction false} KindActiveIffInPlay(rules: seq<RuleInfo>, s: Setting, kind: SourceKind)
    requires RulesOfKind(rules, s, kind).Ok?
    ensures AnyRuleActive(rules, s, kind) <==> AnyInPlay(RulesOfKind(rules, s, kind).value, FactsOf(s))
  {
    if rules != [] {
      KindActiveIffInPlay(rules[1..], s, kind);
      assert AnyRuleActive(rules, s, kind)
        <==> (rules[0].kind == kind && RuleActive(rules[0], s)) || AnyRuleActive(rules[1..], s, kind) by {
        ActiveHeadOrTail(rules, s, kind);
      }
      InScopeIff(rules[0], s);
      if InScope(rules[0], s) {
        RuleActiveIffInPlay(rules[0], s);
        var head := if rules[0].kind == kind then EngineRules(rules[0], s, Disjuncts(rules[0]).value) else [];
        AnyInPlayAppend(head, RulesOfKind(rules[1..], s, kind).value, FactsOf(s));
      }
    }
  }

  lemma ActiveHeadOrTail(rules: seq<RuleInfo>, s: Setting, kind: SourceKind)
    requires rules != []
    ensures AnyRuleActive(rules, s, kind)
       <==> (rules[0].kind == kind && RuleActive(rules[0], s)) || AnyRuleActive(rules[1..], s, kind)
  {
    if k :| 0 < k < |rules| && rules[k].kind == kind && RuleActive(rules[k], s) {
      assert rules[1..][k - 1] == rules[k];
    }
    if k :| 0 <= k < |rules[1..]| && rules[1..][k].kind == kind && RuleActive(rules[1..][k], s) {
      assert rules[k + 1] == rules[1..][k];
    }
  }

  // ---------------------------------------------------------------
  // Recognized actions
  // ---------------------------------------------------------------

  /** The rule has a constraint that some claims could meet, or none: it reaches the engine at all. */
  ghost predicate Meetable(r: RuleInfo) {
    r.constraint.Some? ==> Holds(r.constraint.value, (_: Constraint) => true)
  }

  /** A rule that reaches the engine under an action no profile declares. */
  ghost predicate Unrecognized(r: RuleInfo, s: Setting) {
    && Suits(r, s)
    && ObstaclesOf(r) == [] && Meetable(r)
    && (if r.action == None then s.req.action else r.action.value) !in VOCABULARY_NAMES
  }

  ghost predicate AnyUnrecognized(rules: seq<RuleInfo>, s: Setting, kind: SourceKind) {
    exists k :: 0 <= k < |rules| && rules[k].kind == kind && Unrecognized(rules[k], s)
  }

  /** A rule that compiles has a conjunct exactly when its constraint can be met. */
  lemma MeetableIff(r: RuleInfo)
    ensures Disjuncts(r).Ok? <==> ObstaclesOf(r) == []
    ensures Disjuncts(r).Ok? ==> (Disjuncts(r).value != [] <==> Meetable(r))
  {
    if r.constraint.Some? {
      RefusedAtLeftmost(r.constraint.value);
      if Disjuncts(r).Ok? {
        ExpandPreservesMeaning(r.constraint.value, (_: Constraint) => true);
        if Disjuncts(r).value != [] {
          assert AllHold(Disjuncts(r).value[0], (_: Constraint) => true);
        }
      }
    }
  }

  lemma UnrecognizedIff(r: RuleInfo, s: Setting)
    ensures Unrecognized(r, s)
       <==> (&& InScope(r, s) && Disjuncts(r).Ok? && Disjuncts(r).value != []
             && !Recognizes(BASE_VOCABULARY, ActionFor(r, s)))
  {
    InScopeIff(r, s);
    MeetableIff(r);
    KnownNames(ActionFor(r, s));
  }

  lemma {:induction false} UnknownAppend(a: seq<Rule>, b: seq<Rule>, actions: Taxonomy)
    ensures FirstUnknown(a + b, actions).None? <==> FirstUnknown(a, actions).None? && FirstUnknown(b, actions).None?
    decreases |a|
  {
    if a == [] {
      assert a + b == b;
    } else {
      assert (a + b)[1..] == a[1..] + b;
      UnknownAppend(a[1..], b, actions);
    }
  }

  lemma {:induction false} UnknownInEngineRules(rs: seq<Rule>, action: string, actions: Taxonomy)
    requires forall k :: 0 <= k < |rs| ==> rs[k].action == action
    ensures FirstUnknown(rs, actions).Some? <==> rs != [] && !Recognizes(actions, action)
  {
    if rs != [] {
      UnknownInEngineRules(rs[1..], action, actions);
    }
  }

  lemma {:induction false} KindUnknownIff(rules: seq<RuleInfo>, s: Setting, kind: SourceKind)
    requires RulesOfKind(rules, s, kind).Ok?
    ensures FirstUnknown(RulesOfKind(rules, s, kind).value, BASE_VOCABULARY).Some? <==> AnyUnrecognized(rules, s, kind)
  {
    if rules != [] {
      KindUnknownIff(rules[1..], s, kind);
      UnrecognizedHeadOrTail(rules, s, kind);
      UnrecognizedIff(rules[0], s);
      if InScope(rules[0], s) {
        var built := EngineRules(rules[0], s, Disjuncts(rules[0]).value);
        UnknownInEngineRules(built, ActionFor(rules[0], s), BASE_VOCABULARY);
        var head := if rules[0].kind == kind then built else [];
        UnknownAppend(head, RulesOfKind(rules[1..], s, kind).value, BASE_VOCABULARY);
      }
    }
  }

  lemma UnrecognizedHeadOrTail(rules: seq<RuleInfo>, s: Setting, kind: SourceKind)
    requires rules != []
    ensures AnyUnrecognized(rules, s, kind)
       <==> (rules[0].kind == kind && Unrecognized(rules[0], s)) || AnyUnrecognized(rules[1..], s, kind)
  {
    if k :| 0 < k < |rules| && rules[k].kind == kind && Unrecognized(rules[k], s) {
      assert rules[1..][k - 1] == rules[k];
    }
    if k :| 0 <= k < |rules[1..]| && rules[1..][k].kind == kind && Unrecognized(rules[1..][k], s) {
      assert rules[k + 1] == rules[1..][k];
    }
  }

  // ---------------------------------------------------------------
  // What reaches the engine
  // ---------------------------------------------------------------

  function Without(rules: seq<RuleInfo>, k: nat): seq<RuleInfo>
    requires k < |rules|
  {
    rules[..k] + rules[k + 1..]
  }

  lemma {:induction false} UnsuitedAddsNoRules(rules: seq<RuleInfo>, s: Setting, kind: SourceKind, k: nat)
    requires k < |rules| && !Suits(rules[k], s)
    ensures RulesOfKind(Without(rules, k), s, kind) == RulesOfKind(rules, s, kind)
    decreases k
  {
    if k == 0 {
      InScopeIff(rules[0], s);
      assert Without(rules, 0) == rules[1..];
    } else {
      assert Without(rules, k)[0] == rules[0] && Without(rules, k)[1..] == Without(rules[1..], k - 1);
      UnsuitedAddsNoRules(rules[1..], s, kind, k - 1);
    }
  }

  /** A rule that does not suit the request can be removed without changing what is translated. */
  lemma OutOfScopeIsRemoved(policy: PolicyInfo, s: Setting, k: nat)
    requires k < |policy.rules| && !Suits(policy.rules[k], s)
    ensures Translated(policy.(rules := Without(policy.rules, k)), s) == Translated(policy, s)
  {
    UnsuitedAddsNoRules(policy.rules, s, PermissionRule, k);
    UnsuitedAddsNoRules(policy.rules, s, ProhibitionRule, k);
  }

  lemma {:induction false} IssuedIff(sotw: Graph, now: string)
    ensures CurrentTime(sotw) == Some(now) <==> exists k: nat :: FirstIssued(sotw, k) && sotw[k].value == Literal(now)
  {
    if sotw != [] {
      if sotw[0].property == ISSUED {
        assert FirstIssued(sotw, 0);
      } else {
        var rest := sotw[1..];
        IssuedIff(rest, now);
        assert forall j :: 0 <= j < |rest| ==> rest[j] == sotw[j + 1];
        if k: nat :| FirstIssued(sotw, k) && sotw[k].value == Literal(now) {
          assert FirstIssued(rest, k - 1) && rest[k - 1].value == Literal(now);
        }
        if k: nat :| FirstIssued(rest, k) && rest[k].value == Literal(now) {
          assert FirstIssued(sotw, k + 1) && sotw[k + 1].value == Literal(now);
        }
      }
    }
  }

  predicate FirstIssued(sotw: Graph, k: nat) {
    && k < |sotw| && sotw[k].property == ISSUED
    && forall j :: 0 <= j < k ==> sotw[j].property != ISSUED
  }

  /** Claimed are the caller, who is who asks, and the literal of the first `dct:issued` triple; nothing else. */
  lemma ClaimsMean(s: Setting, claim: string, value: ClaimValue)
    ensures claim in ClaimsOf(s) && ClaimsOf(s)[claim] == value
       <==> || (claim == "sub" && value == Single(s.req.assignee))
            || (claim == "dateTime" && exists k: nat, now ::
                  FirstIssued(s.sotw, k) && s.sotw[k].value == Literal(now) && value == Single(now))
  {
    assert "sub"[0] == 's' && "dateTime"[0] == 'd';
    forall now ensures CurrentTime(s.sotw) == Some(now)
      <==> exists k: nat :: FirstIssued(s.sotw, k) && s.sotw[k].value == Literal(now)
    {
      IssuedIff(s.sotw, now);
    }
  }

  /**
   Each engine rule of a rule that suits the request carries its conjunct, behind a test that the caller
   is who asks when the rule is addressed to somebody; it has no target, refinement, duty or remedy.
   */
  lemma EngineRuleStatesTheParty(r: RuleInfo, s: Setting, disjunct: Conjunct)
    requires Suits(r, s)
    ensures var e := EngineRule(r, s, disjunct);
      && e.constraints == (if r.assignee == None then [] else [Atomic("sub", Eq, s.req.assignee)]) + disjunct
      && e.action == (if r.action == None then s.req.action else r.action.value)
      && e.target == None && e.refinement == None && e.duty == [] && e.remedy == [] && e.consequence == None
  {
  }

  /** The request asks what is asked, of one policy or none, under the runner's own closed profile. */
  lemma RequestAsks(policy: PolicyInfo, s: Setting)
    requires Translated(policy, s).Ready?
    ensures var q := Translated(policy, s).request;
      && q.datasetId == s.datasetId && q.action == s.req.action && q.profileId == CONFIG_ID
      && q.config.actions == BASE_VOCABULARY && q.config.behaviour == Closed && q.config.dutyMode == Advise
      && q.config.partyIdentityClaim == None && q.config.agreementAssigneeClaim == None
      && q.assetCollections == [] && q.partyCollections == []
      && q.world == World(ClaimsOf(s), s.compare)
      && |q.policies| <= 1
      && forall p :: p in q.policies ==>
           && p.id == policy.id && p.kind == "Set" && p.assigner == "urn:uuid:unspecified-assigner"
           && p.assignee == None && p.obligations == []
           && p.conflict == Invalid && p.inheritFrom == None && p.profile == []
           && RulesOfKind(policy.rules, s, PermissionRule) == Ok(p.permissions)
           && RulesOfKind(policy.rules, s, ProhibitionRule) == Ok(p.prohibitions)
           && p.permissions + p.prohibitions != []
  {
  }
}
