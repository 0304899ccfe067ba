/**
 From a policy, a request and a state of the world to the engine's decision, against the
 decision a faithful expected report states.
 */
module EndToEnd {
  import opened Wrappers
  import opened Actions
  import opened Inheritance
  import opened Graph
  import opened Rules
  import opened Policies
  import opened Merging
  import opened Decisions
  import opened Reports
  import opened Evaluation
  import opened GroundTruth
  import opened Translation

  // ---------------------------------------------------------------
  // A single policy that inherits nothing
  // ---------------------------------------------------------------

  lemma AloneHasNoAncestors(p: WirePolicy)
    requires p.inheritFrom.None?
    ensures Order(ParentsOf(Headers([p])), p.id, []) == Ok([])
  {
    var headers := Headers([p]);
    var parents := ParentsOf(headers);
    assert headers[0].id in Index(headers) && parents[p.id] == [];
    assert Order(parents, p.id, []) == OrderAll(parents, parents[p.id], [] + [p.id], []);
  }

  lemma AloneInheritsNothing(p: WirePolicy)
    requires p.inheritFrom.None?
    ensures ResolvedPolicies([p], [p]) == Ok([Resolved(p, false)])
  {
    AloneHasNoAncestors(p);
    assert ResolvedPolicy([p], p) == Ok(Resolved(p, false));
    AllResolve([p], [p], [Resolved(p, false)]);
  }

  function WireOf(d: Decision): WireDecision {
    match d
    case Allow => WireDecision.Allow
    case Deny => WireDecision.Deny
    case Error(_) => WireDecision.Error
  }

  lemma OneVerdictStands(e: PolicyEvaluation)
    ensures Combine([e]) == WireOf(e.outcome.decision)
  {
    var es := [e];
    assert es[0] == e;
    match e.outcome.decision
    case Allow => assert Combine(es) == WireDecision.Allow;
    case Deny => assert es[0].outcome.decision.Deny? && !es[0].outcome.decision.Error?;
    case Error(_) => assert es[0].outcome.decision.Error?;
  }

  lemma OneIsEvaluated(p: WirePolicy, req: Request)
    requires p.assignee.None?
    ensures var rs := [Resolved(p, false)];
      && Evaluations(rs, rs, req) == [EvaluateOne(rs, rs[0], req.Facts())]
      && Effective(rs, rs[0]) == Policy(p.Lists(), p.conflict)
  {
    var rs := [Resolved(p, false)];
    assert rs[..0] == [] && !PartyMismatch(rs[0].policy, req);
    assert Evaluations(rs, rs[..0], req) == [];
    assert !ForcedInvalid(rs, p.id);
  }

  lemma AloneIsAnswered(req: Request, p: WirePolicy)
    requires req.policies == [p] && p.inheritFrom.None? && p.assignee.None? && p.profile == []
    ensures AnswerTo(req).response.decision == WireOf(Decide(Policy(p.Lists(), p.conflict), req.Facts()).decision)
  {
    AloneInheritsNothing(p);
    OneIsEvaluated(p, req);
    var rs := [Resolved(p, false)];
    var e := EvaluateOne(rs, rs[0], req.Facts());
    OneVerdictStands(e);
    assert AnswerTo(req).response == Respond([e], req.config.dutyMode);
  }

  // ---------------------------------------------------------------
  // Rules that carry no duties
  // ---------------------------------------------------------------

  ghost predicate Plain(rs: seq<Rule>) {
    forall k :: 0 <= k < |rs| ==> rs[k].duty == [] && rs[k].remedy == [] && rs[k].consequence.None?
  }

  lemma {:induction false} TranslatedIsPlain(rules: seq<RuleInfo>, s: Setting, kind: SourceKind)
    requires RulesOfKind(rules, s, kind).Ok?
    ensures Plain(RulesOfKind(rules, s, kind).value)
  {
    if rules != [] {
      TranslatedIsPlain(rules[1..], s, kind);
    }
  }

  lemma {:induction false} PlainHidesNoAction(rs: seq<Rule>, actions: Taxonomy)
    requires Plain(rs)
    ensures FirstUnknownRemedy(rs, actions).None? && FirstUnknownDuty(rs, actions).None?
  {
    if rs != [] {
      PlainHidesNoAction(rs[1..], actions);
    }
  }

  lemma PlainIsDecided(permissions: seq<Rule>, prohibitions: seq<Rule>, c: Case)
    requires Plain(permissions) && Plain(prohibitions)
    requires c.config.dutyMode == Advise && c.config.behaviour == Closed
    ensures WireOf(Decide(Policy(RuleLists(permissions, prohibitions, []), Invalid), c).decision)
         == if FirstUnknown(prohibitions, c.config.actions).Some? || FirstUnknown(permissions, c.config.actions).Some?
            then WireDecision.Error
            else Reduced(AnyInPlay(prohibitions, c), AnyInPlay(permissions, c))
  {
    PlainHidesNoAction(permissions, c.config.actions);
    PlainHidesNoAction(prohibitions, c.config.actions);
    assert AnyGrants(permissions, c) <==> AnyInPlay(permissions, c);
  }

  // ---------------------------------------------------------------
  // The decision
  // ---------------------------------------------------------------

  ghost predicate UnrecognizedAnywhere(rules: seq<RuleInfo>, s: Setting) {
    AnyUnrecognized(rules, s, PermissionRule) || AnyUnrecognized(rules, s, ProhibitionRule)
  }

  /**
   The engine's decision on a translated policy is the reduction of which source rules are
   active, unless a rule that reaches the engine names an action it does not know.
   */
  lemma TranslatedIsDecided(policy: PolicyInfo, s: Setting)
    requires Translated(policy, s).Ready?
    ensures AnswerTo(Translated(policy, s).request).response.decision
         == if UnrecognizedAnywhere(policy.rules, s) then WireDecision.Error
            else
              Reduced(AnyRuleActive(policy.rules, s, ProhibitionRule), AnyRuleActive(policy.rules, s, PermissionRule))
  {
    var permissions := RulesOfKind(policy.rules, s, PermissionRule).value;
    var prohibitions := RulesOfKind(policy.rules, s, ProhibitionRule).value;
    KindActiveIffInPlay(policy.rules, s, PermissionRule);
    KindActiveIffInPlay(policy.rules, s, ProhibitionRule);
    KindUnknownIff(policy.rules, s, PermissionRule);
    KindUnknownIff(policy.rules, s, ProhibitionRule);
    var req := RequestFor(policy, s, permissions, prohibitions);
    assert Translated(policy, s) == Ready(req) && req.Facts() == FactsOf(s);
    if permissions != [] || prohibitions != [] {
      AloneIsAnswered(req, req.policies[0]);
      TranslatedIsPlain(policy.rules, s, PermissionRule);
      TranslatedIsPlain(policy.rules, s, ProhibitionRule);
      PlainIsDecided(permissions, prohibitions, FactsOf(s));
    }
  }

  // ---------------------------------------------------------------
  // The expected report
  // ---------------------------------------------------------------

  /** What a faithful report states of a source rule. */
  ghost function StatementOf(r: RuleInfo, s: Setting): Statement {
    Statement(if r.kind.PermissionRule? then PERMISSION_REPORT else PROHIBITION_REPORT, RuleActive(r, s))
  }

  ghost function StatementsOf(rules: seq<RuleInfo>, s: Setting): (r: seq<Statement>)
    ensures |r| == |rules| && forall k :: 0 <= k < |r| ==> r[k] == StatementOf(rules[k], s)
  {
    seq(|rules|, k requires 0 <= k < |rules| => StatementOf(rules[k], s))
  }

  lemma StatedIffActive(rules: seq<RuleInfo>, s: Setting, kind: SourceKind, class_: string)
    requires class_ == if kind.PermissionRule? then PERMISSION_REPORT else PROHIBITION_REPORT
    ensures AnyRuleActive(rules, s, kind)
       <==> exists k :: 0 <= k < |rules| && StatementsOf(rules, s)[k] == Statement(class_, true)
  {
    ClassesDiffer();
    var statements := StatementsOf(rules, s);
    forall k | 0 <= k < |rules|
      ensures statements[k] == Statement(class_, true) <==> rules[k].kind == kind && RuleActive(rules[k], s)
    {
      assert statements[k] == StatementOf(rules[k], s);
    }
  }

  /**
   Against a report that states of each source rule whether it is active, the engine agrees
   with the expected decision exactly when it recognizes every action that reaches it.
   */
  lemma DecidesAsExpected(policy: PolicyInfo, s: Setting, report: Graph, nodes: seq<Node>)
    requires Translated(policy, s).Ready?
    requires ReportsOn(report, nodes, StatementsOf(policy.rules, s))
    ensures AnswerTo(Translated(policy, s).request).response.decision
         == Reduced(AnyActive(report, PROHIBITION_REPORT), AnyActive(report, PERMISSION_REPORT))
       <==> !UnrecognizedAnywhere(policy.rules, s)
  {
    TranslatedIsDecided(policy, s);
    ActiveIffStated(report, nodes, StatementsOf(policy.rules, s), PROHIBITION_REPORT);
    ActiveIffStated(report, nodes, StatementsOf(policy.rules, s), PERMISSION_REPORT);
    StatedIffActive(policy.rules, s, PermissionRule, PERMISSION_REPORT);
    StatedIffActive(policy.rules, s, ProhibitionRule, PROHIBITION_REPORT);
  }

  /** The whole run: translate, ask the engine, reduce the report, compare. */
  method CompareWithReport(policy: PolicyInfo, s: Setting, report: Graph, ghost nodes: seq<Node>)
    returns (matched: Option<bool>)
    requires ReportsOn(report, nodes, StatementsOf(policy.rules, s))
    ensures matched.None? <==> AnyBlocked(policy.rules, s)
    ensures matched.Some? ==> (matched.value <==> !UnrecognizedAnywhere(policy.rules, s))
  {
    SkippedIffBlocked(policy, s);
    var translated := Translate(policy, s);
    match translated {
      case Skip(_) =>
        return None;
      case Ready(request) =>
        var answer := EvaluateRequestDetailed(request);
        var expected := ExpectedDecision(report);
        DecidesAsExpected(policy, s, report, nodes);
        return Some(answer.response.decision == expected);
    }
  }
}
