/** What it means for a case to pass, and that the comparer finds no mismatch exactly then. */
module Conformance {
  import opened Wrappers
  import opened Inheritance
  import opened Rules
  import opened Decisions
  import opened Reports
  import opened Lexicographic
  import opened Compare

  /** `r` is an actual report about the rule `key` names. */
  ghost predicate About(merged: IdLists, reports: seq<RuleReport>, key: RuleKey, r: RuleReport) {
    r in reports && RuleIdOf(merged, r) == Some(key)
  }

  ghost predicate SomeActive(merged: IdLists, reports: seq<RuleReport>, key: RuleKey) {
    exists r :: About(merged, reports, key, r) && r.activation == Active
  }

  /** A clone counts when it is active, and every clone counts when none is. */
  ghost predicate Counts(merged: IdLists, reports: seq<RuleReport>, key: RuleKey, r: RuleReport) {
    About(merged, reports, key, r) && (SomeActive(merged, reports, key) ==> r.activation == Active)
  }

  ghost predicate RuleConforms(merged: IdLists, reports: seq<RuleReport>, x: ExpectedRuleReport) {
    && (exists r :: About(merged, reports, x.Key(), r))
    && (forall r, d :: Counts(merged, reports, x.Key(), r) ==> Agrees(x, r, d))
  }

  /** The actual report resolves to a rule, and the expected tree mentions that rule. */
  ghost predicate ReportAccountedFor(merged: IdLists, e: ExpectedPolicyReport, r: RuleReport) {
    RuleIdOf(merged, r).Some? && MentionedBy(e.ruleReports, RuleIdOf(merged, r).value)
  }

  ghost predicate ActualConforms(merged: IdLists, e: ExpectedPolicyReport, actual: PolicyReport) {
    && actual.evaluationError.None?
    && (forall r :: r in actual.ruleReports ==> ReportAccountedFor(merged, e, r))
    && (forall x :: x in e.ruleReports ==> RuleConforms(merged, actual.ruleReports, x))
  }

  ghost predicate PolicyConforms(merged: IdLists, e: ExpectedPolicyReport, detailed: DetailedEvaluation) {
    match FindPolicy(detailed.policyReports, e.policyId)
    case None => false
    case Some(actual) => ActualConforms(merged, e, actual)
  }

  /** The decision the trees pin, when they pin one, is the engine's. */
  ghost predicate DecisionConforms(c: Inputs)
    requires AllMerge(c, c.expected)
  {
    var pinned := PinnedDecision(Verdicts(c, c.expected));
    pinned.Some? ==> pinned.value == c.response.decision
  }

  ghost predicate DutiesConform(c: Inputs)
    requires AllMerge(c, c.expected)
  {
    multiset(ExpectedOutstanding(c, c.expected)) == multiset(ActualOutstanding(c.response.duties))
  }

  ghost predicate Conforms(c: Inputs)
    requires AllMerge(c, c.expected)
  {
    && (forall e :: e in c.expected ==> PolicyConforms(Merged(c, e), e, c.detailed))
    && EveryPolicyAccountedFor(c)
    && DecisionConforms(c)
    && DutiesConform(c)
    && (c.statedDecision.Some? ==> c.statedDecision.value == c.response.decision)
  }

  // ---------------------------------------------------------------
  // No mismatch is called for exactly when the case conforms
  // ---------------------------------------------------------------

  lemma SelectedCounts(merged: IdLists, reports: seq<RuleReport>, key: RuleKey)
    ensures forall r :: r in Selected(Clones(merged, reports, key)) <==> Counts(merged, reports, key, r)
    ensures Selected(Clones(merged, reports, key)) == [] <==> !exists r :: About(merged, reports, key, r)
  {
    var clones := Clones(merged, reports, key);
    CloneMembers(merged, reports, key);
    SelectedMembers(clones);
    if clones != [] {
      assert clones[0] in clones;
      assert About(merged, reports, key, clones[0]);
    }
    if SomeActive(merged, reports, key) {
      var r :| About(merged, reports, key, r) && r.activation == Active;
      assert r in clones && r.activation == Active;
    }
  }

  lemma RuleConformsIffUnjustified(merged: IdLists, reports: seq<RuleReport>, policyId: string, x: ExpectedRuleReport)
    ensures RuleConforms(merged, reports, x)
       <==> forall m :: !RuleJustified(m, policyId, x, Selected(Clones(merged, reports, x.Key())))
  {
    var selected := Selected(Clones(merged, reports, x.Key()));
    SelectedCounts(merged, reports, x.Key());
    if selected == [] {
      assert RuleJustified(RuleNotReported(policyId, x.Key()), policyId, x, selected);
    } else if !RuleConforms(merged, reports, x) {
      var r, d :| Counts(merged, reports, x.Key(), r) && !Agrees(x, r, d);
      assert StateJustified(StateMismatch(policyId, x, r, d), policyId, x, r);
      assert RuleJustified(StateMismatch(policyId, x, r, d), policyId, x, selected);
    }
  }

  lemma ActualConformsIffUnjustified(merged: IdLists, e: ExpectedPolicyReport, actual: PolicyReport)
    ensures ActualConforms(merged, e, actual) <==> forall m :: !ActualJustified(m, e, merged, actual)
  {
    forall x | x in e.ruleReports
      ensures RuleConforms(merged, actual.ruleReports, x)
         <==> forall m :: !RuleJustified(m, e.policyId, x, Selected(Clones(merged, actual.ruleReports, x.Key())))
    {
      RuleConformsIffUnjustified(merged, actual.ruleReports, e.policyId, x);
    }
    if !ActualConforms(merged, e, actual) {
      var m := WitnessActual(merged, e, actual);
    }
  }

  /** A mismatch that shows why a policy does not conform. */
  lemma WitnessActual(merged: IdLists, e: ExpectedPolicyReport, actual: PolicyReport) returns (m: Mismatch)
    requires !ActualConforms(merged, e, actual)
    ensures ActualJustified(m, e, merged, actual)
  {
    if actual.evaluationError.Some? {
      m := PolicyRefused(e.policyId);
    } else if r :| r in actual.ruleReports && !ReportAccountedFor(merged, e, r) {
      if RuleIdOf(merged, r).None? {
        m := ReportUnresolved(e.policyId);
      } else {
        m := ReportUnmentioned(e.policyId, RuleIdOf(merged, r).value);
        assert Unmentioned(m, e, merged, actual);
      }
    } else {
      var x :| x in e.ruleReports && !RuleConforms(merged, actual.ruleReports, x);
      RuleConformsIffUnjustified(merged, actual.ruleReports, e.policyId, x);
      m :| RuleJustified(m, e.policyId, x, Selected(Clones(merged, actual.ruleReports, x.Key())));
      assert ExpectationJustified(m, e, merged, actual);
    }
  }

  lemma PolicyConformsIffUnjustified(merged: IdLists, e: ExpectedPolicyReport, detailed: DetailedEvaluation)
    ensures PolicyConforms(merged, e, detailed) <==> forall m :: !PolicyJustified(m, e, merged, detailed)
  {
    var found := FindPolicy(detailed.policyReports, e.policyId);
    if found.None? {
      assert PolicyJustified(PolicyNotReported(e.policyId), e, merged, detailed);
    } else {
      ActualConformsIffUnjustified(merged, e, found.value);
      assert forall m :: PolicyJustified(m, e, merged, detailed) <==> ActualJustified(m, e, merged, found.value);
    }
  }

  lemma CoverageIffUnjustified(expected: seq<ExpectedPolicyReport>, detailed: DetailedEvaluation)
    ensures (forall m :: !CoverageJustified(m, expected, detailed))
       <==> ((forall a :: a in detailed.policyReports ==> PolicyExpected(expected, a.policyId))
             && detailed.skippedPolicies == [])
  {
    if a :| a in detailed.policyReports && !PolicyExpected(expected, a.policyId) {
      assert CoverageJustified(PolicyUnmentioned(a.policyId), expected, detailed);
    }
    if detailed.skippedPolicies != [] {
      assert detailed.skippedPolicies[0] in detailed.skippedPolicies;
      assert CoverageJustified(PolicySkipped(detailed.skippedPolicies[0]), expected, detailed);
    }
  }

  ghost predicate NoPolicyMismatch(c: Inputs)
    requires AllMerge(c, c.expected)
  {
    forall e, m :: e in c.expected ==> !PolicyJustified(m, e, Merged(c, e), c.detailed)
  }

  lemma NoPolicyMismatchIff(c: Inputs)
    requires AllMerge(c, c.expected)
    ensures NoPolicyMismatch(c) <==> forall e :: e in c.expected ==> PolicyConforms(Merged(c, e), e, c.detailed)
  {
    if NoPolicyMismatch(c) {
      forall e | e in c.expected ensures PolicyConforms(Merged(c, e), e, c.detailed) {
        PolicyConformsIffUnjustified(Merged(c, e), e, c.detailed);
      }
    }
    if forall e :: e in c.expected ==> PolicyConforms(Merged(c, e), e, c.detailed) {
      forall e, m | e in c.expected ensures !PolicyJustified(m, e, Merged(c, e), c.detailed) {
        PolicyConformsIffUnjustified(Merged(c, e), e, c.detailed);
      }
    }
  }

  ghost predicate NoAnswerMismatch(
      c: Inputs, accountedFor: bool, verdicts: seq<PolicyVerdict>, outstanding: seq<Pair>)
  {
    forall m :: !AnswerJustified(m, c, accountedFor, verdicts, outstanding)
  }

  lemma NoAnswerMismatchIff(c: Inputs, accountedFor: bool, verdicts: seq<PolicyVerdict>, outstanding: seq<Pair>)
    ensures NoAnswerMismatch(c, accountedFor, verdicts, outstanding)
       <==> (&& (accountedFor && PinnedDecision(verdicts).Some? ==>
                   PinnedDecision(verdicts).value == c.response.decision)
             && multiset(outstanding) == multiset(ActualOutstanding(c.response.duties))
             && (c.statedDecision.Some? ==> c.statedDecision.value == c.response.decision))
  {
    assert AnswerJustified(DecisionDisagrees, c, accountedFor, verdicts, outstanding)
      <==> accountedFor && PinnedDecision(verdicts).Some? && PinnedDecision(verdicts).value != c.response.decision;
    assert AnswerJustified(DutiesDisagree, c, accountedFor, verdicts, outstanding)
      <==> multiset(outstanding) != multiset(ActualOutstanding(c.response.duties));
    assert AnswerJustified(StatedDecisionDisagrees, c, accountedFor, verdicts, outstanding)
      <==> c.statedDecision.Some? && c.statedDecision.value != c.response.decision;
  }

  ghost predicate NothingGlobal(c: Inputs)
    requires AllMerge(c, c.expected)
  {
    forall m :: !GlobalJustified(m, c)
  }

  lemma NothingGlobalIff(c: Inputs)
    requires AllMerge(c, c.expected)
    ensures NothingGlobal(c)
       <==> (&& (forall m :: !CoverageJustified(m, c.expected, c.detailed))
             && NoAnswerMismatch(
                  c, EveryPolicyAccountedFor(c), Verdicts(c, c.expected), ExpectedOutstanding(c, c.expected)))
  {
    if NothingGlobal(c) {
      forall m ensures !CoverageJustified(m, c.expected, c.detailed) {
        assert !GlobalJustified(m, c);
      }
      forall m
        ensures !AnswerJustified(
          m, c, EveryPolicyAccountedFor(c), Verdicts(c, c.expected), ExpectedOutstanding(c, c.expected))
      {
        assert !GlobalJustified(m, c);
      }
    }
  }

  /** Nothing is called for exactly when neither a policy nor the answer as a whole calls for anything. */
  lemma NothingJustifiedIff(c: Inputs)
    requires AllMerge(c, c.expected)
    ensures (forall m :: !Justified(m, c)) <==> NoPolicyMismatch(c) && NothingGlobal(c)
  {
    if forall m :: !Justified(m, c) {
      forall m ensures !GlobalJustified(m, c) {
        assert !Justified(m, c);
      }
      forall e, m | e in c.expected ensures !PolicyJustified(m, e, Merged(c, e), c.detailed) {
        assert !Justified(m, c);
      }
    }
  }

  lemma NothingIffConforms(c: Inputs)
    requires AllMerge(c, c.expected)
    ensures NoPolicyMismatch(c) && NothingGlobal(c) <==> Conforms(c)
  {
    NoPolicyMismatchIff(c);
    NothingGlobalIff(c);
    CoverageIffUnjustified(c.expected, c.detailed);
    NoAnswerMismatchIff(c, EveryPolicyAccountedFor(c), Verdicts(c, c.expected), ExpectedOutstanding(c, c.expected));
  }

  /** The comparer's answer is empty exactly on the cases that conform. */
  lemma EmptyIffConforms(c: Inputs, ms: Mismatches)
    requires AllMerge(c, c.expected) && forall m :: m in ms <==> Justified(m, c)
    ensures ms == [] <==> Conforms(c)
  {
    NothingJustifiedIff(c);
    NothingIffConforms(c);
    if ms != [] {
      assert Justified(ms[0], c);
    }
  }

  /**
   Refused exactly when some expected policy cannot be merged; otherwise all the justified
   mismatches and no others, so that no mismatch at all means the case conforms.
   */
  method CompareCase(c: Inputs) returns (r: Result<Mismatches, WalkError>)
    ensures r.Err? ==> FirstUnmergeable(c, r.error)
    ensures r.Ok? ==> AllMerge(c, c.expected) && forall m :: m in r.value <==> Justified(m, c)
    ensures r.Ok? ==> (r.value == [] <==> Conforms(c))
  {
    var error, policies, verdicts, outstanding := ComparePolicies(c);
    if error.Some? {
      return Err(error.value);
    }
    var coverage, accountedFor := CheckCoverage(c.expected, c.detailed);
    var answer := CheckAnswer(c, accountedFor, verdicts, outstanding);
    EmptyIffConforms(c, policies + coverage + answer);
    return Ok(policies + coverage + answer);
  }

  /** An expectation of "Active" passes only beside an active clone, one of "Inactive" only where no clone is. */
  lemma ActivationIsDecidedByAnyClone(merged: IdLists, reports: seq<RuleReport>, x: ExpectedRuleReport)
    requires RuleConforms(merged, reports, x)
    ensures x.activation == Some("Active") ==> SomeActive(merged, reports, x.Key())
    ensures x.activation == Some("Inactive") ==> !SomeActive(merged, reports, x.Key())
  {
    var r :| About(merged, reports, x.Key(), r);
    if SomeActive(merged, reports, x.Key()) {
      var a :| About(merged, reports, x.Key(), a) && a.activation == Active;
      assert Agrees(x, a, ActivationState);
      assert "Active"[0] != "Inactive"[0];
    } else {
      assert Counts(merged, reports, x.Key(), r);
      assert Agrees(x, r, ActivationState);
      assert "Active"[0] != "Inactive"[0];
    }
  }
}
