/**
 The expected-outcome comparer: every mismatch between a case's expected report tree and the
 engine's answer. `Justified` says which mismatches are called for; the methods below find
 exactly those.
 */
module Compare {
  import opened Wrappers
  import opened Inheritance
  import opened Rules
  import opened Policies
  import opened Merging
  import opened Decisions
  import opened Reports
  import opened Lexicographic

  datatype Dimension = ActivationState | AttemptState | PerformanceState | DeonticState

  datatype Mismatch =
    | PolicyNotReported(policyId: string)
    | PolicyRefused(policyId: string)
    | ReportUnresolved(policyId: string)
    | RuleNotReported(policyId: string, key: RuleKey)
    | StateMissing(policyId: string, rule: string, dimension: Dimension)
    | StateDiffers(policyId: string, rule: string, dimension: Dimension)
    | ReportUnmentioned(policyId: string, key: RuleKey)
    | PolicyUnmentioned(policyId: string)
    | PolicySkipped(policyId: string)
    | DecisionDisagrees
    | DutiesDisagree
    | StatedDecisionDisagrees

  type Mismatches = seq<Mismatch>

  /** One case: the inputs of a comparison. */
  datatype Inputs = Inputs(
    policyIds: seq<PolicyIds>,
    expected: seq<ExpectedPolicyReport>,
    mode: DutyMode,
    behaviour: Behaviour,
    statedDecision: Option<WireDecision>,
    detailed: DetailedEvaluation,
    response: Response)

  // ---------------------------------------------------------------
  // One expected report against one actual report
  // ---------------------------------------------------------------

  function StatedState(x: ExpectedRuleReport, d: Dimension): Option<string> {
    match d
    case ActivationState => x.activation
    case AttemptState => x.attempt
    case PerformanceState => x.performance
    case DeonticState => x.deontic
  }

  /** A duty's report has no attempt state. */
  function ActualState(r: RuleReport, d: Dimension): Option<string> {
    match d
    case ActivationState => Some(ActivationName(r.activation))
    case AttemptState => if r.DutyReport? then None else Some(AttemptName(r.attempt))
    case PerformanceState => Some(PerformanceName(r.performance))
    case DeonticState => Some(DeonticName(r.deontic))
  }

  /** An opinion that is stated is the state the engine reports. */
  predicate Agrees(x: ExpectedRuleReport, r: RuleReport, d: Dimension) {
    StatedState(x, d).Some? ==> StatedState(x, d) == ActualState(r, d)
  }

  function StateMismatch(policyId: string, x: ExpectedRuleReport, r: RuleReport, d: Dimension): Mismatch {
    if ActualState(r, d).None? then StateMissing(policyId, x.rule, d) else StateDiffers(policyId, x.rule, d)
  }

  ghost predicate StateJustified(m: Mismatch, policyId: string, x: ExpectedRuleReport, r: RuleReport) {
    exists d :: !Agrees(x, r, d) && m == StateMismatch(policyId, x, r, d)
  }

  method CompareRuleReport(policyId: string, x: ExpectedRuleReport, r: RuleReport) returns (ms: Mismatches)
    ensures forall m :: m in ms <==> StateJustified(m, policyId, x, r)
  {
    ms := [];
    var dimensions := [ActivationState, AttemptState, PerformanceState, DeonticState];
    forall d: Dimension ensures d in dimensions {
      match d
      case ActivationState => assert dimensions[0] == d;
      case AttemptState => assert dimensions[1] == d;
      case PerformanceState => assert dimensions[2] == d;
      case DeonticState => assert dimensions[3] == d;
    }
    for k := 0 to |dimensions|
      invariant forall m :: m in ms <==>
        exists d :: d in dimensions[..k] && !Agrees(x, r, d) && m == StateMismatch(policyId, x, r, d)
    {
      var d := dimensions[k];
      assert dimensions[..k + 1] == dimensions[..k] + [d];
      if !Agrees(x, r, d) {
        ms := ms + [StateMismatch(policyId, x, r, d)];
      }
    }
    assert dimensions[..|dimensions|] == dimensions;
  }

  // ---------------------------------------------------------------
  // Clones
  // ---------------------------------------------------------------

  /** The actual reports about one RDF rule: several when the rule is a composite one. */
  function Clones(m: IdLists, reports: seq<RuleReport>, key: RuleKey): seq<RuleReport> {
    if reports == [] then []
    else
      var last := reports[|reports| - 1];
      var before := Clones(m, reports[..|reports| - 1], key);
      if RuleIdOf(m, last) == Some(key) then before + [last] else before
  }

  function ActiveOf(reports: seq<RuleReport>): seq<RuleReport> {
    if reports == [] then []
    else
      var last := reports[|reports| - 1];
      var before := ActiveOf(reports[..|reports| - 1]);
      if last.activation == Active then before + [last] else before
  }

  /** The clones an expectation is held against: the active ones, or all when none is. */
  function Selected(clones: seq<RuleReport>): seq<RuleReport> {
    if ActiveOf(clones) == [] then clones else ActiveOf(clones)
  }

  lemma {:induction false} CloneMembers(m: IdLists, reports: seq<RuleReport>, key: RuleKey)
    ensures forall r :: r in Clones(m, reports, key) <==> r in reports && RuleIdOf(m, r) == Some(key)
  {
    if reports != [] {
      var before := reports[..|reports| - 1];
      CloneMembers(m, before, key);
      assert reports == before + [reports[|reports| - 1]];
    }
  }

  lemma {:induction false} ActiveMembers(reports: seq<RuleReport>)
    ensures forall r :: r in ActiveOf(reports) <==> r in reports && r.activation == Active
  {
    if reports != [] {
      var before := reports[..|reports| - 1];
      ActiveMembers(before);
      assert reports == before + [reports[|reports| - 1]];
    }
  }

  lemma SelectedMembers(clones: seq<RuleReport>)
    ensures forall r :: r in Selected(clones) ==> r in clones
    ensures Selected(clones) == [] <==> clones == []
    ensures (exists r :: r in clones && r.activation == Active) ==>
      forall r :: r in Selected(clones) <==> r in clones && r.activation == Active
    ensures !(exists r :: r in clones && r.activation == Active) ==> Selected(clones) == clones
  {
    ActiveMembers(clones);
    if ActiveOf(clones) != [] {
      assert ActiveOf(clones)[0] in ActiveOf(clones);
    }
    if r :| r in clones && r.activation == Active {
      assert r in ActiveOf(clones);
    }
  }

  // ---------------------------------------------------------------
  // One expected policy
  // ---------------------------------------------------------------

  function FindPolicy(reports: seq<PolicyReport>, policyId: string): Option<PolicyReport> {
    if reports == [] then None
    else if reports[0].policyId == policyId then Some(reports[0])
    else FindPolicy(reports[1..], policyId)
  }

  /** What is wrong with one expected rule report, given the clones it is held against. */
  ghost predicate RuleJustified(m: Mismatch, policyId: string, x: ExpectedRuleReport, selected: seq<RuleReport>) {
    if selected == [] then m == RuleNotReported(policyId, x.Key())
    else exists r :: r in selected && StateJustified(m, policyId, x, r)
  }

  ghost predicate MentionedBy(e: seq<ExpectedRuleReport>, key: RuleKey) {
    exists x :: x in e && x.Key() == key
  }

  ghost predicate Unmentioned(m: Mismatch, e: ExpectedPolicyReport, merged: IdLists, actual: PolicyReport) {
    exists r :: r in actual.ruleReports && RuleIdOf(merged, r).Some?
      && m == ReportUnmentioned(e.policyId, RuleIdOf(merged, r).value)
      && !MentionedBy(e.ruleReports, RuleIdOf(merged, r).value)
  }

  ghost predicate ExpectationJustified(m: Mismatch, e: ExpectedPolicyReport, merged: IdLists, actual: PolicyReport) {
    exists x :: x in e.ruleReports
      && RuleJustified(m, e.policyId, x, Selected(Clones(merged, actual.ruleReports, x.Key())))
  }

  ghost predicate ActualJustified(m: Mismatch, e: ExpectedPolicyReport, merged: IdLists, actual: PolicyReport) {
    || (m == PolicyRefused(e.policyId) && actual.evaluationError.Some?)
    || (m == ReportUnresolved(e.policyId) && exists r :: r in actual.ruleReports && RuleIdOf(merged, r).None?)
    || ExpectationJustified(m, e, merged, actual)
    || Unmentioned(m, e, merged, actual)
  }

  ghost predicate PolicyJustified(m: Mismatch, e: ExpectedPolicyReport, merged: IdLists, detailed: DetailedEvaluation) {
    match FindPolicy(detailed.policyReports, e.policyId)
    case None => m == PolicyNotReported(e.policyId)
    case Some(actual) => ActualJustified(m, e, merged, actual)
  }

  /** An expected duty that the coarse answer must list as outstanding. */
  predicate MustBeListed(merged: IdLists, mode: DutyMode, x: ExpectedRuleReport) {
    && StatedOutstanding(merged, x)
    && !(mode == DutyMode.Deny && IsPlainPolicyObligation(merged, x.rule))
  }

  function DutyPairs(policyId: string, merged: IdLists, selected: seq<RuleReport>): seq<Pair> {
    if selected == [] then []
    else
      (if selected[0].DutyReport? then [(policyId, DutyAction(merged, selected[0].address))] else [])
      + DutyPairs(policyId, merged, selected[1..])
  }

  function RuleOutstanding(
      policyId: string, merged: IdLists, mode: DutyMode, actual: PolicyReport, x: ExpectedRuleReport): seq<Pair>
  {
    if MustBeListed(merged, mode, x) then
      DutyPairs(policyId, merged, Selected(Clones(merged, actual.ruleReports, x.Key())))
    else []
  }

  function RulesOutstanding(
      policyId: string, merged: IdLists, mode: DutyMode, actual: PolicyReport, xs: seq<ExpectedRuleReport>): seq<Pair>
  {
    if xs == [] then []
    else
      RulesOutstanding(policyId, merged, mode, actual, xs[..|xs| - 1])
      + RuleOutstanding(policyId, merged, mode, actual, xs[|xs| - 1])
  }

  function PolicyOutstanding(e: ExpectedPolicyReport, merged: IdLists, mode: DutyMode, detailed: DetailedEvaluation)
    : seq<Pair>
  {
    match FindPolicy(detailed.policyReports, e.policyId)
    case None => []
    case Some(actual) => RulesOutstanding(e.policyId, merged, mode, actual, e.ruleReports)
  }

  // ---------------------------------------------------------------
  // The whole case
  // ---------------------------------------------------------------

  ghost predicate AllMerge(c: Inputs, expected: seq<ExpectedPolicyReport>) {
    forall e :: e in expected ==> MergedIds(c.policyIds, e.policyId).Ok?
  }

  ghost function Merged(c: Inputs, e: ExpectedPolicyReport): IdLists
    requires MergedIds(c.policyIds, e.policyId).Ok?
  {
    MergedIds(c.policyIds, e.policyId).value.Lists()
  }

  ghost function Verdicts(c: Inputs, expected: seq<ExpectedPolicyReport>): (r: seq<PolicyVerdict>)
    requires AllMerge(c, expected)
    ensures |r| == |expected|
    ensures forall k :: 0 <= k < |r| ==>
      r[k] == Verdict(Merged(c, expected[k]), expected[k].ruleReports, c.mode, c.behaviour)
  {
    seq(|expected|, k requires 0 <= k < |expected| =>
      Verdict(Merged(c, expected[k]), expected[k].ruleReports, c.mode, c.behaviour))
  }

  ghost function ExpectedOutstanding(c: Inputs, expected: seq<ExpectedPolicyReport>): seq<Pair>
    requires AllMerge(c, expected)
  {
    if expected == [] then []
    else
      var last := expected[|expected| - 1];
      ExpectedOutstanding(c, expected[..|expected| - 1])
      + PolicyOutstanding(last, Merged(c, last), c.mode, c.detailed)
  }

  function ActualOutstanding(duties: seq<DutyEntry>): (r: seq<Pair>)
    ensures |r| == |duties| && forall k :: 0 <= k < |r| ==> r[k] == (duties[k].policyId, duties[k].action)
  {
    seq(|duties|, k requires 0 <= k < |duties| => (duties[k].policyId, duties[k].action))
  }

  ghost predicate PolicyExpected(expected: seq<ExpectedPolicyReport>, policyId: string) {
    exists e :: e in expected && e.policyId == policyId
  }

  ghost predicate EveryPolicyAccountedFor(c: Inputs) {
    && (forall a :: a in c.detailed.policyReports ==> PolicyExpected(c.expected, a.policyId))
    && c.detailed.skippedPolicies == []
  }

  /** Check two: a policy the engine reported or skipped and the tree does not carry. */
  ghost predicate CoverageJustified(m: Mismatch, expected: seq<ExpectedPolicyReport>, detailed: DetailedEvaluation) {
    || (exists a ::
          a in detailed.policyReports && !PolicyExpected(expected, a.policyId) && m == PolicyUnmentioned(a.policyId))
    || (exists s :: s in detailed.skippedPolicies && m == PolicySkipped(s))
  }

  /** Checks three to five: the two decisions and the outstanding duties. */
  ghost predicate AnswerJustified(
      m: Mismatch, c: Inputs, accountedFor: bool, verdicts: seq<PolicyVerdict>, outstanding: seq<Pair>)
  {
    || (m == DecisionDisagrees && accountedFor
        && PinnedDecision(verdicts).Some? && PinnedDecision(verdicts).value != c.response.decision)
    || (m == DutiesDisagree && multiset(outstanding) != multiset(ActualOutstanding(c.response.duties)))
    || (m == StatedDecisionDisagrees && c.statedDecision.Some? && c.statedDecision.value != c.response.decision)
  }

  /** The mismatches of checks two to five, which look past any one expected policy. */
  ghost predicate GlobalJustified(m: Mismatch, c: Inputs)
    requires AllMerge(c, c.expected)
  {
    || CoverageJustified(m, c.expected, c.detailed)
    || AnswerJustified(m, c, EveryPolicyAccountedFor(c), Verdicts(c, c.expected), ExpectedOutstanding(c, c.expected))
  }

  /** `m` is a mismatch this case calls for. */
  ghost predicate Justified(m: Mismatch, c: Inputs)
    requires AllMerge(c, c.expected)
  {
    || (exists e :: e in c.expected && PolicyJustified(m, e, Merged(c, e), c.detailed))
    || GlobalJustified(m, c)
  }

  // ---------------------------------------------------------------
  // The programs
  // ---------------------------------------------------------------

  /** The index from a rule key to the reports about that rule, and the reports that have no key. */
  method IndexReports(policyId: string, merged: IdLists, reports: seq<RuleReport>)
    returns (index: map<RuleKey, seq<RuleReport>>, ms: Mismatches)
    ensures forall key :: key in index <==> Clones(merged, reports, key) != []
    ensures forall key :: key in index ==> index[key] == Clones(merged, reports, key)
    ensures forall m :: m in ms <==>
      m == ReportUnresolved(policyId) && exists r :: r in reports && RuleIdOf(merged, r).None?
  {
    index, ms := map[], [];
    for k := 0 to |reports|
      invariant forall key :: key in index <==> Clones(merged, reports[..k], key) != []
      invariant forall key :: key in index ==> index[key] == Clones(merged, reports[..k], key)
      invariant forall m :: m in ms <==>
        m == ReportUnresolved(policyId) && exists r :: r in reports[..k] && RuleIdOf(merged, r).None?
    {
      assert reports[..k + 1][..k] == reports[..k];
      assert reports[..k + 1] == reports[..k] + [reports[k]];
      var key := RuleIdOf(merged, reports[k]);
      if key.Some? {
        index := index[key.value := (if key.value in index then index[key.value] else []) + [reports[k]]];
      } else {
        ms := ms + [ReportUnresolved(policyId)];
      }
    }
    assert reports[..|reports|] == reports;
  }

  /** One expected rule report held against every selected clone. */
  method CompareSelected(policyId: string, x: ExpectedRuleReport, selected: seq<RuleReport>) returns (ms: Mismatches)
    ensures forall m :: m in ms <==> RuleJustified(m, policyId, x, selected)
  {
    if selected == [] {
      return [RuleNotReported(policyId, x.Key())];
    }
    ms := [];
    for k := 0 to |selected|
      invariant forall m :: m in ms <==> exists r :: r in selected[..k] && StateJustified(m, policyId, x, r)
    {
      assert selected[..k + 1] == selected[..k] + [selected[k]];
      var found := CompareRuleReport(policyId, x, selected[k]);
      ms := ms + found;
    }
    assert selected[..|selected|] == selected;
  }

  method CollectDuties(policyId: string, merged: IdLists, selected: seq<RuleReport>) returns (pairs: seq<Pair>)
    ensures pairs == DutyPairs(policyId, merged, selected)
  {
    pairs := [];
    for k := 0 to |selected|
      invariant pairs + DutyPairs(policyId, merged, selected[k..]) == DutyPairs(policyId, merged, selected)
    {
      assert selected[k..][1..] == selected[k + 1..];
      if selected[k].DutyReport? {
        pairs := pairs + [(policyId, DutyAction(merged, selected[k].address))];
      }
    }
  }

  /** One expected rule of a policy the engine evaluated: the loop body of the method below. */
  method CompareExpectation(
      e: ExpectedPolicyReport, x: ExpectedRuleReport, merged: IdLists, mode: DutyMode, actual: PolicyReport,
      index: map<RuleKey, seq<RuleReport>>)
    returns (ms: Mismatches, found: bool, outstanding: seq<Pair>)
    requires forall key :: key in index <==> Clones(merged, actual.ruleReports, key) != []
    requires forall key :: key in index ==> index[key] == Clones(merged, actual.ruleReports, key)
    ensures forall m :: m in ms <==>
      RuleJustified(m, e.policyId, x, Selected(Clones(merged, actual.ruleReports, x.Key())))
    ensures found <==> x.Key() in index
    ensures outstanding == RuleOutstanding(e.policyId, merged, mode, actual, x)
  {
    var clones := if x.Key() in index then index[x.Key()] else [];
    assert clones == Clones(merged, actual.ruleReports, x.Key());
    var selected := Selected(clones);
    SelectedMembers(clones);
    found := selected != [];
    ms := CompareSelected(e.policyId, x, selected);
    outstanding := [];
    if MustBeListed(merged, mode, x) {
      outstanding := CollectDuties(e.policyId, merged, selected);
    }
  }

  lemma OneMoreExpectation(
      m: Mismatch, e: ExpectedPolicyReport, k: nat, merged: IdLists, actual: PolicyReport)
    requires k < |e.ruleReports|
    ensures ExpectationJustified(m, e.(ruleReports := e.ruleReports[..k + 1]), merged, actual)
       <==> || ExpectationJustified(m, e.(ruleReports := e.ruleReports[..k]), merged, actual)
            || RuleJustified(
                 m, e.policyId, e.ruleReports[k], Selected(Clones(merged, actual.ruleReports, e.ruleReports[k].Key())))
  {
    var xs, x := e.ruleReports, e.ruleReports[k];
    assert xs[..k + 1] == xs[..k] + [x];
    assert x in xs[..k + 1];
    assert forall y :: y in xs[..k] ==> y in xs[..k + 1];
  }

  lemma MoreExpectations(
      e: ExpectedPolicyReport, k: nat, merged: IdLists, actual: PolicyReport, ms: Mismatches, more: Mismatches)
    requires k < |e.ruleReports|
    requires forall m :: m in ms <==> ExpectationJustified(m, e.(ruleReports := e.ruleReports[..k]), merged, actual)
    requires forall m :: m in more <==> RuleJustified(
      m, e.policyId, e.ruleReports[k], Selected(Clones(merged, actual.ruleReports, e.ruleReports[k].Key())))
    ensures forall m :: m in ms + more <==>
      ExpectationJustified(m, e.(ruleReports := e.ruleReports[..k + 1]), merged, actual)
  {
    forall m {
      OneMoreExpectation(m, e, k, merged, actual);
    }
  }

  lemma OutstandingOneMore(
      policyId: string, merged: IdLists, mode: DutyMode, actual: PolicyReport, xs: seq<ExpectedRuleReport>, k: nat)
    requires k < |xs|
    ensures RulesOutstanding(policyId, merged, mode, actual, xs[..k + 1])
         == RulesOutstanding(policyId, merged, mode, actual, xs[..k])
          + RuleOutstanding(policyId, merged, mode, actual, xs[k])
  {
    assert xs[..k + 1][..k] == xs[..k];
  }

  lemma MentionedOneMore(xs: seq<ExpectedRuleReport>, k: nat, key: RuleKey)
    requires k < |xs|
    ensures MentionedBy(xs[..k + 1], key) <==> MentionedBy(xs[..k], key) || xs[k].Key() == key
  {
    var more := xs[..k + 1];
    assert more == xs[..k] + [xs[k]];
    assert more[k] in more;
    if x :| x in more && x.Key() == key {
      assert x in xs[..k] || x == xs[k];
    }
    if x :| x in xs[..k] && x.Key() == key {
      assert x in more;
    }
  }

  /** Check one over the expected rules of a policy the engine evaluated. */
  method CompareExpectations(
      e: ExpectedPolicyReport, merged: IdLists, mode: DutyMode, actual: PolicyReport,
      index: map<RuleKey, seq<RuleReport>>)
    returns (ms: Mismatches, matched: set<RuleKey>, outstanding: seq<Pair>)
    requires forall key :: key in index <==> Clones(merged, actual.ruleReports, key) != []
    requires forall key :: key in index ==> index[key] == Clones(merged, actual.ruleReports, key)
    ensures forall m :: m in ms <==> ExpectationJustified(m, e, merged, actual)
    ensures forall key :: key in index ==> (key in matched <==> MentionedBy(e.ruleReports, key))
    ensures outstanding == RulesOutstanding(e.policyId, merged, mode, actual, e.ruleReports)
  {
    ms, matched, outstanding := [], {}, [];
    var xs := e.ruleReports;
    for k := 0 to |xs|
      invariant forall m :: m in ms <==> ExpectationJustified(m, e.(ruleReports := xs[..k]), merged, actual)
      invariant forall key :: key in index ==> (key in matched <==> MentionedBy(xs[..k], key))
      invariant outstanding == RulesOutstanding(e.policyId, merged, mode, actual, xs[..k])
    {
      var x := xs[k];
      var more, found, pairs := CompareExpectation(e, x, merged, mode, actual, index);
      if found {
        matched := matched + {x.Key()};
      }
      MoreExpectations(e, k, merged, actual, ms, more);
      forall key {
        MentionedOneMore(xs, k, key);
      }
      OutstandingOneMore(e.policyId, merged, mode, actual, xs, k);
      ms := ms + more;
      outstanding := outstanding + pairs;
    }
    assert xs[..|xs|] == xs;
    assert e.(ruleReports := xs) == e;
  }

  /** The reports under keys no expectation matched, taken in whatever order the map gives them. */
  method CollectUnmentioned(policyId: string, index: map<RuleKey, seq<RuleReport>>, matched: set<RuleKey>)
    returns (ms: Mismatches)
    requires forall key :: key in index ==> index[key] != []
    ensures forall m :: m in ms <==>
      exists key :: key in index && key !in matched && m == ReportUnmentioned(policyId, key)
  {
    ms := [];
    var left := index.Keys;
    while left != {}
      invariant left <= index.Keys
      invariant forall m :: m in ms <==>
        exists key :: key in index && key !in left && key !in matched && m == ReportUnmentioned(policyId, key)
    {
      var key :| key in left;
      left := left - {key};
      if key !in matched {
        ms := ms + seq(|index[key]|, _ => ReportUnmentioned(policyId, key));
        assert ms[|ms| - 1] == ReportUnmentioned(policyId, key);
      }
    }
  }

  method ComparePolicy(e: ExpectedPolicyReport, merged: IdLists, mode: DutyMode, detailed: DetailedEvaluation)
    returns (ms: Mismatches, outstanding: seq<Pair>)
    ensures forall m :: m in ms <==> PolicyJustified(m, e, merged, detailed)
    ensures outstanding == PolicyOutstanding(e, merged, mode, detailed)
  {
    var found := FindPolicy(detailed.policyReports, e.policyId);
    if found.None? {
      return [PolicyNotReported(e.policyId)], [];
    }
    var actual := found.value;
    var refused: Mismatches := if actual.evaluationError.Some? then [PolicyRefused(e.policyId)] else [];
    var index, unresolved := IndexReports(e.policyId, merged, actual.ruleReports);
    var expectations, matched, pairs := CompareExpectations(e, merged, mode, actual, index);
    var unmentioned := CollectUnmentioned(e.policyId, index, matched);
    ms := refused + unresolved + expectations + unmentioned;
    outstanding := pairs;
    forall m ensures m in unmentioned <==> Unmentioned(m, e, merged, actual) {
      UnmentionedIsUnmatched(m, e, merged, actual, index, matched);
    }
  }

  lemma UnmentionedIsUnmatched(
      m: Mismatch, e: ExpectedPolicyReport, merged: IdLists, actual: PolicyReport,
      index: map<RuleKey, seq<RuleReport>>, matched: set<RuleKey>)
    requires forall key :: key in index <==> Clones(merged, actual.ruleReports, key) != []
    requires forall key :: key in index ==> (key in matched <==> MentionedBy(e.ruleReports, key))
    ensures Unmentioned(m, e, merged, actual)
       <==> exists key :: key in index && key !in matched && m == ReportUnmentioned(e.policyId, key)
  {
    if Unmentioned(m, e, merged, actual) {
      var r :| r in actual.ruleReports && RuleIdOf(merged, r).Some?
        && m == ReportUnmentioned(e.policyId, RuleIdOf(merged, r).value)
        && !MentionedBy(e.ruleReports, RuleIdOf(merged, r).value);
      var key := RuleIdOf(merged, r).value;
      CloneMembers(merged, actual.ruleReports, key);
      assert r in Clones(merged, actual.ruleReports, key);
      assert key in index;
    }
    if key :| key in index && key !in matched && m == ReportUnmentioned(e.policyId, key) {
      CloneMembers(merged, actual.ruleReports, key);
      var r := Clones(merged, actual.ruleReports, key)[0];
      assert r in Clones(merged, actual.ruleReports, key);
    }
  }

  /** Check two: every policy the engine reported or skipped must be one the tree carries. */
  method CheckCoverage(expected: seq<ExpectedPolicyReport>, detailed: DetailedEvaluation)
    returns (ms: Mismatches, accountedFor: bool)
    ensures forall m :: m in ms <==> CoverageJustified(m, expected, detailed)
    ensures accountedFor <==>
      && (forall a :: a in detailed.policyReports ==> PolicyExpected(expected, a.policyId))
      && detailed.skippedPolicies == []
  {
    ms, accountedFor := [], true;
    var reports := detailed.policyReports;
    for k := 0 to |reports|
      invariant forall m :: m in ms <==>
        exists a :: a in reports[..k] && !PolicyExpected(expected, a.policyId) && m == PolicyUnmentioned(a.policyId)
      invariant accountedFor <==> forall a :: a in reports[..k] ==> PolicyExpected(expected, a.policyId)
    {
      assert reports[..k + 1] == reports[..k] + [reports[k]];
      if !(exists j :: 0 <= j < |expected| && expected[j].policyId == reports[k].policyId) {
        accountedFor := false;
        ms := ms + [PolicyUnmentioned(reports[k].policyId)];
      }
    }
    assert reports[..|reports|] == reports;
    var skipped := detailed.skippedPolicies;
    ghost var before, covered := ms, accountedFor;
    for k := 0 to |skipped|
      invariant forall m :: m in ms <==> m in before || exists s :: s in skipped[..k] && m == PolicySkipped(s)
      invariant accountedFor <==> covered && k == 0
    {
      assert skipped[..k + 1] == skipped[..k] + [skipped[k]];
      accountedFor := false;
      ms := ms + [PolicySkipped(skipped[k])];
    }
    assert skipped[..|skipped|] == skipped;
  }

  /** Some expected policy cannot be merged, and it is the first one that cannot. */
  ghost predicate FirstUnmergeable(c: Inputs, error: WalkError) {
    exists k ::
      && 0 <= k < |c.expected|
      && AllMerge(c, c.expected[..k])
      && MergedIds(c.policyIds, c.expected[k].policyId) == Err(error)
  }

  /** Verdicts and expected duties, once one more policy of the tree has been merged. */
  lemma OneMorePolicy(c: Inputs, k: nat)
    requires k < |c.expected| && AllMerge(c, c.expected[..k]) && MergedIds(c.policyIds, c.expected[k].policyId).Ok?
    ensures AllMerge(c, c.expected[..k + 1])
    ensures var e := c.expected[k];
      && Verdicts(c, c.expected[..k + 1])
         == Verdicts(c, c.expected[..k]) + [Verdict(Merged(c, e), e.ruleReports, c.mode, c.behaviour)]
      && ExpectedOutstanding(c, c.expected[..k + 1])
         == ExpectedOutstanding(c, c.expected[..k]) + PolicyOutstanding(e, Merged(c, e), c.mode, c.detailed)
  {
    assert c.expected[..k + 1] == c.expected[..k] + [c.expected[k]] && c.expected[..k + 1][..k] == c.expected[..k];
  }

  /** `m` is called for by one of the first `k` expected policies. */
  ghost predicate PoliciesJustified(m: Mismatch, c: Inputs, k: nat)
    requires k <= |c.expected| && AllMerge(c, c.expected[..k])
  {
    exists e :: e in c.expected[..k] && PolicyJustified(m, e, Merged(c, e), c.detailed)
  }

  lemma OneMoreJustified(m: Mismatch, c: Inputs, k: nat)
    requires k < |c.expected| && AllMerge(c, c.expected[..k]) && AllMerge(c, c.expected[..k + 1])
    requires MergedIds(c.policyIds, c.expected[k].policyId).Ok?
    ensures PoliciesJustified(m, c, k + 1)
       <==> PoliciesJustified(m, c, k) || PolicyJustified(m, c.expected[k], Merged(c, c.expected[k]), c.detailed)
  {
    assert c.expected[..k + 1] == c.expected[..k] + [c.expected[k]];
    assert c.expected[k] in c.expected[..k + 1];
    assert forall e :: e in c.expected[..k] ==> e in c.expected[..k + 1];
  }

  /** Check one, over every expected policy in turn. */
  method ComparePolicies(c: Inputs)
    returns (error: Option<WalkError>, ms: Mismatches, verdicts: seq<PolicyVerdict>, outstanding: seq<Pair>)
    ensures error.Some? ==> FirstUnmergeable(c, error.value)
    ensures error.None? ==> AllMerge(c, c.expected)
    ensures error.None? ==> verdicts == Verdicts(c, c.expected) && outstanding == ExpectedOutstanding(c, c.expected)
    ensures error.None? ==>
      forall m :: m in ms <==> exists e :: e in c.expected && PolicyJustified(m, e, Merged(c, e), c.detailed)
  {
    ms, outstanding, verdicts := [], [], [];
    for k := 0 to |c.expected|
      invariant AllMerge(c, c.expected[..k])
      invariant verdicts == Verdicts(c, c.expected[..k])
      invariant outstanding == ExpectedOutstanding(c, c.expected[..k])
      invariant forall m :: m in ms <==> PoliciesJustified(m, c, k)
    {
      var e := c.expected[k];
      var merged := MergedPolicyIds(c.policyIds, e.policyId);
      if merged.Err? {
        return Some(merged.error), ms, verdicts, outstanding;
      }
      var lists := merged.value.Lists();
      verdicts := verdicts + [Verdict(lists, e.ruleReports, c.mode, c.behaviour)];
      var found, pairs := ComparePolicy(e, lists, c.mode, c.detailed);
      OneMorePolicy(c, k);
      forall m {
        OneMoreJustified(m, c, k);
      }
      ms := ms + found;
      outstanding := outstanding + pairs;
    }
    assert c.expected[..|c.expected|] == c.expected;
    error := None;
  }

  /** Checks three to five: the two decisions and the outstanding duties. */
  method CheckAnswer(c: Inputs, accountedFor: bool, verdicts: seq<PolicyVerdict>, outstanding: seq<Pair>)
    returns (ms: Mismatches)
    ensures forall m :: m in ms <==> AnswerJustified(m, c, accountedFor, verdicts, outstanding)
  {
    ms := [];
    if accountedFor {
      var pinned := PinnedDecision(verdicts);
      if pinned.Some? && c.response.decision != pinned.value {
        ms := ms + [DecisionDisagrees];
      }
    }
    var actual := ActualOutstanding(c.response.duties);
    SortComparesMultisets(outstanding, actual);
    if Sort(outstanding) != Sort(actual) {
      ms := ms + [DutiesDisagree];
    }
    if c.statedDecision.Some? && c.response.decision != c.statedDecision.value {
      ms := ms + [StatedDecisionDisagrees];
    }
  }
}
