/** Every request whose policies have shadows has a case that expects its own answer of it. */
module OwnCases {
  import opened Wrappers
  import opened Policies
  import opened Merging
  import opened Reports
  import opened Compare
  import opened Places
  import opened Evaluation
  import opened OwnAccount
  import opened OwnRequest

  /** Whatever is reported of a policy can be restated over its merged shadow. */
  ghost predicate Restatable(ids: seq<PolicyIds>, a: PolicyReport) {
    MergedIds(ids, a.policyId).Ok? ==> OwnAccount.AllResolve(MergedIds(ids, a.policyId).value.Lists(), a.ruleReports)
  }

  ghost predicate AreRestatable(ids: seq<PolicyIds>, reports: seq<PolicyReport>) {
    forall k :: 0 <= k < |reports| ==> Restatable(ids, reports[k])
  }

  lemma OneIsRestatable(req: Request, ids: seq<PolicyIds>, rs: seq<Resolved>, j: nat)
    requires Shadowed(req, ids) && Processed(req, rs) && j < |rs|
    ensures Restatable(ids, ReportOne(EvaluateOne(rs, rs[j], req.Facts()), req.Facts()))
  {
    ShadowOf(req, ids, rs, j);
    ReportStates(rs, rs[j], req.Facts());
    ReportsResolve(Effective(rs, rs[j]), req.Facts(), Shadow(req, ids, j));
  }

  lemma ReportIsRestatable(req: Request, ids: seq<PolicyIds>, rs: seq<Resolved>, k: nat)
    requires Shadowed(req, ids) && Processed(req, rs) && k < |AnswerTo(req).detailed.policyReports|
    ensures Restatable(ids, AnswerTo(req).detailed.policyReports[k])
  {
    var es := Evaluations(rs, rs, req);
    AnswerIsProcessed(req, rs);
    EvaluatedOrSkipped(rs, rs, req);
    assert AnswerTo(req).detailed.policyReports[k] == ReportOne(es[k], req.Facts());
    var j :| 0 <= j < |rs| && es[k] == EvaluateOne(rs, rs[j], req.Facts());
    OneIsRestatable(req, ids, rs, j);
  }

  lemma AllAreRestatable(req: Request, ids: seq<PolicyIds>)
    requires Shadowed(req, ids)
    ensures AreRestatable(ids, AnswerTo(req).detailed.policyReports)
  {
    if rs :| Processed(req, rs) {
      forall k | 0 <= k < |AnswerTo(req).detailed.policyReports|
        ensures Restatable(ids, AnswerTo(req).detailed.policyReports[k])
      {
        ReportIsRestatable(req, ids, rs, k);
      }
    } else {
      UnprocessedIsRefused(req);
    }
  }

  lemma OneTree(ids: seq<PolicyIds>, a: PolicyReport) returns (e: ExpectedPolicyReport)
    requires Restatable(ids, a)
    ensures RestatesReport(ids, e, a)
  {
    if MergedIds(ids, a.policyId).Ok? {
      var xs := OwnTreeExists(MergedIds(ids, a.policyId).value.Lists(), a.ruleReports, |a.ruleReports|);
      e := ExpectedPolicyReport(a.policyId, xs);
    } else {
      e := ExpectedPolicyReport(a.policyId, []);
    }
  }

  lemma {:induction false} AllTrees(ids: seq<PolicyIds>, reports: seq<PolicyReport>)
    returns (es: seq<ExpectedPolicyReport>)
    requires AreRestatable(ids, reports)
    ensures |es| == |reports| && forall k :: 0 <= k < |es| ==> RestatesReport(ids, es[k], reports[k])
  {
    if reports == [] {
      es := [];
    } else {
      var first := OneTree(ids, reports[0]);
      var rest := AllTrees(ids, reports[1..]);
      es := [first] + rest;
    }
  }

  /** There is a case that restates a request's own answer, whatever is asked and whatever is answered. */
  lemma OwnCaseExists(req: Request, ids: seq<PolicyIds>) returns (c: Inputs)
    requires Shadowed(req, ids)
    ensures OwnCase(req, ids, c)
  {
    AllAreRestatable(req, ids);
    var answer := AnswerTo(req);
    var expected := AllTrees(ids, answer.detailed.policyReports);
    c := Inputs(
      ids, expected, req.config.dutyMode, req.config.behaviour, None, answer.detailed, answer.response);
  }
}
