/** How much an expected tree pins: of one policy's verdict, and of the whole request's decision. */
module Verdicts {
  import opened Wrappers
  import opened Rules
  import opened Decisions
  import opened Reports

  // ---------------------------------------------------------------
  // The whole request
  // ---------------------------------------------------------------

  /** One way of settling every policy the trees leave open. */
  ghost predicate Resolves(vs: seq<PolicyVerdict>, ds: seq<WireDecision>) {
    && |ds| == |vs|
    && forall k :: 0 <= k < |vs| ==>
      && (ds[k] == WireDecision.Allow || ds[k] == WireDecision.Deny)
      && (vs[k] == PolicyVerdict.Allow ==> ds[k] == WireDecision.Allow)
      && (vs[k] == PolicyVerdict.Deny ==> ds[k] == WireDecision.Deny)
  }

  /** The engine's rule across a set of policies: one denial denies. */
  function DenyOverride(ds: seq<WireDecision>): WireDecision {
    if WireDecision.Deny in ds then WireDecision.Deny else WireDecision.Allow
  }

  function Settle(vs: seq<PolicyVerdict>, open: WireDecision): (ds: seq<WireDecision>)
    requires open == WireDecision.Allow || open == WireDecision.Deny
    ensures Resolves(vs, ds)
    ensures forall k :: 0 <= k < |vs| && vs[k] == Indeterminate ==> ds[k] == open
  {
    seq(|vs|, k requires 0 <= k < |vs| =>
      if vs[k] == PolicyVerdict.Allow then WireDecision.Allow
      else if vs[k] == PolicyVerdict.Deny then WireDecision.Deny
      else open)
  }

  /** A decision is asserted exactly when every way of settling the open policies gives it. */
  lemma PinnedIffForced(vs: seq<PolicyVerdict>, d: WireDecision)
    ensures PinnedDecision(vs) == Some(d) <==> forall ds :: Resolves(vs, ds) ==> DenyOverride(ds) == d
  {
    var allows, denies := Settle(vs, WireDecision.Allow), Settle(vs, WireDecision.Deny);
    if PolicyVerdict.Deny in vs {
      var k :| 0 <= k < |vs| && vs[k] == PolicyVerdict.Deny;
      forall ds | Resolves(vs, ds) ensures DenyOverride(ds) == WireDecision.Deny {
        assert ds[k] in ds;
      }
      assert DenyOverride(allows) == WireDecision.Deny;
    } else if forall k :: 0 <= k < |vs| ==> vs[k] == PolicyVerdict.Allow {
      forall ds | Resolves(vs, ds) ensures DenyOverride(ds) == WireDecision.Allow {
        assert forall k :: 0 <= k < |ds| ==> ds[k] == WireDecision.Allow;
      }
      assert DenyOverride(allows) == WireDecision.Allow;
    } else {
      var k :| 0 <= k < |vs| && vs[k] != PolicyVerdict.Allow;
      assert vs[k] in vs;
      assert denies[k] in denies;
      assert forall j :: 0 <= j < |vs| ==> vs[j] in vs && allows[j] == WireDecision.Allow;
      assert DenyOverride(denies) == WireDecision.Deny && DenyOverride(allows) == WireDecision.Allow;
    }
  }

  // ---------------------------------------------------------------
  // One policy
  // ---------------------------------------------------------------

  /** `y` states everything the verdict reads, and whatever `x` states of it. */
  ghost predicate CompletesRule(x: ExpectedRuleReport, y: ExpectedRuleReport) {
    && x.kind == y.kind && x.rule == y.rule
    && y.activation.Some? && y.performance.Some?
    && (x.activation.Some? ==> y.activation == x.activation)
    && (x.performance.Some? ==> y.performance == x.performance)
  }

  ghost predicate Completes(e: seq<ExpectedRuleReport>, full: seq<ExpectedRuleReport>) {
    |e| == |full| && forall k :: 0 <= k < |e| ==> CompletesRule(e[k], full[k])
  }

  predicate LeavesOpen(e: seq<ExpectedRuleReport>, kind: RuleKind) {
    exists k :: 0 <= k < |e| && e[k].kind == kind && e[k].activation.None?
  }

  /** A terminal duty under an obligation whose stated states do not rule out that it is outstanding. */
  predicate MayBeOutstanding(m: IdLists, x: ExpectedRuleReport) {
    && x.kind == DutyKind
    && (x.activation.None? || x.activation == Some("Active"))
    && (x.performance.None? || x.performance == Some("Unperformed"))
    && IsTerminal(m, x.rule)
    && InObligationChain(m, x.rule)
  }

  predicate LeavesObligationOpen(m: IdLists, e: seq<ExpectedRuleReport>) {
    exists k :: 0 <= k < |e| && MayBeOutstanding(m, e[k])
  }

  /** A denial the tree states outright. */
  predicate StatesDenial(m: IdLists, e: seq<ExpectedRuleReport>, mode: DutyMode) {
    StatedActive(e, ProhibitionKind) || (mode == DutyMode.Deny && StatedObligationOutstanding(m, e))
  }

  /** Nothing the tree leaves unsaid could overturn the verdict read off it. */
  predicate Settled(m: IdLists, e: seq<ExpectedRuleReport>, mode: DutyMode, behaviour: Behaviour) {
    if StatesDenial(m, e, mode) then true
    else if StatedActive(e, PermissionKind) || (m.permissions == [] && behaviour == Open) then
      !LeavesOpen(e, ProhibitionKind) && !(mode == DutyMode.Deny && LeavesObligationOpen(m, e))
    else !LeavesOpen(e, PermissionKind)
  }

  function Fill(e: seq<ExpectedRuleReport>, activation: string, performance: string): (full: seq<ExpectedRuleReport>)
    ensures Completes(e, full)
    ensures forall k :: 0 <= k < |e| && e[k].activation.None? ==> full[k].activation == Some(activation)
    ensures forall k :: 0 <= k < |e| && e[k].performance.None? ==> full[k].performance == Some(performance)
  {
    seq(|e|, k requires 0 <= k < |e| => e[k].(
      activation := e[k].activation.OrElse(Some(activation)),
      performance := e[k].performance.OrElse(Some(performance))))
  }

  /** Fill in only the permissions as active and everything else as not due. */
  function FillPermissions(e: seq<ExpectedRuleReport>): (full: seq<ExpectedRuleReport>)
    ensures Completes(e, full)
    ensures forall k :: 0 <= k < |e| && e[k].activation.None? ==>
      full[k].activation == Some(if e[k].kind == PermissionKind then "Active" else "Inactive")
    ensures forall k :: 0 <= k < |e| && e[k].performance.None? ==> full[k].performance == Some("Performed")
  {
    seq(|e|, k requires 0 <= k < |e| => e[k].(
      activation := e[k].activation.OrElse(Some(if e[k].kind == PermissionKind then "Active" else "Inactive")),
      performance := e[k].performance.OrElse(Some("Performed"))))
  }

  lemma NamesDiffer()
    ensures "Active" != "Inactive" && "Unperformed" != "Performed"
  {
    assert "Active"[0] != "Inactive"[0];
    assert "Unperformed"[0] != "Performed"[0];
  }

  lemma StatedStays(m: IdLists, e: seq<ExpectedRuleReport>, full: seq<ExpectedRuleReport>)
    requires Completes(e, full)
    ensures forall kind :: StatedActive(e, kind) ==> StatedActive(full, kind)
    ensures forall kind :: StatedActive(full, kind) ==> StatedActive(e, kind) || LeavesOpen(e, kind)
    ensures StatedObligationOutstanding(m, e) ==> StatedObligationOutstanding(m, full)
    ensures StatedObligationOutstanding(m, full) ==> LeavesObligationOpen(m, e)
  {
    forall kind | StatedActive(e, kind) ensures StatedActive(full, kind) {
      var k :| 0 <= k < |e| && e[k].kind == kind && e[k].activation == Some("Active");
      assert CompletesRule(e[k], full[k]);
    }
    forall kind | StatedActive(full, kind) ensures StatedActive(e, kind) || LeavesOpen(e, kind) {
      var k :| 0 <= k < |full| && full[k].kind == kind && full[k].activation == Some("Active");
      assert CompletesRule(e[k], full[k]);
    }
    if StatedObligationOutstanding(m, e) {
      var k :| 0 <= k < |e| && StatedOutstanding(m, e[k]) && InObligationChain(m, e[k].rule);
      assert CompletesRule(e[k], full[k]);
      assert StatedOutstanding(m, full[k]);
    }
    if StatedObligationOutstanding(m, full) {
      var k :| 0 <= k < |full| && StatedOutstanding(m, full[k]) && InObligationChain(m, full[k].rule);
      assert CompletesRule(e[k], full[k]);
      assert MayBeOutstanding(m, e[k]);
    }
  }

  /** A settled verdict is the verdict of every completion of the tree. */
  lemma SettledIsForced(
      m: IdLists, e: seq<ExpectedRuleReport>, mode: DutyMode, behaviour: Behaviour, full: seq<ExpectedRuleReport>)
    requires Verdict(m, e, mode, behaviour) != Indeterminate
    requires Settled(m, e, mode, behaviour) && Completes(e, full)
    ensures Verdict(m, full, mode, behaviour) == Verdict(m, e, mode, behaviour)
  {
    StatedStays(m, e, full);
  }

  /** A verdict that is not settled is contradicted by some completion. */
  lemma UnsettledIsOpen(m: IdLists, e: seq<ExpectedRuleReport>, mode: DutyMode, behaviour: Behaviour)
    returns (full: seq<ExpectedRuleReport>)
    requires Verdict(m, e, mode, behaviour) != Indeterminate
    requires !Settled(m, e, mode, behaviour)
    ensures Completes(e, full) && Verdict(m, full, mode, behaviour) != Verdict(m, e, mode, behaviour)
  {
    NamesDiffer();
    if Verdict(m, e, mode, behaviour) == PolicyVerdict.Allow {
      full := Fill(e, "Active", "Unperformed");
      if LeavesOpen(e, ProhibitionKind) {
        var k :| 0 <= k < |e| && e[k].kind == ProhibitionKind && e[k].activation.None?;
        assert CompletesRule(e[k], full[k]);
        assert StatedActive(full, ProhibitionKind);
      } else {
        var k :| 0 <= k < |e| && MayBeOutstanding(m, e[k]);
        assert CompletesRule(e[k], full[k]);
        assert StatedOutstanding(m, full[k]);
        assert StatedObligationOutstanding(m, full);
      }
    } else {
      full := FillPermissions(e);
      var k :| 0 <= k < |e| && e[k].kind == PermissionKind && e[k].activation.None?;
      assert CompletesRule(e[k], full[k]);
      assert StatedActive(full, PermissionKind);
      forall j | 0 <= j < |full| && full[j].kind == ProhibitionKind ensures full[j].activation != Some("Active") {
        assert CompletesRule(e[j], full[j]);
      }
      forall j | 0 <= j < |full| && mode == DutyMode.Deny && InObligationChain(m, full[j].rule)
        ensures !StatedOutstanding(m, full[j])
      {
        assert CompletesRule(e[j], full[j]);
      }
    }
  }

  /** A pinned verdict is the only one consistent with the tree exactly when the tree is settled. */
  lemma PinnedVerdictIffSettled(m: IdLists, e: seq<ExpectedRuleReport>, mode: DutyMode, behaviour: Behaviour)
    requires Verdict(m, e, mode, behaviour) != Indeterminate
    ensures (forall full :: Completes(e, full) ==> Verdict(m, full, mode, behaviour) == Verdict(m, e, mode, behaviour))
       <==> Settled(m, e, mode, behaviour)
  {
    if Settled(m, e, mode, behaviour) {
      forall full | Completes(e, full)
        ensures Verdict(m, full, mode, behaviour) == Verdict(m, e, mode, behaviour)
      {
        SettledIsForced(m, e, mode, behaviour, full);
      }
    } else {
      var full := UnsettledIsOpen(m, e, mode, behaviour);
    }
  }

  /** A tree that gives no opinion on its one prohibition still pins Allow under open behaviour. */
  lemma UnstatedProhibitionPinsAllow(rule: string)
    ensures var m := IdLists([], [RuleIds(rule, "use", [], [], None)], []);
      var e := [ExpectedRuleReport(ProhibitionKind, rule, None, None, None, None)];
      Verdict(m, e, Advise, Open) == PolicyVerdict.Allow && !Settled(m, e, Advise, Open)
  {
    var e := [ExpectedRuleReport(ProhibitionKind, rule, None, None, None, None)];
    assert e[0].kind == ProhibitionKind && e[0].activation.None?;
  }
}
