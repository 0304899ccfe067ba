/**
 From a file to the comparer: where no two rules of a file share a local name, what its
 policies translate to and merge into is a shadow the comparer can look duties up in.
 */
module NodeNames {
  import opened Inheritance
  import opened Graph
  import opened Rules
  import opened Policies
  import opened Merging
  import opened Places
  import opened Evaluation
  import opened OwnRequest
  import opened Atomization
  import opened PolicyTranslation

  /** The properties whose values are rules: a policy's, and a rule's own. */
  predicate LeadsToRules(property: string) {
    || property == ODRL_PERMISSION || property == ODRL_PROHIBITION || property == ODRL_OBLIGATION
    || property == ODRL_DUTY || property == ODRL_REMEDY || property == ODRL_CONSEQUENCE
  }

  ghost predicate StandsUnder(g: Graph, node: string, subject: string, property: string) {
    LeadsToRules(property) && node in ObjectIds(g, subject, property)
  }

  /** Somewhere in the file the node stands as a rule. */
  ghost predicate IsRuleNode(g: Graph, node: string) {
    exists subject: string, property: string :: StandsUnder(g, node, subject, property)
  }

  ghost predicate NoRulesShareAName(g: Graph) {
    forall a, b :: IsRuleNode(g, a) && IsRuleNode(g, b) && LocalName(a) == LocalName(b) ==> a == b
  }

  /** The id tree carries the node's local name, and has a consequence exactly when the node does. */
  ghost predicate NamesNode(s: Source, node: string, ids: RuleIds) {
    && IsRuleNode(s.g, node)
    && ids.ruleId == LocalName(node)
    && (ids.consequence.None? <==> ObjectIds(s.g, node, ODRL_CONSEQUENCE) == [])
  }

  /** So does every tree nested in it. */
  ghost predicate OfNodes(s: Source, ids: RuleIds)
    decreases ids
  {
    && (exists node :: NamesNode(s, node, ids))
    && AllOfNodes(s, ids.duty)
    && AllOfNodes(s, ids.remedy)
    && (ids.consequence.Some? ==> OfNodes(s, ids.consequence.value))
  }

  ghost predicate AllOfNodes(s: Source, idss: seq<RuleIds>)
    decreases idss
  {
    forall k :: 0 <= k < |idss| ==> OfNodes(s, idss[k])
  }

  ghost predicate AtomsOfNodes(s: Source, atoms: seq<Atom>) {
    forall x :: x in atoms ==> OfNodes(s, x.ids)
  }

  ghost predicate ListsOfNodes(s: Source, m: IdLists) {
    AllOfNodes(s, m.permissions) && AllOfNodes(s, m.prohibitions) && AllOfNodes(s, m.obligations)
  }

  // ---------------------------------------------------------------
  // Atoms
  // ---------------------------------------------------------------

  lemma AtomIds(s: Source, atoms: seq<Atom>)
    requires AtomsOfNodes(s, atoms)
    ensures AllOfNodes(s, IdsOfAtoms(atoms))
  {
    forall k | 0 <= k < |atoms| ensures OfNodes(s, IdsOfAtoms(atoms)[k]) {
      assert atoms[k] in atoms;
    }
  }

  lemma AreRuleNodes(g: Graph, subject: string, property: string)
    requires LeadsToRules(property)
    ensures forall n :: n in ObjectIds(g, subject, property) ==> IsRuleNode(g, n)
  {
    forall n | n in ObjectIds(g, subject, property) ensures IsRuleNode(g, n) {
      assert StandsUnder(g, n, subject, property);
    }
  }

  lemma {:induction false} TranslatedOfNodes(s: Source, node: string, rank: string -> nat)
    requires Ranked(s.g, rank) && Translate(s, node, rank).Ok? && IsRuleNode(s.g, node)
    ensures AtomsOfNodes(s, Translate(s, node, rank).value)
    decreases rank(node), 2, 0
  {
    var h := SharedAt(s, node, rank).value;
    SharedOfNodes(s, node, rank);
    AtomIds(s, h.duty);
    AtomIds(s, h.remedy);
    forall x | x in Translate(s, node, rank).value ensures OfNodes(s, x.ids) {
      ProductCovers(h, Actions(s, node).value, Targets(s, node).value, x);
      assert NamesNode(s, node, x.ids);
    }
  }

  lemma {:induction false} SharedOfNodes(s: Source, node: string, rank: string -> nat)
    requires Ranked(s.g, rank) && SharedAt(s, node, rank).Ok?
    ensures var h := SharedAt(s, node, rank).value;
      && h.ruleId == LocalName(node)
      && AtomsOfNodes(s, h.duty)
      && AtomsOfNodes(s, h.remedy)
      && (h.consequence.None? <==> ObjectIds(s.g, node, ODRL_CONSEQUENCE) == [])
      && (h.consequence.Some? ==> OfNodes(s, h.consequence.value.ids))
    decreases rank(node), 1, 1
  {
    NestedRanksLower(s.g, rank, node, ODRL_DUTY);
    NestedRanksLower(s.g, rank, node, ODRL_REMEDY);
    AreRuleNodes(s.g, node, ODRL_DUTY);
    AreRuleNodes(s.g, node, ODRL_REMEDY);
    AllTranslatedOfNodes(s, ObjectIds(s.g, node, ODRL_DUTY), rank, rank(node));
    AllTranslatedOfNodes(s, ObjectIds(s.g, node, ODRL_REMEDY), rank, rank(node));
    ConsequenceOfNodes(s, node, rank);
  }

  lemma {:induction false} ConsequenceOfNodes(s: Source, node: string, rank: string -> nat)
    requires Ranked(s.g, rank) && ConsequenceAt(s, node, rank).Ok?
    ensures var c := ConsequenceAt(s, node, rank).value;
      && (c.None? <==> ObjectIds(s.g, node, ODRL_CONSEQUENCE) == [])
      && (c.Some? ==> OfNodes(s, c.value.ids))
    decreases rank(node), 1, 0
  {
    NestedRanksLower(s.g, rank, node, ODRL_CONSEQUENCE);
    var nodes := ObjectIds(s.g, node, ODRL_CONSEQUENCE);
    if nodes != [] {
      assert nodes[0] in nodes;
      AreRuleNodes(s.g, node, ODRL_CONSEQUENCE);
      TranslatedOfNodes(s, nodes[0], rank);
    }
  }

  lemma {:induction false} AllTranslatedOfNodes(s: Source, nodes: seq<string>, rank: string -> nat, bound: nat)
    requires Ranked(s.g, rank) && forall c :: c in nodes ==> rank(c) < bound && IsRuleNode(s.g, c)
    requires TranslateAll(s, nodes, rank, bound).Ok?
    ensures AtomsOfNodes(s, TranslateAll(s, nodes, rank, bound).value)
    decreases bound, 0, |nodes|
  {
    if nodes != [] {
      TranslatedOfNodes(s, nodes[0], rank);
      AllTranslatedOfNodes(s, nodes[1..], rank, bound);
    }
  }

  // ---------------------------------------------------------------
  // Policies
  // ---------------------------------------------------------------

  lemma RulesOfNodes(s: Source, node: string, property: string, rank: string -> nat)
    requires LeadsToRules(property) && Ranked(s.g, rank) && RulesUnder(s, node, property, rank).Ok?
    ensures AllOfNodes(s, IdsOfAtoms(RulesUnder(s, node, property, rank).value))
  {
    var nodes := ObjectIds(s.g, node, property);
    AreRuleNodes(s.g, node, property);
    AllTranslatedOfNodes(s, nodes, rank, RankAbove(rank, nodes));
    AtomIds(s, RulesUnder(s, node, property, rank).value);
  }

  lemma PolicyOfNodes(s: Source, l: Lookups, node: string, rank: string -> nat)
    requires Ranked(s.g, rank) && PolicyAt(s, l, node, rank).Ok?
    ensures ListsOfNodes(s, PolicyAt(s, l, node, rank).value.ids.Lists())
  {
    RulesOfNodes(s, node, ODRL_PERMISSION, rank);
    RulesOfNodes(s, node, ODRL_PROHIBITION, rank);
    RulesOfNodes(s, node, ODRL_OBLIGATION, rank);
  }

  lemma AllOfNodesAppend(s: Source, a: seq<RuleIds>, b: seq<RuleIds>)
    requires AllOfNodes(s, a) && AllOfNodes(s, b)
    ensures AllOfNodes(s, a + b)
  {
    forall k | 0 <= k < |a + b| ensures OfNodes(s, (a + b)[k]) {
      assert (a + b)[k] == if k < |a| then a[k] else b[k - |a|];
    }
  }

  lemma {:induction false} InheritedOfNodes(s: Source, base: PolicyIds, ancestors: seq<Id>, all: seq<PolicyIds>)
    requires forall b :: b in ancestors ==> b in Index(IdHeaders(all))
    requires ListsOfNodes(s, base.Lists()) && forall k :: 0 <= k < |all| ==> ListsOfNodes(s, all[k].Lists())
    ensures ListsOfNodes(s, InheritIds(base, ancestors, all).Lists())
    decreases |ancestors|
  {
    if ancestors != [] {
      var next := all[Index(IdHeaders(all))[ancestors[0]]];
      AllOfNodesAppend(s, base.permissions, next.permissions);
      AllOfNodesAppend(s, base.prohibitions, next.prohibitions);
      AllOfNodesAppend(s, base.obligations, next.obligations);
      InheritedOfNodes(s, AppendIds(base, next), ancestors[1..], all);
    }
  }

  lemma MergedOfNodes(s: Source, all: seq<PolicyIds>, id: Id)
    requires MergedIds(all, id).Ok? && forall k :: 0 <= k < |all| ==> ListsOfNodes(s, all[k].Lists())
    ensures ListsOfNodes(s, MergedIds(all, id).value.Lists())
  {
    var headers := IdHeaders(all);
    AncestorsAreKnown(ParentsOf(headers), id);
    InheritedOfNodes(s, all[Index(headers)[id]], Order(ParentsOf(headers), id, []).value, all);
  }

  // ---------------------------------------------------------------
  // What a duty's id tells
  // ---------------------------------------------------------------

  lemma {:induction false} WalkedOfNodes(s: Source, ids: RuleIds, depth: nat)
    requires OfNodes(s, ids) && WalkIds(ids, depth).Some?
    ensures OfNodes(s, WalkIds(ids, depth).value)
    decreases depth
  {
    if depth > 0 {
      WalkedOfNodes(s, ids.consequence.value, depth - 1);
    }
  }

  lemma FoundOfNodes(s: Source, m: IdLists, a: DutyAddress)
    requires ListsOfNodes(s, m) && IdsAt(m, a).Some?
    ensures OfNodes(s, IdsAt(m, a).value)
  {
    match a.attachment {
      case Obligation =>
      case PermissionDuty(i) => assert OfNodes(s, m.permissions[i]);
      case ProhibitionRemedy(i) => assert OfNodes(s, m.prohibitions[i]);
    }
    WalkedOfNodes(s, RootIds(m, a.attachment, a.index).value, a.depth);
  }

  lemma NamedIsCoherent(s: Source, m: IdLists)
    requires ListsOfNodes(s, m) && NoRulesShareAName(s.g)
    ensures Coherent(m)
  {
    forall a, b | ShareId(m, a, b)
      ensures IdsAt(m, a).value.consequence.None? <==> IdsAt(m, b).value.consequence.None?
    {
      FoundOfNodes(s, m, a);
      FoundOfNodes(s, m, b);
      var n :| NamesNode(s, n, IdsAt(m, a).value);
      var k :| NamesNode(s, k, IdsAt(m, b).value);
      assert n == k;
    }
  }

  /**
   Every request translated from a file in which no two rule nodes share a local name, and no two
   of the request's policy nodes, meets what the theorem about the engine's own account asks of it.
   */
  lemma TranslatedIsReadable(
      s: Source, l: Lookups, nodes: seq<string>, rank: string -> nat, req: Request, ids: seq<PolicyIds>)
    requires Ranked(s.g, rank) && NoRulesShareAName(s.g)
    requires DistinctLocalNames(nodes)
    requires PoliciesAt(s, l, nodes, rank).Ok?
    requires req.policies == PoliciesOf(PoliciesAt(s, l, nodes, rank).value)
    requires ids == ShadowsOf(PoliciesAt(s, l, nodes, rank).value)
    ensures Shadowed(req, ids)
  {
    TranslatedShadow(s, l, nodes, rank);
    TranslatedIdsDiffer(s, l, nodes, rank);
    forall k | 0 <= k < |ids| ensures ListsOfNodes(s, ids[k].Lists()) {
      PolicyOfEach(s, l, nodes, rank, k);
      PolicyOfNodes(s, l, nodes[k], rank);
    }
    forall k | 0 <= k < |req.policies| && MergedIds(ids, req.policies[k].id).Ok?
      ensures Coherent(Shadow(req, ids, k))
    {
      MergedOfNodes(s, ids, req.policies[k].id);
      NamedIsCoherent(s, Shadow(req, ids, k));
    }
  }
}
