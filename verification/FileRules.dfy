/**
 What a policy file says, triple by triple, and that a translated policy says exactly that: which
 rules stand in which of its lists, in which order, and what each of them carries.
 */
module FileRules {
  import opened Wrappers
  import opened Collections
  import opened Constraints
  import opened Graph
  import opened Triples
  import opened Rules
  import opened Atomization
  import opened PolicyTranslation

  function Target(t: Triple): string
    requires t.value.Resource?
  {
    NodeId(t.value.node)
  }

  // ---------------------------------------------------------------
  // One atomic rule
  // ---------------------------------------------------------------

  /** The object is an action by name, or a node whose `rdf:value` is and whose refinements are conjoined. */
  ghost predicate ActionSays(s: Source, v: Term, action: string, refinement: Option<Constraint>) {
    && v.Resource?
    && var id := NodeId(v.node);
       if exists value :: FirstIs(s.g, id, RDF_VALUE, value) then
         && (exists value :: FirstIs(s.g, id, RDF_VALUE, value) && IsCalled(value, action))
         && RefinementAt(s, TargetIds(Pointing(s.g, id, ODRL + "refinement")), None) == Ok(refinement)
       else IsCalled(id, action) && refinement == None
  }

  /** What every constraint node given translates to, in file order. */
  ghost predicate ConstraintsSay(s: Source, ts: seq<Triple>, constraints: seq<Constraint>) {
    && |constraints| == |ts|
    && forall k :: 0 <= k < |ts| ==>
         ts[k].value.Resource? && s.constraintAt(Target(ts[k])) == Ok(constraints[k])
  }

  ghost predicate TargetSays(ts: seq<Triple>, j: nat, target: Option<string>) {
    if ts == [] then target == None
    else j < |ts| && ts[j].value.Resource? && target.Some? && IsCalled(Target(ts[j]), target.value)
  }

  /** The rule and its id tree are what the node says, of this action and the `j`th target. */
  ghost predicate IsAtom(s: Source, node: string, action: Triple, j: nat, x: Rule, ids: RuleIds, rank: string -> nat)
    decreases rank(node), 1, 0
  {
    && IsCalled(node, ids.ruleId)
    && ActionSays(s, action.value, x.action, x.refinement) && ids.action == x.action
    && TargetSays(Pointing(s.g, node, ODRL + "target"), j, x.target)
    && ConstraintsSay(s, Pointing(s.g, node, ODRL + "constraint"), x.constraints)
    && ListsRules(s, Pointing(s.g, node, ODRL + "duty"), x.duty, ids.duty, rank, rank(node))
    && ListsRules(s, Pointing(s.g, node, ODRL + "remedy"), x.remedy, ids.remedy, rank, rank(node))
    && ListsRules(
         s, Pointing(s.g, node, ODRL + "consequence"), AsList(x.consequence), AsList(ids.consequence), rank, rank(node))
    && |Pointing(s.g, node, ODRL + "consequence")| <= 1
  }

  function AsList<T>(o: Option<T>): seq<T> {
    match o
    case None => []
    case Some(x) => [x]
  }

  /** How many atomic rules each action of the node makes: one for each target, or one without. */
  ghost function Width(s: Source, node: string): nat {
    var targets := Pointing(s.g, node, ODRL + "target");
    if targets == [] then 1 else |targets|
  }

  /** The atomic rules of one action, target by target. */
  ghost predicate IsRow(
      s: Source, node: string, action: Triple, rules: seq<Rule>, idss: seq<RuleIds>, rank: string -> nat)
    decreases rank(node), 2, 0
  {
    && |rules| == |idss| == Width(s, node)
    && forall j :: 0 <= j < |rules| ==> IsAtom(s, node, action, j, rules[j], idss[j], rank)
  }

  /** Those of several actions, action by action. */
  ghost predicate AreRows(
      s: Source, node: string, actions: seq<Triple>, rules: seq<Rule>, idss: seq<RuleIds>, rank: string -> nat)
    decreases rank(node), 2, 1 + |actions|
  {
    if actions == [] then rules == [] && idss == []
    else
      var n := |rules| - Width(s, node);
      && 0 <= n <= |idss|
      && AreRows(s, node, actions[..|actions| - 1], rules[..n], idss[..n], rank)
      && IsRow(s, node, actions[|actions| - 1], rules[n..], idss[n..], rank)
  }

  /** All the atomic rules of one node. */
  ghost predicate IsBlock(s: Source, node: string, rules: seq<Rule>, idss: seq<RuleIds>, rank: string -> nat)
    decreases rank(node), 3, 0
  {
    && Given(s.g, node, ODRL + "action") != []
    && |Given(s.g, node, ODRL + "target")| == |Pointing(s.g, node, ODRL + "target")|
    && AreRows(s, node, Given(s.g, node, ODRL + "action"), rules, idss, rank)
  }

  /** The atomic rules of the nodes these triples point at, one node after the other. */
  ghost predicate ListsRules(
      s: Source, ts: seq<Triple>, rules: seq<Rule>, idss: seq<RuleIds>, rank: string -> nat, bound: nat)
    decreases bound, 0, |ts|
  {
    if ts == [] then rules == [] && idss == []
    else exists n: nat :: StartsWithBlock(s, ts, rules, idss, rank, bound, n)
  }

  ghost predicate StartsWithBlock(
      s: Source, ts: seq<Triple>, rules: seq<Rule>, idss: seq<RuleIds>, rank: string -> nat, bound: nat, n: nat)
    requires ts != []
    decreases bound, 0, |ts|, 0
  {
    && n <= |rules| && n <= |idss|
    && ts[0].value.Resource? && rank(Target(ts[0])) < bound
    && IsBlock(s, Target(ts[0]), rules[..n], idss[..n], rank)
    && ListsRules(s, ts[1..], rules[n..], idss[n..], rank, bound)
  }

  // ---------------------------------------------------------------
  // What is translated is what is said
  // ---------------------------------------------------------------

  lemma TargetIdsAre(ts: seq<Triple>)
    requires forall t :: t in ts ==> t.value.Resource?
    ensures |TargetIds(ts)| == |ts|
    ensures forall k :: 0 <= k < |ts| ==> ts[k].value.Resource? && TargetIds(ts)[k] == Target(ts[k])
  {
    TargetsArePointedAt(ts);
    forall k | 0 <= k < |ts| ensures ts[k].value.Resource? && TargetIds(ts)[k] == Target(ts[k]) {
      NodeIdIff(ts[k].value.node, TargetIds(ts)[k]);
    }
  }

  lemma TargetHead(ts: seq<Triple>)
    requires ts != [] && ts[0].value.Resource?
    ensures TargetIds(ts) == [Target(ts[0])] + TargetIds(ts[1..])
    ensures TargetIds(ts)[1..] == TargetIds(ts[1..])
  {
  }

  /** The nodes given under a property, and the triples that give them. */
  lemma NodesGiven(g: Graph, node: string, property: string)
    ensures var ts := Pointing(g, node, property);
      && ObjectIds(g, node, property) == TargetIds(ts)
      && |ObjectIds(g, node, property)| == |ts|
      && forall k :: 0 <= k < |ts| ==>
           && ts[k].value.Resource? && ObjectIds(g, node, property)[k] == Target(ts[k])
           && ts[k] in g && Gives(ts[k], node, property)
  {
    var ts := Pointing(g, node, property);
    TargetsAreGiven(g, node, property);
    KeptMembers(g, (t: Triple) => Gives(t, node, property) && t.value.Resource?);
    TargetIdsAre(ts);
    assert forall k :: 0 <= k < |ts| ==> ts[k] in ts;
  }

  /** Whether a node has a first `rdf:value`, and which. */
  lemma ValueIs(g: Graph, id: string)
    ensures ObjectId(g, id, RDF_VALUE).Some? <==> exists value :: FirstIs(g, id, RDF_VALUE, value)
    ensures ObjectId(g, id, RDF_VALUE).Some? ==> FirstIs(g, id, RDF_VALUE, ObjectId(g, id, RDF_VALUE).value)
  {
    if value :| FirstIs(g, id, RDF_VALUE, value) {
      ObjectIdIff(g, id, RDF_VALUE, value);
    }
    if ObjectId(g, id, RDF_VALUE).Some? {
      ObjectIdIff(g, id, RDF_VALUE, ObjectId(g, id, RDF_VALUE).value);
    }
  }

  lemma ActionIsSaid(s: Source, node: string, t: Term)
    requires ActionAt(s, node, t).Ok?
    ensures var a := ActionAt(s, node, t).value;
      ActionSays(s, t, a.action, a.refinement)
  {
    var id := TermId(t).value;
    var value := ObjectId(s.g, id, RDF_VALUE);
    ValueIs(s.g, id);
    TargetsAreGiven(s.g, id, ODRL + "refinement");
    if value.Some? {
      CalledByLocalName(value.value);
    } else {
      CalledByLocalName(id);
    }
  }

  lemma {:induction false} ActionsAreSaid(s: Source, node: string, terms: seq<Term>)
    requires ActionsAt(s, node, terms).Ok?
    ensures var actions := ActionsAt(s, node, terms).value;
      && |actions| == |terms|
      && forall k :: 0 <= k < |terms| ==> ActionSays(s, terms[k], actions[k].action, actions[k].refinement)
    decreases |terms|
  {
    if terms != [] {
      ActionIsSaid(s, node, terms[0]);
      ActionsAreSaid(s, node, terms[1..]);
      assert forall k :: 0 < k < |terms| ==> terms[k] == terms[1..][k - 1];
    }
  }

  lemma TargetsAreSaid(s: Source, node: string)
    ensures Targets(s, node).Ok? <==> |Given(s.g, node, ODRL + "target")| == |Pointing(s.g, node, ODRL + "target")|
    ensures Targets(s, node).Ok? ==> AllTargetsSaid(s, node, Targets(s, node).value)
  {
    ObjectsAreGiven(s.g, node, ODRL + "target");
    NodesGiven(s.g, node, ODRL + "target");
    var ids, ts := ObjectIds(s.g, node, ODRL + "target"), Pointing(s.g, node, ODRL + "target");
    forall j | 0 <= j < |ts| ensures TargetSays(ts, j, Some(LocalName(ids[j]))) {
      CalledByLocalName(ids[j]);
    }
  }

  lemma {:induction false} ConstraintsAreSaid(s: Source, ts: seq<Triple>)
    requires forall t :: t in ts ==> t.value.Resource?
    requires ConstraintsAt(s, TargetIds(ts)).Ok?
    ensures ConstraintsSay(s, ts, ConstraintsAt(s, TargetIds(ts)).value)
  {
    if ts != [] {
      TargetHead(ts);
      ConstraintsAreSaid(s, ts[1..]);
      var all, rest := ConstraintsAt(s, TargetIds(ts)).value, ConstraintsAt(s, TargetIds(ts[1..])).value;
      assert all[1..] == rest;
      forall k | 0 <= k < |ts| ensures ts[k].value.Resource? && s.constraintAt(Target(ts[k])) == Ok(all[k]) {
        if k > 0 {
          assert ts[k] == ts[1..][k - 1] && all[k] == rest[k - 1];
        }
      }
    }
  }

  lemma ConstraintsOfNode(s: Source, node: string)
    requires ConstraintsAt(s, ObjectIds(s.g, node, ODRL + "constraint")).Ok?
    ensures ConstraintsSay(
      s, Pointing(s.g, node, ODRL + "constraint"), ConstraintsAt(s, ObjectIds(s.g, node, ODRL + "constraint")).value)
  {
    NodesGiven(s.g, node, ODRL + "constraint");
    PointingPoints(s.g, node, ODRL + "constraint");
    ConstraintsAreSaid(s, Pointing(s.g, node, ODRL + "constraint"));
  }

  /** What the atomic rules of a node share is what the node says besides actions and targets. */
  ghost predicate SharedIsSaid(s: Source, node: string, h: Shared, rank: string -> nat) {
    && IsCalled(node, h.ruleId)
    && ConstraintsSay(s, Pointing(s.g, node, ODRL + "constraint"), h.constraints)
    && ListsRules(
         s, Pointing(s.g, node, ODRL + "duty"), RulesOf(h.duty), IdsOfAtoms(h.duty), rank, rank(node))
    && ListsRules(
         s, Pointing(s.g, node, ODRL + "remedy"), RulesOf(h.remedy), IdsOfAtoms(h.remedy), rank, rank(node))
    && ListsRules(
         s, Pointing(s.g, node, ODRL + "consequence"),
         RulesOf(AsList(h.consequence)), IdsOfAtoms(AsList(h.consequence)), rank, rank(node))
    && |Pointing(s.g, node, ODRL + "consequence")| <= 1
  }

  lemma AtomIsSaid(
      s: Source, node: string, h: Shared, action: Triple, a: RefinedAction, j: nat, target: Option<string>,
      rank: string -> nat)
    requires SharedIsSaid(s, node, h, rank) && ActionSays(s, action.value, a.action, a.refinement)
    requires TargetSays(Pointing(s.g, node, ODRL + "target"), j, target)
    ensures IsAtom(s, node, action, j, AtomFor(h, a, target).rule, AtomFor(h, a, target).ids, rank)
  {
    var x := AtomFor(h, a, target);
    assert AsList(x.rule.consequence) == RulesOf(AsList(h.consequence));
    assert AsList(x.ids.consequence) == IdsOfAtoms(AsList(h.consequence));
  }

  lemma RowIsSaid(
      s: Source, node: string, h: Shared, action: Triple, a: RefinedAction, targets: seq<Option<string>>,
      rank: string -> nat)
    requires SharedIsSaid(s, node, h, rank) && ActionSays(s, action.value, a.action, a.refinement)
    requires AllTargetsSaid(s, node, targets)
    ensures IsRow(s, node, action, RulesOf(Row(h, a, targets)), IdsOfAtoms(Row(h, a, targets)), rank)
  {
    var row := Row(h, a, targets);
    forall j | 0 <= j < |row| ensures IsAtom(s, node, action, j, RulesOf(row)[j], IdsOfAtoms(row)[j], rank) {
      AtomIsSaid(s, node, h, action, a, j, targets[j], rank);
    }
  }

  lemma Unzip(a: seq<Atom>, b: seq<Atom>)
    ensures RulesOf(a + b)[..|a|] == RulesOf(a) && RulesOf(a + b)[|a|..] == RulesOf(b)
    ensures IdsOfAtoms(a + b)[..|a|] == IdsOfAtoms(a) && IdsOfAtoms(a + b)[|a|..] == IdsOfAtoms(b)
  {
  }

  lemma OneAtom(c: seq<Atom>)
    requires |c| == 1
    ensures RulesOf(c)[..1] == RulesOf(c) && RulesOf(c)[1..] == []
    ensures IdsOfAtoms(c)[..1] == IdsOfAtoms(c) && IdsOfAtoms(c)[1..] == []
  {
  }

  ghost predicate AllActionsSaid(s: Source, given: seq<Triple>, actions: seq<RefinedAction>) {
    && |given| == |actions|
    && forall i :: 0 <= i < |given| ==> ActionSays(s, given[i].value, actions[i].action, actions[i].refinement)
  }

  ghost predicate AllTargetsSaid(s: Source, node: string, targets: seq<Option<string>>) {
    && |targets| == Width(s, node)
    && forall j :: 0 <= j < |targets| ==> TargetSays(Pointing(s.g, node, ODRL + "target"), j, targets[j])
  }

  lemma LastActionSaid(s: Source, given: seq<Triple>, actions: seq<RefinedAction>, n: nat)
    requires AllActionsSaid(s, given, actions) && n + 1 == |actions|
    ensures AllActionsSaid(s, given[..n], actions[..n])
    ensures ActionSays(s, given[n].value, actions[n].action, actions[n].refinement)
  {
  }

  /** What is made of some rows, and one row more. */
  lemma OneMoreRow(
      s: Source, node: string, given: seq<Triple>, atoms: seq<Atom>, row: seq<Atom>, rank: string -> nat, n: nat)
    requires n + 1 == |given| && |row| == Width(s, node)
    requires AreRows(s, node, given[..n], RulesOf(atoms), IdsOfAtoms(atoms), rank)
    requires IsRow(s, node, given[n], RulesOf(row), IdsOfAtoms(row), rank)
    ensures AreRows(s, node, given, RulesOf(atoms + row), IdsOfAtoms(atoms + row), rank)
  {
    Unzip(atoms, row);
  }

  lemma {:induction false} RowsAreSaid(
      s: Source, node: string, h: Shared, given: seq<Triple>, actions: seq<RefinedAction>,
      targets: seq<Option<string>>, rank: string -> nat)
    requires SharedIsSaid(s, node, h, rank) && AllActionsSaid(s, given, actions) && AllTargetsSaid(s, node, targets)
    ensures AreRows(
      s, node, given, RulesOf(Product(h, actions, targets)), IdsOfAtoms(Product(h, actions, targets)), rank)
    decreases |actions|
  {
    if actions != [] {
      var n := |actions| - 1;
      LastActionSaid(s, given, actions, n);
      RowsAreSaid(s, node, h, given[..n], actions[..n], targets, rank);
      RowIsSaid(s, node, h, given[n], actions[n], targets, rank);
      OneMoreRow(s, node, given, Product(h, actions[..n], targets), Row(h, actions[n], targets), rank, n);
    }
  }

  /** The atomic rules a node is translated to are the ones it says. */
  lemma {:induction false} TranslatedIsSaid(s: Source, node: string, rank: string -> nat)
    requires Ranked(s.g, rank) && Translate(s, node, rank).Ok?
    ensures var atoms := Translate(s, node, rank).value;
      IsBlock(s, node, RulesOf(atoms), IdsOfAtoms(atoms), rank)
    decreases rank(node), 2, 0
  {
    var given := Given(s.g, node, ODRL + "action");
    ObjectsAreGiven(s.g, node, ODRL + "action");
    ActionsAreSaid(s, node, Objects(s.g, node, ODRL_ACTION));
    TargetsAreSaid(s, node);
    SharedAreSaid(s, node, rank);
    RowsAreSaid(
      s, node, SharedAt(s, node, rank).value, given, Actions(s, node).value, Targets(s, node).value, rank);
  }

  lemma {:induction false} SharedAreSaid(s: Source, node: string, rank: string -> nat)
    requires Ranked(s.g, rank) && SharedAt(s, node, rank).Ok?
    ensures SharedIsSaid(s, node, SharedAt(s, node, rank).value, rank)
    decreases rank(node), 1, 1
  {
    CalledByLocalName(node);
    ConstraintsOfNode(s, node);
    NestedRanksLower(s.g, rank, node, ODRL_DUTY);
    NestedRanksLower(s.g, rank, node, ODRL_REMEDY);
    NestedAreSaid(s, node, ODRL + "duty", rank);
    NestedAreSaid(s, node, ODRL + "remedy", rank);
    ConsequenceIsSaid(s, node, rank);
  }

  lemma PointingPoints(g: Graph, node: string, property: string)
    ensures forall t :: t in Pointing(g, node, property) ==> t.value.Resource?
  {
    KeptMembers(g, (t: Triple) => Gives(t, node, property) && t.value.Resource?);
  }

  lemma {:induction false} NestedAreSaid(s: Source, node: string, property: string, rank: string -> nat)
    requires Ranked(s.g, rank) && NestsRules(property)
    requires forall c :: c in ObjectIds(s.g, node, property) ==> rank(c) < rank(node)
    requires TranslateAll(s, ObjectIds(s.g, node, property), rank, rank(node)).Ok?
    ensures var atoms := TranslateAll(s, ObjectIds(s.g, node, property), rank, rank(node)).value;
      ListsRules(s, Pointing(s.g, node, property), RulesOf(atoms), IdsOfAtoms(atoms), rank, rank(node))
    decreases rank(node), 1, 0
  {
    NodesGiven(s.g, node, property);
    PointingPoints(s.g, node, property);
    AllAreSaid(s, Pointing(s.g, node, property), rank, rank(node));
  }

  lemma {:induction false} ConsequenceIsSaid(s: Source, node: string, rank: string -> nat)
    requires Ranked(s.g, rank) && ConsequenceAt(s, node, rank).Ok?
    ensures var ts, c := Pointing(s.g, node, ODRL + "consequence"), AsList(ConsequenceAt(s, node, rank).value);
      ListsRules(s, ts, RulesOf(c), IdsOfAtoms(c), rank, rank(node)) && |ts| <= 1
    decreases rank(node), 1, 0
  {
    var ts := Pointing(s.g, node, ODRL + "consequence");
    NodesGiven(s.g, node, ODRL + "consequence");
    NestedRanksLower(s.g, rank, node, ODRL_CONSEQUENCE);
    if ts != [] {
      assert Target(ts[0]) in ObjectIds(s.g, node, ODRL_CONSEQUENCE);
      TranslatedIsSaid(s, Target(ts[0]), rank);
      var c := AsList(ConsequenceAt(s, node, rank).value);
      assert Translate(s, Target(ts[0]), rank).value == c;
      OneAtom(c);
      assert StartsWithBlock(s, ts, RulesOf(c), IdsOfAtoms(c), rank, rank(node), 1);
    }
  }

  lemma {:induction false} AllAreSaid(s: Source, ts: seq<Triple>, rank: string -> nat, bound: nat)
    requires Ranked(s.g, rank) && (forall t :: t in ts ==> t.value.Resource?)
    requires forall c :: c in TargetIds(ts) ==> rank(c) < bound
    requires TranslateAll(s, TargetIds(ts), rank, bound).Ok?
    ensures var atoms := TranslateAll(s, TargetIds(ts), rank, bound).value;
      ListsRules(s, ts, RulesOf(atoms), IdsOfAtoms(atoms), rank, bound)
    decreases bound, 0, |ts|
  {
    if ts != [] {
      TargetHead(ts);
      assert TargetIds(ts)[0] in TargetIds(ts);
      TranslatedIsSaid(s, Target(ts[0]), rank);
      AllAreSaid(s, ts[1..], rank, bound);
      var first := Translate(s, Target(ts[0]), rank).value;
      var rest := TranslateAll(s, TargetIds(ts[1..]), rank, bound).value;
      var atoms := TranslateAll(s, TargetIds(ts), rank, bound).value;
      assert atoms == first + rest;
      Unzip(first, rest);
      assert StartsWithBlock(s, ts, RulesOf(atoms), IdsOfAtoms(atoms), rank, bound, |first|);
    }
  }

  // ---------------------------------------------------------------
  // Policies
  // ---------------------------------------------------------------

  /** The rules and id trees are those of the nodes given under the property, in file order. */
  ghost predicate RulesSaid(
      s: Source, node: string, property: string, rules: seq<Rule>, idss: seq<RuleIds>, rank: string -> nat)
  {
    exists bound: nat :: ListsRules(s, Pointing(s.g, node, property), rules, idss, rank, bound)
  }

  lemma RulesUnderAreSaid(s: Source, node: string, property: string, rank: string -> nat)
    requires Ranked(s.g, rank) && RulesUnder(s, node, property, rank).Ok?
    ensures var atoms := RulesUnder(s, node, property, rank).value;
      RulesSaid(s, node, property, RulesOf(atoms), IdsOfAtoms(atoms), rank)
  {
    NodesGiven(s.g, node, property);
    PointingPoints(s.g, node, property);
    AllAreSaid(s, Pointing(s.g, node, property), rank, RankAbove(rank, ObjectIds(s.g, node, property)));
  }

  /** No party is given under the property, or one, of this name. */
  ghost predicate PartySaid(g: Graph, node: string, property: string, party: Option<string>) {
    var ts := Pointing(g, node, property);
    match party
    case None => ts == []
    case Some(name) => |ts| == 1 && ts[0].value.Resource? && IsCalled(Target(ts[0]), name)
  }

  /** A second party is refused, and only that. */
  lemma PartyIsSaid(s: Source, node: string, property: string)
    ensures SingleParty(s, node, property).Ok? <==> |Pointing(s.g, node, property)| <= 1
    ensures SingleParty(s, node, property).Ok? ==>
      PartySaid(s.g, node, property, SingleParty(s, node, property).value)
  {
    NodesGiven(s.g, node, property);
    var ids := ObjectIds(s.g, node, property);
    if |ids| == 1 {
      CalledByLocalName(ids[0]);
    }
  }

  ghost predicate ProfilesSaid(ts: seq<Triple>, profiles: seq<string>) {
    && |profiles| == |ts|
    && forall k :: 0 <= k < |ts| ==>
         && ts[k].value.Resource? && |profiles[k]| > 0
         && profiles[k][0] == '#' && IsCalled(Target(ts[k]), profiles[k][1..])
  }

  ghost predicate ParentsSaid(parents: seq<string>, inheritFrom: Option<seq<string>>) {
    match inheritFrom
    case None => parents == []
    case Some(ids) =>
      parents != [] && |ids| == |parents| && forall k :: 0 <= k < |ids| ==> IsCalled(parents[k], ids[k])
  }

  /** The policy and its shadow are what the file says of the node, list by list. */
  ghost predicate PolicySaid(s: Source, l: Lookups, node: string, t: Translated, rank: string -> nat) {
    && IsCalled(node, t.policy.id) && t.ids.id == t.policy.id
    && t.policy.kind == l.kindAt(node) && l.conflictAt(node) == Ok(t.policy.conflict)
    && ParentsSaid(l.parentsAt(node), t.policy.inheritFrom) && t.ids.inheritFrom == t.policy.inheritFrom
    && (PartySaid(s.g, node, ODRL + "assigner", Some(t.policy.assigner))
        || (t.policy.assigner == "" && PartySaid(s.g, node, ODRL + "assigner", None)))
    && PartySaid(s.g, node, ODRL + "assignee", t.policy.assignee)
    && ProfilesSaid(Pointing(s.g, node, ODRL + "profile"), t.policy.profile)
    && RulesSaid(s, node, ODRL + "permission", t.policy.permissions, t.ids.permissions, rank)
    && RulesSaid(s, node, ODRL + "prohibition", t.policy.prohibitions, t.ids.prohibitions, rank)
    && RulesSaid(s, node, ODRL + "obligation", t.policy.obligations, t.ids.obligations, rank)
  }

  lemma ProfilesAreSaid(s: Source, node: string)
    ensures ProfilesSaid(
      Pointing(s.g, node, ODRL + "profile"), LocalNames(ObjectIds(s.g, node, ODRL + "profile"), "#"))
  {
    NodesGiven(s.g, node, ODRL + "profile");
    var ids, ts := ObjectIds(s.g, node, ODRL + "profile"), Pointing(s.g, node, ODRL + "profile");
    forall k | 0 <= k < |ts| ensures IsCalled(Target(ts[k]), LocalNames(ids, "#")[k][1..]) {
      CalledByLocalName(ids[k]);
      assert ("#" + LocalName(ids[k]))[1..] == LocalName(ids[k]);
    }
  }

  lemma ParentsAreSaid(parents: seq<string>)
    ensures ParentsSaid(parents, ParentNames(parents))
  {
    forall k | 0 <= k < |parents| ensures IsCalled(parents[k], LocalNames(parents, "")[k]) {
      CalledByLocalName(parents[k]);
      assert "" + LocalName(parents[k]) == LocalName(parents[k]);
    }
  }

  lemma ListsAreSaid(s: Source, node: string, rank: string -> nat)
    requires Ranked(s.g, rank) && AtomListsAt(s, node, rank).Ok?
    ensures var atoms := AtomListsAt(s, node, rank).value;
      && RulesSaid(
           s, node, ODRL + "permission", RulesOf(atoms.permissions), IdsOfAtoms(atoms.permissions), rank)
      && RulesSaid(
           s, node, ODRL + "prohibition", RulesOf(atoms.prohibitions), IdsOfAtoms(atoms.prohibitions), rank)
      && RulesSaid(
           s, node, ODRL + "obligation", RulesOf(atoms.obligations), IdsOfAtoms(atoms.obligations), rank)
  {
    RulesUnderAreSaid(s, node, ODRL + "permission", rank);
    RulesUnderAreSaid(s, node, ODRL + "prohibition", rank);
    RulesUnderAreSaid(s, node, ODRL + "obligation", rank);
  }

  /** A translated policy says exactly what the file says of its node. */
  lemma PolicyIsSaid(s: Source, l: Lookups, node: string, rank: string -> nat)
    requires Ranked(s.g, rank) && PolicyAt(s, l, node, rank).Ok?
    ensures PolicySaid(s, l, node, PolicyAt(s, l, node, rank).value, rank)
  {
    CalledByLocalName(node);
    PartyIsSaid(s, node, ODRL + "assigner");
    PartyIsSaid(s, node, ODRL + "assignee");
    ProfilesAreSaid(s, node);
    ParentsAreSaid(l.parentsAt(node));
    ListsAreSaid(s, node, rank);
  }

  // ---------------------------------------------------------------
  // Where a rule stands
  // ---------------------------------------------------------------

  /** It is one of the atomic rules of the node. */
  ghost predicate IsMadeOf(s: Source, node: string, x: Atom, rank: string -> nat)
    requires Ranked(s.g, rank)
  {
    Translate(s, node, rank).Ok? && x in Translate(s, node, rank).value
  }

  /** The triple gives the node, under the property, a rule node one of whose atomic rules this is. */
  ghost predicate GivesAtom(s: Source, node: string, property: string, t: Triple, x: Atom, rank: string -> nat)
    requires Ranked(s.g, rank)
  {
    t in s.g && Gives(t, node, property) && t.value.Resource? && IsMadeOf(s, Target(t), x, rank)
  }

  ghost predicate StandsUnder(s: Source, node: string, property: string, rule: Rule, rank: string -> nat)
    requires Ranked(s.g, rank)
  {
    exists t, x :: GivesAtom(s, node, property, t, x, rank) && x.rule == rule
  }

  lemma AtomsOfFirst(s: Source, nodes: seq<string>, rank: string -> nat, bound: nat, x: Atom)
    requires Ranked(s.g, rank) && (forall c :: c in nodes ==> rank(c) < bound)
    requires nodes != [] && TranslateAll(s, nodes, rank, bound).Ok?
    ensures TranslateAll(s, nodes[1..], rank, bound).Ok?
    ensures x in TranslateAll(s, nodes, rank, bound).value
       <==> IsMadeOf(s, nodes[0], x, rank) || x in TranslateAll(s, nodes[1..], rank, bound).value
  {
  }

  lemma {:induction false} AtomsOfAll(s: Source, nodes: seq<string>, rank: string -> nat, bound: nat, x: Atom)
      returns (k: nat)
    requires Ranked(s.g, rank) && (forall c :: c in nodes ==> rank(c) < bound)
    requires TranslateAll(s, nodes, rank, bound).Ok? && x in TranslateAll(s, nodes, rank, bound).value
    ensures k < |nodes| && IsMadeOf(s, nodes[k], x, rank)
    decreases |nodes|
  {
    AtomsOfFirst(s, nodes, rank, bound, x);
    if x in TranslateAll(s, nodes[1..], rank, bound).value {
      k := AtomsOfAll(s, nodes[1..], rank, bound, x);
      k := k + 1;
    } else {
      k := 0;
    }
  }

  lemma {:induction false} AllOfAtoms(s: Source, nodes: seq<string>, rank: string -> nat, bound: nat, x: Atom, k: nat)
    requires Ranked(s.g, rank) && (forall c :: c in nodes ==> rank(c) < bound)
    requires TranslateAll(s, nodes, rank, bound).Ok? && k < |nodes| && IsMadeOf(s, nodes[k], x, rank)
    ensures x in TranslateAll(s, nodes, rank, bound).value
    decreases |nodes|
  {
    AtomsOfFirst(s, nodes, rank, bound, x);
    if k > 0 {
      AllOfAtoms(s, nodes[1..], rank, bound, x, k - 1);
    }
  }

  lemma AtomIsGiven(s: Source, node: string, property: string, rank: string -> nat, x: Atom)
    requires Ranked(s.g, rank) && RulesUnder(s, node, property, rank).Ok?
    requires x in RulesUnder(s, node, property, rank).value
    ensures exists t :: GivesAtom(s, node, property, t, x, rank)
  {
    var nodes, ts := ObjectIds(s.g, node, property), Pointing(s.g, node, property);
    NodesGiven(s.g, node, property);
    var k := AtomsOfAll(s, nodes, rank, RankAbove(rank, nodes), x);
    assert GivesAtom(s, node, property, ts[k], x, rank);
  }

  lemma GivenIsAtom(s: Source, node: string, property: string, rank: string -> nat, x: Atom, t: Triple)
    requires Ranked(s.g, rank) && RulesUnder(s, node, property, rank).Ok?
    requires GivesAtom(s, node, property, t, x, rank)
    ensures x in RulesUnder(s, node, property, rank).value
  {
    var nodes, ts := ObjectIds(s.g, node, property), Pointing(s.g, node, property);
    NodesGiven(s.g, node, property);
    KeptMembers(s.g, (t: Triple) => Gives(t, node, property) && t.value.Resource?);
    var k :| 0 <= k < |ts| && ts[k] == t;
    AllOfAtoms(s, nodes, rank, RankAbove(rank, nodes), x, k);
  }

  lemma RulesStand(s: Source, node: string, property: string, rank: string -> nat, rule: Rule)
    requires Ranked(s.g, rank) && RulesUnder(s, node, property, rank).Ok?
    ensures rule in RulesOf(RulesUnder(s, node, property, rank).value)
       <==> StandsUnder(s, node, property, rule, rank)
  {
    var atoms := RulesUnder(s, node, property, rank).value;
    if rule in RulesOf(atoms) {
      var k :| 0 <= k < |atoms| && RulesOf(atoms)[k] == rule;
      AtomIsGiven(s, node, property, rank, atoms[k]);
    }
    if t, x :| GivesAtom(s, node, property, t, x, rank) && x.rule == rule {
      GivenIsAtom(s, node, property, rank, x, t);
      var k :| 0 <= k < |atoms| && atoms[k] == x;
      assert RulesOf(atoms)[k] == rule;
    }
  }

  /**
   A rule is a permission of the policy exactly when it is an atomic rule of a node given under
   `odrl:permission`; and so for prohibitions and obligations.
   */
  lemma RulesStandWhereGiven(s: Source, l: Lookups, node: string, rank: string -> nat, rule: Rule)
    requires Ranked(s.g, rank) && PolicyAt(s, l, node, rank).Ok?
    ensures var policy := PolicyAt(s, l, node, rank).value.policy;
      && (rule in policy.permissions <==> StandsUnder(s, node, ODRL + "permission", rule, rank))
      && (rule in policy.prohibitions <==> StandsUnder(s, node, ODRL + "prohibition", rule, rank))
      && (rule in policy.obligations <==> StandsUnder(s, node, ODRL + "obligation", rule, rank))
  {
    RulesStand(s, node, ODRL + "permission", rank, rule);
    RulesStand(s, node, ODRL + "prohibition", rank, rule);
    RulesStand(s, node, ODRL + "obligation", rank, rule);
  }
}
