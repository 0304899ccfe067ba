/**
 Translating a rule node into atomic rules, one for each action and target, together with the
 tree of RDF ids that shadows each of them.
 */
module Atomization {
  import opened Wrappers
  import opened Collections
  import opened Constraints
  import opened Graph
  import opened Rules

  const ODRL_ACTION := ODRL + "action"
  const ODRL_TARGET := ODRL + "target"
  const ODRL_CONSTRAINT := ODRL + "constraint"
  const ODRL_REFINEMENT := ODRL + "refinement"
  const ODRL_DUTY := ODRL + "duty"
  const ODRL_REMEDY := ODRL + "remedy"
  const ODRL_CONSEQUENCE := ODRL + "consequence"

  datatype TranslationError =
    | NoAction(node: string)
    | LiteralAction(node: string)
    | LiteralTarget(node: string)
    | BadConstraint(node: string)
    | CompositeConsequence(node: string)
    | RepeatedConsequence(node: string)
    | SeveralParties(node: string)
    | BadConflict(node: string)

  /** A file's triples, and what each constraint node in it translates to. */
  datatype Source = Source(g: Graph, constraintAt: string -> Result<Constraint, TranslationError>)

  /** One atomic rule beside its id shadow. */
  datatype Atom = Atom(rule: Rule, ids: RuleIds)

  datatype RefinedAction = RefinedAction(action: string, refinement: Option<Constraint>)

  // ---------------------------------------------------------------
  // Actions, targets and constraints
  // ---------------------------------------------------------------

  function ConstraintsAt(s: Source, nodes: seq<string>): Result<seq<Constraint>, TranslationError> {
    if nodes == [] then Ok([])
    else
      match s.constraintAt(nodes[0])
      case Err(e) => Err(e)
      case Ok(c) =>
        Behind([c], ConstraintsAt(s, nodes[1..]))
  }

  /** The refinements of one action, each ANDed onto those before it. */
  function RefinementAt(s: Source, nodes: seq<string>, soFar: Option<Constraint>)
    : Result<Option<Constraint>, TranslationError>
    decreases |nodes|
  {
    if nodes == [] then Ok(soFar)
    else
      match s.constraintAt(nodes[0])
      case Err(e) => Err(e)
      case Ok(c) => RefinementAt(s, nodes[1..], Some(if soFar.Some? then And([soFar.value, c]) else c))
  }

  /** How far below the whole conjunction the `i`th of `n` refinements lies. */
  function RefinementDepth(n: nat, i: nat): nat
    requires i < n
  {
    if i == 0 then n - 1 else n - i
  }

  ghost predicate RefinementHolds(s: Source, node: string, w: World, depth: nat) {
    s.constraintAt(node).Ok? && EvaluateBounded(s.constraintAt(node).value, w, depth)
  }

  lemma {:induction false} AddedRefinements(s: Source, nodes: seq<string>, soFar: Constraint, w: World, depth: nat)
    requires RefinementAt(s, nodes, Some(soFar)).Ok?
    ensures RefinementAt(s, nodes, Some(soFar)).value.Some?
    ensures EvaluateBounded(RefinementAt(s, nodes, Some(soFar)).value.value, w, depth)
       <==> && EvaluateBounded(soFar, w, depth + |nodes|)
            && forall i :: 0 <= i < |nodes| ==> RefinementHolds(s, nodes[i], w, depth + |nodes| - i)
    decreases |nodes|
  {
    if nodes != [] {
      var c := s.constraintAt(nodes[0]).value;
      AddedRefinements(s, nodes[1..], And([soFar, c]), w, depth);
      BothHold(soFar, c, w, depth + |nodes| - 1);
      assert forall i :: 0 < i < |nodes| ==> nodes[i] == nodes[1..][i - 1];
      assert forall i :: 0 <= i < |nodes| - 1 ==> nodes[1..][i] == nodes[i + 1];
    }
  }

  lemma BothHold(a: Constraint, b: Constraint, w: World, depth: nat)
    ensures EvaluateBounded(And([a, b]), w, depth)
       <==> EvaluateBounded(a, w, depth + 1) && EvaluateBounded(b, w, depth + 1)
  {
    assert [a, b][0] == a && [a, b][1] == b;
  }

  /**
   Several refinements are a conjunction, nested to the left: it is true exactly when each of
   them is at its own depth. Past the engine's limit that is never, so more than 65 refinements
   can never be met together.
   */
  lemma RefinementsAreAnded(s: Source, nodes: seq<string>, w: World)
    requires nodes != [] && RefinementAt(s, nodes, None).Ok?
    ensures RefinementAt(s, nodes, None).value.Some?
    ensures Evaluate(RefinementAt(s, nodes, None).value.value, w)
       <==> forall i :: 0 <= i < |nodes| ==> RefinementHolds(s, nodes[i], w, RefinementDepth(|nodes|, i))
    ensures |nodes| > MAX_CONSTRAINT_DEPTH + 1 ==> !Evaluate(RefinementAt(s, nodes, None).value.value, w)
  {
    var first, rest := s.constraintAt(nodes[0]).value, nodes[1..];
    assert RefinementAt(s, nodes, None) == RefinementAt(s, rest, Some(first));
    AddedRefinements(s, rest, first, w, 0);
    forall i | 0 <= i < |nodes|
      ensures RefinementHolds(s, nodes[i], w, RefinementDepth(|nodes|, i))
         <==> if i == 0 then EvaluateBounded(first, w, |rest|) else RefinementHolds(s, rest[i - 1], w, |rest| - (i - 1))
    {
    }
    assert forall i :: 0 <= i < |rest| ==> rest[i] == nodes[i + 1];
  }

  lemma {:induction false} RefinementsTranslate(s: Source, nodes: seq<string>, soFar: Option<Constraint>)
    requires forall i :: 0 <= i < |nodes| ==> s.constraintAt(nodes[i]).Ok?
    ensures RefinementAt(s, nodes, soFar).Ok?
    decreases |nodes|
  {
    if nodes != [] {
      var c := s.constraintAt(nodes[0]).value;
      RefinementsTranslate(s, nodes[1..], Some(if soFar.Some? then And([soFar.value, c]) else c));
    }
  }

  /** Sixty-six refinements each of which holds, and which are never met together. */
  lemma SixtySixNeverHold(w: World, left: string, right: string) returns (s: Source, nodes: seq<string>)
    requires left !in w.claims
    ensures |nodes| == 66 && RefinementAt(s, nodes, None).Ok? && RefinementAt(s, nodes, None).value.Some?
    ensures forall i :: 0 <= i < |nodes| ==> s.constraintAt(nodes[i]).Ok? && Evaluate(s.constraintAt(nodes[i]).value, w)
    ensures !Evaluate(RefinementAt(s, nodes, None).value.value, w)
  {
    var c := Atomic(left, IsNoneOf, right);
    s := Source([], _ => Ok(c));
    nodes := seq(66, _ => "refinement");
    RefinementsTranslate(s, nodes, None);
    RefinementsAreAnded(s, nodes, w);
  }

  function ActionAt(s: Source, node: string, t: Term): Result<RefinedAction, TranslationError> {
    match TermId(t)
    case None => Err(LiteralAction(node))
    case Some(id) =>
      match ObjectId(s.g, id, RDF_VALUE)
      case None => Ok(RefinedAction(LocalName(id), None))
      case Some(value) =>
        match RefinementAt(s, ObjectIds(s.g, id, ODRL_REFINEMENT), None)
        case Err(e) => Err(e)
        case Ok(refinement) => Ok(RefinedAction(LocalName(value), refinement))
  }

  function ActionsAt(s: Source, node: string, terms: seq<Term>): Result<seq<RefinedAction>, TranslationError>
    decreases |terms|
  {
    if terms == [] then Ok([])
    else
      match ActionAt(s, node, terms[0])
      case Err(e) => Err(e)
      case Ok(a) =>
        Behind([a], ActionsAt(s, node, terms[1..]))
  }

  function Actions(s: Source, node: string): Result<seq<RefinedAction>, TranslationError> {
    var terms := Objects(s.g, node, ODRL_ACTION);
    if terms == [] then Err(NoAction(node)) else ActionsAt(s, node, terms)
  }

  function SomeNames(ids: seq<string>): (r: seq<Option<string>>)
    ensures |r| == |ids| && forall k :: 0 <= k < |r| ==> r[k] == Some(LocalName(ids[k]))
  {
    seq(|ids|, k requires 0 <= k < |ids| => Some(LocalName(ids[k])))
  }

  /** The named targets, or the one absent target. A literal target is an error, not a missing one. */
  function Targets(s: Source, node: string): Result<seq<Option<string>>, TranslationError> {
    var ids := ObjectIds(s.g, node, ODRL_TARGET);
    if |ids| != |Objects(s.g, node, ODRL_TARGET)| then Err(LiteralTarget(node))
    else if ids == [] then Ok([None])
    else Ok(SomeNames(ids))
  }

  // ---------------------------------------------------------------
  // The product
  // ---------------------------------------------------------------

  /** What all the atomic rules of one node share. */
  datatype Shared = Shared(
    ruleId: string,
    constraints: seq<Constraint>,
    duty: seq<Atom>,
    remedy: seq<Atom>,
    consequence: Option<Atom>)

  function RulesOf(atoms: seq<Atom>): (r: seq<Rule>)
    ensures |r| == |atoms| && forall k :: 0 <= k < |r| ==> r[k] == atoms[k].rule
  {
    seq(|atoms|, k requires 0 <= k < |atoms| => atoms[k].rule)
  }

  function IdsOfAtoms(atoms: seq<Atom>): (r: seq<RuleIds>)
    ensures |r| == |atoms| && forall k :: 0 <= k < |r| ==> r[k] == atoms[k].ids
  {
    seq(|atoms|, k requires 0 <= k < |atoms| => atoms[k].ids)
  }

  function AtomFor(h: Shared, a: RefinedAction, target: Option<string>): Atom {
    Atom(
      Rule(a.action, target, h.constraints, a.refinement, RulesOf(h.duty), RulesOf(h.remedy),
           match h.consequence case None => None case Some(c) => Some(c.rule)),
      RuleIds(h.ruleId, a.action, IdsOfAtoms(h.duty), IdsOfAtoms(h.remedy),
              match h.consequence case None => None case Some(c) => Some(c.ids)))
  }

  function Row(h: Shared, a: RefinedAction, targets: seq<Option<string>>): (r: seq<Atom>)
    ensures |r| == |targets| && forall j :: 0 <= j < |r| ==> r[j] == AtomFor(h, a, targets[j])
  {
    seq(|targets|, j requires 0 <= j < |targets| => AtomFor(h, a, targets[j]))
  }

  /** One atom for each action and target, action by action. */
  function Product(h: Shared, actions: seq<RefinedAction>, targets: seq<Option<string>>): seq<Atom> {
    if actions == [] then []
    else Product(h, actions[..|actions| - 1], targets) + Row(h, actions[|actions| - 1], targets)
  }

  method ExpandRule(h: Shared, actions: seq<RefinedAction>, targets: seq<Option<string>>) returns (out: seq<Atom>)
    ensures out == Product(h, actions, targets)
  {
    out := [];
    for i := 0 to |actions|
      invariant out == Product(h, actions[..i], targets)
    {
      assert actions[..i + 1][..i] == actions[..i];
      ghost var before := out;
      for j := 0 to |targets|
        invariant out == before + Row(h, actions[i], targets)[..j]
      {
        out := out + [AtomFor(h, actions[i], targets[j])];
      }
      assert Row(h, actions[i], targets)[..|targets|] == Row(h, actions[i], targets);
    }
    assert actions[..|actions|] == actions;
  }

  /** The atom of the `i`th action and the `j`th target stands at place `i` times the width, plus `j`. */
  lemma {:induction false} ProductAt(
      h: Shared, actions: seq<RefinedAction>, targets: seq<Option<string>>, i: nat, j: nat)
    requires i < |actions| && j < |targets|
    ensures |Product(h, actions, targets)| == |actions| * |targets|
    ensures 0 <= i * |targets| + j < |actions| * |targets|
    ensures Product(h, actions, targets)[i * |targets| + j] == AtomFor(h, actions[i], targets[j])
    decreases |actions|
  {
    var n, w := |actions| - 1, |targets|;
    var before := Product(h, actions[..n], targets);
    ProductLength(h, actions[..n], targets);
    assert (n + 1) * w == n * w + w;
    if i < n {
      ProductAt(h, actions[..n], targets, i, j);
    }
  }

  lemma {:induction false} ProductLength(h: Shared, actions: seq<RefinedAction>, targets: seq<Option<string>>)
    ensures |Product(h, actions, targets)| == |actions| * |targets|
    decreases |actions|
  {
    if actions != [] {
      var n, w := |actions| - 1, |targets|;
      ProductLength(h, actions[..n], targets);
      assert (n + 1) * w == n * w + w;
    }
  }

  lemma {:induction false} ProductCovers(h: Shared, actions: seq<RefinedAction>, targets: seq<Option<string>>, x: Atom)
    requires x in Product(h, actions, targets)
    ensures exists i, j :: 0 <= i < |actions| && 0 <= j < |targets| && x == AtomFor(h, actions[i], targets[j])
    decreases |actions|
  {
    var n := |actions| - 1;
    if x in Product(h, actions[..n], targets) {
      ProductCovers(h, actions[..n], targets, x);
      var i, j :| 0 <= i < |actions[..n]| && 0 <= j < |targets| && x == AtomFor(h, actions[..n][i], targets[j]);
      assert actions[..n][i] == actions[i];
    } else {
      var j :| 0 <= j < |targets| && Row(h, actions[n], targets)[j] == x;
      assert x == AtomFor(h, actions[n], targets[j]);
    }
  }

  // ---------------------------------------------------------------
  // The recursive walk
  // ---------------------------------------------------------------

  predicate NestsRules(property: string) {
    property == ODRL_DUTY || property == ODRL_REMEDY || property == ODRL_CONSEQUENCE
  }

  /** Duties, remedies and consequences never lead back: `rank` falls along each of them. */
  ghost predicate Ranked(g: Graph, rank: string -> nat) {
    forall t :: t in g && NestsRules(t.property) && TermId(t.value).Some? ==>
      rank(TermId(t.value).value) < rank(NodeId(t.subject))
  }

  lemma NestedRanksLower(g: Graph, rank: string -> nat, node: string, property: string)
    requires Ranked(g, rank) && NestsRules(property)
    ensures forall c :: c in ObjectIds(g, node, property) ==> rank(c) < rank(node)
  {
    ObjectsComeFromTriples(g, node, property);
    IdsComeFromTerms(Objects(g, node, property));
  }

  ghost function Translate(s: Source, node: string, rank: string -> nat): Result<seq<Atom>, TranslationError>
    requires Ranked(s.g, rank)
    decreases rank(node), 2, 0
  {
    match Actions(s, node)
    case Err(e) => Err(e)
    case Ok(actions) =>
      match Targets(s, node)
      case Err(e) => Err(e)
      case Ok(targets) =>
        match SharedAt(s, node, rank)
        case Err(e) => Err(e)
        case Ok(h) => Ok(Product(h, actions, targets))
  }

  /** Everything of the node that does not vary over its atomic rules. */
  ghost function SharedAt(s: Source, node: string, rank: string -> nat): Result<Shared, TranslationError>
    requires Ranked(s.g, rank)
    decreases rank(node), 1, 1
  {
    NestedRanksLower(s.g, rank, node, ODRL_DUTY);
    NestedRanksLower(s.g, rank, node, ODRL_REMEDY);
    match ConstraintsAt(s, ObjectIds(s.g, node, ODRL_CONSTRAINT))
    case Err(e) => Err(e)
    case Ok(constraints) =>
      match TranslateAll(s, ObjectIds(s.g, node, ODRL_DUTY), rank, rank(node))
      case Err(e) => Err(e)
      case Ok(duty) =>
        match TranslateAll(s, ObjectIds(s.g, node, ODRL_REMEDY), rank, rank(node))
        case Err(e) => Err(e)
        case Ok(remedy) =>
          match ConsequenceAt(s, node, rank)
          case Err(e) => Err(e)
          case Ok(consequence) => Ok(Shared(LocalName(node), constraints, duty, remedy, consequence))
  }

  /** A rule has one successor at most: more nodes, or one node of several atomic rules, is refused. */
  ghost function ConsequenceAt(s: Source, node: string, rank: string -> nat): Result<Option<Atom>, TranslationError>
    requires Ranked(s.g, rank)
    decreases rank(node), 1, 0
  {
    NestedRanksLower(s.g, rank, node, ODRL_CONSEQUENCE);
    var nodes := ObjectIds(s.g, node, ODRL_CONSEQUENCE);
    if nodes == [] then Ok(None)
    else if |nodes| > 1 then Err(RepeatedConsequence(node))
    else
      assert nodes[0] in nodes;
      match Translate(s, nodes[0], rank)
      case Err(e) => Err(e)
      case Ok(atoms) => if |atoms| != 1 then Err(CompositeConsequence(nodes[0])) else Ok(Some(atoms[0]))
  }

  ghost function TranslateAll(s: Source, nodes: seq<string>, rank: string -> nat, bound: nat)
    : Result<seq<Atom>, TranslationError>
    requires Ranked(s.g, rank) && forall c :: c in nodes ==> rank(c) < bound
    decreases bound, 0, |nodes|
  {
    if nodes == [] then Ok([])
    else
      match Translate(s, nodes[0], rank)
      case Err(e) => Err(e)
      case Ok(atoms) =>
        Behind(atoms, TranslateAll(s, nodes[1..], rank, bound))
  }

  // ---------------------------------------------------------------
  // The programs
  // ---------------------------------------------------------------

  method TranslateConstraints(s: Source, nodes: seq<string>) returns (r: Result<seq<Constraint>, TranslationError>)
    ensures r == ConstraintsAt(s, nodes)
  {
    var out: seq<Constraint> := [];
    BehindNothing(ConstraintsAt(s, nodes));
    assert nodes[0..] == nodes;
    for k := 0 to |nodes|
      invariant ConstraintsAt(s, nodes) == Behind(out, ConstraintsAt(s, nodes[k..]))
    {
      assert nodes[k..][1..] == nodes[k + 1..];
      var c := s.constraintAt(nodes[k]);
      if c.Err? {
        return Err(c.error);
      }
      BehindTwice(out, [c.value], ConstraintsAt(s, nodes[k + 1..]));
      out := out + [c.value];
    }
    BehindTheEnd(out, ConstraintsAt(s, nodes[|nodes|..]));
    return Ok(out);
  }

  method TranslateAction(s: Source, node: string, t: Term) returns (r: Result<RefinedAction, TranslationError>)
    ensures r == ActionAt(s, node, t)
  {
    var id := TermId(t);
    if id.None? {
      return Err(LiteralAction(node));
    }
    var value := ObjectId(s.g, id.value, RDF_VALUE);
    if value.None? {
      return Ok(RefinedAction(LocalName(id.value), None));
    }
    var refinement: Option<Constraint> := None;
    var nodes := ObjectIds(s.g, id.value, ODRL_REFINEMENT);
    for k := 0 to |nodes|
      invariant RefinementAt(s, nodes[k..], refinement) == RefinementAt(s, nodes, None)
    {
      var c := s.constraintAt(nodes[k]);
      if c.Err? {
        return Err(c.error);
      }
      refinement := Some(if refinement.Some? then And([refinement.value, c.value]) else c.value);
    }
    return Ok(RefinedAction(LocalName(value.value), refinement));
  }

  method TranslateActions(s: Source, node: string) returns (r: Result<seq<RefinedAction>, TranslationError>)
    ensures r == Actions(s, node)
  {
    var terms := Objects(s.g, node, ODRL_ACTION);
    if terms == [] {
      return Err(NoAction(node));
    }
    var out: seq<RefinedAction> := [];
    BehindNothing(ActionsAt(s, node, terms));
    assert terms[0..] == terms;
    for k := 0 to |terms|
      invariant ActionsAt(s, node, terms) == Behind(out, ActionsAt(s, node, terms[k..]))
    {
      assert terms[k..][1..] == terms[k + 1..];
      var a := TranslateAction(s, node, terms[k]);
      if a.Err? {
        return Err(a.error);
      }
      BehindTwice(out, [a.value], ActionsAt(s, node, terms[k + 1..]));
      out := out + [a.value];
    }
    BehindTheEnd(out, ActionsAt(s, node, terms[|terms|..]));
    return Ok(out);
  }

  method TranslateRule(s: Source, node: string, ghost rank: string -> nat)
    returns (r: Result<seq<Atom>, TranslationError>)
    requires Ranked(s.g, rank)
    ensures r == Translate(s, node, rank)
    decreases rank(node), 2, 0
  {
    var actions := TranslateActions(s, node);
    if actions.Err? {
      return Err(actions.error);
    }
    var targets := Targets(s, node);
    if targets.Err? {
      return Err(targets.error);
    }
    var shared := TranslateShared(s, node, rank);
    if shared.Err? {
      return Err(shared.error);
    }
    var out := ExpandRule(shared.value, actions.value, targets.value);
    return Ok(out);
  }

  method TranslateShared(s: Source, node: string, ghost rank: string -> nat)
    returns (r: Result<Shared, TranslationError>)
    requires Ranked(s.g, rank)
    ensures r == SharedAt(s, node, rank)
    decreases rank(node), 1, 1
  {
    NestedRanksLower(s.g, rank, node, ODRL_DUTY);
    NestedRanksLower(s.g, rank, node, ODRL_REMEDY);
    var constraints := TranslateConstraints(s, ObjectIds(s.g, node, ODRL_CONSTRAINT));
    if constraints.Err? {
      return Err(constraints.error);
    }
    var duty := TranslateRulesAt(s, node, ODRL_DUTY, rank, rank(node));
    if duty.Err? {
      return Err(duty.error);
    }
    var remedy := TranslateRulesAt(s, node, ODRL_REMEDY, rank, rank(node));
    if remedy.Err? {
      return Err(remedy.error);
    }
    var consequence := TranslateConsequence(s, node, rank);
    if consequence.Err? {
      return Err(consequence.error);
    }
    return Ok(Shared(LocalName(node), constraints.value, duty.value, remedy.value, consequence.value));
  }

  method TranslateConsequence(s: Source, node: string, ghost rank: string -> nat)
    returns (r: Result<Option<Atom>, TranslationError>)
    requires Ranked(s.g, rank)
    ensures r == ConsequenceAt(s, node, rank)
    decreases rank(node), 1, 0
  {
    NestedRanksLower(s.g, rank, node, ODRL_CONSEQUENCE);
    var nodes := ObjectIds(s.g, node, ODRL_CONSEQUENCE);
    if nodes == [] {
      return Ok(None);
    }
    if |nodes| > 1 {
      return Err(RepeatedConsequence(node));
    }
    assert nodes[0] in nodes;
    var expanded := TranslateRule(s, nodes[0], rank);
    if expanded.Err? {
      return Err(expanded.error);
    }
    if |expanded.value| != 1 {
      return Err(CompositeConsequence(nodes[0]));
    }
    return Ok(Some(expanded.value[0]));
  }

  /** Every rule node under `property`, its atoms one after the other. */
  lemma OneMoreNode(s: Source, nodes: seq<string>, k: nat, rank: string -> nat, bound: nat, out: seq<Atom>)
    requires Ranked(s.g, rank) && k < |nodes| && forall c :: c in nodes ==> rank(c) < bound
    ensures Behind(out, TranslateAll(s, nodes[k..], rank, bound)) ==
      match Translate(s, nodes[k], rank)
      case Err(e) => Err(e)
      case Ok(atoms) => Behind(out + atoms, TranslateAll(s, nodes[k + 1..], rank, bound))
  {
    assert nodes[k..][0] == nodes[k] && nodes[k..][1..] == nodes[k + 1..];
    var first := Translate(s, nodes[k], rank);
    if first.Ok? {
      BehindTwice(out, first.value, TranslateAll(s, nodes[k + 1..], rank, bound));
    }
  }

  method TranslateRulesAt(s: Source, node: string, property: string, ghost rank: string -> nat, ghost bound: nat)
    returns (r: Result<seq<Atom>, TranslationError>)
    requires Ranked(s.g, rank) && forall c :: c in ObjectIds(s.g, node, property) ==> rank(c) < bound
    ensures r == TranslateAll(s, ObjectIds(s.g, node, property), rank, bound)
    decreases bound, 0, |ObjectIds(s.g, node, property)|
  {
    var nodes := ObjectIds(s.g, node, property);
    var out: seq<Atom> := [];
    BehindNothing(TranslateAll(s, nodes, rank, bound));
    assert nodes[0..] == nodes;
    for k := 0 to |nodes|
      invariant forall c :: c in nodes[k..] ==> c in nodes
      invariant TranslateAll(s, nodes, rank, bound) == Behind(out, TranslateAll(s, nodes[k..], rank, bound))
    {
      var atoms := TranslateRule(s, nodes[k], rank);
      OneMoreNode(s, nodes, k, rank, bound, out);
      if atoms.Err? {
        return Err(atoms.error);
      }
      out := out + atoms.value;
    }
    BehindTheEnd(out, TranslateAll(s, nodes[|nodes|..], rank, bound));
    return Ok(out);
  }

  // ---------------------------------------------------------------
  // The rule tree and the id tree in lockstep
  // ---------------------------------------------------------------

  ghost predicate InLockstep(atoms: seq<Atom>) {
    forall x :: x in atoms ==> SameShape(x.rule, x.ids)
  }

  lemma LockstepLists(atoms: seq<Atom>)
    requires InLockstep(atoms)
    ensures SameShapes(RulesOf(atoms), IdsOfAtoms(atoms))
  {
    forall k | 0 <= k < |atoms| ensures SameShape(RulesOf(atoms)[k], IdsOfAtoms(atoms)[k]) {
      assert atoms[k] in atoms;
    }
  }

  /** Every atom a node expands to has one shape and one set of actions in both its trees. */
  lemma {:induction false} Lockstep(s: Source, node: string, rank: string -> nat)
    requires Ranked(s.g, rank) && Translate(s, node, rank).Ok?
    ensures InLockstep(Translate(s, node, rank).value)
    decreases rank(node), 2, 0
  {
    var h := SharedAt(s, node, rank).value;
    SharedInLockstep(s, node, rank);
    LockstepLists(h.duty);
    LockstepLists(h.remedy);
    forall x | x in Translate(s, node, rank).value ensures SameShape(x.rule, x.ids) {
      ProductCovers(h, Actions(s, node).value, Targets(s, node).value, x);
    }
  }

  lemma {:induction false} SharedInLockstep(s: Source, node: string, rank: string -> nat)
    requires Ranked(s.g, rank) && SharedAt(s, node, rank).Ok?
    ensures var h := SharedAt(s, node, rank).value;
      && InLockstep(h.duty)
      && InLockstep(h.remedy)
      && (h.consequence.Some? ==> SameShape(h.consequence.value.rule, h.consequence.value.ids))
    decreases rank(node), 1, 1
  {
    NestedRanksLower(s.g, rank, node, ODRL_DUTY);
    NestedRanksLower(s.g, rank, node, ODRL_REMEDY);
    LockstepAll(s, ObjectIds(s.g, node, ODRL_DUTY), rank, rank(node));
    LockstepAll(s, ObjectIds(s.g, node, ODRL_REMEDY), rank, rank(node));
    ConsequenceInLockstep(s, node, rank);
  }

  lemma {:induction false} ConsequenceInLockstep(s: Source, node: string, rank: string -> nat)
    requires Ranked(s.g, rank) && ConsequenceAt(s, node, rank).Ok?
    ensures var c := ConsequenceAt(s, node, rank).value;
      c.Some? ==> SameShape(c.value.rule, c.value.ids)
    decreases rank(node), 1, 0
  {
    NestedRanksLower(s.g, rank, node, ODRL_CONSEQUENCE);
    var nodes := ObjectIds(s.g, node, ODRL_CONSEQUENCE);
    if nodes != [] {
      assert nodes[0] in nodes;
      Lockstep(s, nodes[0], rank);
    }
  }

  lemma {:induction false} LockstepAll(s: Source, nodes: seq<string>, rank: string -> nat, bound: nat)
    requires Ranked(s.g, rank) && forall c :: c in nodes ==> rank(c) < bound
    requires TranslateAll(s, nodes, rank, bound).Ok?
    ensures InLockstep(TranslateAll(s, nodes, rank, bound).value)
    decreases bound, 0, |nodes|
  {
    if nodes != [] {
      Lockstep(s, nodes[0], rank);
      LockstepAll(s, nodes[1..], rank, bound);
    }
  }

  // ---------------------------------------------------------------
  // Section 2.7 of the ODRL Information Model 2.2
  // ---------------------------------------------------------------

  lemma {:induction false} ActionsKeepLength(s: Source, node: string, terms: seq<Term>)
    requires ActionsAt(s, node, terms).Ok?
    ensures |ActionsAt(s, node, terms).value| == |terms|
    decreases |terms|
  {
    if terms != [] {
      ActionsKeepLength(s, node, terms[1..]);
    }
  }

  /** The atoms are the product of the pairs, action by action: how many, and what the one of the pair carries. */
  ghost predicate IsPairOf(
      h: Shared, actions: seq<RefinedAction>, targets: seq<Option<string>>, atoms: seq<Atom>, i: nat, j: nat)
    requires i < |actions| && j < |targets|
  {
    var width := |targets|;
    && |atoms| == |actions| * width
    && 0 <= i * width + j < |atoms|
    && var atom := atoms[i * width + j];
       atom == AtomFor(h, actions[i], targets[j])
       && atom.rule.action == actions[i].action && atom.rule.target == targets[j]
       && atom.ids.ruleId == h.ruleId
  }

  lemma PairOfProduct(
      h: Shared, actions: seq<RefinedAction>, targets: seq<Option<string>>, atoms: seq<Atom>, i: nat, j: nat)
    requires i < |actions| && j < |targets| && atoms == Product(h, actions, targets)
    ensures IsPairOf(h, actions, targets, atoms, i, j)
  {
    ProductAt(h, actions, targets, i, j);
  }

  /**
   A composite rule is one atomic rule for each action and target, action by action: the one
   of the `i`th action and `j`th target carries exactly those, and what the node has besides.
   */
  lemma AtomizationIsTheProduct(s: Source, node: string, rank: string -> nat, i: nat, j: nat)
    requires Ranked(s.g, rank) && Translate(s, node, rank).Ok?
    requires i < |Actions(s, node).value| && j < |Targets(s, node).value|
    ensures var atoms := Translate(s, node, rank).value;
      var actions, targets := Actions(s, node).value, Targets(s, node).value;
      var width := |targets|;
      && |actions| == |Objects(s.g, node, ODRL_ACTION)| > 0
      && width == (if Objects(s.g, node, ODRL_TARGET) == [] then 1 else |Objects(s.g, node, ODRL_TARGET)|)
      && |atoms| == |actions| * width
      && 0 <= i * width + j < |atoms|
      && var atom := atoms[i * width + j];
         atom == AtomFor(SharedAt(s, node, rank).value, actions[i], targets[j])
         && atom.rule.action == actions[i].action && atom.rule.target == targets[j]
         && atom.ids.ruleId == LocalName(node)
  {
    var h := SharedAt(s, node, rank).value;
    TranslateIsProduct(s, node, rank);
    PairOfProduct(h, Actions(s, node).value, Targets(s, node).value, Translate(s, node, rank).value, i, j);
    SharedNamesNode(s, node, rank);
  }

  lemma TranslateIsProduct(s: Source, node: string, rank: string -> nat)
    requires Ranked(s.g, rank) && Translate(s, node, rank).Ok?
    ensures Translate(s, node, rank).value
         == Product(SharedAt(s, node, rank).value, Actions(s, node).value, Targets(s, node).value)
    ensures |Actions(s, node).value| == |Objects(s.g, node, ODRL_ACTION)| > 0
    ensures |Targets(s, node).value|
         == (if Objects(s.g, node, ODRL_TARGET) == [] then 1 else |Objects(s.g, node, ODRL_TARGET)|)
  {
    ActionsKeepLength(s, node, Objects(s.g, node, ODRL_ACTION));
  }

  lemma SharedNamesNode(s: Source, node: string, rank: string -> nat)
    requires Ranked(s.g, rank) && SharedAt(s, node, rank).Ok?
    ensures SharedAt(s, node, rank).value.ruleId == LocalName(node)
  {
  }

  /** Every atomic rule of the node is the one of some action and some target. */
  lemma AtomsAreOfThePairs(s: Source, node: string, rank: string -> nat, x: Atom)
    requires Ranked(s.g, rank) && Translate(s, node, rank).Ok? && x in Translate(s, node, rank).value
    ensures exists i, j ::
      && 0 <= i < |Actions(s, node).value| && 0 <= j < |Targets(s, node).value|
      && x.rule.action == Actions(s, node).value[i].action && x.rule.target == Targets(s, node).value[j]
  {
    ProductCovers(SharedAt(s, node, rank).value, Actions(s, node).value, Targets(s, node).value, x);
    var i, j :| 0 <= i < |Actions(s, node).value| && 0 <= j < |Targets(s, node).value|
      && x == AtomFor(SharedAt(s, node, rank).value, Actions(s, node).value[i], Targets(s, node).value[j]);
  }
}
