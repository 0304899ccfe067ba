/**
 Translating a request's policy nodes into wire policies, each with its id shadow: where
 atomization hands over to inheritance.
 */
module PolicyTranslation {
  import opened Wrappers
  import opened Collections
  import opened Graph
  import opened Rules
  import opened Policies
  import opened Merging
  import opened Atomization

  const ODRL_ASSIGNER := ODRL + "assigner"
  const ODRL_ASSIGNEE := ODRL + "assignee"
  const ODRL_PERMISSION := ODRL + "permission"
  const ODRL_PROHIBITION := ODRL + "prohibition"
  const ODRL_OBLIGATION := ODRL + "obligation"
  const ODRL_PROFILE := ODRL + "profile"

  /** What single lookups say of a policy node: its kind, its conflict strategy and the parents it lists. */
  datatype Lookups = Lookups(
    kindAt: string -> string,
    conflictAt: string -> Result<ConflictStrategy, TranslationError>,
    parentsAt: string -> seq<string>)

  datatype Translated = Translated(policy: WirePolicy, ids: PolicyIds)

  /** The one party under a property, if there is one; a second is refused. */
  function SingleParty(s: Source, node: string, property: string): Result<Option<string>, TranslationError> {
    var parties := ObjectIds(s.g, node, property);
    if |parties| > 1 then Err(SeveralParties(node))
    else Ok(if parties == [] then None else Some(LocalName(parties[0])))
  }

  function LocalNames(ids: seq<string>, prefix: string): (r: seq<string>)
    ensures |r| == |ids| && forall k :: 0 <= k < |r| ==> r[k] == prefix + LocalName(ids[k])
  {
    seq(|ids|, k requires 0 <= k < |ids| => prefix + LocalName(ids[k]))
  }

  function ParentNames(parents: seq<string>): Option<seq<string>> {
    if parents == [] then None else Some(LocalNames(parents, ""))
  }

  /** A rank above that of every node listed. */
  ghost function RankAbove(rank: string -> nat, nodes: seq<string>): (bound: nat)
    ensures forall c :: c in nodes ==> rank(c) < bound
  {
    if nodes == [] then 0
    else
      var rest := RankAbove(rank, nodes[1..]);
      if rank(nodes[0]) < rest then rest else rank(nodes[0]) + 1
  }

  /** The atomic rules under one of a policy's own properties. */
  ghost function RulesUnder(s: Source, node: string, property: string, rank: string -> nat)
    : Result<seq<Atom>, TranslationError>
    requires Ranked(s.g, rank)
  {
    var nodes := ObjectIds(s.g, node, property);
    TranslateAll(s, nodes, rank, RankAbove(rank, nodes))
  }

  /** A policy's three rule lists, as atoms. */
  datatype AtomLists = AtomLists(permissions: seq<Atom>, prohibitions: seq<Atom>, obligations: seq<Atom>)

  ghost function AtomListsAt(s: Source, node: string, rank: string -> nat): Result<AtomLists, TranslationError>
    requires Ranked(s.g, rank)
  {
    match RulesUnder(s, node, ODRL_PERMISSION, rank)
    case Err(e) => Err(e)
    case Ok(permissions) =>
      match RulesUnder(s, node, ODRL_PROHIBITION, rank)
      case Err(e) => Err(e)
      case Ok(prohibitions) =>
        match RulesUnder(s, node, ODRL_OBLIGATION, rank)
        case Err(e) => Err(e)
        case Ok(obligations) => Ok(AtomLists(permissions, prohibitions, obligations))
  }

  function Assembled(
      s: Source, l: Lookups, node: string, assigner: Option<string>, assignee: Option<string>, atoms: AtomLists,
      conflict: ConflictStrategy): Translated
  {
    var id, parents := LocalName(node), ParentNames(l.parentsAt(node));
    Translated(
      WirePolicy(
        id, l.kindAt(node), if assigner.Some? then assigner.value else "", assignee,
        RulesOf(atoms.permissions), RulesOf(atoms.prohibitions), RulesOf(atoms.obligations),
        conflict, parents, LocalNames(ObjectIds(s.g, node, ODRL_PROFILE), "#")),
      PolicyIds(
        id, IdsOfAtoms(atoms.permissions), IdsOfAtoms(atoms.prohibitions), IdsOfAtoms(atoms.obligations), parents))
  }

  ghost function PolicyAt(s: Source, l: Lookups, node: string, rank: string -> nat)
    : Result<Translated, TranslationError>
    requires Ranked(s.g, rank)
  {
    match SingleParty(s, node, ODRL_ASSIGNER)
    case Err(e) => Err(e)
    case Ok(assigner) =>
      match SingleParty(s, node, ODRL_ASSIGNEE)
      case Err(e) => Err(e)
      case Ok(assignee) =>
        match AtomListsAt(s, node, rank)
        case Err(e) => Err(e)
        case Ok(atoms) =>
          match l.conflictAt(node)
          case Err(e) => Err(e)
          case Ok(conflict) => Ok(Assembled(s, l, node, assigner, assignee, atoms, conflict))
  }

  ghost function PoliciesAt(s: Source, l: Lookups, nodes: seq<string>, rank: string -> nat)
    : (r: Result<seq<Translated>, TranslationError>)
    requires Ranked(s.g, rank)
    ensures r.Ok? ==> |r.value| == |nodes|
  {
    if nodes == [] then Ok([])
    else
      match PolicyAt(s, l, nodes[0], rank)
      case Err(e) => Err(e)
      case Ok(first) => Behind([first], PoliciesAt(s, l, nodes[1..], rank))
  }

  lemma {:induction false} PolicyOfEach(s: Source, l: Lookups, nodes: seq<string>, rank: string -> nat, k: nat)
    requires Ranked(s.g, rank) && PoliciesAt(s, l, nodes, rank).Ok? && k < |nodes|
    ensures PolicyAt(s, l, nodes[k], rank) == Ok(PoliciesAt(s, l, nodes, rank).value[k])
    decreases k
  {
    if k > 0 {
      PolicyOfEach(s, l, nodes[1..], rank, k - 1);
    }
  }

  method TranslateLists(s: Source, node: string, ghost rank: string -> nat)
    returns (r: Result<AtomLists, TranslationError>)
    requires Ranked(s.g, rank)
    ensures r == AtomListsAt(s, node, rank)
  {
    var permissions := TranslateRulesAt(
      s, node, ODRL_PERMISSION, rank, RankAbove(rank, ObjectIds(s.g, node, ODRL_PERMISSION)));
    if permissions.Err? {
      return Err(permissions.error);
    }
    var prohibitions := TranslateRulesAt(
      s, node, ODRL_PROHIBITION, rank, RankAbove(rank, ObjectIds(s.g, node, ODRL_PROHIBITION)));
    if prohibitions.Err? {
      return Err(prohibitions.error);
    }
    var obligations := TranslateRulesAt(
      s, node, ODRL_OBLIGATION, rank, RankAbove(rank, ObjectIds(s.g, node, ODRL_OBLIGATION)));
    if obligations.Err? {
      return Err(obligations.error);
    }
    return Ok(AtomLists(permissions.value, prohibitions.value, obligations.value));
  }

  method TranslatePolicy(s: Source, l: Lookups, node: string, ghost rank: string -> nat)
    returns (r: Result<Translated, TranslationError>)
    requires Ranked(s.g, rank)
    ensures r == PolicyAt(s, l, node, rank)
  {
    var assigner := SingleParty(s, node, ODRL_ASSIGNER);
    if assigner.Err? {
      return Err(assigner.error);
    }
    var assignee := SingleParty(s, node, ODRL_ASSIGNEE);
    if assignee.Err? {
      return Err(assignee.error);
    }
    var atoms := TranslateLists(s, node, rank);
    if atoms.Err? {
      return Err(atoms.error);
    }
    var conflict := l.conflictAt(node);
    if conflict.Err? {
      return Err(conflict.error);
    }
    return Ok(Assembled(s, l, node, assigner.value, assignee.value, atoms.value, conflict.value));
  }

  /** Every policy node of the request in turn. */
  method TranslatePolicies(s: Source, l: Lookups, nodes: seq<string>, ghost rank: string -> nat)
    returns (r: Result<seq<Translated>, TranslationError>)
    requires Ranked(s.g, rank)
    ensures r == PoliciesAt(s, l, nodes, rank)
  {
    var out: seq<Translated> := [];
    BehindNothing(PoliciesAt(s, l, nodes, rank));
    assert nodes[0..] == nodes;
    for k := 0 to |nodes|
      invariant PoliciesAt(s, l, nodes, rank) == Behind(out, PoliciesAt(s, l, nodes[k..], rank))
    {
      assert nodes[k..][1..] == nodes[k + 1..];
      var translated := TranslatePolicy(s, l, nodes[k], rank);
      if translated.Err? {
        return Err(translated.error);
      }
      BehindTwice(out, [translated.value], PoliciesAt(s, l, nodes[k + 1..], rank));
      out := out + [translated.value];
    }
    BehindTheEnd(out, PoliciesAt(s, l, nodes[|nodes|..], rank));
    return Ok(out);
  }

  // ---------------------------------------------------------------
  // Atomization feeds merging
  // ---------------------------------------------------------------

  lemma ListsInLockstep(s: Source, node: string, rank: string -> nat)
    requires Ranked(s.g, rank) && AtomListsAt(s, node, rank).Ok?
    ensures var atoms := AtomListsAt(s, node, rank).value;
      InLockstep(atoms.permissions) && InLockstep(atoms.prohibitions) && InLockstep(atoms.obligations)
  {
    var a, b, c := ObjectIds(s.g, node, ODRL_PERMISSION), ObjectIds(s.g, node, ODRL_PROHIBITION),
      ObjectIds(s.g, node, ODRL_OBLIGATION);
    LockstepAll(s, a, rank, RankAbove(rank, a));
    LockstepAll(s, b, rank, RankAbove(rank, b));
    LockstepAll(s, c, rank, RankAbove(rank, c));
  }

  /** A translated policy and its shadow have one head, and rule lists of one shape. */
  lemma TranslatedIsShadowed(s: Source, l: Lookups, node: string, rank: string -> nat)
    requires Ranked(s.g, rank) && PolicyAt(s, l, node, rank).Ok?
    ensures var t := PolicyAt(s, l, node, rank).value;
      t.policy.Head() == t.ids.Head() && SameLists(t.policy.Lists(), t.ids.Lists())
  {
    ListsInLockstep(s, node, rank);
    var atoms := AtomListsAt(s, node, rank).value;
    LockstepLists(atoms.permissions);
    LockstepLists(atoms.prohibitions);
    LockstepLists(atoms.obligations);
  }

  function PoliciesOf(ts: seq<Translated>): (r: seq<WirePolicy>)
    ensures |r| == |ts| && forall k :: 0 <= k < |r| ==> r[k] == ts[k].policy
  {
    seq(|ts|, k requires 0 <= k < |ts| => ts[k].policy)
  }

  function ShadowsOf(ts: seq<Translated>): (r: seq<PolicyIds>)
    ensures |r| == |ts| && forall k :: 0 <= k < |r| ==> r[k] == ts[k].ids
  {
    seq(|ts|, k requires 0 <= k < |ts| => ts[k].ids)
  }

  /** What a file's policy nodes translate to are policies and shadows of the kind merging starts from. */
  lemma TranslatedShadow(s: Source, l: Lookups, nodes: seq<string>, rank: string -> nat)
    requires Ranked(s.g, rank) && PoliciesAt(s, l, nodes, rank).Ok?
    ensures Shadows(PoliciesOf(PoliciesAt(s, l, nodes, rank).value), ShadowsOf(PoliciesAt(s, l, nodes, rank).value))
  {
    forall k | 0 <= k < |nodes|
      ensures var t := PoliciesAt(s, l, nodes, rank).value[k];
        t.policy.Head() == t.ids.Head() && SameLists(t.policy.Lists(), t.ids.Lists())
    {
      PolicyOfEach(s, l, nodes, rank, k);
      TranslatedIsShadowed(s, l, nodes[k], rank);
    }
  }

  predicate DistinctLocalNames(nodes: seq<string>) {
    forall i, j :: 0 <= i < j < |nodes| ==> LocalName(nodes[i]) != LocalName(nodes[j])
  }

  lemma TranslatedIdsDiffer(s: Source, l: Lookups, nodes: seq<string>, rank: string -> nat)
    requires Ranked(s.g, rank) && PoliciesAt(s, l, nodes, rank).Ok? && DistinctLocalNames(nodes)
    ensures DistinctIds(Headers(PoliciesOf(PoliciesAt(s, l, nodes, rank).value)))
  {
    var ts := PoliciesAt(s, l, nodes, rank).value;
    forall i | 0 <= i < |nodes| ensures Headers(PoliciesOf(ts))[i].id == LocalName(nodes[i]) {
      PolicyOfEach(s, l, nodes, rank, i);
    }
  }

  /**
   From the file to merged policies: where no two policy nodes share a local name, every duty
   address valid in a merged policy finds a node of the merged shadow, with that rule's action.
   */
  lemma TranslatedAddressesAgree(
      s: Source, l: Lookups, nodes: seq<string>, rank: string -> nat,
      all: seq<WirePolicy>, ids: seq<PolicyIds>, k: nat, a: DutyAddress)
    requires Ranked(s.g, rank) && PoliciesAt(s, l, nodes, rank).Ok? && DistinctLocalNames(nodes)
    requires all == PoliciesOf(PoliciesAt(s, l, nodes, rank).value)
    requires ids == ShadowsOf(PoliciesAt(s, l, nodes, rank).value)
    requires k < |all| && ResolvedPolicy(all, all[k]).Ok?
    ensures MergedIds(ids, all[k].id).Ok?
    ensures var rules := ResolvedPolicy(all, all[k]).value.policy.Lists();
      var shadow := MergedIds(ids, all[k].id).value.Lists();
      && (RuleAt(rules, a).Some? <==> IdsAt(shadow, a).Some?)
      && (RuleAt(rules, a).Some? ==> RuleAt(rules, a).value.action == IdsAt(shadow, a).value.action)
  {
    TranslatedShadow(s, l, nodes, rank);
    TranslatedIdsDiffer(s, l, nodes, rank);
    DistinctIsShadowed(all, ids, k);
    MergedAddressesAgree(all, ids, k, a);
  }
}
