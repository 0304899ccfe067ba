/**
 Merging inherited rules into a policy: the engine's `resolve_inherit_from` over whole
 policies and the RDF runner's `merged_policy_ids` over their id shadows, and that the two
 lay their lists out alike.
 */
module Merging {
  import opened Wrappers
  import opened Collections
  import opened Inheritance
  import opened AncestorWalks
  import opened Rules
  import opened Policies

  /** A successful walk names known policies only. */
  lemma AncestorsAreKnown(parents: Parents, id: Id)
    requires Order(parents, id, []).Ok?
    ensures forall b :: b in Order(parents, id, []).value ==> b in parents
  {
    OrderIsProperAncestors(parents, id, []);
    SucceedsIffWellFounded(parents, id);
    forall b | ProperAncestor(parents, id, b) ensures b in parents {
      ReachIsSelfOrProper(parents, id, b);
    }
  }

  // ---------------------------------------------------------------
  // The id shadow
  // ---------------------------------------------------------------

  function AppendIds(a: PolicyIds, b: PolicyIds): PolicyIds {
    a.(permissions := a.permissions + b.permissions,
       prohibitions := a.prohibitions + b.prohibitions,
       obligations := a.obligations + b.obligations)
  }

  /** `base` with the lists of each named ancestor appended, in order. */
  function InheritIds(base: PolicyIds, ancestors: seq<Id>, all: seq<PolicyIds>): PolicyIds
    requires forall b :: b in ancestors ==> b in Index(IdHeaders(all))
    decreases |ancestors|
  {
    if ancestors == [] then base
    else InheritIds(AppendIds(base, all[Index(IdHeaders(all))[ancestors[0]]]), ancestors[1..], all)
  }

  ghost function MergedIds(all: seq<PolicyIds>, id: Id): Result<PolicyIds, WalkError> {
    var headers := IdHeaders(all);
    if id !in Index(headers) then Err(Unknown(id))
    else
      match Order(ParentsOf(headers), id, [])
      case Err(e) => Err(e)
      case Ok(ancestors) =>
        AncestorsAreKnown(ParentsOf(headers), id);
        Ok(InheritIds(all[Index(headers)[id]], ancestors, all))
  }

  /** Both name the same policies, and each id the same one: all that merging reads of a request's shadows. */
  ghost predicate IndexAlike(a: seq<PolicyIds>, b: seq<PolicyIds>) {
    && Index(IdHeaders(a)).Keys == Index(IdHeaders(b)).Keys
    && forall id :: id in Index(IdHeaders(a)) ==> a[Index(IdHeaders(a))[id]] == b[Index(IdHeaders(b))[id]]
  }

  lemma {:induction false} InheritByIndex(base: PolicyIds, ancestors: seq<Id>, a: seq<PolicyIds>, b: seq<PolicyIds>)
    requires IndexAlike(a, b) && forall x :: x in ancestors ==> x in Index(IdHeaders(a))
    ensures forall x :: x in ancestors ==> x in Index(IdHeaders(b))
    ensures InheritIds(base, ancestors, a) == InheritIds(base, ancestors, b)
    decreases |ancestors|
  {
    forall x | x in ancestors ensures x in Index(IdHeaders(b)) {
      assert x in Index(IdHeaders(a)).Keys;
    }
    if ancestors != [] {
      InheritByIndex(AppendIds(base, a[Index(IdHeaders(a))[ancestors[0]]]), ancestors[1..], a, b);
    }
  }

  lemma ParentsByIndex(a: seq<PolicyIds>, b: seq<PolicyIds>)
    requires IndexAlike(a, b)
    ensures ParentsOf(IdHeaders(a)) == ParentsOf(IdHeaders(b))
  {
    var p, q := ParentsOf(IdHeaders(a)), ParentsOf(IdHeaders(b));
    assert p.Keys == Index(IdHeaders(a)).Keys && q.Keys == Index(IdHeaders(b)).Keys;
    forall id | id in p ensures p[id] == q[id] {
      assert id in Index(IdHeaders(a)) && id in Index(IdHeaders(b));
    }
  }

  /** What an id merges to is told by what the ids name, in whatever order the shadows come. */
  lemma MergeByIndex(a: seq<PolicyIds>, b: seq<PolicyIds>, id: Id)
    requires IndexAlike(a, b)
    ensures MergedIds(a, id) == MergedIds(b, id)
  {
    ParentsByIndex(a, b);
    assert id in Index(IdHeaders(a)).Keys <==> id in Index(IdHeaders(b)).Keys;
    var parents := ParentsOf(IdHeaders(a));
    if id in Index(IdHeaders(a)) && Order(parents, id, []).Ok? {
      AncestorsAreKnown(parents, id);
      InheritByIndex(a[Index(IdHeaders(a))[id]], Order(parents, id, []).value, a, b);
    }
  }

  lemma Elsewhere(a: seq<PolicyIds>, b: seq<PolicyIds>, i: nat) returns (k: nat)
    requires multiset(a) == multiset(b) && i < |a|
    ensures k < |b| && b[k] == a[i]
  {
    assert a[i] in multiset(b);
    k :| 0 <= k < |b| && b[k] == a[i];
  }

  lemma StaysIndexed(a: seq<PolicyIds>, b: seq<PolicyIds>, id: Id)
    requires multiset(a) == multiset(b) && id in Index(IdHeaders(a))
    ensures id in Index(IdHeaders(b))
  {
    var i := Index(IdHeaders(a))[id];
    var k := Elsewhere(a, b, i);
    assert IdHeaders(a)[i].id == id && IdHeaders(b)[k].id == id;
  }

  lemma NamesTheSame(a: seq<PolicyIds>, b: seq<PolicyIds>, id: Id)
    requires multiset(a) == multiset(b) && DistinctIds(IdHeaders(a))
    requires id in Index(IdHeaders(a)) && id in Index(IdHeaders(b))
    ensures a[Index(IdHeaders(a))[id]] == b[Index(IdHeaders(b))[id]]
  {
    var i := Index(IdHeaders(b))[id];
    var k := Elsewhere(b, a, i);
    assert IdHeaders(b)[i].id == id && IdHeaders(a)[k].id == id;
    DistinctIndex(IdHeaders(a), k);
  }

  /** With distinct ids the order of the shadows is irrelevant. */
  lemma DistinctIndexAlike(a: seq<PolicyIds>, b: seq<PolicyIds>)
    requires multiset(a) == multiset(b) && DistinctIds(IdHeaders(a))
    ensures IndexAlike(a, b)
  {
    forall id | id in Index(IdHeaders(a)) ensures id in Index(IdHeaders(b)) {
      StaysIndexed(a, b, id);
    }
    forall id | id in Index(IdHeaders(b)) ensures id in Index(IdHeaders(a)) {
      StaysIndexed(b, a, id);
    }
    forall id | id in Index(IdHeaders(a)) ensures a[Index(IdHeaders(a))[id]] == b[Index(IdHeaders(b))[id]] {
      NamesTheSame(a, b, id);
    }
  }

  method MergedPolicyIds(all: seq<PolicyIds>, id: Id) returns (r: Result<PolicyIds, WalkError>)
    ensures r == MergedIds(all, id)
  {
    var headers := IdHeaders(all);
    var byId := Index(headers);
    if id !in byId {
      return Err(Unknown(id));
    }
    var merged := all[byId[id]];
    var walk := new AncestorWalk(ParentsOf(headers));
    var ancestors := walk.AncestorOrder(id);
    if ancestors.Err? {
      return Err(ancestors.error);
    }
    AncestorsAreKnown(ParentsOf(headers), id);
    var order := ancestors.value;
    ghost var base := merged;
    for i := 0 to |order|
      invariant forall b :: b in order ==> b in byId
      invariant forall b :: b in order[i..] ==> b in order
      invariant InheritIds(merged, order[i..], all) == InheritIds(base, order, all)
    {
      merged := AppendIds(merged, all[byId[order[i]]]);
    }
    return Ok(merged);
  }

  // ---------------------------------------------------------------
  // The engine
  // ---------------------------------------------------------------

  /** What one ancestor contributes: its rules, and whatever party or profile is still unset. */
  function InheritOne(a: WirePolicy, b: WirePolicy): WirePolicy {
    a.(permissions := a.permissions + b.permissions,
       prohibitions := a.prohibitions + b.prohibitions,
       obligations := a.obligations + b.obligations,
       assigner := if a.assigner == "" then b.assigner else a.assigner,
       assignee := if a.assignee.None? then b.assignee else a.assignee,
       profile := Absorb(a.profile, b.profile))
  }

  function InheritRules(base: WirePolicy, ancestors: seq<Id>, all: seq<WirePolicy>): WirePolicy
    requires forall b :: b in ancestors ==> b in Index(Headers(all))
    decreases |ancestors|
  {
    if ancestors == [] then base
    else InheritRules(InheritOne(base, all[Index(Headers(all))[ancestors[0]]]), ancestors[1..], all)
  }

  /** The strategy a policy is taken to have declared: the default casts no vote. */
  function ExplicitConflict(c: ConflictStrategy): seq<ConflictStrategy> {
    if c == Invalid then [] else [c]
  }

  function ConflictVotes(votes: seq<ConflictStrategy>, ancestors: seq<Id>, all: seq<WirePolicy>): seq<ConflictStrategy>
    requires forall b :: b in ancestors ==> b in Index(Headers(all))
    decreases |ancestors|
  {
    if ancestors == [] then votes
    else
      var b := all[Index(Headers(all))[ancestors[0]]];
      ConflictVotes(Absorb(votes, ExplicitConflict(b.conflict)), ancestors[1..], all)
  }

  /** A policy with its inheritance resolved, and whether its declared conflict strategies differ. */
  datatype Resolved = Resolved(policy: WirePolicy, conflictsDiffer: bool)

  ghost function ResolvedPolicy(all: seq<WirePolicy>, policy: WirePolicy): Result<Resolved, WalkError> {
    match Order(ParentsOf(Headers(all)), policy.id, [])
    case Err(e) => Err(e)
    case Ok(ancestors) =>
      AncestorsAreKnown(ParentsOf(Headers(all)), policy.id);
      Ok(Resolved(InheritRules(policy, ancestors, all),
                  |ConflictVotes(ExplicitConflict(policy.conflict), ancestors, all)| > 1))
  }

  /** Every policy of `some` resolved against `all`, or the first that cannot be. */
  ghost function ResolvedPolicies(all: seq<WirePolicy>, some: seq<WirePolicy>): (r: Result<seq<Resolved>, WalkError>)
    ensures r.Ok? ==> |r.value| == |some|
    ensures r.Ok? ==> forall k :: 0 <= k < |some| ==> ResolvedPolicy(all, some[k]) == Ok(r.value[k])
    ensures r.Ok? <==> forall k :: 0 <= k < |some| ==> ResolvedPolicy(all, some[k]).Ok?
  {
    if some == [] then Ok([])
    else
      assert forall k :: 0 <= k < |some| - 1 ==> some[1..][k] == some[k + 1];
      match ResolvedPolicy(all, some[0])
      case Err(e) => Err(e)
      case Ok(first) =>
        match ResolvedPolicies(all, some[1..])
        case Err(e) => Err(e)
        case Ok(rest) => Ok([first] + rest)
  }

  /** The merge loop: `policy` with the given ancestors' rules, parties and profiles. */
  method InheritFrom(policy: WirePolicy, ancestors: seq<Id>, all: seq<WirePolicy>) returns (r: Resolved)
    requires forall b :: b in ancestors ==> b in Index(Headers(all))
    ensures r.policy == InheritRules(policy, ancestors, all)
    ensures r.conflictsDiffer == (|ConflictVotes(ExplicitConflict(policy.conflict), ancestors, all)| > 1)
  {
    var byId := Index(Headers(all));
    var merged := policy;
    var votes := ExplicitConflict(policy.conflict);
    for i := 0 to |ancestors|
      invariant forall b :: b in ancestors[i..] ==> b in ancestors
      invariant InheritRules(merged, ancestors[i..], all) == InheritRules(policy, ancestors, all)
      invariant ConflictVotes(votes, ancestors[i..], all)
             == ConflictVotes(ExplicitConflict(policy.conflict), ancestors, all)
    {
      var ancestor := all[byId[ancestors[i]]];
      merged := InheritOne(merged, ancestor);
      votes := PushMissing(votes, ExplicitConflict(ancestor.conflict));
    }
    return Resolved(merged, |votes| > 1);
  }

  lemma {:induction false} FirstRefusal(all: seq<WirePolicy>, some: seq<WirePolicy>, k: nat, e: WalkError)
    requires k < |some| && ResolvedPolicy(all, some[k]) == Err(e)
    requires forall j :: 0 <= j < k ==> ResolvedPolicy(all, some[j]).Ok?
    ensures ResolvedPolicies(all, some) == Err(e)
    decreases k
  {
    if k > 0 {
      assert ResolvedPolicy(all, some[0]).Ok? && some[1..][k - 1] == some[k];
      FirstRefusal(all, some[1..], k - 1, e);
      assert ResolvedPolicies(all, some[1..]) == Err(e);
    }
  }

  ghost predicate AreResolved(all: seq<WirePolicy>, some: seq<WirePolicy>, out: seq<Resolved>) {
    |out| == |some| && forall j :: 0 <= j < |some| ==> ResolvedPolicy(all, some[j]) == Ok(out[j])
  }

  lemma AllResolve(all: seq<WirePolicy>, some: seq<WirePolicy>, out: seq<Resolved>)
    requires AreResolved(all, some, out)
    ensures ResolvedPolicies(all, some) == Ok(out)
  {
    var r := ResolvedPolicies(all, some);
    assert r.Ok?;
    forall j | 0 <= j < |out| ensures r.value[j] == out[j] {
      assert ResolvedPolicy(all, some[j]) == Ok(r.value[j]);
    }
    assert r.value == out;
  }

  lemma OneMoreResolved(all: seq<WirePolicy>, k: nat, out: seq<Resolved>, next: Resolved)
    requires k < |all| && AreResolved(all, all[..k], out) && ResolvedPolicy(all, all[k]) == Ok(next)
    ensures AreResolved(all, all[..k + 1], out + [next])
  {
    assert all[..k + 1] == all[..k] + [all[k]];
  }

  /** One policy's turn, on the walk the whole request shares. */
  method ResolveOne(all: seq<WirePolicy>, policy: WirePolicy, walk: MemoWalk) returns (r: Result<Resolved, WalkError>)
    requires walk.parents == ParentsOf(Headers(all)) && walk.stack == [] && MemoSound(walk.parents, walk.memo)
    modifies walk
    ensures r == ResolvedPolicy(all, policy)
    ensures r.Ok? ==> walk.stack == [] && MemoSound(walk.parents, walk.memo)
  {
    var ancestors := walk.AncestorOrder(policy.id);
    if ancestors.Err? {
      return Err(ancestors.error);
    }
    AncestorsAreKnown(walk.parents, policy.id);
    var resolved := InheritFrom(policy, ancestors.value, all);
    return Ok(resolved);
  }

  method ResolveInheritFrom(all: seq<WirePolicy>) returns (r: Result<seq<Resolved>, WalkError>)
    ensures r == ResolvedPolicies(all, all)
  {
    var walk := new MemoWalk(ParentsOf(Headers(all)));
    var out: seq<Resolved> := [];
    for k := 0 to |all|
      invariant walk.parents == ParentsOf(Headers(all)) && walk.stack == [] && MemoSound(walk.parents, walk.memo)
      invariant |out| == k && AreResolved(all, all[..k], out)
    {
      var resolved := ResolveOne(all, all[k], walk);
      if resolved.Err? {
        assert forall j :: 0 <= j < k ==> all[..k][j] == all[j];
        FirstRefusal(all, all, k, resolved.error);
        return Err(resolved.error);
      }
      OneMoreResolved(all, k, out, resolved.value);
      out := out + [resolved.value];
    }
    assert all[..|all|] == all;
    AllResolve(all, all, out);
    return Ok(out);
  }

  // ---------------------------------------------------------------
  // The two merges lay their lists out alike
  // ---------------------------------------------------------------

  lemma {:induction false} InheritShapeIff(
      base: WirePolicy, baseIds: PolicyIds, ancestors: seq<Id>, all: seq<WirePolicy>, ids: seq<PolicyIds>)
    requires Shadows(all, ids)
    requires forall b :: b in ancestors ==> b in Index(Headers(all))
    ensures Headers(all) == IdHeaders(ids)
    ensures SameLists(InheritRules(base, ancestors, all).Lists(), InheritIds(baseIds, ancestors, ids).Lists())
       <==> SameLists(base.Lists(), baseIds.Lists())
    decreases |ancestors|
  {
    assert Headers(all) == IdHeaders(ids);
    if ancestors != [] {
      var k := Index(Headers(all))[ancestors[0]];
      var a, b := all[k], ids[k];
      SameShapesCancel(base.permissions, baseIds.permissions, a.permissions, b.permissions);
      SameShapesCancel(base.prohibitions, baseIds.prohibitions, a.prohibitions, b.prohibitions);
      SameShapesCancel(base.obligations, baseIds.obligations, a.obligations, b.obligations);
      InheritShapeIff(InheritOne(base, a), AppendIds(baseIds, b), ancestors[1..], all, ids);
    }
  }

  /** The shadow the merge starts from: that of the last policy with this one's id. */
  ghost function ShadowedBy(all: seq<WirePolicy>, ids: seq<PolicyIds>, k: nat): PolicyIds
    requires Shadows(all, ids) && k < |all|
  {
    assert all[k].id == Headers(all)[k].id;
    ids[Index(Headers(all))[all[k].id]]
  }

  /**
   Projecting rules to ids and inheritance, for any policies, ids shared or not: the two merges
   succeed together, and lay their lists out alike exactly when the policy itself is laid out
   like the shadow its id stands for.
   */
  lemma MergeCommutesIff(all: seq<WirePolicy>, ids: seq<PolicyIds>, k: nat)
    requires Shadows(all, ids) && k < |all|
    ensures ResolvedPolicy(all, all[k]).Ok? <==> MergedIds(ids, all[k].id).Ok?
    ensures ResolvedPolicy(all, all[k]).Ok? ==>
      (SameLists(ResolvedPolicy(all, all[k]).value.policy.Lists(), MergedIds(ids, all[k].id).value.Lists())
       <==> SameLists(all[k].Lists(), ShadowedBy(all, ids, k).Lists()))
  {
    var headers := Headers(all);
    assert headers == IdHeaders(ids) && headers[k].id == all[k].id;
    var walked := Order(ParentsOf(headers), all[k].id, []);
    if walked.Ok? {
      AncestorsAreKnown(ParentsOf(headers), all[k].id);
      InheritShapeIff(all[k], ShadowedBy(all, ids, k), walked.value, all, ids);
    }
  }

  /** With distinct ids a policy's id stands for its own shadow. */
  lemma DistinctIsShadowed(all: seq<WirePolicy>, ids: seq<PolicyIds>, k: nat)
    requires Shadows(all, ids) && DistinctIds(Headers(all)) && k < |all|
    ensures ShadowedBy(all, ids, k) == ids[k] && SameLists(all[k].Lists(), ShadowedBy(all, ids, k).Lists())
  {
    DistinctIndex(Headers(all), k);
  }

  /** So then the merge commutes. */
  lemma MergeCommutes(all: seq<WirePolicy>, ids: seq<PolicyIds>, k: nat)
    requires Shadows(all, ids) && DistinctIds(Headers(all)) && k < |all|
    ensures ResolvedPolicy(all, all[k]).Ok? <==> MergedIds(ids, all[k].id).Ok?
    ensures ResolvedPolicy(all, all[k]).Ok? ==>
      SameLists(ResolvedPolicy(all, all[k]).value.policy.Lists(), MergedIds(ids, all[k].id).value.Lists())
  {
    MergeCommutesIff(all, ids, k);
    DistinctIsShadowed(all, ids, k);
  }

  /** What the comparer relies on: any duty address valid in a merged policy names the right node. */
  lemma MergedAddressesAgree(all: seq<WirePolicy>, ids: seq<PolicyIds>, k: nat, a: DutyAddress)
    requires Shadows(all, ids) && k < |all| && SameLists(all[k].Lists(), ShadowedBy(all, ids, k).Lists())
    requires ResolvedPolicy(all, all[k]).Ok?
    ensures MergedIds(ids, all[k].id).Ok?
    ensures var rules := ResolvedPolicy(all, all[k]).value.policy.Lists();
      var shadow := MergedIds(ids, all[k].id).value.Lists();
      && (RuleAt(rules, a).Some? <==> IdsAt(shadow, a).Some?)
      && (RuleAt(rules, a).Some? ==> RuleAt(rules, a).value.action == IdsAt(shadow, a).value.action)
  {
    MergeCommutesIff(all, ids, k);
    AddressesAgree(ResolvedPolicy(all, all[k]).value.policy.Lists(), MergedIds(ids, all[k].id).value.Lists(), a);
  }

  const READING: Rule := Rule("read", None, [], None, [], [], None)

  const READING_IDS: RuleIds := RuleIds("r", "read", [], [], None)

  const FIRST: WirePolicy := WirePolicy("p", "Set", "", None, [READING], [], [], Invalid, None, [])

  /** A request with two policies of one id, and their shadows. */
  function SharedId(): (r: (seq<WirePolicy>, seq<PolicyIds>))
    ensures Shadows(r.0, r.1) && Headers(r.0) == [Header("p", None), Header("p", None)]
  {
    assert SameShape(READING, READING_IDS);
    ([FIRST, FIRST.(permissions := [])],
     [PolicyIds("p", [READING_IDS], [], [], None), PolicyIds("p", [], [], [], None)])
  }

  /** Two policies that share an id: the engine merges each, the shadow always answers with the later. */
  lemma SharedIdBreaksTheMerge()
    ensures exists all: seq<WirePolicy>, ids: seq<PolicyIds> ::
      && Shadows(all, ids) && |all| == 2
      && ResolvedPolicy(all, all[0]).Ok? && MergedIds(ids, all[0].id).Ok?
      && !SameLists(ResolvedPolicy(all, all[0]).value.policy.Lists(), MergedIds(ids, all[0].id).value.Lists())
  {
    var (all, ids) := SharedId();
    var headers := Headers(all);
    assert headers == IdHeaders(ids);
    assert "p" in Index(headers) && Index(headers)["p"] == 1;
    assert Order(ParentsOf(headers), "p", []) == Ok([]);
    assert ResolvedPolicy(all, all[0]).value.policy.permissions == [READING];
    assert MergedIds(ids, "p").value.permissions == [];
  }
}
