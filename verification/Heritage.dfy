/**
 What inheritance comes to, said of the declared policies themselves: which policy an id names,
 what the walk refuses, and what a resolved policy takes from its ancestors.
 */
module Heritage {
  import opened Wrappers
  import opened Collections
  import opened Inheritance
  import opened Rules
  import opened Policies
  import opened Merging

  // ---------------------------------------------------------------
  // What an id names
  // ---------------------------------------------------------------

  /** The `k`th header is the last one of this id. */
  ghost predicate IsLast(headers: seq<Header>, id: Id, k: nat) {
    && k < |headers| && headers[k].id == id
    && forall j :: k < j < |headers| ==> headers[j].id != id
  }

  /** An id stands for the last policy that carries it, and its parents are the ones that policy names. */
  lemma ParentsAreDeclared(headers: seq<Header>, id: Id, k: nat)
    requires IsLast(headers, id, k)
    ensures id in Index(headers) && Index(headers)[id] == k
    ensures id in ParentsOf(headers)
    ensures headers[k].inheritFrom == None ==> ParentsOf(headers)[id] == []
    ensures forall ids :: headers[k].inheritFrom == Some(ids) ==> ParentsOf(headers)[id] == ids
  {
  }

  lemma KnownAreDeclared(headers: seq<Header>, id: Id)
    ensures id in ParentsOf(headers) <==> exists k: nat :: k < |headers| && headers[k].id == id
  {
    if id in ParentsOf(headers) {
      assert headers[Index(headers)[id]].id == id;
    }
  }

  // ---------------------------------------------------------------
  // What the walk refuses
  // ---------------------------------------------------------------

  /** What a refusal says is so: an id reached and unknown, or a path that comes back to one of its own ids. */
  ghost predicate RefusalIsTrue(parents: Parents, id: Id, e: WalkError) {
    match e
    case Unknown(x) => Reaches(parents, id, x) && x !in parents
    case Circular(path, x) => PathBetween(parents, path + [x], id, x) && x in path
  }

  lemma LongerPath(parents: Parents, p: seq<Id>, x: Id)
    requires IsPath(parents, p) && p[|p| - 1] in parents && x in parents[p[|p| - 1]]
    ensures PathBetween(parents, p + [x], p[0], x)
  {
    assert PathBetween(parents, [p[|p| - 1], x], p[|p| - 1], x);
    JoinPaths(parents, p, [p[|p| - 1], x]);
    assert p + [p[|p| - 1], x][1..] == p + [x];
  }

  lemma {:induction false} RefusalBelow(parents: Parents, stack: seq<Id>, id: Id)
    requires IsPath(parents, stack + [id])
    requires Order(parents, id, stack).Err?
    ensures RefusalIsTrue(parents, (stack + [id])[0], Order(parents, id, stack).error)
    decreases Remaining(parents, stack), 0
  {
    var here := stack + [id];
    if id !in stack {
      if id in parents {
        PushShrinks(parents, stack, id);
        forall x | x in parents[id] ensures IsPath(parents, here + [x]) {
          LongerPath(parents, here, x);
        }
        RefusalAmong(parents, here, parents[id], []);
      } else {
        assert PathBetween(parents, here, here[0], id);
      }
    } else {
      assert PathBetween(parents, here, here[0], id);
    }
  }

  lemma {:induction false} RefusalAmong(parents: Parents, stack: seq<Id>, ids: seq<Id>, order: seq<Id>)
    requires |stack| > 0 && forall x :: x in ids ==> IsPath(parents, stack + [x])
    requires OrderAll(parents, ids, stack, order).Err?
    ensures RefusalIsTrue(parents, stack[0], OrderAll(parents, ids, stack, order).error)
    decreases Remaining(parents, stack), 1, |ids|
  {
    assert ids == [ids[0]] + ids[1..];
    if Order(parents, ids[0], stack).Err? {
      RefusalBelow(parents, stack, ids[0]);
    } else {
      RefusalAmong(parents, stack, ids[1..], Absorb(order, [ids[0]] + Order(parents, ids[0], stack).value));
    }
  }

  /** A refused walk names an unknown id that is reached, or a path from `id` that closes a circle. */
  lemma RefusalMeans(parents: Parents, id: Id)
    requires Order(parents, id, []).Err?
    ensures RefusalIsTrue(parents, id, Order(parents, id, []).error)
  {
    assert [] + [id] == [id];
    RefusalBelow(parents, [], id);
  }

  // ---------------------------------------------------------------
  // What a resolved policy takes
  // ---------------------------------------------------------------

  ghost predicate LastOfItsId(all: seq<WirePolicy>, p: WirePolicy) {
    exists k: nat :: IsLast(Headers(all), p.id, k) && all[k] == p
  }

  /** These are the distinct ancestors of an id, in the order in which a depth-first walk first meets them. */
  ghost predicate AreAncestors(parents: Parents, id: Id, ids: seq<Id>) {
    && ids == Dedup(Preorder(parents, id, [])) && NoDuplicates(ids)
    && forall b :: b in ids <==> ProperAncestor(parents, id, b)
  }

  /** A policy followed by its ancestors, each the last policy of its id. */
  ghost predicate IsLine(all: seq<WirePolicy>, policy: WirePolicy, line: seq<WirePolicy>) {
    && |line| > 0 && line[0] == policy
    && AreAncestors(ParentsOf(Headers(all)), policy.id, IdsOf(line[1..]))
    && forall k :: 0 < k < |line| ==> LastOfItsId(all, line[k])
  }

  function IdsOf(line: seq<WirePolicy>): (r: seq<Id>)
    ensures |r| == |line| && forall k :: 0 <= k < |r| ==> r[k] == line[k].id
  {
    seq(|line|, k requires 0 <= k < |line| => line[k].id)
  }

  /** What each of them has, one after the other. */
  function Gathered<P, T>(line: seq<P>, of: P -> seq<T>): seq<T> {
    if line == [] then [] else of(line[0]) + Gathered(line[1..], of)
  }

  function PermissionsOf(p: WirePolicy): seq<Rule> { p.permissions }
  function ProhibitionsOf(p: WirePolicy): seq<Rule> { p.prohibitions }
  function ObligationsOf(p: WirePolicy): seq<Rule> { p.obligations }
  function ProfilesOf(p: WirePolicy): seq<string> { p.profile }

  /** The first assigner that is set along the line, and none when none is. */
  ghost predicate FirstAssigner(line: seq<WirePolicy>, assigner: string) {
    if assigner == "" then forall k :: 0 <= k < |line| ==> line[k].assigner == ""
    else (exists k :: 0 <= k < |line| && line[k].assigner == assigner
            && forall j :: 0 <= j < k ==> line[j].assigner == "")
  }

  ghost predicate FirstAssignee(line: seq<WirePolicy>, assignee: Option<string>) {
    if assignee.None? then forall k :: 0 <= k < |line| ==> line[k].assignee.None?
    else (exists k :: 0 <= k < |line| && line[k].assignee == assignee
            && forall j :: 0 <= j < k ==> line[j].assignee.None?)
  }

  /** Two of them declare strategies that differ; the default declares none. */
  ghost predicate StrategiesDiffer(line: seq<WirePolicy>) {
    exists v, u :: v != u && v != Invalid && u != Invalid && Declares(line, v) && Declares(line, u)
  }

  ghost predicate Declares(line: seq<WirePolicy>, v: ConflictStrategy) {
    exists k :: 0 <= k < |line| && line[k].conflict == v
  }

  ghost predicate Merges(line: seq<WirePolicy>, r: Resolved)
    requires |line| > 0
  {
    && r.policy.id == line[0].id && r.policy.kind == line[0].kind
    && r.policy.conflict == line[0].conflict && r.policy.inheritFrom == line[0].inheritFrom
    && r.policy.permissions == Gathered(line, PermissionsOf)
    && r.policy.prohibitions == Gathered(line, ProhibitionsOf)
    && r.policy.obligations == Gathered(line, ObligationsOf)
    && FirstAssigner(line, r.policy.assigner)
    && FirstAssignee(line, r.policy.assignee)
    && AddsInOrder(line[0].profile, Gathered(line[1..], ProfilesOf), r.policy.profile)
    && (r.conflictsDiffer <==> StrategiesDiffer(line))
  }

  function Relatives(ancestors: seq<Id>, all: seq<WirePolicy>): seq<WirePolicy>
    requires forall b :: b in ancestors ==> b in Index(Headers(all))
  {
    if ancestors == [] then [] else [all[Index(Headers(all))[ancestors[0]]]] + Relatives(ancestors[1..], all)
  }

  lemma {:induction false} RelativesAreNamed(ancestors: seq<Id>, all: seq<WirePolicy>)
    requires forall b :: b in ancestors ==> b in Index(Headers(all))
    ensures |Relatives(ancestors, all)| == |ancestors|
    ensures forall k :: 0 <= k < |ancestors| ==>
      Relatives(ancestors, all)[k].id == ancestors[k] && LastOfItsId(all, Relatives(ancestors, all)[k])
    decreases |ancestors|
  {
    if ancestors != [] {
      var headers := Headers(all);
      var k := Index(headers)[ancestors[0]];
      assert IsLast(headers, ancestors[0], k) && all[k].id == ancestors[0];
      assert LastOfItsId(all, all[k]);
      RelativesAreNamed(ancestors[1..], all);
      assert forall j :: 0 < j < |ancestors| ==>
        Relatives(ancestors, all)[j] == Relatives(ancestors[1..], all)[j - 1] && ancestors[j] == ancestors[1..][j - 1];
    }
  }

  lemma {:induction false} GathersRules(base: WirePolicy, ancestors: seq<Id>, all: seq<WirePolicy>)
    requires forall b :: b in ancestors ==> b in Index(Headers(all))
    ensures var r := InheritRules(base, ancestors, all);
      var kin := Relatives(ancestors, all);
      && r.permissions == base.permissions + Gathered(kin, PermissionsOf)
      && r.prohibitions == base.prohibitions + Gathered(kin, ProhibitionsOf)
      && r.obligations == base.obligations + Gathered(kin, ObligationsOf)
    decreases |ancestors|
  {
    if ancestors != [] {
      var b := all[Index(Headers(all))[ancestors[0]]];
      var kin := Relatives(ancestors, all);
      assert kin[0] == b && kin[1..] == Relatives(ancestors[1..], all);
      GathersRules(InheritOne(base, b), ancestors[1..], all);
      Associates(base.permissions, b.permissions, Gathered(kin[1..], PermissionsOf));
      Associates(base.prohibitions, b.prohibitions, Gathered(kin[1..], ProhibitionsOf));
      Associates(base.obligations, b.obligations, Gathered(kin[1..], ObligationsOf));
    }
  }

  lemma {:induction false} KeepsTheRest(base: WirePolicy, ancestors: seq<Id>, all: seq<WirePolicy>)
    requires forall b :: b in ancestors ==> b in Index(Headers(all))
    ensures var r := InheritRules(base, ancestors, all);
      && r.id == base.id && r.kind == base.kind && r.conflict == base.conflict && r.inheritFrom == base.inheritFrom
      && r.profile == Absorb(base.profile, Gathered(Relatives(ancestors, all), ProfilesOf))
    decreases |ancestors|
  {
    if ancestors != [] {
      var b := all[Index(Headers(all))[ancestors[0]]];
      var kin := Relatives(ancestors, all);
      assert kin[0] == b && kin[1..] == Relatives(ancestors[1..], all);
      KeepsTheRest(InheritOne(base, b), ancestors[1..], all);
      AbsorbAppend(base.profile, b.profile, Gathered(kin[1..], ProfilesOf));
    }
  }

  /** Taking over what one ancestor sets, and looking further, is looking from the start. */
  lemma AssignerOneFurther(a: WirePolicy, b: WirePolicy, kin: seq<WirePolicy>, assigner: string)
    requires FirstAssigner([InheritOne(a, b)] + kin, assigner)
    ensures FirstAssigner([a] + ([b] + kin), assigner)
  {
    var line, rest := [a] + ([b] + kin), [InheritOne(a, b)] + kin;
    assert forall k :: 1 < k < |line| ==> line[k] == rest[k - 1];
    if assigner == "" {
      forall k | 0 <= k < |line| ensures line[k].assigner == "" {
        assert rest[0].assigner == "" && (k > 1 ==> rest[k - 1].assigner == "");
      }
    } else {
      var k :| 0 <= k < |rest| && rest[k].assigner == assigner && forall j :: 0 <= j < k ==> rest[j].assigner == "";
      if a.assigner == "" {
        forall j | 0 <= j < k + 1 ensures line[j].assigner == "" {
          assert j >= 1 ==> rest[j - 1].assigner == "";
        }
        assert line[1] == b && (k >= 1 ==> line[k + 1] == rest[k]);
        assert line[k + 1].assigner == assigner;
      } else {
        assert rest[0].assigner != "";
        assert k == 0 && line[0].assigner == assigner;
      }
    }
  }

  lemma AssigneeOneFurther(a: WirePolicy, b: WirePolicy, kin: seq<WirePolicy>, assignee: Option<string>)
    requires FirstAssignee([InheritOne(a, b)] + kin, assignee)
    ensures FirstAssignee([a] + ([b] + kin), assignee)
  {
    var line, rest := [a] + ([b] + kin), [InheritOne(a, b)] + kin;
    assert forall k :: 1 < k < |line| ==> line[k] == rest[k - 1];
    if assignee.None? {
      forall k | 0 <= k < |line| ensures line[k].assignee.None? {
        assert rest[0].assignee.None? && (k > 1 ==> rest[k - 1].assignee.None?);
      }
    } else {
      var k :| 0 <= k < |rest| && rest[k].assignee == assignee && forall j :: 0 <= j < k ==> rest[j].assignee.None?;
      if a.assignee.None? {
        forall j | 0 <= j < k + 1 ensures line[j].assignee.None? {
          assert j >= 1 ==> rest[j - 1].assignee.None?;
        }
        assert line[1] == b && (k >= 1 ==> line[k + 1] == rest[k]);
        assert line[k + 1].assignee == assignee;
      } else {
        assert !rest[0].assignee.None?;
        assert k == 0 && line[0].assignee == assignee;
      }
    }
  }

  lemma {:induction false} TakesFirstParties(base: WirePolicy, ancestors: seq<Id>, all: seq<WirePolicy>)
    requires forall b :: b in ancestors ==> b in Index(Headers(all))
    ensures FirstAssigner([base] + Relatives(ancestors, all), InheritRules(base, ancestors, all).assigner)
    ensures FirstAssignee([base] + Relatives(ancestors, all), InheritRules(base, ancestors, all).assignee)
    decreases |ancestors|
  {
    if ancestors == [] {
      assert ([base] + Relatives(ancestors, all))[0] == base;
    } else {
      var b := all[Index(Headers(all))[ancestors[0]]];
      TakesFirstParties(InheritOne(base, b), ancestors[1..], all);
      AssignerOneFurther(base, b, Relatives(ancestors[1..], all), InheritRules(base, ancestors, all).assigner);
      AssigneeOneFurther(base, b, Relatives(ancestors[1..], all), InheritRules(base, ancestors, all).assignee);
    }
  }

  function Declared(p: WirePolicy): seq<ConflictStrategy> {
    ExplicitConflict(p.conflict)
  }

  lemma {:induction false} CountsVotes(votes: seq<ConflictStrategy>, ancestors: seq<Id>, all: seq<WirePolicy>)
    requires forall b :: b in ancestors ==> b in Index(Headers(all))
    ensures ConflictVotes(votes, ancestors, all) == Absorb(votes, Gathered(Relatives(ancestors, all), Declared))
    decreases |ancestors|
  {
    if ancestors != [] {
      var b := all[Index(Headers(all))[ancestors[0]]];
      var kin := Relatives(ancestors, all);
      assert kin[0] == b && kin[1..] == Relatives(ancestors[1..], all);
      CountsVotes(Absorb(votes, ExplicitConflict(b.conflict)), ancestors[1..], all);
      AbsorbAppend(votes, Declared(b), Gathered(kin[1..], Declared));
    }
  }

  lemma {:induction false} VotesOfAll(line: seq<WirePolicy>, v: ConflictStrategy)
    ensures v in Gathered(line, Declared) <==> v != Invalid && Declares(line, v)
  {
    if line != [] {
      VotesOfAll(line[1..], v);
      assert forall k :: 0 < k < |line| ==> line[k] == line[1..][k - 1];
      if k :| 0 <= k < |line[1..]| && line[1..][k].conflict == v {
        assert line[k + 1].conflict == v;
      }
    }
  }

  lemma DifferIffTwoVotes(policy: WirePolicy, kin: seq<WirePolicy>)
    ensures |Absorb(ExplicitConflict(policy.conflict), Gathered(kin, Declared))| > 1
       <==> StrategiesDiffer([policy] + kin)
  {
    var line := [policy] + kin;
    var votes := Absorb(Declared(policy), Gathered(kin, Declared));
    AbsorbMembers(Declared(policy), Gathered(kin, Declared));
    assert Gathered(line, Declared) == Declared(policy) + Gathered(kin, Declared) by {
      assert line[0] == policy && line[1..] == kin;
    }
    forall v ensures v in votes <==> v != Invalid && Declares(line, v) {
      VotesOfAll(line, v);
    }
    if |votes| > 1 {
      assert votes[0] in votes && votes[1] in votes && votes[0] != votes[1];
    }
  }

  lemma WalkedAreAncestors(parents: Parents, id: Id, ancestors: seq<Id>)
    requires Order(parents, id, []) == Ok(ancestors)
    ensures AreAncestors(parents, id, ancestors)
    ensures forall b :: b in ancestors ==> b in parents
  {
    AncestorsAreKnown(parents, id);
    OrderIsDedupedPreorder(parents, id, []);
    OrderIsProperAncestors(parents, id, []);
  }

  lemma HeadsItsLine(all: seq<WirePolicy>, policy: WirePolicy, ancestors: seq<Id>)
    requires Order(ParentsOf(Headers(all)), policy.id, []) == Ok(ancestors)
    ensures forall b :: b in ancestors ==> b in Index(Headers(all))
    ensures IsLine(all, policy, [policy] + Relatives(ancestors, all))
  {
    WalkedAreAncestors(ParentsOf(Headers(all)), policy.id, ancestors);
    RelativesAreNamed(ancestors, all);
    var kin := Relatives(ancestors, all);
    assert ([policy] + kin)[1..] == kin && IdsOf(kin) == ancestors;
  }

  lemma MergesItsLine(all: seq<WirePolicy>, policy: WirePolicy, ancestors: seq<Id>)
    requires forall b :: b in ancestors ==> b in Index(Headers(all))
    ensures Merges(
      [policy] + Relatives(ancestors, all),
      Resolved(InheritRules(policy, ancestors, all),
               |ConflictVotes(ExplicitConflict(policy.conflict), ancestors, all)| > 1))
  {
    var kin := Relatives(ancestors, all);
    assert ([policy] + kin)[1..] == kin;
    GathersRules(policy, ancestors, all);
    KeepsTheRest(policy, ancestors, all);
    TakesFirstParties(policy, ancestors, all);
    CountsVotes(ExplicitConflict(policy.conflict), ancestors, all);
    DifferIffTwoVotes(policy, kin);
    AbsorbAddsInOrder(policy.profile, Gathered(kin, ProfilesOf));
  }

  /**
   A resolved policy is the merge of the line it heads: its own rules followed by those of every
   policy reached through `inheritFrom`, the first party set along the line, every profile once.
   */
  lemma ResolvedMeans(all: seq<WirePolicy>, policy: WirePolicy)
    requires ResolvedPolicy(all, policy).Ok?
    ensures exists line :: IsLine(all, policy, line) && Merges(line, ResolvedPolicy(all, policy).value)
  {
    var ancestors := Order(ParentsOf(Headers(all)), policy.id, []).value;
    HeadsItsLine(all, policy, ancestors);
    MergesItsLine(all, policy, ancestors);
  }

  // ---------------------------------------------------------------
  // The id shadow
  // ---------------------------------------------------------------

  ghost predicate LastShadow(all: seq<PolicyIds>, p: PolicyIds) {
    exists k: nat :: IsLast(IdHeaders(all), p.id, k) && all[k] == p
  }

  function ShadowIds(line: seq<PolicyIds>): (r: seq<Id>)
    ensures |r| == |line| && forall k :: 0 <= k < |r| ==> r[k] == line[k].id
  {
    seq(|line|, k requires 0 <= k < |line| => line[k].id)
  }

  /** The last shadow of an id followed by those of its ancestors. */
  ghost predicate IsShadowLine(all: seq<PolicyIds>, id: Id, line: seq<PolicyIds>) {
    && |line| > 0 && line[0].id == id
    && AreAncestors(ParentsOf(IdHeaders(all)), id, ShadowIds(line[1..]))
    && forall k :: 0 <= k < |line| ==> LastShadow(all, line[k])
  }

  function PermissionIdsOf(p: PolicyIds): seq<RuleIds> { p.permissions }
  function ProhibitionIdsOf(p: PolicyIds): seq<RuleIds> { p.prohibitions }
  function ObligationIdsOf(p: PolicyIds): seq<RuleIds> { p.obligations }

  function ShadowRelatives(ancestors: seq<Id>, all: seq<PolicyIds>): seq<PolicyIds>
    requires forall b :: b in ancestors ==> b in Index(IdHeaders(all))
  {
    if ancestors == [] then [] else [all[Index(IdHeaders(all))[ancestors[0]]]] + ShadowRelatives(ancestors[1..], all)
  }

  lemma {:induction false} ShadowRelativesAreNamed(ancestors: seq<Id>, all: seq<PolicyIds>)
    requires forall b :: b in ancestors ==> b in Index(IdHeaders(all))
    ensures |ShadowRelatives(ancestors, all)| == |ancestors|
    ensures forall k :: 0 <= k < |ancestors| ==>
      ShadowRelatives(ancestors, all)[k].id == ancestors[k] && LastShadow(all, ShadowRelatives(ancestors, all)[k])
    decreases |ancestors|
  {
    if ancestors != [] {
      LastIsIndexed(all, ancestors[0]);
      var rest := ShadowRelatives(ancestors[1..], all);
      ShadowRelativesAreNamed(ancestors[1..], all);
      assert ShadowRelatives(ancestors, all) == [all[Index(IdHeaders(all))[ancestors[0]]]] + rest;
      forall j | 0 <= j < |ancestors|
        ensures ShadowRelatives(ancestors, all)[j].id == ancestors[j]
        ensures LastShadow(all, ShadowRelatives(ancestors, all)[j])
      {
        if j > 0 {
          assert ShadowRelatives(ancestors, all)[j] == rest[j - 1] && ancestors[j] == ancestors[1..][j - 1];
        }
      }
    }
  }

  lemma LastIsIndexed(all: seq<PolicyIds>, id: Id)
    requires id in Index(IdHeaders(all))
    ensures all[Index(IdHeaders(all))[id]].id == id && LastShadow(all, all[Index(IdHeaders(all))[id]])
  {
    var headers := IdHeaders(all);
    assert IsLast(headers, id, Index(headers)[id]) && all[Index(headers)[id]].id == id;
  }

  lemma {:induction false} GathersIds(base: PolicyIds, ancestors: seq<Id>, all: seq<PolicyIds>)
    requires forall b :: b in ancestors ==> b in Index(IdHeaders(all))
    ensures var r := InheritIds(base, ancestors, all);
      var kin := ShadowRelatives(ancestors, all);
      && r.id == base.id && r.inheritFrom == base.inheritFrom
      && r.permissions == base.permissions + Gathered(kin, PermissionIdsOf)
      && r.prohibitions == base.prohibitions + Gathered(kin, ProhibitionIdsOf)
      && r.obligations == base.obligations + Gathered(kin, ObligationIdsOf)
    decreases |ancestors|
  {
    if ancestors != [] {
      var b := all[Index(IdHeaders(all))[ancestors[0]]];
      var kin := ShadowRelatives(ancestors, all);
      assert kin[0] == b && kin[1..] == ShadowRelatives(ancestors[1..], all);
      GathersIds(AppendIds(base, b), ancestors[1..], all);
      Associates(base.permissions, b.permissions, Gathered(kin[1..], PermissionIdsOf));
      Associates(base.prohibitions, b.prohibitions, Gathered(kin[1..], ProhibitionIdsOf));
      Associates(base.obligations, b.obligations, Gathered(kin[1..], ObligationIdsOf));
    }
  }

  ghost predicate MergesIds(line: seq<PolicyIds>, r: PolicyIds)
    requires |line| > 0
  {
    && r.id == line[0].id
    && r.permissions == Gathered(line, PermissionIdsOf)
    && r.prohibitions == Gathered(line, ProhibitionIdsOf)
    && r.obligations == Gathered(line, ObligationIdsOf)
  }

  lemma HeadsShadowLine(all: seq<PolicyIds>, id: Id, ancestors: seq<Id>)
    requires id in Index(IdHeaders(all)) && Order(ParentsOf(IdHeaders(all)), id, []) == Ok(ancestors)
    ensures forall b :: b in ancestors ==> b in Index(IdHeaders(all))
    ensures var line := [all[Index(IdHeaders(all))[id]]] + ShadowRelatives(ancestors, all);
      IsShadowLine(all, id, line)
  {
    WalkedAreAncestors(ParentsOf(IdHeaders(all)), id, ancestors);
    LastIsIndexed(all, id);
    ShadowRelativesAreNamed(ancestors, all);
    var base, kin := all[Index(IdHeaders(all))[id]], ShadowRelatives(ancestors, all);
    var line := [base] + kin;
    assert line[1..] == kin && ShadowIds(kin) == ancestors;
    assert forall k :: 0 < k < |line| ==> line[k] == kin[k - 1];
  }

  lemma MergesShadowLine(base: PolicyIds, ancestors: seq<Id>, all: seq<PolicyIds>)
    requires forall b :: b in ancestors ==> b in Index(IdHeaders(all))
    ensures MergesIds([base] + ShadowRelatives(ancestors, all), InheritIds(base, ancestors, all))
  {
    GathersIds(base, ancestors, all);
    assert ([base] + ShadowRelatives(ancestors, all))[1..] == ShadowRelatives(ancestors, all);
  }

  /** An id is merged exactly when all reached from it is known and not its own ancestor; a refusal tells the truth. */
  lemma MergeableIff(all: seq<PolicyIds>, id: Id)
    ensures MergedIds(all, id).Ok? <==> WellFounded(ParentsOf(IdHeaders(all)), id)
    ensures MergedIds(all, id).Err? ==> RefusalIsTrue(ParentsOf(IdHeaders(all)), id, MergedIds(all, id).error)
  {
    var parents := ParentsOf(IdHeaders(all));
    SucceedsIffWellFounded(parents, id);
    if id !in parents {
      assert Order(parents, id, []) == Err(Unknown(id));
    }
    if Order(parents, id, []).Err? {
      RefusalMeans(parents, id);
    }
  }

  /** The merged shadow of an id gathers the lists of the shadows along its line. */
  lemma MergedIdsMeans(all: seq<PolicyIds>, id: Id)
    requires MergedIds(all, id).Ok?
    ensures exists line :: IsShadowLine(all, id, line) && MergesIds(line, MergedIds(all, id).value)
  {
    var ancestors := Order(ParentsOf(IdHeaders(all)), id, []).value;
    HeadsShadowLine(all, id, ancestors);
    MergesShadowLine(all[Index(IdHeaders(all))[id]], ancestors, all);
  }
}
