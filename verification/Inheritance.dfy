/**
 The `inheritFrom` walk: the distinct ancestors of a policy, in depth-first preorder.

 Two programs compute it. The RDF runner walks with a stack alone; the engine also keeps a
 memo. `Order` is what both compute; the rest of the module says what `Order` is in terms of
 the inheritance graph.
 */
module Inheritance {
  import opened Wrappers
  import opened Collections

  type Id = string

  /** Each known policy id with the parents it declares; no declaration is an empty list. */
  type Parents = map<Id, seq<Id>>

  datatype WalkError =
    | Circular(path: seq<Id>, id: Id)
    | Unknown(id: Id)

  type Walked = Result<seq<Id>, WalkError>

  /** How many known ids are still off the stack: what every descent uses up. */
  ghost function Remaining(parents: Parents, stack: seq<Id>): nat {
    |parents.Keys - Elements(stack)|
  }

  lemma PushShrinks(parents: Parents, stack: seq<Id>, id: Id)
    requires id in parents && id !in stack
    ensures Remaining(parents, stack + [id]) < Remaining(parents, stack)
  {
    var before := parents.Keys - Elements(stack);
    var after := parents.Keys - Elements(stack + [id]);
    assert after == before - {id};
    assert id in before;
  }

  ghost function Order(parents: Parents, id: Id, stack: seq<Id>): Walked
    decreases Remaining(parents, stack), 0
  {
    if id in stack then Err(Circular(stack, id))
    else if id !in parents then Err(Unknown(id))
    else
      PushShrinks(parents, stack, id);
      OrderAll(parents, parents[id], stack + [id], [])
  }

  /** `order` extended by each of `ids` and that id's own ancestors, in turn. */
  ghost function OrderAll(parents: Parents, ids: seq<Id>, stack: seq<Id>, order: seq<Id>): Walked
    decreases Remaining(parents, stack), 1, |ids|
  {
    if ids == [] then Ok(order)
    else
      match Order(parents, ids[0], stack)
      case Err(e) => Err(e)
      case Ok(ancestors) => OrderAll(parents, ids[1..], stack, Absorb(order, [ids[0]] + ancestors))
  }

  // ---------------------------------------------------------------
  // The inheritance graph
  // ---------------------------------------------------------------

  /** `p` follows declared parents from each of its ids to the next. */
  ghost predicate IsPath(parents: Parents, p: seq<Id>) {
    && |p| > 0
    && forall i {:trigger p[i]} :: 0 <= i < |p| - 1 ==> p[i] in parents && p[i + 1] in parents[p[i]]
  }

  ghost predicate PathBetween(parents: Parents, p: seq<Id>, from: Id, to: Id) {
    IsPath(parents, p) && p[0] == from && p[|p| - 1] == to
  }

  /** `to` is `from`, a parent of it, a parent of one of those, and so on. */
  ghost predicate Reaches(parents: Parents, from: Id, to: Id) {
    exists p :: PathBetween(parents, p, from, to)
  }

  /** `to` is reached from `from` in at least one step. */
  ghost predicate ProperAncestor(parents: Parents, from: Id, to: Id) {
    exists p :: PathBetween(parents, p, from, to) && |p| > 1
  }

  /** Every id reachable from `id` is a known policy, and none of them is its own ancestor. */
  ghost predicate WellFounded(parents: Parents, id: Id) {
    && (forall b :: Reaches(parents, id, b) ==> b in parents)
    && (forall b :: Reaches(parents, id, b) ==> !ProperAncestor(parents, b, b))
  }

  lemma ConsPath(parents: Parents, id: Id, q: seq<Id>)
    requires id in parents && IsPath(parents, q) && q[0] in parents[id]
    ensures IsPath(parents, [id] + q)
  {
    var p := [id] + q;
    forall i {:trigger p[i]} | 0 <= i < |p| - 1
      ensures p[i] in parents && p[i + 1] in parents[p[i]]
    {
      if i > 0 {
        assert p[i] == q[i - 1] && p[i + 1] == q[i];
      }
    }
  }

  lemma TailPath(parents: Parents, p: seq<Id>)
    requires IsPath(parents, p) && |p| > 1
    ensures IsPath(parents, p[1..]) && p[0] in parents && p[1] in parents[p[0]]
  {
    var q := p[1..];
    assert p[0] == p[0];
    forall i {:trigger q[i]} | 0 <= i < |q| - 1
      ensures q[i] in parents && q[i + 1] in parents[q[i]]
    {
      assert q[i] == p[i + 1] && q[i + 1] == p[i + 2];
    }
  }

  lemma SubPath(parents: Parents, p: seq<Id>, i: nat, j: nat)
    requires IsPath(parents, p) && i <= j < |p|
    ensures PathBetween(parents, p[i..j + 1], p[i], p[j])
  {
    var q := p[i..j + 1];
    forall k {:trigger q[k]} | 0 <= k < |q| - 1
      ensures q[k] in parents && q[k + 1] in parents[q[k]]
    {
      assert q[k] == p[i + k] && q[k + 1] == p[i + k + 1];
    }
  }

  lemma JoinPaths(parents: Parents, p: seq<Id>, q: seq<Id>)
    requires IsPath(parents, p) && IsPath(parents, q) && p[|p| - 1] == q[0]
    ensures PathBetween(parents, p + q[1..], p[0], q[|q| - 1])
  {
    var r := p + q[1..];
    forall k {:trigger r[k]} | 0 <= k < |r| - 1
      ensures r[k] in parents && r[k + 1] in parents[r[k]]
    {
      if k < |p| - 1 {
        assert r[k] == p[k] && r[k + 1] == p[k + 1];
      } else {
        var m := k - (|p| - 1);
        assert r[k] == q[m] && r[k + 1] == q[m + 1];
      }
    }
  }

  // ---------------------------------------------------------------
  // When the walk succeeds
  // ---------------------------------------------------------------

  /** A path the walk can follow to its end: all ids known, none repeated, none on the stack. */
  ghost predicate Clear(parents: Parents, p: seq<Id>, stack: seq<Id>) {
    && (forall i :: 0 <= i < |p| ==> p[i] in parents && p[i] !in stack)
    && NoDuplicates(p)
  }

  ghost predicate AllClear(parents: Parents, id: Id, stack: seq<Id>) {
    forall p :: IsPath(parents, p) && p[0] == id ==> Clear(parents, p, stack)
  }

  lemma {:induction false} OrderOkIsClear(parents: Parents, id: Id, stack: seq<Id>)
    requires Order(parents, id, stack).Ok?
    ensures AllClear(parents, id, stack)
    decreases Remaining(parents, stack), 0
  {
    PushShrinks(parents, stack, id);
    OrderAllOkIsClear(parents, parents[id], stack + [id], []);
    forall p | IsPath(parents, p) && p[0] == id
      ensures Clear(parents, p, stack)
    {
      if |p| > 1 {
        TailPath(parents, p);
        var q := p[1..];
        assert Clear(parents, q, stack + [id]);
        forall i | 0 <= i < |p| ensures p[i] in parents && p[i] !in stack {
          if i > 0 { assert p[i] == q[i - 1]; assert q[i - 1] !in stack + [id]; }
        }
        forall i, j | 0 <= i < j < |p| ensures p[i] != p[j] {
          assert p[j] == q[j - 1];
          if i > 0 { assert p[i] == q[i - 1]; } else { assert q[j - 1] !in stack + [id]; }
        }
      }
    }
  }

  lemma {:induction false} OrderAllOkIsClear(parents: Parents, ids: seq<Id>, stack: seq<Id>, order: seq<Id>)
    requires OrderAll(parents, ids, stack, order).Ok?
    ensures forall x :: x in ids ==> AllClear(parents, x, stack)
    decreases Remaining(parents, stack), 1, |ids|
  {
    if ids != [] {
      OrderOkIsClear(parents, ids[0], stack);
      var ancestors := Order(parents, ids[0], stack).value;
      OrderAllOkIsClear(parents, ids[1..], stack, Absorb(order, [ids[0]] + ancestors));
      assert ids == [ids[0]] + ids[1..];
    }
  }

  /** A walk that is refused has met an obstacle: some path from `id` is not clear. */
  lemma {:induction false} OrderErrIsBlocked(parents: Parents, id: Id, stack: seq<Id>) returns (p: seq<Id>)
    requires Order(parents, id, stack).Err?
    ensures IsPath(parents, p) && p[0] == id && !Clear(parents, p, stack)
    decreases Remaining(parents, stack), 0
  {
    if id in stack || id !in parents {
      p := [id];
    } else {
      PushShrinks(parents, stack, id);
      var q := OrderAllErrIsBlocked(parents, parents[id], stack + [id], []);
      ConsPath(parents, id, q);
      p := [id] + q;
      if Clear(parents, p, stack) {
        forall i | 0 <= i < |q| ensures q[i] in parents && q[i] !in stack + [id] {
          assert q[i] == p[i + 1] && p[0] == id;
        }
        forall i, j | 0 <= i < j < |q| ensures q[i] != q[j] {
          assert q[i] == p[i + 1] && q[j] == p[j + 1];
        }
        assert false;
      }
    }
  }

  lemma {:induction false} OrderAllErrIsBlocked(parents: Parents, ids: seq<Id>, stack: seq<Id>, order: seq<Id>)
    returns (p: seq<Id>)
    requires OrderAll(parents, ids, stack, order).Err?
    ensures IsPath(parents, p) && p[0] in ids && !Clear(parents, p, stack)
    decreases Remaining(parents, stack), 1, |ids|
  {
    if Order(parents, ids[0], stack).Err? {
      p := OrderErrIsBlocked(parents, ids[0], stack);
    } else {
      var ancestors := Order(parents, ids[0], stack).value;
      p := OrderAllErrIsBlocked(parents, ids[1..], stack, Absorb(order, [ids[0]] + ancestors));
      assert ids == [ids[0]] + ids[1..];
    }
  }

  lemma OrderOkIffClear(parents: Parents, id: Id, stack: seq<Id>)
    ensures Order(parents, id, stack).Ok? <==> AllClear(parents, id, stack)
  {
    if Order(parents, id, stack).Ok? {
      OrderOkIsClear(parents, id, stack);
    } else {
      var p := OrderErrIsBlocked(parents, id, stack);
    }
  }

  /** Started on an empty stack, the walk succeeds exactly on the well-founded ids. */
  lemma SucceedsIffWellFounded(parents: Parents, id: Id)
    ensures Order(parents, id, []).Ok? <==> WellFounded(parents, id)
  {
    OrderOkIffClear(parents, id, []);
    if AllClear(parents, id, []) {
      ClearIsWellFounded(parents, id);
    }
    if WellFounded(parents, id) {
      forall p | IsPath(parents, p) && p[0] == id
        ensures Clear(parents, p, [])
      {
        WellFoundedPathIsClear(parents, id, p);
      }
    }
  }

  lemma ClearIsWellFounded(parents: Parents, id: Id)
    requires AllClear(parents, id, [])
    ensures WellFounded(parents, id)
  {
    forall b | Reaches(parents, id, b)
      ensures b in parents && !ProperAncestor(parents, b, b)
    {
      var p :| PathBetween(parents, p, id, b);
      assert Clear(parents, p, []);
      forall q | PathBetween(parents, q, b, b) ensures |q| == 1 {
        ClearRunIsTrivial(parents, id, [], p, q);
      }
    }
  }

  /** On an id whose paths are clear, no path reached from it returns to where it started. */
  lemma ClearRunIsTrivial(parents: Parents, id: Id, stack: seq<Id>, p: seq<Id>, q: seq<Id>)
    requires AllClear(parents, id, stack)
    requires IsPath(parents, p) && p[0] == id
    requires PathBetween(parents, q, p[|p| - 1], p[|p| - 1])
    ensures |q| == 1
  {
    JoinPaths(parents, p, q);
    var r := p + q[1..];
    assert Clear(parents, r, stack);
    assert r[|p| - 1] == r[|r| - 1];
  }

  lemma WellFoundedPathIsClear(parents: Parents, id: Id, p: seq<Id>)
    requires WellFounded(parents, id) && IsPath(parents, p) && p[0] == id
    ensures Clear(parents, p, [])
  {
    forall i | 0 <= i < |p| ensures p[i] in parents {
      SubPath(parents, p, 0, i);
      assert Reaches(parents, id, p[i]);
    }
    forall i, j | 0 <= i < j < |p| ensures p[i] != p[j] {
      SubPath(parents, p, 0, i);
      assert Reaches(parents, id, p[i]);
      SubPath(parents, p, i, j);
      assert |p[i..j + 1]| > 1;
      assert ProperAncestor(parents, p[i], p[j]);
    }
  }

  // ---------------------------------------------------------------
  // What the walk returns
  // ---------------------------------------------------------------

  /**
   Every ancestor along every path, repetitions included, in depth-first preorder. Where the
   walk would be refused the list is cut off there; on a walk that succeeds nothing is cut.
   */
  ghost function Preorder(parents: Parents, id: Id, stack: seq<Id>): seq<Id>
    decreases Remaining(parents, stack), 0
  {
    if id in stack || id !in parents then []
    else
      PushShrinks(parents, stack, id);
      PreorderAll(parents, parents[id], stack + [id])
  }

  ghost function PreorderAll(parents: Parents, ids: seq<Id>, stack: seq<Id>): seq<Id>
    decreases Remaining(parents, stack), 1, |ids|
  {
    if ids == [] then []
    else [ids[0]] + Preorder(parents, ids[0], stack) + PreorderAll(parents, ids[1..], stack)
  }

  /** Deduplicating level by level is deduplicating the whole preorder once. */
  lemma {:induction false} OrderIsDedupedPreorder(parents: Parents, id: Id, stack: seq<Id>)
    requires Order(parents, id, stack).Ok?
    ensures Order(parents, id, stack).value == Dedup(Preorder(parents, id, stack))
    decreases Remaining(parents, stack), 0
  {
    PushShrinks(parents, stack, id);
    OrderAllAbsorbsPreorder(parents, parents[id], stack + [id], []);
  }

  lemma {:induction false} OrderAllAbsorbsPreorder(parents: Parents, ids: seq<Id>, stack: seq<Id>, order: seq<Id>)
    requires OrderAll(parents, ids, stack, order).Ok?
    ensures OrderAll(parents, ids, stack, order).value == Absorb(order, PreorderAll(parents, ids, stack))
    decreases Remaining(parents, stack), 1, |ids|
  {
    if ids != [] {
      OrderIsDedupedPreorder(parents, ids[0], stack);
      var whole := Preorder(parents, ids[0], stack);
      var next := Absorb(order, [ids[0]] + Dedup(whole));
      OrderAllAbsorbsPreorder(parents, ids[1..], stack, next);
      AbsorbAppend(order, [ids[0]], Dedup(whole));
      AbsorbDedup(Absorb(order, [ids[0]]), whole);
      AbsorbAppend(order, [ids[0]], whole);
      AbsorbAppend(order, [ids[0]] + whole, PreorderAll(parents, ids[1..], stack));
    }
  }

  lemma {:induction false} PreorderMembers(parents: Parents, id: Id, stack: seq<Id>)
    requires AllClear(parents, id, stack)
    ensures forall b :: b in Preorder(parents, id, stack) <==> ProperAncestor(parents, id, b)
    decreases Remaining(parents, stack), 0
  {
    assert Clear(parents, [id], stack) by { assert IsPath(parents, [id]) && [id][0] == id; }
    assert [id][0] in parents && [id][0] !in stack;
    PushShrinks(parents, stack, id);
    forall x | x in parents[id] ensures AllClear(parents, x, stack + [id]) {
      ClearBelow(parents, id, x, stack);
    }
    PreorderAllMembers(parents, parents[id], stack + [id]);
    forall b ensures b in Preorder(parents, id, stack) <==> ProperAncestor(parents, id, b) {
      StepThenReach(parents, id, b);
    }
  }

  lemma {:induction false} PreorderAllMembers(parents: Parents, ids: seq<Id>, stack: seq<Id>)
    requires forall x :: x in ids ==> AllClear(parents, x, stack)
    ensures forall b :: b in PreorderAll(parents, ids, stack) <==> exists x :: x in ids && Reaches(parents, x, b)
    decreases Remaining(parents, stack), 1, |ids|
  {
    if ids != [] {
      PreorderMembers(parents, ids[0], stack);
      PreorderAllMembers(parents, ids[1..], stack);
      forall b
        ensures b in PreorderAll(parents, ids, stack) <==> exists x :: x in ids && Reaches(parents, x, b)
      {
        ReachIsSelfOrProper(parents, ids[0], b);
        assert ids == [ids[0]] + ids[1..];
        assert b in PreorderAll(parents, ids, stack)
          <==> b == ids[0] || b in Preorder(parents, ids[0], stack) || b in PreorderAll(parents, ids[1..], stack);
        if Reaches(parents, ids[0], b) { assert ids[0] in ids; }
      }
    }
  }

  lemma ClearBelow(parents: Parents, id: Id, x: Id, stack: seq<Id>)
    requires AllClear(parents, id, stack) && id in parents && x in parents[id]
    ensures AllClear(parents, x, stack + [id])
  {
    forall q | IsPath(parents, q) && q[0] == x
      ensures Clear(parents, q, stack + [id])
    {
      ConsPath(parents, id, q);
      ClearTail(parents, id, q, stack);
    }
  }

  lemma ClearTail(parents: Parents, id: Id, q: seq<Id>, stack: seq<Id>)
    requires Clear(parents, [id] + q, stack)
    ensures Clear(parents, q, stack + [id])
  {
    var p := [id] + q;
    forall i | 0 <= i < |q| ensures q[i] in parents && q[i] !in stack + [id] {
      assert q[i] == p[i + 1] && p[0] == id;
    }
    forall i, j | 0 <= i < j < |q| ensures q[i] != q[j] {
      assert q[i] == p[i + 1] && q[j] == p[j + 1];
    }
  }

  lemma ReachIsSelfOrProper(parents: Parents, a: Id, b: Id)
    ensures Reaches(parents, a, b) <==> a == b || ProperAncestor(parents, a, b)
  {
    if a == b {
      assert PathBetween(parents, [a], a, b);
    }
    if Reaches(parents, a, b) && a != b {
      var p :| PathBetween(parents, p, a, b);
      assert |p| > 1;
    }
  }

  lemma StepThenReach(parents: Parents, id: Id, b: Id)
    requires id in parents
    ensures ProperAncestor(parents, id, b) <==> exists x :: x in parents[id] && Reaches(parents, x, b)
  {
    if ProperAncestor(parents, id, b) {
      var p :| PathBetween(parents, p, id, b) && |p| > 1;
      TailPath(parents, p);
      assert PathBetween(parents, p[1..], p[1], b);
      assert p[1] in parents[id] && Reaches(parents, p[1], b);
    }
    if x :| x in parents[id] && Reaches(parents, x, b) {
      var q :| PathBetween(parents, q, x, b);
      ConsPath(parents, id, q);
      assert PathBetween(parents, [id] + q, id, b) && |[id] + q| > 1;
    }
  }

  /** On success the walk lists the proper ancestors of `id`, each exactly once. */
  lemma OrderIsProperAncestors(parents: Parents, id: Id, stack: seq<Id>)
    requires Order(parents, id, stack).Ok?
    ensures var order := Order(parents, id, stack).value;
      && NoDuplicates(order)
      && (forall b :: b in order <==> ProperAncestor(parents, id, b))
      && id !in order
  {
    OrderIsDedupedPreorder(parents, id, stack);
    OrderOkIffClear(parents, id, stack);
    PreorderMembers(parents, id, stack);
    AbsorbMembers([], Preorder(parents, id, stack));
    forall q | PathBetween(parents, q, id, id) ensures |q| == 1 {
      ClearRunIsTrivial(parents, id, stack, [id], q);
    }
  }

  // ---------------------------------------------------------------
  // The result does not depend on the stack
  // ---------------------------------------------------------------

  lemma {:induction false} PreorderIgnoresStack(parents: Parents, id: Id, s: seq<Id>, t: seq<Id>)
    requires AllClear(parents, id, s) && AllClear(parents, id, t)
    ensures Preorder(parents, id, s) == Preorder(parents, id, t)
    decreases Remaining(parents, s), 0
  {
    assert IsPath(parents, [id]) && [id][0] == id;
    assert Clear(parents, [id], s) && Clear(parents, [id], t);
    assert [id][0] in parents && [id][0] !in s && [id][0] !in t;
    PushShrinks(parents, s, id);
    forall x | x in parents[id]
      ensures AllClear(parents, x, s + [id]) && AllClear(parents, x, t + [id])
    {
      ClearBelow(parents, id, x, s);
      ClearBelow(parents, id, x, t);
    }
    PreorderAllIgnoresStack(parents, parents[id], s + [id], t + [id]);
  }

  lemma {:induction false} PreorderAllIgnoresStack(parents: Parents, ids: seq<Id>, s: seq<Id>, t: seq<Id>)
    requires forall x :: x in ids ==> AllClear(parents, x, s) && AllClear(parents, x, t)
    ensures PreorderAll(parents, ids, s) == PreorderAll(parents, ids, t)
    decreases Remaining(parents, s), 1, |ids|
  {
    if ids != [] {
      PreorderIgnoresStack(parents, ids[0], s, t);
      PreorderAllIgnoresStack(parents, ids[1..], s, t);
    }
  }

  /** Every id on the stack has `id` as a proper ancestor: what the stack of a running walk always satisfies. */
  ghost predicate LeadsTo(parents: Parents, stack: seq<Id>, id: Id) {
    forall s :: s in stack ==> ProperAncestor(parents, s, id)
  }

  /** A walk below a stack of its own descendants finds what a fresh walk finds. */
  lemma OrderIgnoresStack(parents: Parents, id: Id, stack: seq<Id>)
    requires LeadsTo(parents, stack, id)
    ensures Order(parents, id, stack).Ok? <==> Order(parents, id, []).Ok?
    ensures Order(parents, id, []).Ok? ==> Order(parents, id, stack) == Order(parents, id, [])
  {
    OrderOkIffClear(parents, id, stack);
    OrderOkIffClear(parents, id, []);
    if AllClear(parents, id, stack) {
      forall p | IsPath(parents, p) && p[0] == id ensures Clear(parents, p, []) {
        assert Clear(parents, p, stack);
      }
    }
    if AllClear(parents, id, []) {
      forall p | IsPath(parents, p) && p[0] == id ensures Clear(parents, p, stack) {
        assert Clear(parents, p, []);
        forall i | 0 <= i < |p| ensures p[i] !in stack {
          SubPath(parents, p, 0, i);
          forall q | PathBetween(parents, q, p[i], id) ensures |q| == 1 {
            JoinPaths(parents, p[..i + 1], q);
            ClearRunIsTrivial(parents, id, [], [id], p[..i + 1] + q[1..]);
          }
          assert !ProperAncestor(parents, p[i], id);
        }
      }
    }
    if AllClear(parents, id, []) && AllClear(parents, id, stack) {
      OrderIsDedupedPreorder(parents, id, stack);
      OrderIsDedupedPreorder(parents, id, []);
      PreorderIgnoresStack(parents, id, stack, []);
    }
  }
}
