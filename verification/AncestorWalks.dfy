/**
 The two programs that walk `inheritFrom`: the RDF runner's, which carries a stack, and the
 engine's, which also remembers every walk it has finished. Both compute `Inheritance.Order`.
 */
module AncestorWalks {
  import opened Wrappers
  import opened Collections
  import opened Inheritance

  /** Pushes every member of `found` that `order` does not have yet. */
  method PushMissing<T(==)>(order: seq<T>, found: seq<T>) returns (r: seq<T>)
    ensures r == Absorb(order, found)
  {
    r := order;
    for j := 0 to |found|
      invariant Absorb(r, found[j..]) == Absorb(order, found)
    {
      if found[j] !in r {
        r := r + [found[j]];
      }
    }
  }

  class AncestorWalk {
    const parents: Parents
    var stack: seq<Id>

    constructor (parents: Parents)
      ensures this.parents == parents && stack == []
    {
      this.parents := parents;
      stack := [];
    }

    method AncestorOrder(id: Id) returns (r: Walked)
      modifies this
      ensures r == Order(parents, id, old(stack))
      ensures r.Ok? ==> stack == old(stack)
      decreases Remaining(parents, stack)
    {
      if id in stack {
        return Err(Circular(stack, id));
      }
      if id !in parents {
        return Err(Unknown(id));
      }
      var ids := parents[id];
      if ids == [] {
        return Ok([]);
      }
      ghost var before := stack;
      PushShrinks(parents, stack, id);
      stack := stack + [id];
      var order := [];
      for i := 0 to |ids|
        invariant stack == before + [id]
        invariant OrderAll(parents, ids, stack, []) == OrderAll(parents, ids[i..], stack, order)
      {
        var below := AncestorOrder(ids[i]);
        if below.Err? {
          return below;
        }
        order := PushMissing(order, [ids[i]] + below.value);
      }
      stack := stack[..|stack| - 1];
      return Ok(order);
    }
  }

  /** One parent's turn in the walk over all of them. */
  lemma OneParent(parents: Parents, ids: seq<Id>, i: nat, stack: seq<Id>, order: seq<Id>)
    requires i < |ids|
    ensures var below := Order(parents, ids[i], stack);
      OrderAll(parents, ids[i..], stack, order)
      == if below.Err? then below else OrderAll(parents, ids[i + 1..], stack, Absorb(order, [ids[i]] + below.value))
  {
    assert ids[i..][1..] == ids[i + 1..];
  }

  /** Everything remembered is what a fresh walk would find. */
  ghost predicate MemoSound(parents: Parents, memo: map<Id, seq<Id>>) {
    forall k :: k in memo ==> Order(parents, k, []) == Ok(memo[k])
  }

  lemma StepExtendsLeads(parents: Parents, stack: seq<Id>, id: Id, parent: Id)
    requires LeadsTo(parents, stack, id) && id in parents && parent in parents[id]
    ensures LeadsTo(parents, stack + [id], parent)
  {
    assert IsPath(parents, [id, parent]);
    assert PathBetween(parents, [id, parent], id, parent);
    forall s | s in stack ensures ProperAncestor(parents, s, parent) {
      var p :| PathBetween(parents, p, s, id) && |p| > 1;
      JoinPaths(parents, p, [id, parent]);
      assert |p + [id, parent][1..]| > 1;
    }
  }

  /** What is remembered is right wherever it is read. */
  lemma MemoAnswers(parents: Parents, memo: map<Id, seq<Id>>, id: Id, stack: seq<Id>)
    requires MemoSound(parents, memo) && LeadsTo(parents, stack, id) && id in memo
    ensures Order(parents, id, stack) == Ok(memo[id])
  {
    OrderIgnoresStack(parents, id, stack);
  }

  /** A walk's result may be remembered, whatever stack it was found under. */
  lemma Remember(parents: Parents, memo: map<Id, seq<Id>>, id: Id, stack: seq<Id>, order: seq<Id>)
    requires MemoSound(parents, memo) && LeadsTo(parents, stack, id) && Order(parents, id, stack) == Ok(order)
    ensures MemoSound(parents, memo[id := order])
  {
    OrderIgnoresStack(parents, id, stack);
  }

  class MemoWalk {
    const parents: Parents
    var memo: map<Id, seq<Id>>
    var stack: seq<Id>

    constructor (parents: Parents)
      ensures this.parents == parents && stack == [] && memo == map[]
    {
      this.parents := parents;
      memo := map[];
      stack := [];
    }

    /**
     The remembering walk returns what the plain one does, errors included, and everything
     it adds to the memo is right wherever it is read again.
     */
    method AncestorOrder(id: Id) returns (r: Walked)
      requires MemoSound(parents, memo) && LeadsTo(parents, stack, id)
      modifies this
      ensures r == Order(parents, id, old(stack))
      ensures MemoSound(parents, memo) && old(memo.Keys) <= memo.Keys
      ensures r.Ok? ==> stack == old(stack) && id in memo
      decreases Remaining(parents, stack)
    {
      if id in memo {
        MemoAnswers(parents, memo, id, stack);
        return Ok(memo[id]);
      }
      if id in stack {
        return Err(Circular(stack, id));
      }
      if id !in parents {
        return Err(Unknown(id));
      }
      var ids := parents[id];
      if ids == [] {
        Remember(parents, memo, id, stack, []);
        memo := memo[id := []];
        return Ok([]);
      }
      ghost var before := stack;
      PushShrinks(parents, stack, id);
      stack := stack + [id];
      var order := [];
      for i := 0 to |ids|
        invariant stack == before + [id] && MemoSound(parents, memo)
        invariant old(memo.Keys) <= memo.Keys
        invariant OrderAll(parents, ids, stack, []) == OrderAll(parents, ids[i..], stack, order)
      {
        OneParent(parents, ids, i, stack, order);
        StepExtendsLeads(parents, before, id, ids[i]);
        var below := AncestorOrder(ids[i]);
        if below.Err? {
          return below;
        }
        order := PushMissing(order, [ids[i]] + below.value);
      }
      stack := stack[..|stack| - 1];
      Remember(parents, memo, id, stack, order);
      memo := memo[id := order];
      return Ok(order);
    }
  }
}
