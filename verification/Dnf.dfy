/** The constraint compiler: a tree of `odrl:and`/`odrl:or` expanded into disjunctive normal form. */
module Dnf {
  import opened Wrappers
  import opened Collections
  import opened Constraints

  /** A constraint as parsed: one test, or a Boolean combination of constraints. */
  datatype ConstraintForm =
    | AtomForm(left: string, operator: string, right: string)
    | AndForm(children: seq<ConstraintForm>)
    | OrForm(children: seq<ConstraintForm>)
    | XoneForm(children: seq<ConstraintForm>)

  /** Why a tree cannot be compiled. */
  datatype Reason = UnsupportedOperator(operator: string) | XoneUnsupported(branches: nat)

  type Conjunct = seq<Constraint>

  function ResolveOperator(local: string): Result<Operator, Reason> {
    if local == "eq" then Ok(Eq)
    else if local == "neq" then Ok(Neq)
    else if local == "lt" then Ok(Lt)
    else if local == "lteq" then Ok(Lteq)
    else if local == "gt" then Ok(Gt)
    else if local == "gteq" then Ok(Gteq)
    else Err(UnsupportedOperator(local))
  }

  /** `prefix` joined to each of the disjuncts. */
  function JoinEach(prefix: Conjunct, disjuncts: seq<Conjunct>): (r: seq<Conjunct>)
    ensures |r| == |disjuncts| && forall k :: 0 <= k < |r| ==> r[k] == prefix + disjuncts[k]
  {
    seq(|disjuncts|, k requires 0 <= k < |disjuncts| => prefix + disjuncts[k])
  }

  /** Every prefix joined to every disjunct, prefix by prefix. */
  function Cross(prefixes: seq<Conjunct>, disjuncts: seq<Conjunct>): seq<Conjunct> {
    if prefixes == [] then []
    else JoinEach(prefixes[0], disjuncts) + Cross(prefixes[1..], disjuncts)
  }

  function Expand(form: ConstraintForm): Result<seq<Conjunct>, Reason>
    decreases form, 1
  {
    match form
    case AtomForm(left, operator, right) =>
      (match ResolveOperator(operator)
       case Err(e) => Err(e)
       case Ok(op) => Ok([[Atomic(left, op, right)]]))
    case AndForm(children) => ExpandAnd(children, [[]])
    case OrForm(children) => ExpandOr(children)
    case XoneForm(children) => Err(XoneUnsupported(|children|))
  }

  /** The product so far, carried through the remaining children. */
  function ExpandAnd(children: seq<ConstraintForm>, product: seq<Conjunct>): Result<seq<Conjunct>, Reason>
    decreases children, 0
  {
    if children == [] then Ok(product)
    else
      match Expand(children[0])
      case Err(e) => Err(e)
      case Ok(disjuncts) => ExpandAnd(children[1..], Cross(product, disjuncts))
  }

  function ExpandOr(children: seq<ConstraintForm>): Result<seq<Conjunct>, Reason>
    decreases children, 0
  {
    if children == [] then Ok([])
    else
      match Expand(children[0])
      case Err(e) => Err(e)
      case Ok(disjuncts) => Behind(disjuncts, ExpandOr(children[1..]))
  }

  /** The two inner loops: the product grown by one child. */
  method GrowProduct(product: seq<Conjunct>, disjuncts: seq<Conjunct>) returns (expanded: seq<Conjunct>)
    ensures expanded == Cross(product, disjuncts)
  {
    expanded := [];
    for i := 0 to |product|
      invariant expanded + Cross(product[i..], disjuncts) == Cross(product, disjuncts)
    {
      assert product[i..][1..] == product[i + 1..];
      ghost var before := expanded;
      for j := 0 to |disjuncts|
        invariant expanded == before + JoinEach(product[i], disjuncts)[..j]
      {
        expanded := expanded + [product[i] + disjuncts[j]];
      }
      assert JoinEach(product[i], disjuncts)[..|disjuncts|] == JoinEach(product[i], disjuncts);
      assert expanded == before + JoinEach(product[i], disjuncts);
      assert Cross(product[i..], disjuncts) == JoinEach(product[i], disjuncts) + Cross(product[i + 1..], disjuncts);
    }
  }

  method ToDnf(form: ConstraintForm) returns (r: Result<seq<Conjunct>, Reason>)
    ensures r == Expand(form)
    decreases form
  {
    match form {
      case AtomForm(left, operator, right) =>
        var op := ResolveOperator(operator);
        if op.Err? {
          return Err(op.error);
        }
        return Ok([[Atomic(left, op.value, right)]]);
      case AndForm(children) =>
        var product: seq<Conjunct> := [[]];
        for k := 0 to |children|
          invariant ExpandAnd(children, [[]]) == ExpandAnd(children[k..], product)
        {
          assert children[k..][1..] == children[k + 1..];
          var disjuncts := ToDnf(children[k]);
          if disjuncts.Err? {
            return disjuncts;
          }
          product := GrowProduct(product, disjuncts.value);
        }
        return Ok(product);
      case OrForm(children) =>
        var all: seq<Conjunct> := [];
        BehindNothing(ExpandOr(children));
        assert children[0..] == children;
        for k := 0 to |children|
          invariant ExpandOr(children) == Behind(all, ExpandOr(children[k..]))
        {
          assert children[k..][1..] == children[k + 1..];
          var disjuncts := ToDnf(children[k]);
          if disjuncts.Err? {
            return disjuncts;
          }
          BehindTwice(all, disjuncts.value, ExpandOr(children[k + 1..]));
          all := all + disjuncts.value;
        }
        BehindTheEnd(all, ExpandOr(children[|children|..]));
        return Ok(all);
      case XoneForm(children) =>
        return Err(XoneUnsupported(|children|));
    }
  }

  // ---------------------------------------------------------------
  // Meaning is preserved
  // ---------------------------------------------------------------

  /** Which tests hold: any assignment of truth to atomic constraints. */
  type Valuation = Constraint -> bool

  ghost predicate AllHold(conjunct: Conjunct, v: Valuation) {
    forall k :: 0 <= k < |conjunct| ==> v(conjunct[k])
  }

  ghost predicate SomeHolds(conjuncts: seq<Conjunct>, v: Valuation) {
    exists k :: 0 <= k < |conjuncts| && AllHold(conjuncts[k], v)
  }

  /** The truth of a tree: an `and` of nothing is true, an `or` of nothing is false. */
  ghost predicate Holds(form: ConstraintForm, v: Valuation)
    decreases form
  {
    match form
    case AtomForm(left, operator, right) =>
      ResolveOperator(operator).Ok? && v(Atomic(left, ResolveOperator(operator).value, right))
    case AndForm(children) => forall k :: 0 <= k < |children| ==> Holds(children[k], v)
    case OrForm(children) => exists k :: 0 <= k < |children| && Holds(children[k], v)
    case XoneForm(_) => false
  }

  lemma JoinHolds(prefix: Conjunct, disjunct: Conjunct, v: Valuation)
    ensures AllHold(prefix + disjunct, v) <==> AllHold(prefix, v) && AllHold(disjunct, v)
  {
    if AllHold(prefix + disjunct, v) {
      forall k | 0 <= k < |prefix| ensures v(prefix[k]) {
        assert (prefix + disjunct)[k] == prefix[k];
      }
      forall k | 0 <= k < |disjunct| ensures v(disjunct[k]) {
        assert (prefix + disjunct)[|prefix| + k] == disjunct[k];
      }
    }
  }

  lemma SomeAppend(a: seq<Conjunct>, b: seq<Conjunct>, v: Valuation)
    ensures SomeHolds(a + b, v) <==> SomeHolds(a, v) || SomeHolds(b, v)
  {
    if SomeHolds(a, v) {
      var k :| 0 <= k < |a| && AllHold(a[k], v);
      assert (a + b)[k] == a[k];
    }
    if SomeHolds(b, v) {
      var k :| 0 <= k < |b| && AllHold(b[k], v);
      assert (a + b)[|a| + k] == b[k];
    }
  }

  lemma JoinEachHolds(prefix: Conjunct, disjuncts: seq<Conjunct>, v: Valuation)
    ensures SomeHolds(JoinEach(prefix, disjuncts), v) <==> AllHold(prefix, v) && SomeHolds(disjuncts, v)
  {
    var joined := JoinEach(prefix, disjuncts);
    forall k | 0 <= k < |disjuncts|
      ensures AllHold(joined[k], v) <==> AllHold(prefix, v) && AllHold(disjuncts[k], v)
    {
      JoinHolds(prefix, disjuncts[k], v);
    }
    if AllHold(prefix, v) && SomeHolds(disjuncts, v) {
      var k :| 0 <= k < |disjuncts| && AllHold(disjuncts[k], v);
      assert AllHold(joined[k], v);
    }
  }

  lemma {:induction false} CrossHolds(prefixes: seq<Conjunct>, disjuncts: seq<Conjunct>, v: Valuation)
    ensures SomeHolds(Cross(prefixes, disjuncts), v) <==> SomeHolds(prefixes, v) && SomeHolds(disjuncts, v)
  {
    if prefixes != [] {
      CrossHolds(prefixes[1..], disjuncts, v);
      JoinEachHolds(prefixes[0], disjuncts, v);
      SomeAppend(JoinEach(prefixes[0], disjuncts), Cross(prefixes[1..], disjuncts), v);
      SomeAppend([prefixes[0]], prefixes[1..], v);
      assert prefixes == [prefixes[0]] + prefixes[1..];
      assert SomeHolds([prefixes[0]], v) <==> AllHold(prefixes[0], v) by {
        assert [prefixes[0]][0] == prefixes[0];
      }
    }
  }

  /** A tree is true exactly when all the tests of some conjunct are. */
  lemma {:induction false} ExpandPreservesMeaning(form: ConstraintForm, v: Valuation)
    requires Expand(form).Ok?
    ensures Holds(form, v) <==> SomeHolds(Expand(form).value, v)
    decreases form, 1
  {
    match form
    case AtomForm(left, operator, right) =>
      var atom := Atomic(left, ResolveOperator(operator).value, right);
      assert Expand(form).value == [[atom]];
      assert [[atom]][0] == [atom] && [atom][0] == atom;
      assert AllHold([atom], v) <==> v(atom);
    case AndForm(children) =>
      ExpandAndPreserves(children, [[]], v);
      assert AllHold([[]][0], v);
    case OrForm(children) =>
      ExpandOrPreserves(children, v);
  }

  lemma {:induction false} ExpandAndPreserves(children: seq<ConstraintForm>, product: seq<Conjunct>, v: Valuation)
    requires ExpandAnd(children, product).Ok?
    ensures SomeHolds(ExpandAnd(children, product).value, v)
       <==> SomeHolds(product, v) && forall k :: 0 <= k < |children| ==> Holds(children[k], v)
    decreases children, 0
  {
    if children != [] {
      var disjuncts := Expand(children[0]).value;
      ExpandPreservesMeaning(children[0], v);
      ExpandAndPreserves(children[1..], Cross(product, disjuncts), v);
      CrossHolds(product, disjuncts, v);
      assert forall k :: 0 < k < |children| ==> children[k] == children[1..][k - 1];
    }
  }

  lemma {:induction false} ExpandOrPreserves(children: seq<ConstraintForm>, v: Valuation)
    requires ExpandOr(children).Ok?
    ensures SomeHolds(ExpandOr(children).value, v) <==> exists k :: 0 <= k < |children| && Holds(children[k], v)
    decreases children, 0
  {
    if children != [] {
      ExpandPreservesMeaning(children[0], v);
      ExpandOrPreserves(children[1..], v);
      SomeAppend(Expand(children[0]).value, ExpandOr(children[1..]).value, v);
      if k :| 0 <= k < |children[1..]| && Holds(children[1..][k], v) {
        assert children[k + 1] == children[1..][k];
      }
      if k :| 0 < k < |children| && Holds(children[k], v) {
        assert children[1..][k - 1] == children[k];
      }
    }
  }

  // ---------------------------------------------------------------
  // When compilation is refused
  // ---------------------------------------------------------------

  /** What stands in the way, from left to right; nothing inside an `xone` is looked at. */
  function Obstacles(form: ConstraintForm): seq<Reason>
    decreases form, 1
  {
    match form
    case AtomForm(_, operator, _) =>
      (match ResolveOperator(operator) case Ok(_) => [] case Err(e) => [e])
    case AndForm(children) => ObstaclesIn(children)
    case OrForm(children) => ObstaclesIn(children)
    case XoneForm(children) => [XoneUnsupported(|children|)]
  }

  function ObstaclesIn(children: seq<ConstraintForm>): seq<Reason>
    decreases children, 0
  {
    if children == [] then [] else Obstacles(children[0]) + ObstaclesIn(children[1..])
  }

  /** Compilation is refused exactly when there is an obstacle, and names the leftmost. */
  lemma {:induction false} RefusedAtLeftmost(form: ConstraintForm)
    ensures Expand(form).Err? <==> Obstacles(form) != []
    ensures Expand(form).Err? ==> Expand(form).error == Obstacles(form)[0]
    decreases form, 1
  {
    match form
    case AtomForm(_, _, _) =>
    case AndForm(children) => AndRefused(children, [[]]);
    case OrForm(children) => OrRefused(children);
    case XoneForm(_) =>
  }

  /** Even a product that is already empty does not hide a later obstacle. */
  lemma {:induction false} AndRefused(children: seq<ConstraintForm>, product: seq<Conjunct>)
    ensures ExpandAnd(children, product).Err? <==> ObstaclesIn(children) != []
    ensures ExpandAnd(children, product).Err? ==> ExpandAnd(children, product).error == ObstaclesIn(children)[0]
    decreases children, 0
  {
    if children != [] {
      RefusedAtLeftmost(children[0]);
      if Expand(children[0]).Ok? {
        AndRefused(children[1..], Cross(product, Expand(children[0]).value));
      }
    }
  }

  lemma {:induction false} OrRefused(children: seq<ConstraintForm>)
    ensures ExpandOr(children).Err? <==> ObstaclesIn(children) != []
    ensures ExpandOr(children).Err? ==> ExpandOr(children).error == ObstaclesIn(children)[0]
    decreases children, 0
  {
    if children != [] {
      RefusedAtLeftmost(children[0]);
      OrRefused(children[1..]);
    }
  }

  // ---------------------------------------------------------------
  // The engine's own logical constraints
  // ---------------------------------------------------------------

  /** The same tree as one nested engine constraint. */
  function Native(form: ConstraintForm): Constraint
    requires Obstacles(form) == []
    decreases form, 1
  {
    match form
    case AtomForm(left, operator, right) => Atomic(left, ResolveOperator(operator).value, right)
    case AndForm(children) => Constraint.And(NativeAll(children))
    case OrForm(children) => Constraint.Or(NativeAll(children))
  }

  function NativeAll(children: seq<ConstraintForm>): (r: seq<Constraint>)
    requires ObstaclesIn(children) == []
    ensures |r| == |children|
    decreases children, 0
  {
    if children == [] then [] else [Native(children[0])] + NativeAll(children[1..])
  }

  /** How far below its root the deepest node of a tree lies. */
  function Height(form: ConstraintForm): nat
    decreases form, 1
  {
    match form
    case AtomForm(_, _, _) => 0
    case AndForm(children) => if children == [] then 0 else 1 + HeightOf(children)
    case OrForm(children) => if children == [] then 0 else 1 + HeightOf(children)
    case XoneForm(_) => 0
  }

  function HeightOf(children: seq<ConstraintForm>): nat
    decreases children, 0
  {
    if children == [] then 0
    else
      var rest := HeightOf(children[1..]);
      if Height(children[0]) > rest then Height(children[0]) else rest
  }

  ghost function TruthIn(w: World): Valuation {
    (c: Constraint) => Evaluate(c, w)
  }

  /** The part of a tree the engine looks at: whatever lies below its depth limit is false. */
  function Cut(form: ConstraintForm, depth: nat): ConstraintForm
    decreases form, 1
  {
    if depth > MAX_CONSTRAINT_DEPTH then OrForm([])
    else
      match form
      case AtomForm(_, _, _) => form
      case AndForm(children) => AndForm(CutAll(children, depth + 1))
      case OrForm(children) => OrForm(CutAll(children, depth + 1))
      case XoneForm(_) => form
  }

  function CutAll(children: seq<ConstraintForm>, depth: nat): (r: seq<ConstraintForm>)
    ensures |r| == |children|
    decreases children, 0
  {
    if children == [] then [] else [Cut(children[0], depth)] + CutAll(children[1..], depth)
  }

  /** The nested constraint is true, at any depth, exactly when the cut tree is. */
  lemma {:induction false} NativeIsTheCutTree(form: ConstraintForm, w: World, depth: nat)
    requires Obstacles(form) == []
    ensures EvaluateBounded(Native(form), w, depth) <==> Holds(Cut(form, depth), TruthIn(w))
    decreases form, 1
  {
    if depth <= MAX_CONSTRAINT_DEPTH {
      match form
      case AtomForm(_, _, _) =>
      case AndForm(children) => NativeAllAreTheCutTrees(children, w, depth + 1);
      case OrForm(children) => NativeAllAreTheCutTrees(children, w, depth + 1);
    }
  }

  lemma {:induction false} NativeAllAreTheCutTrees(children: seq<ConstraintForm>, w: World, depth: nat)
    requires ObstaclesIn(children) == []
    ensures forall k :: 0 <= k < |children| ==>
      (EvaluateBounded(NativeAll(children)[k], w, depth) <==> Holds(CutAll(children, depth)[k], TruthIn(w)))
    decreases children, 0
  {
    if children != [] {
      NativeIsTheCutTree(children[0], w, depth);
      NativeAllAreTheCutTrees(children[1..], w, depth);
      forall k | 0 < k < |children|
        ensures EvaluateBounded(NativeAll(children)[k], w, depth) <==> Holds(CutAll(children, depth)[k], TruthIn(w))
      {
        assert NativeAll(children)[k] == NativeAll(children[1..])[k - 1];
        assert CutAll(children, depth)[k] == CutAll(children[1..], depth)[k - 1];
      }
    }
  }

  /** Cutting a tree never makes it true. */
  lemma {:induction false} CutOnlyLoses(form: ConstraintForm, v: Valuation, depth: nat)
    ensures Holds(Cut(form, depth), v) ==> Holds(form, v)
    decreases form, 1
  {
    if depth <= MAX_CONSTRAINT_DEPTH {
      match form
      case AtomForm(_, _, _) =>
      case AndForm(children) =>
        CutAllOnlyLose(children, v, depth + 1);
        assert Cut(form, depth) == AndForm(CutAll(children, depth + 1));
      case OrForm(children) =>
        CutAllOnlyLose(children, v, depth + 1);
        assert Cut(form, depth) == OrForm(CutAll(children, depth + 1));
      case XoneForm(_) =>
    }
  }

  lemma {:induction false} CutAllOnlyLose(children: seq<ConstraintForm>, v: Valuation, depth: nat)
    ensures forall k :: 0 <= k < |children| && Holds(CutAll(children, depth)[k], v) ==> Holds(children[k], v)
    decreases children, 0
  {
    if children != [] {
      CutOnlyLoses(children[0], v, depth);
      CutAllOnlyLose(children[1..], v, depth);
      forall k | 0 <= k < |children| && Holds(CutAll(children, depth)[k], v) ensures Holds(children[k], v) {
        if k == 0 {
          assert CutAll(children, depth)[0] == Cut(children[0], depth);
        } else {
          assert CutAll(children, depth)[k] == CutAll(children[1..], depth)[k - 1];
          assert children[k] == children[1..][k - 1];
        }
      }
    }
  }

  /**
   For every tree that compiles: one nested constraint grants no more than sibling rules do,
   and the two decide alike exactly where cutting the tree at the engine's depth limit loses
   nothing.
   */
  lemma NativeAgreesIff(form: ConstraintForm, w: World)
    requires Obstacles(form) == []
    ensures Expand(form).Ok?
    ensures Evaluate(Native(form), w) ==> SomeHolds(Expand(form).value, TruthIn(w))
    ensures (Evaluate(Native(form), w) <==> SomeHolds(Expand(form).value, TruthIn(w)))
       <==> (Holds(form, TruthIn(w)) ==> Holds(Cut(form, 0), TruthIn(w)))
  {
    RefusedAtLeftmost(form);
    NativeIsTheCutTree(form, w, 0);
    CutOnlyLoses(form, TruthIn(w), 0);
    ExpandPreservesMeaning(form, TruthIn(w));
  }

  /** A tree within the limit is not cut at all. */
  lemma {:induction false} ShallowIsUncut(form: ConstraintForm, depth: nat)
    requires Height(form) + depth <= MAX_CONSTRAINT_DEPTH
    ensures Cut(form, depth) == form
    decreases form, 1
  {
    match form
    case AtomForm(_, _, _) =>
    case AndForm(children) => ShallowAreUncut(children, depth + 1);
    case OrForm(children) => ShallowAreUncut(children, depth + 1);
    case XoneForm(_) =>
  }

  lemma {:induction false} ShallowAreUncut(children: seq<ConstraintForm>, depth: nat)
    requires children == [] || HeightOf(children) + depth <= MAX_CONSTRAINT_DEPTH
    ensures CutAll(children, depth) == children
    decreases children, 0
  {
    if children != [] {
      ShallowIsUncut(children[0], depth);
      ShallowAreUncut(children[1..], depth);
    }
  }

  /** Sibling rules and one nested constraint decide alike on every tree within the engine's depth limit. */
  lemma NativeAgreesWithDnf(form: ConstraintForm, w: World)
    requires Obstacles(form) == [] && Height(form) <= MAX_CONSTRAINT_DEPTH
    ensures Expand(form).Ok?
    ensures Evaluate(Native(form), w) <==> SomeHolds(Expand(form).value, TruthIn(w))
  {
    NativeAgreesIff(form, w);
    ShallowIsUncut(form, 0);
  }

  /** One test under `n` nested conjunctions of one. */
  function Nest(n: nat, left: string, right: string): ConstraintForm {
    if n == 0 then AtomForm(left, "eq", right) else AndForm([Nest(n - 1, left, right)])
  }

  lemma {:induction false} NestIsItsTest(n: nat, left: string, right: string, w: World, depth: nat)
    ensures Obstacles(Nest(n, left, right)) == []
    ensures Holds(Nest(n, left, right), TruthIn(w)) <==> Evaluate(Atomic(left, Eq, right), w)
    ensures n + depth > MAX_CONSTRAINT_DEPTH ==> !EvaluateBounded(Native(Nest(n, left, right)), w, depth)
    decreases n
  {
    if n > 0 {
      var inner := Nest(n - 1, left, right);
      NestIsItsTest(n - 1, left, right, w, depth + 1);
      assert [inner][1..] == [] && ObstaclesIn([inner][1..]) == [];
      assert ObstaclesIn([inner]) == Obstacles(inner) + ObstaclesIn([inner][1..]);
      assert NativeAll([inner])[0] == Native(inner);
    }
  }

  /** Past the limit they part: a true test nested one level too deep is false to the engine. */
  lemma TooDeepDisagrees(left: string, value: string, compare: (string, string) -> Option<Ordering>)
    ensures var w := World(map[left := Single(value)], compare);
      var form := Nest(MAX_CONSTRAINT_DEPTH + 1, left, value);
      && Expand(form).Ok? && SomeHolds(Expand(form).value, TruthIn(w))
      && Obstacles(form) == [] && !Evaluate(Native(form), w)
  {
    var w := World(map[left := Single(value)], compare);
    var form := Nest(MAX_CONSTRAINT_DEPTH + 1, left, value);
    NestIsItsTest(MAX_CONSTRAINT_DEPTH + 1, left, value, w, 0);
    RefusedAtLeftmost(form);
    ExpandPreservesMeaning(form, TruthIn(w));
  }
}
