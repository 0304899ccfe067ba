/** Claims, and the engine's evaluation of one constraint against them. */
module Constraints {
  import opened Wrappers
  import opened Collections

  datatype ClaimValue = Single(value: string) | Multi(values: seq<string>)
  {
    predicate Matches(candidate: string) {
      match this
      case Single(v) => v == candidate
      case Multi(vs) => candidate in vs
    }

    function Members(): seq<string> {
      match this
      case Single(v) => [v]
      case Multi(vs) => vs
    }
  }

  type Claims = map<string, ClaimValue>

  datatype Ordering = Less | Equal | Greater

  /**
   What a decision is taken against: the claims, and the comparison of two literals as
   instants, durations or numbers, which is `None` where they are none of those. The
   comparison itself is a parameter.
   */
  datatype World = World(claims: Claims, compare: (string, string) -> Option<Ordering>)

  datatype Operator = Eq | Neq | IsAnyOf | IsAllOf | IsNoneOf | IsPartOf | Lt | Lteq | Gt | Gteq

  datatype Constraint =
    | Atomic(left: string, op: Operator, right: string)
    | And(children: seq<Constraint>)
    | Or(children: seq<Constraint>)
    | Xone(children: seq<Constraint>)
    | AndSequence(children: seq<Constraint>)

  const MAX_CONSTRAINT_DEPTH: nat := 64

  predicate Stands(op: Operator, o: Ordering) {
    match op
    case Lt => o == Less
    case Lteq => o != Greater
    case Gt => o == Greater
    case Gteq => o != Less
    case _ => false
  }

  predicate OrderingHolds(value: ClaimValue, op: Operator, right: string, w: World) {
    exists m :: m in value.Members() && w.compare(m, right).Some? && Stands(op, w.compare(m, right).value)
  }

  predicate EvaluateAtomic(left: string, op: Operator, right: string, w: World) {
    var candidates := Split(right, ',');
    if left !in w.claims then op == IsNoneOf
    else
      var value := w.claims[left];
      match op
      case Eq => value.Matches(right)
      case Neq => !value.Matches(right)
      case IsAnyOf => exists m :: m in value.Members() && m in candidates
      case IsPartOf => exists m :: m in value.Members() && m in candidates
      case IsNoneOf => forall m :: m in value.Members() ==> m !in candidates
      case IsAllOf => forall m :: m in candidates ==> m in value.Members()
      case Lt => OrderingHolds(value, op, right, w)
      case Lteq => OrderingHolds(value, op, right, w)
      case Gt => OrderingHolds(value, op, right, w)
      case Gteq => OrderingHolds(value, op, right, w)
  }

  /** The bounded evaluation: a node nested deeper than the limit never holds. */
  predicate EvaluateBounded(c: Constraint, w: World, depth: nat)
    decreases c, 1
  {
    if depth > MAX_CONSTRAINT_DEPTH then false
    else
      match c
      case Atomic(_, _, _) => EvaluateAtomic(c.left, c.op, c.right, w)
      case Xone(children) => CountHolding(children, w, depth) == 1
      case Or(children) => exists i :: 0 <= i < |children| && EvaluateBounded(children[i], w, depth + 1)
      case And(children) => forall i :: 0 <= i < |children| ==> EvaluateBounded(children[i], w, depth + 1)
      case AndSequence(children) => forall i :: 0 <= i < |children| ==> EvaluateBounded(children[i], w, depth + 1)
  }

  function CountHolding(children: seq<Constraint>, w: World, depth: nat): nat
    decreases children, 0
  {
    if children == [] then 0
    else
      var rest := CountHolding(children[1..], w, depth);
      if EvaluateBounded(children[0], w, depth + 1) then rest + 1 else rest
  }

  predicate Evaluate(c: Constraint, w: World) {
    EvaluateBounded(c, w, 0)
  }
}
