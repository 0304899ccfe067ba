/** What a file says of a constraint node, triple by triple, and that the parser reads exactly that. */
module FileConstraints {
  import opened Wrappers
  import opened Graph
  import opened Triples
  import opened Dnf
  import opened DnfGrowth
  import opened FileRules

  /** The name of the node given first, or nothing when none is. */
  ghost predicate NameSays(g: Graph, node: string, property: string, name: string) {
    || (exists id :: FirstIs(g, node, property, id) && IsCalled(id, name))
    || (name == "" && forall id :: !FirstIs(g, node, property, id))
  }

  /** The literal given first, or nothing when what is given first is none. */
  ghost predicate LiteralSays(g: Graph, node: string, property: string, value: string) {
    || GivesFirst(g, node, property, Literal(value))
    || (value == "" && forall v :: !GivesFirst(g, node, property, Literal(v)))
  }

  /**
   A logical constraint is the `odrl:and` of the nodes given, else the `odrl:or`, else the `odrl:xone`,
   in file order; any other node is one test.
   */
  ghost predicate FormSays(g: Graph, node: string, form: ConstraintForm, rank: string -> nat)
    decreases rank(node), 1
  {
    if FirstIs(g, node, RDF_TYPE, ODRL + "LogicalConstraint") then
      var all, any, one := Pointing(g, node, ODRL + "and"), Pointing(g, node, ODRL + "or"),
        Pointing(g, node, ODRL + "xone");
      if all != [] then form.AndForm? && FormsSay(g, all, form.children, rank, rank(node))
      else if any != [] then form.OrForm? && FormsSay(g, any, form.children, rank, rank(node))
      else form.XoneForm? && FormsSay(g, one, form.children, rank, rank(node))
    else
      && form.AtomForm?
      && NameSays(g, node, ODRL + "leftOperand", form.left)
      && NameSays(g, node, ODRL + "operator", form.operator)
      && LiteralSays(g, node, ODRL + "rightOperand", form.right)
  }

  ghost predicate FormsSay(g: Graph, ts: seq<Triple>, forms: seq<ConstraintForm>, rank: string -> nat, bound: nat)
    decreases bound, 0
  {
    && |forms| == |ts|
    && forall k :: 0 <= k < |ts| ==>
         && ts[k].value.Resource? && rank(Target(ts[k])) < bound
         && FormSays(g, Target(ts[k]), forms[k], rank)
  }

  lemma NameIsSaid(g: Graph, node: string, property: string)
    ensures NameSays(g, node, property, NameAt(g, node, property))
  {
    forall id ensures ObjectId(g, node, property) == Some(id) <==> FirstIs(g, node, property, id) {
      ObjectIdIff(g, node, property, id);
    }
    if ObjectId(g, node, property).Some? {
      CalledByLocalName(ObjectId(g, node, property).value);
      assert FirstIs(g, node, property, ObjectId(g, node, property).value);
    }
  }

  lemma LiteralIsSaid(g: Graph, node: string, property: string)
    ensures LiteralSays(g, node, property, LiteralAt(g, node, property))
  {
    forall v
      ensures Object(g, node, property) == Some(Literal(v)) <==> GivesFirst(g, node, property, Literal(v))
    {
      ObjectIff(g, node, property, Literal(v));
    }
  }

  lemma OneMoreSaid(
      g: Graph, ts: seq<Triple>, first: ConstraintForm, rest: seq<ConstraintForm>, rank: string -> nat, bound: nat)
    requires ts != [] && ts[0].value.Resource? && rank(Target(ts[0])) < bound
    requires FormSays(g, Target(ts[0]), first, rank) && FormsSay(g, ts[1..], rest, rank, bound)
    ensures FormsSay(g, ts, [first] + rest, rank, bound)
  {
    var forms := [first] + rest;
    forall k | 0 <= k < |ts|
      ensures ts[k].value.Resource? && rank(Target(ts[k])) < bound && FormSays(g, Target(ts[k]), forms[k], rank)
    {
      if k > 0 {
        assert ts[k] == ts[1..][k - 1] && forms[k] == rest[k - 1];
      }
    }
  }

  lemma {:induction false} AllParsedAreSaid(
      g: Graph, ts: seq<Triple>, nodes: seq<string>, rank: string -> nat, bound: nat)
    requires ConstraintsRanked(g, rank) && |nodes| == |ts|
    requires forall k :: 0 <= k < |ts| ==> ts[k].value.Resource? && nodes[k] == Target(ts[k])
    requires forall c :: c in nodes ==> rank(c) < bound
    ensures FormsSay(g, ts, ParseAll(g, nodes, rank, bound), rank, bound)
    decreases bound, 0, |nodes|
  {
    if nodes != [] {
      assert nodes[0] in nodes;
      ParsedIsSaid(g, nodes[0], rank);
      AllParsedAreSaid(g, ts[1..], nodes[1..], rank, bound);
      OneMoreSaid(g, ts, ParseConstraint(g, nodes[0], rank), ParseAll(g, nodes[1..], rank, bound), rank, bound);
    }
  }

  lemma {:induction false} ChildrenAreSaid(g: Graph, node: string, property: string, rank: string -> nat)
    requires ConstraintsRanked(g, rank) && Combines(property)
    requires forall c :: c in ObjectIds(g, node, property) ==> rank(c) < rank(node)
    ensures var forms := ParseAll(g, ObjectIds(g, node, property), rank, rank(node));
      FormsSay(g, Pointing(g, node, property), forms, rank, rank(node))
    decreases rank(node), 1, 0
  {
    NodesGiven(g, node, property);
    AllParsedAreSaid(g, Pointing(g, node, property), ObjectIds(g, node, property), rank, rank(node));
  }

  /** The tree parsed from a constraint node is the one the file gives. */
  lemma {:induction false} ParsedIsSaid(g: Graph, node: string, rank: string -> nat)
    requires ConstraintsRanked(g, rank)
    ensures FormSays(g, node, ParseConstraint(g, node, rank), rank)
    decreases rank(node), 2
  {
    ObjectIdIff(g, node, RDF_TYPE, ODRL + "LogicalConstraint");
    if FirstIs(g, node, RDF_TYPE, ODRL + "LogicalConstraint") {
      CombinedRanksLower(g, rank, node, ODRL + "and");
      CombinedRanksLower(g, rank, node, ODRL + "or");
      CombinedRanksLower(g, rank, node, ODRL + "xone");
      ChildrenAreSaid(g, node, ODRL + "and", rank);
      ChildrenAreSaid(g, node, ODRL + "or", rank);
      ChildrenAreSaid(g, node, ODRL + "xone", rank);
    } else {
      NameIsSaid(g, node, ODRL + "leftOperand");
      NameIsSaid(g, node, ODRL + "operator");
      LiteralIsSaid(g, node, ODRL + "rightOperand");
    }
  }
}
