/** How large a compiled constraint can get, and which trees the parser hands to the compiler. */
module DnfGrowth {
  import opened Wrappers
  import opened Dnf
  import opened Graph

  // ---------------------------------------------------------------
  // Counting disjuncts
  // ---------------------------------------------------------------

  /** One for a test, the product over an `and`, the sum over an `or`. */
  function Count(form: ConstraintForm): nat
    decreases form, 1
  {
    match form
    case AtomForm(_, _, _) => 1
    case AndForm(children) => CountProduct(children)
    case OrForm(children) => CountSum(children)
    case XoneForm(_) => 0
  }

  function CountProduct(children: seq<ConstraintForm>): nat
    decreases children, 0
  {
    if children == [] then 1 else Count(children[0]) * CountProduct(children[1..])
  }

  function CountSum(children: seq<ConstraintForm>): nat
    decreases children, 0
  {
    if children == [] then 0 else Count(children[0]) + CountSum(children[1..])
  }

  lemma {:induction false} CrossCount(prefixes: seq<Conjunct>, disjuncts: seq<Conjunct>)
    ensures |Cross(prefixes, disjuncts)| == |prefixes| * |disjuncts|
  {
    if prefixes != [] {
      CrossCount(prefixes[1..], disjuncts);
      var n, d := |prefixes| - 1, |disjuncts|;
      assert (n + 1) * d == n * d + d;
    }
  }

  lemma {:induction false} ExpandCounts(form: ConstraintForm)
    requires Expand(form).Ok?
    ensures |Expand(form).value| == Count(form)
    decreases form, 1
  {
    match form
    case AtomForm(_, _, _) =>
    case AndForm(children) => ExpandAndCounts(children, [[]]);
    case OrForm(children) => ExpandOrCounts(children);
  }

  lemma {:induction false} ExpandAndCounts(children: seq<ConstraintForm>, product: seq<Conjunct>)
    requires ExpandAnd(children, product).Ok?
    ensures |ExpandAnd(children, product).value| == |product| * CountProduct(children)
    decreases children, 0
  {
    if children != [] {
      var disjuncts := Expand(children[0]).value;
      ExpandCounts(children[0]);
      CrossCount(product, disjuncts);
      ExpandAndCounts(children[1..], Cross(product, disjuncts));
      MulAssociates(|product|, Count(children[0]), CountProduct(children[1..]));
    }
  }

  lemma MulAssociates(a: nat, b: nat, c: nat)
    ensures (a * b) * c == a * (b * c)
  {
  }

  lemma {:induction false} ExpandOrCounts(children: seq<ConstraintForm>)
    requires ExpandOr(children).Ok?
    ensures |ExpandOr(children).value| == CountSum(children)
    decreases children, 0
  {
    if children != [] {
      ExpandCounts(children[0]);
      ExpandOrCounts(children[1..]);
    }
  }

  // ---------------------------------------------------------------
  // The bound
  // ---------------------------------------------------------------

  /** The tests of a tree. */
  function Tests(form: ConstraintForm): nat
    decreases form, 1
  {
    match form
    case AtomForm(_, _, _) => 1
    case AndForm(children) => TestsIn(children)
    case OrForm(children) => TestsIn(children)
    case XoneForm(children) => TestsIn(children)
  }

  function TestsIn(children: seq<ConstraintForm>): nat
    decreases children, 0
  {
    if children == [] then 0 else Tests(children[0]) + TestsIn(children[1..])
  }

  /** No `and` and no `or` of nothing, anywhere in the tree. */
  predicate NoEmptyJunction(form: ConstraintForm)
    decreases form, 1
  {
    match form
    case AtomForm(_, _, _) => true
    case AndForm(children) => children != [] && NoEmptyJunctionIn(children)
    case OrForm(children) => children != [] && NoEmptyJunctionIn(children)
    case XoneForm(children) => NoEmptyJunctionIn(children)
  }

  predicate NoEmptyJunctionIn(children: seq<ConstraintForm>)
    decreases children, 0
  {
    children == [] || (NoEmptyJunction(children[0]) && NoEmptyJunctionIn(children[1..]))
  }

  function Pow3(n: nat): nat {
    if n == 0 then 1 else 3 * Pow3(n - 1)
  }

  function Cube(d: nat): nat {
    d * d * d
  }

  lemma {:induction false} Pow3Adds(m: nat, n: nat)
    ensures Pow3(m + n) == Pow3(m) * Pow3(n)
  {
    if m > 0 {
      Pow3Adds(m - 1, n);
      MulAssociates(3, Pow3(m - 1), Pow3(n));
    }
  }

  lemma {:induction false} Pow3Grows(m: nat, n: nat)
    requires m <= n
    ensures 1 <= Pow3(m) <= Pow3(n)
    decreases n
  {
    if m < n {
      Pow3Grows(m, n - 1);
    } else if m > 0 {
      Pow3Grows(m - 1, n - 1);
    }
  }

  lemma MulMonotone(a: nat, b: nat, x: nat, y: nat)
    requires a <= x && b <= y
    ensures a * b <= x * y
  {
    assert a * b <= a * y by { assert a * (y - b) >= 0; }
    assert a * y <= x * y by { assert (x - a) * y >= 0; }
  }

  lemma CubeOfProduct(a: nat, b: nat)
    ensures Cube(a * b) == Cube(a) * Cube(b)
  {
    var p := a * b;
    calc {
      Cube(p);
      p * p * p;
      { MulAssociates(a, b, p); MulAssociates(p, a, b); assert p * p == (p * a) * b; }
      ((p * a) * b) * p;
      { assert p * a == a * a * b; }
      ((a * a * b) * b) * p;
      { assert (a * a * b) * b == (a * a) * (b * b); }
      ((a * a) * (b * b)) * (a * b);
      { Shuffle(a * a, b * b, a, b); }
      (a * a * a) * (b * b * b);
    }
  }

  lemma Shuffle(x: nat, y: nat, a: nat, b: nat)
    ensures (x * y) * (a * b) == (x * a) * (y * b)
  {
    assert (x * y) * (a * b) == x * (y * (a * b));
    assert y * (a * b) == a * (y * b);
    assert x * (a * (y * b)) == (x * a) * (y * b);
  }

  lemma CubeMonotone(a: nat, b: nat)
    requires a <= b
    ensures Cube(a) <= Cube(b)
  {
    MulMonotone(a, a, b, b);
    MulMonotone(a * a, a, b * b, b);
  }

  lemma SmallNeedsTests(d: nat, n: nat)
    requires Cube(d) <= Pow3(n)
    ensures d >= 2 ==> n >= 2
  {
    if d >= 2 {
      CubeMonotone(2, d);
      assert Pow3(1) == 3 * Pow3(0) && Pow3(0) == 1;
    }
  }

  /** One more disjunct costs one more test. */
  lemma OneMore(b: nat, n: nat)
    requires b >= 1 && n >= 1 && Cube(b) <= Pow3(n)
    ensures Cube(b + 1) <= Pow3(n + 1)
  {
    SmallNeedsTests(b, n);
    if b == 1 {
      Pow3Grows(2, n + 1);
      assert Pow3(2) == 3 * Pow3(1) && Pow3(1) == 3 * Pow3(0);
    } else if b == 2 {
      Pow3Grows(3, n + 1);
      assert Pow3(3) == 3 * Pow3(2) && Pow3(2) == 3 * Pow3(1) && Pow3(1) == 3 * Pow3(0);
    } else {
      var s := b * b;
      assert 3 * b <= s by { MulMonotone(3, b, b, b); }
      assert 3 * s <= s * b by { MulMonotone(s, 3, s, b); }
      assert Cube(b + 1) == s * b + 3 * s + 3 * b + 1 by {
        assert (b + 1) * (b + 1) == s + 2 * b + 1;
        assert (s + 2 * b + 1) * (b + 1) == s * b + s + 2 * b * b + 2 * b + b + 1;
      }
    }
  }

  /** Adding disjuncts of trees with disjoint tests stays within the bound. */
  lemma SumBound(a: nat, m: nat, b: nat, n: nat)
    requires Cube(a) <= Pow3(m) && Cube(b) <= Pow3(n)
    requires (a > 0 ==> m > 0) && (b > 0 ==> n > 0)
    ensures Cube(a + b) <= Pow3(m + n)
  {
    if a == 0 {
      Pow3Grows(n, m + n);
    } else if b == 0 {
      Pow3Grows(m, m + n);
    } else if a == 1 {
      OneMore(b, n);
      Pow3Grows(n + 1, m + n);
    } else if b == 1 {
      OneMore(a, m);
      Pow3Grows(m + 1, m + n);
    } else {
      assert a + b <= a * b by { assert (a - 1) * (b - 1) >= 1; }
      CubeMonotone(a + b, a * b);
      ProductBound(a, m, b, n);
    }
  }

  lemma ProductBound(a: nat, m: nat, b: nat, n: nat)
    requires Cube(a) <= Pow3(m) && Cube(b) <= Pow3(n)
    ensures Cube(a * b) <= Pow3(m + n)
  {
    CubeOfProduct(a, b);
    MulMonotone(Cube(a), Cube(b), Pow3(m), Pow3(n));
    Pow3Adds(m, n);
  }

  /** Of `n` tests come at most the cube root of three to the `n` disjuncts. */
  lemma {:induction false} GrowthBound(form: ConstraintForm)
    requires NoEmptyJunction(form)
    ensures Cube(Count(form)) <= Pow3(Tests(form))
    ensures Count(form) > 0 ==> Tests(form) > 0
    decreases form, 1
  {
    match form
    case AtomForm(_, _, _) => assert Pow3(1) == 3 * Pow3(0);
    case AndForm(children) => ProductGrowth(children);
    case OrForm(children) => SumGrowth(children);
    case XoneForm(_) => Pow3Grows(0, Tests(form));
  }

  lemma {:induction false} ProductGrowth(children: seq<ConstraintForm>)
    requires NoEmptyJunctionIn(children)
    ensures Cube(CountProduct(children)) <= Pow3(TestsIn(children))
    ensures children != [] && CountProduct(children) > 0 ==> TestsIn(children) > 0
    decreases children, 0
  {
    if children != [] {
      GrowthBound(children[0]);
      ProductGrowth(children[1..]);
      ProductBound(Count(children[0]), Tests(children[0]), CountProduct(children[1..]), TestsIn(children[1..]));
      assert Count(children[0]) == 0 ==> CountProduct(children) == 0;
    }
  }

  lemma {:induction false} SumGrowth(children: seq<ConstraintForm>)
    requires NoEmptyJunctionIn(children)
    ensures Cube(CountSum(children)) <= Pow3(TestsIn(children))
    ensures CountSum(children) > 0 ==> TestsIn(children) > 0
    decreases children, 0
  {
    if children != [] {
      GrowthBound(children[0]);
      SumGrowth(children[1..]);
      SumBound(Count(children[0]), Tests(children[0]), CountSum(children[1..]), TestsIn(children[1..]));
    }
  }

  // ---------------------------------------------------------------
  // The width of a conjunct
  // ---------------------------------------------------------------

  ghost predicate NoWider(conjuncts: seq<Conjunct>, n: nat) {
    forall k :: 0 <= k < |conjuncts| ==> |conjuncts[k]| <= n
  }

  lemma {:induction false} CrossWidth(prefixes: seq<Conjunct>, disjuncts: seq<Conjunct>, m: nat, n: nat)
    requires NoWider(prefixes, m) && NoWider(disjuncts, n)
    ensures NoWider(Cross(prefixes, disjuncts), m + n)
  {
    if prefixes != [] {
      CrossWidth(prefixes[1..], disjuncts, m, n);
    }
  }

  lemma {:induction false} ExpandWidth(form: ConstraintForm)
    requires Expand(form).Ok?
    ensures NoWider(Expand(form).value, Tests(form))
    decreases form, 1
  {
    match form
    case AtomForm(_, _, _) =>
    case AndForm(children) => ExpandAndWidth(children, [[]], 0);
    case OrForm(children) => ExpandOrWidth(children);
  }

  lemma {:induction false} ExpandAndWidth(children: seq<ConstraintForm>, product: seq<Conjunct>, m: nat)
    requires ExpandAnd(children, product).Ok? && NoWider(product, m)
    ensures NoWider(ExpandAnd(children, product).value, m + TestsIn(children))
    decreases children, 0
  {
    if children != [] {
      ExpandWidth(children[0]);
      CrossWidth(product, Expand(children[0]).value, m, Tests(children[0]));
      ExpandAndWidth(children[1..], Cross(product, Expand(children[0]).value), m + Tests(children[0]));
    }
  }

  lemma {:induction false} ExpandOrWidth(children: seq<ConstraintForm>)
    requires ExpandOr(children).Ok?
    ensures NoWider(ExpandOr(children).value, TestsIn(children))
    decreases children, 0
  {
    if children != [] {
      ExpandWidth(children[0]);
      ExpandOrWidth(children[1..]);
    }
  }

  /**
   The compiled form of a tree of `n` tests has `d` disjuncts with `d` cubed at most 3 to the `n`,
   none of them wider than `n`.
   */
  lemma DnfIsBounded(form: ConstraintForm)
    requires NoEmptyJunction(form) && Expand(form).Ok?
    ensures Cube(|Expand(form).value|) <= Pow3(Tests(form))
    ensures NoWider(Expand(form).value, Tests(form))
  {
    ExpandCounts(form);
    GrowthBound(form);
    ExpandWidth(form);
  }

  /** A conjunction of `k` disjunctions, each of one test three times. */
  function Wide(k: nat, atom: ConstraintForm): seq<ConstraintForm> {
    seq(k, _ => OrForm([atom, atom, atom]))
  }

  lemma {:induction false} WideCounts(k: nat, atom: ConstraintForm)
    requires atom.AtomForm?
    ensures Cube(CountProduct(Wide(k, atom))) == Pow3(TestsIn(Wide(k, atom))) && TestsIn(Wide(k, atom)) == 3 * k
  {
    ThreeTests(atom);
    if k == 0 {
      assert Wide(k, atom) == [];
    } else {
      WideCounts(k - 1, atom);
      assert Wide(k, atom)[0] == OrForm([atom, atom, atom]) && Wide(k, atom)[1..] == Wide(k - 1, atom);
      assert CountProduct(Wide(k, atom)) == 3 * CountProduct(Wide(k - 1, atom));
      assert TestsIn(Wide(k, atom)) == 3 + TestsIn(Wide(k - 1, atom));
      CubeOfProduct(3, CountProduct(Wide(k - 1, atom)));
      Pow3Adds(3, TestsIn(Wide(k - 1, atom)));
      assert Pow3(3) == 27 && Cube(3) == 27 by {
        assert Pow3(3) == 3 * Pow3(2) && Pow3(2) == 3 * Pow3(1) && Pow3(1) == 3 * Pow3(0);
      }
    }
  }

  lemma {:induction false} WideCompiles(k: nat, atom: ConstraintForm)
    requires Obstacles(atom) == []
    ensures ObstaclesIn(Wide(k, atom)) == []
  {
    if k == 0 {
      assert Wide(k, atom) == [];
    } else {
      WideCompiles(k - 1, atom);
      ThreeCompile(atom);
      assert Wide(k, atom)[0] == OrForm([atom, atom, atom]) && Wide(k, atom)[1..] == Wide(k - 1, atom);
    }
  }

  lemma ThreeCompile(atom: ConstraintForm)
    requires Obstacles(atom) == []
    ensures Obstacles(OrForm([atom, atom, atom])) == []
  {
    var c := [atom, atom, atom];
    assert c[1..] == [atom, atom] && c[1..][1..] == [atom] && c[1..][1..][1..] == [];
    assert ObstaclesIn(c[1..][1..]) == Obstacles(atom) + ObstaclesIn(c[1..][1..][1..]);
    assert ObstaclesIn(c[1..]) == Obstacles(atom) + ObstaclesIn(c[1..][1..]);
    assert ObstaclesIn(c) == Obstacles(atom) + ObstaclesIn(c[1..]);
  }

  /** The bound is reached by compiled constraints of any size. */
  lemma BoundIsReached(k: nat, atom: ConstraintForm)
    requires atom.AtomForm? && Expand(atom).Ok?
    ensures var form := AndForm(Wide(k, atom));
      Expand(form).Ok? && Tests(form) == 3 * k && Cube(|Expand(form).value|) == Pow3(Tests(form))
  {
    RefusedAtLeftmost(atom);
    WideCompiles(k, atom);
    RefusedAtLeftmost(AndForm(Wide(k, atom)));
    WideCounts(k, atom);
    ExpandCounts(AndForm(Wide(k, atom)));
  }

  lemma ThreeTests(atom: ConstraintForm)
    requires atom.AtomForm?
    ensures Count(OrForm([atom, atom, atom])) == 3 && Tests(OrForm([atom, atom, atom])) == 3
  {
    var c := [atom, atom, atom];
    assert c[1..] == [atom, atom] && c[1..][1..] == [atom] && c[1..][1..][1..] == [];
    assert CountSum(c[1..][1..]) == 1 + CountSum(c[1..][1..][1..]);
    assert TestsIn(c[1..][1..]) == 1 + TestsIn(c[1..][1..][1..]);
    assert CountSum(c[1..]) == 1 + CountSum(c[1..][1..]) && CountSum(c) == 1 + CountSum(c[1..]);
    assert TestsIn(c[1..]) == 1 + TestsIn(c[1..][1..]) && TestsIn(c) == 1 + TestsIn(c[1..]);
  }

  // ---------------------------------------------------------------
  // The parser
  // ---------------------------------------------------------------

  predicate Combines(property: string) {
    property == ODRL + "and" || property == ODRL + "or" || property == ODRL + "xone"
  }

  ghost predicate ConstraintsRanked(g: Graph, rank: string -> nat) {
    forall t :: t in g && Combines(t.property) && TermId(t.value).Some? ==>
      rank(TermId(t.value).value) < rank(NodeId(t.subject))
  }

  function NameAt(g: Graph, node: string, property: string): string {
    match ObjectId(g, node, property)
    case None => ""
    case Some(id) => LocalName(id)
  }

  function LiteralAt(g: Graph, node: string, property: string): string {
    match Object(g, node, property)
    case Some(Literal(value)) => value
    case _ => ""
  }

  /** A constraint node as a tree: `odrl:and`, else `odrl:or`, else `odrl:xone`; or one test. */
  ghost function ParseConstraint(g: Graph, node: string, rank: string -> nat): ConstraintForm
    requires ConstraintsRanked(g, rank)
    decreases rank(node), 1, 0
  {
    if ObjectId(g, node, RDF_TYPE) == Some(ODRL + "LogicalConstraint") then
      CombinedRanksLower(g, rank, node, ODRL + "and");
      CombinedRanksLower(g, rank, node, ODRL + "or");
      CombinedRanksLower(g, rank, node, ODRL + "xone");
      var all := ParseAll(g, ObjectIds(g, node, ODRL + "and"), rank, rank(node));
      var any := ParseAll(g, ObjectIds(g, node, ODRL + "or"), rank, rank(node));
      if all != [] then AndForm(all)
      else if any != [] then OrForm(any)
      else XoneForm(ParseAll(g, ObjectIds(g, node, ODRL + "xone"), rank, rank(node)))
    else
      AtomForm(NameAt(g, node, ODRL + "leftOperand"), NameAt(g, node, ODRL + "operator"),
               LiteralAt(g, node, ODRL + "rightOperand"))
  }

  ghost function ParseAll(g: Graph, nodes: seq<string>, rank: string -> nat, bound: nat): seq<ConstraintForm>
    requires ConstraintsRanked(g, rank) && forall c :: c in nodes ==> rank(c) < bound
    decreases bound, 0, |nodes|
  {
    if nodes == [] then []
    else [ParseConstraint(g, nodes[0], rank)] + ParseAll(g, nodes[1..], rank, bound)
  }

  lemma CombinedRanksLower(g: Graph, rank: string -> nat, node: string, property: string)
    requires ConstraintsRanked(g, rank) && Combines(property)
    ensures forall c :: c in ObjectIds(g, node, property) ==> rank(c) < rank(node)
  {
    ObjectsComeFromTriples(g, node, property);
    IdsComeFromTerms(Objects(g, node, property));
  }

  /** The parser never produces an `and` or an `or` of nothing. */
  lemma {:induction false} ParsedHasNoEmptyJunction(g: Graph, node: string, rank: string -> nat)
    requires ConstraintsRanked(g, rank)
    ensures NoEmptyJunction(ParseConstraint(g, node, rank))
    decreases rank(node), 1, 0
  {
    CombinedRanksLower(g, rank, node, ODRL + "and");
    CombinedRanksLower(g, rank, node, ODRL + "or");
    CombinedRanksLower(g, rank, node, ODRL + "xone");
    ParsedAllHaveNoEmptyJunction(g, ObjectIds(g, node, ODRL + "and"), rank, rank(node));
    ParsedAllHaveNoEmptyJunction(g, ObjectIds(g, node, ODRL + "or"), rank, rank(node));
    ParsedAllHaveNoEmptyJunction(g, ObjectIds(g, node, ODRL + "xone"), rank, rank(node));
  }

  lemma {:induction false} ParsedAllHaveNoEmptyJunction(g: Graph, nodes: seq<string>, rank: string -> nat, bound: nat)
    requires ConstraintsRanked(g, rank) && forall c :: c in nodes ==> rank(c) < bound
    ensures NoEmptyJunctionIn(ParseAll(g, nodes, rank, bound))
    decreases bound, 0, |nodes|
  {
    if nodes != [] {
      ParsedHasNoEmptyJunction(g, nodes[0], rank);
      ParsedAllHaveNoEmptyJunction(g, nodes[1..], rank, bound);
    }
  }

  /** Whatever the parser reads, its compiled form is within the bound. */
  lemma ParsedIsBounded(g: Graph, node: string, rank: string -> nat)
    requires ConstraintsRanked(g, rank) && Expand(ParseConstraint(g, node, rank)).Ok?
    ensures var form := ParseConstraint(g, node, rank);
      Cube(|Expand(form).value|) <= Pow3(Tests(form)) && NoWider(Expand(form).value, Tests(form))
  {
    ParsedHasNoEmptyJunction(g, node, rank);
    DnfIsBounded(ParseConstraint(g, node, rank));
  }
}
