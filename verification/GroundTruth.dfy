/** The decision an expected report states: any active prohibition denies, else any active permission allows. */
module GroundTruth {
  import opened Wrappers
  import opened Graph
  import opened Triples
  import opened Reports

  const REPORT := "https://w3id.org/force/compliance-report#"
  const PERMISSION_REPORT := REPORT + "PermissionReport"
  const PROHIBITION_REPORT := REPORT + "ProhibitionReport"
  const ACTIVATION_STATE := REPORT + "activationState"
  const ACTIVE := REPORT + "Active"
  const INACTIVE := REPORT + "Inactive"

  function TypeOf(g: Graph, subject: string): Option<string> {
    ObjectId(g, subject, RDF_TYPE)
  }

  /** `t` states that a report of the given class is active. */
  predicate StatesActive(g: Graph, t: Triple, class_: string) {
    && t.property == ACTIVATION_STATE
    && t.value == Resource(Named(ACTIVE))
    && TypeOf(g, NodeId(t.subject)) == Some(class_)
  }

  /** The triple says so of a node whose first `rdf:type` is the class. */
  lemma StatesActiveIff(g: Graph, t: Triple, class_: string)
    ensures StatesActive(g, t, class_)
       <==> t.property == REPORT + "activationState" && t.value == Resource(Named(REPORT + "Active"))
            && FirstIs(g, NodeId(t.subject), RDF_TYPE, class_)
  {
    ObjectIdIff(g, NodeId(t.subject), RDF_TYPE, class_);
  }

  /** Among the first `n` triples, some report of the class is stated to be active. */
  predicate ActiveBefore(g: Graph, class_: string, n: nat)
    requires n <= |g|
  {
    exists k :: 0 <= k < n && StatesActive(g, g[k], class_)
  }

  predicate AnyActive(g: Graph, class_: string) {
    ActiveBefore(g, class_, |g|)
  }

  function Reduced(prohibited: bool, permitted: bool): WireDecision {
    if prohibited then WireDecision.Deny
    else if permitted then WireDecision.Allow
    else WireDecision.Deny
  }

  /** The loop body: the two flags after one more triple. */
  method NoteTriple(g: Graph, t: Triple, prohibited: bool, permitted: bool)
    returns (anyProhibitionActive: bool, anyPermissionActive: bool)
    ensures anyProhibitionActive <==> prohibited || StatesActive(g, t, PROHIBITION_REPORT)
    ensures anyPermissionActive <==> permitted || StatesActive(g, t, PERMISSION_REPORT)
  {
    anyProhibitionActive, anyPermissionActive := prohibited, permitted;
    if t.property != ACTIVATION_STATE {
      return;
    }
    var active := t.value == Resource(Named(ACTIVE));
    var type_ := TypeOf(g, NodeId(t.subject));
    if type_ == Some(PROHIBITION_REPORT) && active {
      anyProhibitionActive := true;
      ClassesDiffer();
    } else if type_ == Some(PERMISSION_REPORT) && active {
      anyPermissionActive := true;
    }
  }

  /** Allow exactly when some permission report is active and no prohibition report is; otherwise deny. */
  method ExpectedDecision(g: Graph) returns (d: WireDecision)
    ensures d == Reduced(AnyActive(g, PROHIBITION_REPORT), AnyActive(g, PERMISSION_REPORT))
    ensures d.Allow? || d.Deny?
    ensures d.Allow? <==> AnyActive(g, PERMISSION_REPORT) && !AnyActive(g, PROHIBITION_REPORT)
  {
    var anyProhibitionActive, anyPermissionActive := false, false;
    for k := 0 to |g|
      invariant anyProhibitionActive <==> ActiveBefore(g, PROHIBITION_REPORT, k)
      invariant anyPermissionActive <==> ActiveBefore(g, PERMISSION_REPORT, k)
    {
      anyProhibitionActive, anyPermissionActive := NoteTriple(g, g[k], anyProhibitionActive, anyPermissionActive);
      OneMore(g, PROHIBITION_REPORT, k);
      OneMore(g, PERMISSION_REPORT, k);
    }
    return Reduced(anyProhibitionActive, anyPermissionActive);
  }

  lemma OneMore(g: Graph, class_: string, k: nat)
    requires k < |g|
    ensures ActiveBefore(g, class_, k + 1) <==> ActiveBefore(g, class_, k) || StatesActive(g, g[k], class_)
  {
  }

  lemma ClassesDiffer()
    ensures PERMISSION_REPORT != PROHIBITION_REPORT && ACTIVE != INACTIVE
  {
    assert PERMISSION_REPORT[|REPORT| + 1] == 'e' && PROHIBITION_REPORT[|REPORT| + 1] == 'r';
    assert ACTIVE[|REPORT|] == 'A' && INACTIVE[|REPORT|] == 'I';
  }

  // ---------------------------------------------------------------
  // A report with one node for each rule
  // ---------------------------------------------------------------

  /** What a report states of one rule: its class, and whether it is active. */
  datatype Statement = Statement(class_: string, active: bool)

  function StateNode(active: bool): Term {
    Resource(Named(if active then ACTIVE else INACTIVE))
  }

  /** `g` gives each rule a node with that rule's class and state, and no other activation state. */
  ghost predicate ReportsOn(g: Graph, nodes: seq<Node>, rules: seq<Statement>) {
    && |nodes| == |rules|
    && (forall k :: 0 <= k < |rules| ==> TypeOf(g, NodeId(nodes[k])) == Some(rules[k].class_))
    && (forall k :: 0 <= k < |rules| ==> Triple(nodes[k], ACTIVATION_STATE, StateNode(rules[k].active)) in g)
    && (forall t :: t in g && t.property == ACTIVATION_STATE ==>
          exists k :: 0 <= k < |rules| && t == Triple(nodes[k], ACTIVATION_STATE, StateNode(rules[k].active)))
  }

  /** One blank node for each rule, its class and its state. */
  function NodeFor(k: nat): Node {
    Blank(seq(k, _ => 'r'))
  }

  function NodesFor(n: nat): (r: seq<Node>)
    ensures |r| == n && forall k :: 0 <= k < n ==> r[k] == NodeFor(k)
  {
    seq(n, k requires 0 <= k < n => NodeFor(k))
  }

  lemma PropertiesDiffer()
    ensures ACTIVATION_STATE != RDF_TYPE
  {
    assert REPORT[4] == 's' && RDF_TYPE[4] == ':' && ACTIVATION_STATE[4] == REPORT[4];
  }

  function TripleFor(rules: seq<Statement>, i: nat): Triple
    requires i < 2 * |rules|
  {
    var rule := rules[i / 2];
    if i % 2 == 0 then Triple(NodeFor(i / 2), RDF_TYPE, Resource(Named(rule.class_)))
    else Triple(NodeFor(i / 2), ACTIVATION_STATE, StateNode(rule.active))
  }

  function ReportFor(rules: seq<Statement>): (g: Graph)
    ensures |g| == 2 * |rules| && forall i :: 0 <= i < |g| ==> g[i] == TripleFor(rules, i)
  {
    seq(2 * |rules|, i requires 0 <= i < 2 * |rules| => TripleFor(rules, i))
  }

  lemma NodesDiffer(j: nat, k: nat)
    requires j != k
    ensures NodeId(NodeFor(j)) != NodeId(NodeFor(k))
  {
    assert |NodeId(NodeFor(j))| == 2 + j && |NodeId(NodeFor(k))| == 2 + k;
  }

  lemma SubjectOfPlace(rules: seq<Statement>, i: nat)
    requires i < 2 * |rules|
    ensures ReportFor(rules)[i].subject == NodeFor(i / 2)
  {
  }

  lemma NoTypeBefore(rules: seq<Statement>, k: nat, j: nat)
    requires k < |rules| && j < 2 * k
    ensures !Gives(ReportFor(rules)[j], NodeId(NodeFor(k)), RDF_TYPE)
  {
    SubjectOfPlace(rules, j);
    NodesDiffer(j / 2, k);
    NodeIdIff(NodeFor(j / 2), NodeId(NodeFor(k)));
  }

  lemma TypeInReport(rules: seq<Statement>, k: nat)
    requires k < |rules|
    ensures TypeOf(ReportFor(rules), NodeId(NodeFor(k))) == Some(rules[k].class_)
  {
    var g, id, class_ := ReportFor(rules), NodeId(NodeFor(k)), Resource(Named(rules[k].class_));
    NodeIdIff(NodeFor(k), id);
    assert g[2 * k] == Triple(NodeFor(k), RDF_TYPE, class_) by {
      assert (2 * k) / 2 == k && (2 * k) % 2 == 0;
    }
    forall j | 0 <= j < 2 * k ensures !Gives(g[j], id, RDF_TYPE) {
      NoTypeBefore(rules, k, j);
    }
    assert FirstGiven(g, id, RDF_TYPE, 2 * k);
    ObjectIff(g, id, RDF_TYPE, class_);
  }

  function StateTriple(rules: seq<Statement>, k: nat): Triple
    requires k < |rules|
  {
    Triple(NodeFor(k), ACTIVATION_STATE, StateNode(rules[k].active))
  }

  /** At even places the report gives a class, at odd ones a state. */
  lemma PlacesInReport(rules: seq<Statement>, k: nat)
    requires k < |rules|
    ensures ReportFor(rules)[2 * k].property == RDF_TYPE
    ensures ReportFor(rules)[2 * k + 1] == StateTriple(rules, k)
  {
    assert (2 * k) / 2 == k && (2 * k + 1) / 2 == k && (2 * k) % 2 == 0 && (2 * k + 1) % 2 == 1;
  }

  lemma StateOfPlace(rules: seq<Statement>, i: nat)
    requires i < 2 * |rules| && ReportFor(rules)[i].property == ACTIVATION_STATE
    ensures ReportFor(rules)[i] == StateTriple(rules, i / 2)
  {
    PropertiesDiffer();
    PlacesInReport(rules, i / 2);
    assert i == 2 * (i / 2) || i == 2 * (i / 2) + 1;
  }

  lemma StatesInReport(rules: seq<Statement>, t: Triple)
    ensures t in ReportFor(rules) && t.property == ACTIVATION_STATE
       <==> exists k: nat :: k < |rules| && t == StateTriple(rules, k)
  {
    var g := ReportFor(rules);
    if t in g && t.property == ACTIVATION_STATE {
      var i :| 0 <= i < |g| && g[i] == t;
      StateOfPlace(rules, i);
    }
    if k: nat :| k < |rules| && t == StateTriple(rules, k) {
      PlacesInReport(rules, k);
    }
  }

  /** There is such a report on any rules. */
  lemma ReportExists(rules: seq<Statement>) returns (g: Graph, nodes: seq<Node>)
    ensures ReportsOn(g, nodes, rules)
  {
    g, nodes := ReportFor(rules), NodesFor(|rules|);
    forall k | 0 <= k < |rules|
      ensures TypeOf(g, NodeId(nodes[k])) == Some(rules[k].class_)
      ensures StateTriple(rules, k) in g && StateTriple(rules, k).subject == nodes[k]
    {
      TypeInReport(rules, k);
      StatesInReport(rules, StateTriple(rules, k));
    }
    forall t | t in g && t.property == ACTIVATION_STATE
      ensures exists k :: 0 <= k < |rules| && t == Triple(nodes[k], ACTIVATION_STATE, StateNode(rules[k].active))
    {
      StatesInReport(rules, t);
      var k: nat :| k < |rules| && t == StateTriple(rules, k);
      assert nodes[k] == NodeFor(k);
    }
  }

  /** On such a report, some report of a class is active exactly when some rule of it is. */
  lemma ActiveIffStated(g: Graph, nodes: seq<Node>, rules: seq<Statement>, class_: string)
    requires ReportsOn(g, nodes, rules)
    ensures AnyActive(g, class_) <==> exists k :: 0 <= k < |rules| && rules[k] == Statement(class_, true)
  {
    ClassesDiffer();
    if AnyActive(g, class_) {
      var j :| 0 <= j < |g| && StatesActive(g, g[j], class_);
      assert g[j] in g;
      var k :| 0 <= k < |rules| && g[j] == Triple(nodes[k], ACTIVATION_STATE, StateNode(rules[k].active));
      assert rules[k] == Statement(class_, true);
    }
    if k :| 0 <= k < |rules| && rules[k] == Statement(class_, true) {
      var t := Triple(nodes[k], ACTIVATION_STATE, StateNode(rules[k].active));
      assert t in g;
      var j :| 0 <= j < |g| && g[j] == t;
      assert StatesActive(g, g[j], class_);
    }
  }
}
