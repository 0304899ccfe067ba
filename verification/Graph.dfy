/** A parsed Turtle file: its triples in file order, the lookups over them, and the `rdf:List` walk. */
module Graph {
  import opened Wrappers
  import opened Collections
  import opened Chains

  datatype Node = Named(iri: string) | Blank(id: string)

  datatype Term = Resource(node: Node) | Literal(value: string)

  datatype Triple = Triple(subject: Node, property: string, value: Term)

  type Graph = seq<Triple>

  const ODRL := "http://www.w3.org/ns/odrl/2/"
  const RDF_TYPE := "http://www.w3.org/1999/02/22-rdf-syntax-ns#type"
  const RDF_FIRST := "http://www.w3.org/1999/02/22-rdf-syntax-ns#first"
  const RDF_REST := "http://www.w3.org/1999/02/22-rdf-syntax-ns#rest"
  const RDF_NIL := "http://www.w3.org/1999/02/22-rdf-syntax-ns#nil"
  const RDF_VALUE := "http://www.w3.org/1999/02/22-rdf-syntax-ns#value"

  function NodeId(n: Node): string {
    match n
    case Named(iri) => iri
    case Blank(id) => "_:" + id
  }

  function TermId(t: Term): Option<string> {
    match t
    case Resource(n) => Some(NodeId(n))
    case Literal(_) => None
  }

  /** What follows the last `/` or `#`; the whole string when it has neither. */
  function LocalName(iri: string): string {
    if iri == "" then ""
    else
      var last := iri[|iri| - 1];
      if last == '/' || last == '#' then "" else LocalName(iri[..|iri| - 1]) + [last]
  }

  /** Every object of `subject` under `property`, in file order. */
  function Objects(g: Graph, subject: string, property: string): seq<Term> {
    if g == [] then []
    else
      (if NodeId(g[0].subject) == subject && g[0].property == property then [g[0].value] else [])
      + Objects(g[1..], subject, property)
  }

  function Object(g: Graph, subject: string, property: string): Option<Term> {
    var objects := Objects(g, subject, property);
    if objects == [] then None else Some(objects[0])
  }

  function ObjectId(g: Graph, subject: string, property: string): Option<string> {
    match Object(g, subject, property)
    case None => None
    case Some(t) => TermId(t)
  }

  function IdsOf(terms: seq<Term>): seq<string> {
    if terms == [] then []
    else (match TermId(terms[0]) case None => [] case Some(id) => [id]) + IdsOf(terms[1..])
  }

  /** Every resource object; literals are dropped. */
  function ObjectIds(g: Graph, subject: string, property: string): seq<string> {
    IdsOf(Objects(g, subject, property))
  }

  lemma {:induction false} ObjectsComeFromTriples(g: Graph, subject: string, property: string)
    ensures forall o :: o in Objects(g, subject, property) ==>
      exists t :: t in g && NodeId(t.subject) == subject && t.property == property && t.value == o
  {
    if g != [] {
      ObjectsComeFromTriples(g[1..], subject, property);
      assert g == [g[0]] + g[1..];
    }
  }

  lemma {:induction false} IdsComeFromTerms(terms: seq<Term>)
    ensures forall id :: id in IdsOf(terms) ==> exists t :: t in terms && TermId(t) == Some(id)
  {
    if terms != [] {
      IdsComeFromTerms(terms[1..]);
      assert terms == [terms[0]] + terms[1..];
    }
  }

  // ---------------------------------------------------------------
  // Lists
  // ---------------------------------------------------------------

  /** A list cell: a node other than `rdf:nil` that has an `rdf:first`. */
  predicate IsCell(g: Graph, id: string) {
    id != RDF_NIL && Object(g, id, RDF_FIRST).Some?
  }

  function CellsIn(g: Graph): Cells {
    (id: string) => IsCell(g, id)
  }

  function RestIn(g: Graph): Links {
    (id: string) => ObjectId(g, id, RDF_REST)
  }

  function Firsts(g: Graph, cells: seq<string>): (r: seq<Term>)
    requires forall i :: 0 <= i < |cells| ==> IsCell(g, cells[i])
    ensures |r| == |cells| && forall i :: 0 <= i < |r| ==> Object(g, cells[i], RDF_FIRST) == Some(r[i])
  {
    seq(|cells|, i requires 0 <= i < |cells| && IsCell(g, cells[i]) => Object(g, cells[i], RDF_FIRST).value)
  }

  ghost function Subjects(g: Graph): set<string> {
    set t | t in g :: NodeId(t.subject)
  }

  lemma CellsAreSubjects(g: Graph, id: string)
    requires IsCell(g, id)
    ensures id in Subjects(g)
  {
    ObjectsComeFromTriples(g, id, RDF_FIRST);
    assert Objects(g, id, RDF_FIRST)[0] in Objects(g, id, RDF_FIRST);
  }

  /**
   The walk of an `rdf:List`: on an acyclic chain it stops, having read every well-formed
   cell from the head on, in order.
   */
  method RdfList(g: Graph, subject: string, property: string) returns (items: seq<Term>, ghost cells: seq<string>)
    requires Object(g, subject, property).Some? ==>
      IsAcyclic(CellsIn(g), RestIn(g), TermId(Object(g, subject, property).value))
    ensures Object(g, subject, property).None? ==> items == []
    ensures Object(g, subject, property).Some? ==>
      && IsWholeChain(CellsIn(g), RestIn(g), TermId(Object(g, subject, property).value), cells)
      && items == Firsts(g, cells)
  {
    items, cells := [], [];
    var head := Object(g, subject, property);
    if head.None? {
      return;
    }
    ghost var cell, link, start := CellsIn(g), RestIn(g), TermId(head.value);
    var current := TermId(head.value);
    while current.Some?
      invariant IsChain(cell, link, start, cells) && current == After(link, start, cells)
      invariant items == Firsts(g, cells)
      decreases Subjects(g) - Elements(cells), current.Some?
    {
      var node := current.value;
      if !IsCell(g, node) {
        break;
      }
      OneMoreCell(g, start, cells, node);
      items := items + [Object(g, node, RDF_FIRST).value];
      cells := cells + [node];
      current := ObjectId(g, node, RDF_REST);
    }
  }

  /** One cell more: the chain and its items grow by it, and there is one cell fewer to come. */
  lemma OneMoreCell(g: Graph, start: Option<string>, cells: seq<string>, node: string)
    requires IsChain(CellsIn(g), RestIn(g), start, cells) && After(RestIn(g), start, cells) == Some(node)
    requires IsCell(g, node) && IsAcyclic(CellsIn(g), RestIn(g), start)
    ensures IsChain(CellsIn(g), RestIn(g), start, cells + [node])
    ensures Firsts(g, cells + [node]) == Firsts(g, cells) + [Object(g, node, RDF_FIRST).value]
    ensures Subjects(g) - Elements(cells + [node]) < Subjects(g) - Elements(cells)
  {
    OneMoreFirst(g, cells, node);
    ChainExtends(CellsIn(g), RestIn(g), start, cells, node);
    assert Elements(cells + [node]) == Elements(cells) + {node};
    assert node in Subjects(g) - Elements(cells);
  }

  lemma OneMoreFirst(g: Graph, cells: seq<string>, node: string)
    requires IsCell(g, node) && forall i :: 0 <= i < |cells| ==> IsCell(g, cells[i])
    ensures Firsts(g, cells + [node]) == Firsts(g, cells) + [Object(g, node, RDF_FIRST).value]
    ensures node in Subjects(g)
  {
    CellsAreSubjects(g, node);
    var more := Firsts(g, cells + [node]);
    forall i | 0 <= i < |cells| ensures more[i] == Firsts(g, cells)[i] {
      assert (cells + [node])[i] == cells[i];
    }
    assert (cells + [node])[|cells|] == node;
  }

  // ---------------------------------------------------------------
  // Lists laid out as cells
  // ---------------------------------------------------------------

  function NextCell(cells: seq<Node>, k: nat): Node
    requires k < |cells|
  {
    if k + 1 < |cells| then cells[k + 1] else Named(RDF_NIL)
  }

  /** One cell for each item, the last one resting on `rdf:nil`. */
  ghost predicate LaidOut(g: Graph, cells: seq<Node>, items: seq<Term>) {
    && |cells| == |items|
    && forall k :: 0 <= k < |cells| ==>
      && NodeId(cells[k]) != RDF_NIL
      && Objects(g, NodeId(cells[k]), RDF_FIRST) == [items[k]]
      && Objects(g, NodeId(cells[k]), RDF_REST) == [Resource(NextCell(cells, k))]
  }

  function HeadOf(cells: seq<Node>): Node {
    if cells == [] then Named(RDF_NIL) else cells[0]
  }

  function CellIds(cells: seq<Node>): (r: seq<string>)
    ensures |r| == |cells| && forall k :: 0 <= k < |r| ==> r[k] == NodeId(cells[k])
  {
    seq(|cells|, k requires 0 <= k < |cells| => NodeId(cells[k]))
  }

  /** What one laid-out cell holds, and what comes after it. */
  lemma CellReads(g: Graph, cells: seq<Node>, items: seq<Term>, k: nat)
    requires LaidOut(g, cells, items) && k < |cells|
    ensures IsCell(g, NodeId(cells[k]))
    ensures Object(g, NodeId(cells[k]), RDF_FIRST) == Some(items[k])
    ensures ObjectId(g, NodeId(cells[k]), RDF_REST) == Some(NodeId(NextCell(cells, k)))
  {
    assert Objects(g, NodeId(cells[k]), RDF_FIRST) == [items[k]];
    assert Objects(g, NodeId(cells[k]), RDF_REST) == [Resource(NextCell(cells, k))];
  }

  lemma LaidOutReads(g: Graph, cells: seq<Node>, items: seq<Term>)
    requires LaidOut(g, cells, items)
    ensures forall k :: 0 <= k < |cells| ==> IsCell(g, CellIds(cells)[k])
    ensures Firsts(g, CellIds(cells)) == items
  {
    forall k | 0 <= k < |cells|
      ensures IsCell(g, CellIds(cells)[k]) && Object(g, CellIds(cells)[k], RDF_FIRST) == Some(items[k])
    {
      CellReads(g, cells, items, k);
    }
  }

  lemma LaidOutIsWhole(g: Graph, cells: seq<Node>, items: seq<Term>)
    requires LaidOut(g, cells, items)
    ensures IsWholeChain(CellsIn(g), RestIn(g), Some(NodeId(HeadOf(cells))), CellIds(cells))
  {
    var ids, cell, link := CellIds(cells), CellsIn(g), RestIn(g);
    forall k | 0 <= k < |ids|
      ensures cell(ids[k]) && link(ids[k]) == Some(NextId(ids, k, RDF_NIL))
    {
      CellReads(g, cells, items, k);
    }
    LinkedToTheEnd(cell, link, ids, RDF_NIL);
  }

  /** Reading back a list that was laid out as cells returns its items, in order. */
  method ReadLaidOut(g: Graph, subject: string, property: string, ghost cells: seq<Node>, ghost items: seq<Term>)
    returns (read: seq<Term>)
    requires LaidOut(g, cells, items)
    requires Object(g, subject, property) == Some(Resource(HeadOf(cells)))
    ensures read == items
  {
    LaidOutReads(g, cells, items);
    LaidOutIsWhole(g, cells, items);
    ghost var head := Some(NodeId(HeadOf(cells)));
    EndingIsAcyclic(CellsIn(g), RestIn(g), head, CellIds(cells));
    ghost var walked;
    read, walked := RdfList(g, subject, property);
    WholeChainIsUnique(CellsIn(g), RestIn(g), head, walked, CellIds(cells));
  }
}
