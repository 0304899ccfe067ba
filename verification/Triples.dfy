/** The lookups over a parsed file, said of its triples. */
module Triples {
  import opened Wrappers
  import opened Collections
  import opened Graph

  // ---------------------------------------------------------------
  // Names
  // ---------------------------------------------------------------

  /** `id` stands for the node: its IRI, or its label behind `_:`. */
  ghost predicate Identifies(id: string, n: Node) {
    n == Named(id) || exists label_ :: n == Blank(label_) && id == "_:" + label_
  }

  lemma NodeIdIff(n: Node, id: string)
    ensures NodeId(n) == id <==> Identifies(id, n)
  {
    match n
    case Named(_) =>
    case Blank(l) => assert NodeId(n) == "_:" + l;
  }

  predicate IsSeparator(c: char) {
    c == '/' || c == '#'
  }

  /** `name` is all of `iri`, or all that stands behind its last separator. */
  predicate IsCalled(iri: string, name: string) {
    && |name| <= |iri| && iri[|iri| - |name|..] == name
    && (forall k :: 0 <= k < |name| ==> !IsSeparator(name[k]))
    && (|name| == |iri| || IsSeparator(iri[|iri| - |name| - 1]))
  }

  lemma {:induction false} CalledByLocalName(iri: string)
    ensures IsCalled(iri, LocalName(iri))
    decreases |iri|
  {
    if iri != "" && !IsSeparator(iri[|iri| - 1]) {
      var front, last := iri[..|iri| - 1], iri[|iri| - 1];
      var name := LocalName(front);
      CalledByLocalName(front);
      assert iri[|iri| - |name| - 1..] == front[|front| - |name|..] + [last];
    }
  }

  lemma NoSeparatorWithin(iri: string, name: string)
    requires IsCalled(iri, name)
    ensures forall k :: |iri| - |name| <= k < |iri| ==> !IsSeparator(iri[k])
  {
    forall k | |iri| - |name| <= k < |iri| ensures !IsSeparator(iri[k]) {
      assert iri[|iri| - |name|..][k - (|iri| - |name|)] == name[k - (|iri| - |name|)];
    }
  }

  lemma OneName(iri: string, a: string, b: string)
    requires IsCalled(iri, a) && IsCalled(iri, b)
    ensures a == b
  {
    NoSeparatorWithin(iri, a);
    NoSeparatorWithin(iri, b);
  }

  /** The local name is what stands behind the last separator. */
  lemma LocalNameIff(iri: string, name: string)
    ensures LocalName(iri) == name <==> IsCalled(iri, name)
  {
    CalledByLocalName(iri);
    if IsCalled(iri, name) {
      OneName(iri, name, LocalName(iri));
    }
  }

  // ---------------------------------------------------------------
  // Objects
  // ---------------------------------------------------------------

  /** The triple is about this subject, under this property. */
  ghost predicate Gives(t: Triple, subject: string, property: string) {
    Identifies(subject, t.subject) && t.property == property
  }

  ghost function Given(g: Graph, subject: string, property: string): seq<Triple> {
    Kept(g, (t: Triple) => Gives(t, subject, property))
  }

  ghost predicate AreValues(terms: seq<Term>, ts: seq<Triple>) {
    |terms| == |ts| && forall k :: 0 <= k < |ts| ==> terms[k] == ts[k].value
  }

  /** The objects of a subject under a property are those of the triples about them, in file order. */
  lemma {:induction false} ObjectsAreGiven(g: Graph, subject: string, property: string)
    ensures AreValues(Objects(g, subject, property), Given(g, subject, property))
  {
    if g != [] {
      NodeIdIff(g[0].subject, subject);
      ObjectsAreGiven(g[1..], subject, property);
    }
  }

  /** The first triple about the subject and property has this object. */
  ghost predicate GivesFirst(g: Graph, subject: string, property: string, value: Term) {
    exists k: nat :: FirstGiven(g, subject, property, k) && g[k].value == value
  }

  ghost predicate FirstGiven(g: Graph, subject: string, property: string, k: nat) {
    && k < |g| && Gives(g[k], subject, property)
    && forall j :: 0 <= j < k ==> !Gives(g[j], subject, property)
  }

  lemma {:induction false} ObjectIff(g: Graph, subject: string, property: string, value: Term)
    ensures Object(g, subject, property) == Some(value) <==> GivesFirst(g, subject, property, value)
  {
    if g != [] {
      var rest := g[1..];
      NodeIdIff(g[0].subject, subject);
      if Gives(g[0], subject, property) {
        assert FirstGiven(g, subject, property, 0);
      } else {
        ObjectIff(rest, subject, property, value);
        assert Object(g, subject, property) == Object(rest, subject, property);
        forall k: nat ensures FirstGiven(rest, subject, property, k) <==> FirstGiven(g, subject, property, k + 1) {
          FirstGivenLater(g, subject, property, k);
        }
        if k: nat :| FirstGiven(g, subject, property, k) && g[k].value == value {
          assert FirstGiven(rest, subject, property, k - 1);
        }
        if k: nat :| FirstGiven(rest, subject, property, k) && rest[k].value == value {
          assert FirstGiven(g, subject, property, k + 1);
        }
      }
    }
  }

  lemma FirstGivenLater(g: Graph, subject: string, property: string, k: nat)
    requires g != [] && !Gives(g[0], subject, property)
    ensures FirstGiven(g[1..], subject, property, k) <==> FirstGiven(g, subject, property, k + 1)
  {
    assert forall j :: 0 <= j < |g| - 1 ==> g[1..][j] == g[j + 1];
    if FirstGiven(g[1..], subject, property, k) {
      forall j | 0 <= j < k + 1 ensures !Gives(g[j], subject, property) {
        assert j > 0 ==> g[j] == g[1..][j - 1];
      }
    }
    if FirstGiven(g, subject, property, k + 1) {
      forall j | 0 <= j < k ensures !Gives(g[1..][j], subject, property) {
        assert !Gives(g[j + 1], subject, property);
      }
    }
  }

  /** The first triple about the subject and property has a node for its object, and `id` stands for it. */
  ghost predicate FirstIs(g: Graph, subject: string, property: string, id: string) {
    exists n :: GivesFirst(g, subject, property, Resource(n)) && Identifies(id, n)
  }

  lemma ObjectIdIff(g: Graph, subject: string, property: string, id: string)
    ensures ObjectId(g, subject, property) == Some(id) <==> FirstIs(g, subject, property, id)
  {
    forall n
      ensures Object(g, subject, property) == Some(Resource(n)) <==> GivesFirst(g, subject, property, Resource(n))
      ensures NodeId(n) == id <==> Identifies(id, n)
    {
      ObjectIff(g, subject, property, Resource(n));
      NodeIdIff(n, id);
    }
    if ObjectId(g, subject, property) == Some(id) {
      var n := Object(g, subject, property).value.node;
      assert GivesFirst(g, subject, property, Resource(n)) && Identifies(id, n);
    }
  }

  /** The triples about the subject and property whose object is a node. */
  ghost function Pointing(g: Graph, subject: string, property: string): seq<Triple> {
    Kept(g, (t: Triple) => Gives(t, subject, property) && t.value.Resource?)
  }

  ghost predicate ArePointedAt(ids: seq<string>, ts: seq<Triple>) {
    |ids| == |ts| && forall k :: 0 <= k < |ts| ==> ts[k].value.Resource? && Identifies(ids[k], ts[k].value.node)
  }

  lemma IdsOfMore(t: Term, rest: seq<Term>)
    ensures IdsOf([t] + rest) == (match t case Literal(_) => [] case Resource(n) => [NodeId(n)]) + IdsOf(rest)
  {
    assert ([t] + rest)[1..] == rest;
  }

  function TargetIds(ts: seq<Triple>): seq<string> {
    if ts == [] then []
    else (match ts[0].value case Literal(_) => [] case Resource(n) => [NodeId(n)]) + TargetIds(ts[1..])
  }

  lemma {:induction false} TargetsAreGiven(g: Graph, subject: string, property: string)
    ensures ObjectIds(g, subject, property) == TargetIds(Pointing(g, subject, property))
  {
    if g != [] {
      NodeIdIff(g[0].subject, subject);
      TargetsAreGiven(g[1..], subject, property);
      var rest, more := Objects(g[1..], subject, property), Pointing(g[1..], subject, property);
      if !Gives(g[0], subject, property) {
        assert Objects(g, subject, property) == rest && Pointing(g, subject, property) == more;
      } else {
        IdsOfMore(g[0].value, rest);
        if g[0].value.Resource? {
          assert Pointing(g, subject, property) == [g[0]] + more && ([g[0]] + more)[1..] == more;
        } else {
          assert Pointing(g, subject, property) == more;
        }
      }
    }
  }

  lemma {:induction false} TargetsArePointedAt(ts: seq<Triple>)
    requires forall t :: t in ts ==> t.value.Resource?
    ensures ArePointedAt(TargetIds(ts), ts)
  {
    if ts != [] {
      TargetsArePointedAt(ts[1..]);
      assert ts[0] in ts;
      NodeIdIff(ts[0].value.node, NodeId(ts[0].value.node));
    }
  }

  /** The nodes given under a property are the node objects of the triples about it, in file order. */
  lemma ObjectIdsAreGiven(g: Graph, subject: string, property: string)
    ensures ArePointedAt(ObjectIds(g, subject, property), Pointing(g, subject, property))
  {
    TargetsAreGiven(g, subject, property);
    KeptMembers(g, (t: Triple) => Gives(t, subject, property) && t.value.Resource?);
    TargetsArePointedAt(Pointing(g, subject, property));
  }
}
