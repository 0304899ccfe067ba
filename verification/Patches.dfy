/** Patching a JSON document in place: insert-or-replace one key of an object, or remove one. */
module Patches {
  import opened Wrappers
  import opened JsonPointers

  datatype Patch =
    | Set(pointer: string, key: string, value: Json)
    | Remove(pointer: string, key: string)

  datatype PatchError =
    | Unresolved(pointer: string)
    | NotAnObject(pointer: string, kind: Kind)
    | NoSuchKey(pointer: string, key: string)

  // ---------------------------------------------------------------
  // One patch
  // ---------------------------------------------------------------

  /** `target` is an object the patch can be made on. */
  predicate Takes(target: Json, p: Patch) {
    target.Object? && (p.Remove? ==> p.key in target.members)
  }

  function Edit(target: Json, p: Patch): Json
    requires Takes(target, p)
  {
    match p
    case Set(_, key, value) => Object(target.members[key := value])
    case Remove(_, key) => Object(target.members - {key})
  }

  predicate ApplicableAt(v: Json, path: Path, p: Patch) {
    Resolve(v, path).Some? && Takes(Resolve(v, path).value, p)
  }

  function AfterAt(v: Json, path: Path, p: Patch): Json
    requires ApplicableAt(v, path, p)
  {
    Replace(v, path, Edit(Resolve(v, path).value, p))
  }

  /** The pointer resolves to an object of the document, and a key to be removed is there. */
  predicate Applicable(v: Json, p: Patch) {
    Tokens(p.pointer).Some? && ApplicableAt(v, Tokens(p.pointer).value, p)
  }

  function After(v: Json, p: Patch): Json
    requires Applicable(v, p)
  {
    AfterAt(v, Tokens(p.pointer).value, p)
  }

  function Refusal(v: Json, p: Patch): PatchError
    requires !Applicable(v, p)
  {
    match Tokens(p.pointer)
    case None => Unresolved(p.pointer)
    case Some(path) =>
      match Resolve(v, path)
      case None => Unresolved(p.pointer)
      case Some(target) =>
        if target.Object? then NoSuchKey(p.pointer, p.key) else NotAnObject(p.pointer, KindOf(target))
  }

  // ---------------------------------------------------------------
  // A list of patches
  // ---------------------------------------------------------------

  datatype Outcome = Outcome(doc: Json, failed: Option<PatchError>)

  function Applied(v: Json, ps: seq<Patch>): Outcome
    decreases |ps|
  {
    if ps == [] then Outcome(v, None)
    else if !Applicable(v, ps[0]) then Outcome(v, Some(Refusal(v, ps[0])))
    else Applied(After(v, ps[0]), ps[1..])
  }

  class Document {
    var root: Json

    constructor (v: Json)
      ensures root == v
    {
      root := v;
    }

    method ApplyPatches(ps: seq<Patch>) returns (failed: Option<PatchError>)
      modifies this
      ensures Outcome(root, failed) == Applied(old(root), ps)
    {
      for k := 0 to |ps|
        invariant Applied(root, ps[k..]) == Applied(old(root), ps)
      {
        assert ps[k..][1..] == ps[k + 1..];
        var p := ps[k];
        var path := Tokens(p.pointer);
        if path.None? {
          return Some(Unresolved(p.pointer));
        }
        var target := Resolve(root, path.value);
        if target.None? {
          return Some(Unresolved(p.pointer));
        }
        if !target.value.Object? {
          return Some(NotAnObject(p.pointer, KindOf(target.value)));
        }
        var members := target.value.members;
        match p {
          case Set(_, key, value) =>
            members := members[key := value];
          case Remove(_, key) =>
            if key !in members {
              return Some(NoSuchKey(p.pointer, key));
            }
            members := members - {key};
        }
        root := Replace(root, path.value, Object(members));
      }
      return None;
    }
  }

  // ---------------------------------------------------------------
  // Success and failure
  // ---------------------------------------------------------------

  lemma {:induction false} AppliedAppend(v: Json, ps: seq<Patch>, qs: seq<Patch>)
    ensures Applied(v, ps + qs)
         == if Applied(v, ps).failed.Some? then Applied(v, ps) else Applied(Applied(v, ps).doc, qs)
    decreases |ps|
  {
    if ps == [] {
      assert ps + qs == qs;
    } else if Applicable(v, ps[0]) {
      assert (ps + qs)[1..] == ps[1..] + qs;
      AppliedAppend(After(v, ps[0]), ps[1..], qs);
    }
  }

  /** The first `k` patches went through and the next, if there is one, does not. */
  ghost predicate StopsAt(v: Json, ps: seq<Patch>, k: nat) {
    && k <= |ps|
    && (forall j :: 0 <= j < k ==> Applicable(Applied(v, ps[..j]).doc, ps[j]))
    && (k < |ps| ==> !Applicable(Applied(v, ps[..k]).doc, ps[k]))
  }

  /**
   A run goes through exactly when each patch is applicable to the document as updated so
   far; otherwise the document holds the effect of the patches before the first that is not.
   */
  lemma {:induction false} StopsAtFirstRefusal(v: Json, ps: seq<Patch>) returns (k: nat)
    ensures StopsAt(v, ps, k)
    ensures Applied(v, ps[..k]).failed.None?
    ensures Applied(v, ps).doc == Applied(v, ps[..k]).doc
    ensures Applied(v, ps).failed == if k == |ps| then None else Some(Refusal(Applied(v, ps[..k]).doc, ps[k]))
    decreases |ps|
  {
    if ps == [] || !Applicable(v, ps[0]) {
      k := 0;
    } else {
      var rest := StopsAtFirstRefusal(After(v, ps[0]), ps[1..]);
      k := rest + 1;
      FirstPatchFirst(v, ps, rest);
      StopsOneLater(v, ps, rest);
    }
  }

  lemma StopsOneLater(v: Json, ps: seq<Patch>, rest: nat)
    requires ps != [] && Applicable(v, ps[0]) && StopsAt(After(v, ps[0]), ps[1..], rest)
    ensures StopsAt(v, ps, rest + 1)
  {
    FirstPatchFirst(v, ps, rest);
    forall j | 0 <= j < rest + 1 ensures Applicable(Applied(v, ps[..j]).doc, ps[j]) {
      if j > 0 {
        FirstPatchFirst(v, ps, j - 1);
        assert ps[j] == ps[1..][j - 1];
      }
    }
  }

  lemma FirstPatchFirst(v: Json, ps: seq<Patch>, j: nat)
    requires j < |ps| && Applicable(v, ps[0])
    ensures Applied(v, ps[..j + 1]) == Applied(After(v, ps[0]), ps[1..][..j])
  {
    assert ps[..j + 1][1..] == ps[1..][..j];
  }

  lemma SucceedsIffEachApplies(v: Json, ps: seq<Patch>)
    ensures Applied(v, ps).failed.None?
       <==> forall j :: 0 <= j < |ps| ==> Applicable(Applied(v, ps[..j]).doc, ps[j])
  {
    var k := StopsAtFirstRefusal(v, ps);
  }

  // ---------------------------------------------------------------
  // What a patch changes
  // ---------------------------------------------------------------

  /** The one place a patch is about: the key, under the object its pointer names. */
  function SiteOf(p: Patch): Option<Path> {
    match Tokens(p.pointer)
    case None => None
    case Some(path) => Some(path + [p.key])
  }

  predicate Comparable(a: Path, b: Path) {
    a <= b || b <= a
  }

  /** What a lookup at `q` finds once `p` has been made at `site`, given what it found before. */
  ghost predicate LooksUp(before: Json, after: Json, site: Path, p: Patch, q: Path) {
    if site <= q then
      Resolve(after, q) == (match p case Set(_, _, value) => Resolve(value, q[|site|..]) case Remove(_, _) => None)
    else if q <= site then
      Resolve(before, q).Some? && Resolve(after, q).Some?
      && KindOf(Resolve(after, q).value) == KindOf(Resolve(before, q).value)
    else Resolve(after, q) == Resolve(before, q)
  }

  lemma {:induction false} PatchByLookups(v: Json, path: Path, p: Patch, q: Path)
    requires ApplicableAt(v, path, p)
    ensures LooksUp(v, AfterAt(v, path, p), path + [p.key], p, q)
    decreases |path|
  {
    var after := AfterAt(v, path, p);
    var site := path + [p.key];
    if q != [] {
      if path == [] {
        assert site == [p.key];
        if q[0] == p.key {
          assert site <= q;
          assert q[|site|..] == q[1..];
        } else {
          assert Child(after, q[0]) == Child(v, q[0]);
        }
      } else {
        var child, token := Child(v, path[0]).value, path[0];
        var changed := AfterAt(child, path[1..], p);
        OtherChildren(v, token, changed, q[0]);
        assert after == WithChild(v, token, changed);
        if q[0] == token {
          PatchByLookups(child, path[1..], p, q[1..]);
          var inner := path[1..] + [p.key];
          assert site == [token] + inner && q == [token] + q[1..];
          assert site <= q <==> inner <= q[1..];
          assert q <= site <==> q[1..] <= inner;
          assert site <= q ==> q[|site|..] == q[1..][|inner|..];
        }
      }
    } else if path != [] {
      OtherChildren(v, path[0], AfterAt(Child(v, path[0]).value, path[1..], p), path[0]);
    }
  }

  /**
   A patch, read through every lookup: at and below its site the new value or nothing, above
   it the same kind of value as before, and everywhere else the same value.
   */
  lemma PatchMeans(v: Json, p: Patch, q: Path)
    requires Applicable(v, p)
    ensures LooksUp(v, After(v, p), SiteOf(p).value, p, q)
  {
    PatchByLookups(v, Tokens(p.pointer).value, p, q);
  }

  /** Whether or not a run goes through, no place apart from all its sites ever changes. */
  lemma {:induction false} NothingElseChanges(v: Json, ps: seq<Patch>, q: Path)
    requires forall k :: 0 <= k < |ps| && SiteOf(ps[k]).Some? ==> !Comparable(SiteOf(ps[k]).value, q)
    ensures Resolve(Applied(v, ps).doc, q) == Resolve(v, q)
    decreases |ps|
  {
    if ps != [] && Applicable(v, ps[0]) {
      PatchMeans(v, ps[0], q);
      assert !Comparable(SiteOf(ps[0]).value, q);
      NothingElseChanges(After(v, ps[0]), ps[1..], q);
    }
  }

  // ---------------------------------------------------------------
  // Patches that commute
  // ---------------------------------------------------------------

  /** Neither patch's site is at, above or below the other's. */
  predicate Apart(p: Patch, q: Patch) {
    SiteOf(p).Some? && SiteOf(q).Some? ==> !Comparable(SiteOf(p).value, SiteOf(q).value)
  }

  lemma {:induction false} ResolveSnoc(v: Json, path: Path, key: string)
    ensures Resolve(v, path + [key])
         == match Resolve(v, path) case None => None case Some(target) => Child(target, key)
    decreases |path|
  {
    if path == [] {
      assert (path + [key])[1..] == [];
    } else {
      assert (path + [key])[1..] == path[1..] + [key];
      if Child(v, path[0]).Some? {
        ResolveSnoc(Child(v, path[0]).value, path[1..], key);
      }
    }
  }

  /** What a path not below the site leads to is there, and is an object, after a patch as before. */
  lemma TargetStays(v: Json, p: Patch, path: Path)
    requires Applicable(v, p) && !(SiteOf(p).value <= path)
    ensures Resolve(After(v, p), path).Some? <==> Resolve(v, path).Some?
    ensures Resolve(v, path).Some? ==>
      (Resolve(After(v, p), path).value.Object? <==> Resolve(v, path).value.Object?)
  {
    PatchMeans(v, p, path);
  }

  /** A patch neither opens nor closes the way for one apart from it. */
  lemma ApplicableEitherWay(v: Json, p: Patch, q: Patch)
    requires Apart(p, q) && Applicable(v, p)
    ensures Applicable(After(v, p), q) <==> Applicable(v, q)
  {
    if Tokens(q.pointer).Some? {
      var path := Tokens(q.pointer).value;
      var site := SiteOf(p).value;
      assert site <= path ==> site <= path + [q.key];
      TargetStays(v, p, path);
      PatchMeans(v, p, path + [q.key]);
      ResolveSnoc(v, path, q.key);
      ResolveSnoc(After(v, p), path, q.key);
    }
  }

  lemma {:induction false} EditsCommute(v: Json, pp: Path, p: Patch, qp: Path, q: Patch)
    requires ApplicableAt(v, pp, p) && ApplicableAt(v, qp, q)
    requires !Comparable(pp + [p.key], qp + [q.key])
    requires ApplicableAt(AfterAt(v, pp, p), qp, q) && ApplicableAt(AfterAt(v, qp, q), pp, p)
    ensures AfterAt(AfterAt(v, pp, p), qp, q) == AfterAt(AfterAt(v, qp, q), pp, p)
    decreases |pp|
  {
    if pp == [] && qp == [] {
      KeysCommute(v, p, q);
    } else if pp == [] {
      KeyAndChildCommute(v, p, qp, q);
    } else if qp == [] {
      KeyAndChildCommute(v, q, pp, p);
    } else {
      var a, b := Child(v, pp[0]).value, Child(v, qp[0]).value;
      OtherChildren(v, pp[0], AfterAt(a, pp[1..], p), qp[0]);
      OtherChildren(v, qp[0], AfterAt(b, qp[1..], q), pp[0]);
      if pp[0] == qp[0] {
        assert pp + [p.key] == [pp[0]] + (pp[1..] + [p.key]) && qp + [q.key] == [qp[0]] + (qp[1..] + [q.key]);
        EditsCommute(a, pp[1..], p, qp[1..], q);
        OverwriteTwice(v, pp[0], AfterAt(a, pp[1..], p), AfterAt(AfterAt(a, pp[1..], p), qp[1..], q));
        OverwriteTwice(v, pp[0], AfterAt(a, qp[1..], q), AfterAt(AfterAt(a, qp[1..], q), pp[1..], p));
      } else {
        ChildrenCommute(v, pp[0], AfterAt(a, pp[1..], p), qp[0], AfterAt(b, qp[1..], q));
      }
    }
  }

  lemma KeysCommute(v: Json, p: Patch, q: Patch)
    requires Takes(v, p) && Takes(v, q) && !Comparable([] + [p.key], [] + [q.key])
    requires Takes(Edit(v, p), q) && Takes(Edit(v, q), p)
    ensures Edit(Edit(v, p), q) == Edit(Edit(v, q), p)
  {
    assert p.key == q.key ==> [] + [p.key] <= [] + [q.key];
    assert Edit(Edit(v, p), q).members == Edit(Edit(v, q), p).members;
  }

  lemma KeyAndChildCommute(v: Json, p: Patch, qp: Path, q: Patch)
    requires qp != [] && Takes(v, p) && ApplicableAt(v, qp, q)
    requires !Comparable([] + [p.key], qp + [q.key])
    requires ApplicableAt(Edit(v, p), qp, q) && Takes(AfterAt(v, qp, q), p)
    ensures AfterAt(Edit(v, p), qp, q) == Edit(AfterAt(v, qp, q), p)
  {
    assert p.key == qp[0] ==> [] + [p.key] <= qp + [q.key];
    assert Child(Edit(v, p), qp[0]) == Child(v, qp[0]);
    assert AfterAt(Edit(v, p), qp, q).members == Edit(AfterAt(v, qp, q), p).members;
  }

  lemma OverwriteTwice(v: Json, token: string, first: Json, second: Json)
    requires Child(v, token).Some?
    ensures Child(WithChild(v, token, first), token).Some?
    ensures WithChild(WithChild(v, token, first), token, second) == WithChild(v, token, second)
  {
  }

  lemma ChildrenCommute(v: Json, s: string, a: Json, t: string, b: Json)
    requires s != t && Child(v, s).Some? && Child(v, t).Some?
    ensures Child(WithChild(v, s, a), t).Some? && Child(WithChild(v, t, b), s).Some?
    ensures WithChild(WithChild(v, s, a), t, b) == WithChild(WithChild(v, t, b), s, a)
  {
    if v.Array? {
      if ArrayIndex(s) == ArrayIndex(t) {
        IndexesAreCanonical(s, t);
      }
    } else {
      assert v.members[s := a][t := b] == v.members[t := b][s := a];
    }
  }

  /** The two runs both fail, or both go through and leave the same document. */
  predicate SameEnd(a: Outcome, b: Outcome) {
    (a.failed.None? <==> b.failed.None?) && (a.failed.None? ==> a.doc == b.doc)
  }

  lemma PatchesCommute(v: Json, p: Patch, q: Patch, rest: seq<Patch>)
    requires Apart(p, q)
    ensures SameEnd(Applied(v, [p, q] + rest), Applied(v, [q, p] + rest))
  {
    assert ([p, q] + rest)[1..] == [q] + rest && ([q] + rest)[1..] == rest;
    assert ([q, p] + rest)[1..] == [p] + rest && ([p] + rest)[1..] == rest;
    if Applicable(v, p) { ApplicableEitherWay(v, p, q); }
    if Applicable(v, q) { ApplicableEitherWay(v, q, p); }
    if Applicable(v, p) && Applicable(v, q) {
      EditsCommute(v, Tokens(p.pointer).value, p, Tokens(q.pointer).value, q);
    }
  }

  predicate PairwiseApart(ps: seq<Patch>) {
    forall i, j :: 0 <= i < j < |ps| ==> Apart(ps[i], ps[j])
  }

  lemma {:induction false} MoveToFront(v: Json, ps: seq<Patch>, i: nat)
    requires i < |ps| && PairwiseApart(ps)
    ensures SameEnd(Applied(v, ps), Applied(v, [ps[i]] + (ps[..i] + ps[i + 1..])))
    decreases i
  {
    if i == 0 {
      assert [ps[0]] + (ps[..0] + ps[1..]) == ps;
    } else {
      var first, rest := ps[0], ps[1..];
      var others := rest[..i - 1] + rest[i..];
      assert rest[i - 1] == ps[i];
      var moved := [ps[i]] + others;
      if Applicable(v, first) {
        MoveToFront(After(v, first), rest, i - 1);
      }
      assert ([first] + moved)[1..] == moved;
      assert SameEnd(Applied(v, ps), Applied(v, [first] + moved));
      PatchesCommute(v, first, ps[i], others);
      assert [first] + moved == [first, ps[i]] + others;
      assert [ps[i]] + (ps[..i] + ps[i + 1..]) == [ps[i], first] + others;
    }
  }

  /** Taking the head of one order out of the other leaves two orders of the remaining patches. */
  lemma TakeOut(ps: seq<Patch>, qs: seq<Patch>) returns (i: nat)
    requires multiset(ps) == multiset(qs) && qs != []
    ensures i < |ps| && ps[i] == qs[0]
    ensures multiset(ps[..i] + ps[i + 1..]) == multiset(qs[1..])
  {
    assert qs[0] in multiset(ps);
    i :| 0 <= i < |ps| && ps[i] == qs[0];
    assert ps == ps[..i] + [ps[i]] + ps[i + 1..];
    assert qs == [qs[0]] + qs[1..];
    assert multiset(qs) == multiset{qs[0]} + multiset(qs[1..]);
    assert ps == ps[..i] + [ps[i]] + ps[i + 1..];
    assert multiset(ps) == multiset(ps[..i]) + multiset{qs[0]} + multiset(ps[i + 1..]);
    assert multiset(ps[..i] + ps[i + 1..]) == multiset(ps) - multiset{qs[0]};
    assert multiset(qs[1..]) == multiset(qs) - multiset{qs[0]};
  }

  /** Patches at places apart from one another may be made in any order. */
  lemma {:induction false} OrderIsIrrelevant(v: Json, ps: seq<Patch>, qs: seq<Patch>)
    requires PairwiseApart(ps) && multiset(ps) == multiset(qs)
    ensures SameEnd(Applied(v, ps), Applied(v, qs))
    decreases |qs|
  {
    if qs == [] {
      assert |multiset(ps)| == |ps| && |multiset(qs)| == |qs|;
    } else {
      var i := TakeOut(ps, qs);
      var others := ps[..i] + ps[i + 1..];
      MoveToFront(v, ps, i);
      assert ([qs[0]] + others)[1..] == others;
      if Applicable(v, qs[0]) {
        assert PairwiseApart(others);
        OrderIsIrrelevant(After(v, qs[0]), others, qs[1..]);
      }
    }
  }

  // ---------------------------------------------------------------
  // Undoing a patch
  // ---------------------------------------------------------------

  lemma {:induction false} ReplaceAgain(v: Json, path: Path, a: Json, b: Json)
    requires Resolve(v, path).Some?
    ensures Resolve(Replace(v, path, a), path) == Some(a)
    ensures Replace(Replace(v, path, a), path, b) == Replace(v, path, b)
    ensures Replace(v, path, Resolve(v, path).value) == v
    decreases |path|
  {
    if path != [] {
      var child := Child(v, path[0]).value;
      ReplaceAgain(child, path[1..], a, b);
      OtherChildren(v, path[0], Replace(child, path[1..], a), path[0]);
      OverwriteTwice(v, path[0], Replace(child, path[1..], a), Replace(child, path[1..], b));
      assert WithChild(v, path[0], child) == v by {
        match v
        case Object(members) => assert members[path[0] := child] == members;
        case Array(items) => assert items[ArrayIndex(path[0]).value := child] == items;
      }
    }
  }

  /** Removing a key just set always succeeds, and restores the document exactly when the key was absent. */
  lemma RemoveUndoesSet(v: Json, pointer: string, key: string, value: Json)
    requires Applicable(v, Set(pointer, key, value))
    ensures var end := Applied(v, [Set(pointer, key, value), Remove(pointer, key)]);
      && end.failed.None?
      && (end.doc == v <==> Resolve(v, SiteOf(Remove(pointer, key)).value).None?)
  {
    var put, drop := Set(pointer, key, value), Remove(pointer, key);
    var path := Tokens(pointer).value;
    var object_ := Resolve(v, path).value;
    var between := After(v, put);
    ReplaceAgain(v, path, Edit(object_, put), Edit(Edit(object_, put), drop));
    assert Applicable(between, drop);
    assert [put, drop][1..] == [drop] && [drop][1..] == [];
    assert Applied(between, [drop]) == Applied(After(between, drop), [drop][1..]);
    assert Applied(v, [put, drop]) == Applied(between, [put, drop][1..]);
    ResolveSnoc(v, path, key);
    ResolveSnoc(After(between, drop), path, key);
    ReplaceAgain(between, path, Edit(Edit(object_, put), drop), object_);
    if key !in object_.members {
      assert Edit(Edit(object_, put), drop).members == object_.members;
    }
  }
}
