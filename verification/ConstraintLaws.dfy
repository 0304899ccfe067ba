/** What the engine's operators and logical constraints say of the claims. */
module ConstraintLaws {
  import opened Wrappers
  import opened Collections
  import opened Constraints
  import opened Dnf

  // ---------------------------------------------------------------
  // Lists written with commas
  // ---------------------------------------------------------------

  /** `piece` stands in `s` between separators, or between one and an end, and holds none itself. */
  ghost predicate StandsBetween(s: string, sep: char, piece: string, before: string, after: string) {
    && s == before + piece + after
    && sep !in piece
    && (before == "" || before[|before| - 1] == sep)
    && (after == "" || after[0] == sep)
  }

  ghost predicate IsPiece(s: string, sep: char, piece: string) {
    exists before, after :: StandsBetween(s, sep, piece, before, after)
  }

  /** The first piece ends where the first separator stands. */
  lemma {:induction false} FirstPiece(s: string, sep: char)
    ensures var first := Split(s, sep)[0];
      && sep !in first
      && |first| <= |s| && s[..|first|] == first
      && (|first| < |s| ==> s[|first|] == sep && Split(s, sep)[1..] == Split(s[|first| + 1..], sep))
      && (|first| == |s| ==> Split(s, sep)[1..] == [])
  {
    if s != "" {
      FirstPiece(s[1..], sep);
      var rest := Split(s[1..], sep);
      if s[0] != sep {
        var first := [s[0]] + rest[0];
        assert s[..|first|] == [s[0]] + s[1..][..|rest[0]|];
        if |first| < |s| {
          assert s[1..][|rest[0]| + 1..] == s[|first| + 1..];
        }
      }
    }
  }

  lemma FirstIsPiece(s: string, sep: char)
    ensures IsPiece(s, sep, Split(s, sep)[0])
  {
    FirstPiece(s, sep);
    var first := Split(s, sep)[0];
    assert s == "" + first + s[|first|..];
    assert StandsBetween(s, sep, first, "", s[|first|..]);
  }

  /** Cutting a string at its separators gives exactly what stands between them. */
  lemma {:induction false} SplitGivesPieces(s: string, sep: char, piece: string)
    ensures piece in Split(s, sep) <==> IsPiece(s, sep, piece)
    decreases |s|
  {
    FirstPiece(s, sep);
    var pieces := Split(s, sep);
    var first := pieces[0];
    assert pieces == [first] + pieces[1..];
    if piece == first {
      FirstIsPiece(s, sep);
    } else if |first| < |s| {
      var rest := s[|first| + 1..];
      assert s == first + [sep] + rest;
      SplitGivesPieces(rest, sep, piece);
      LaterPiece(first, sep, rest, piece);
    } else {
      assert s == first;
      if IsPiece(first, sep, piece) {
        OnlyPiece(first, sep, piece);
      }
    }
  }

  lemma Joined(a: string, b: string, c: string)
    ensures forall i :: 0 <= i < |a| ==> a[i] in a + b + c
    ensures forall i :: 0 <= i < |c| ==> c[i] in a + b + c
  {
    var s := a + b + c;
    assert forall i :: 0 <= i < |a| ==> s[i] == a[i];
    assert forall i :: 0 <= i < |c| ==> s[|a| + |b| + i] == c[i];
  }

  lemma OnlyPiece(first: string, sep: char, piece: string)
    requires sep !in first && IsPiece(first, sep, piece)
    ensures piece == first
  {
    var before, after :| StandsBetween(first, sep, piece, before, after);
    Joined(before, piece, after);
  }

  lemma LaterPiece(first: string, sep: char, rest: string, piece: string)
    requires sep !in first && piece != first
    ensures IsPiece(first + [sep] + rest, sep, piece) <==> IsPiece(rest, sep, piece)
  {
    var s := first + [sep] + rest;
    if before, after :| StandsBetween(rest, sep, piece, before, after) {
      var front := first + [sep] + before;
      assert front[|front| - 1] == if before == "" then sep else before[|before| - 1];
      assert s == front + piece + after;
      assert StandsBetween(s, sep, piece, front, after);
    }
    if before, after :| StandsBetween(s, sep, piece, before, after) {
      StartsLater(first, sep, rest, piece, before, after);
      var front := before[|first| + 1..];
      assert StandsBetween(rest, sep, piece, front, after);
    }
  }

  lemma StartsLater(first: string, sep: char, rest: string, piece: string, before: string, after: string)
    requires sep !in first && piece != first
    requires StandsBetween(first + [sep] + rest, sep, piece, before, after)
    ensures |before| > |first| && rest == before[|first| + 1..] + piece + after
    ensures before[|first| + 1..] == "" || before[|first| + 1..][|before[|first| + 1..]| - 1] == sep
  {
    var s := first + [sep] + rest;
    assert forall i :: 0 <= i < |first| ==> s[i] == first[i] && s[i] != sep;
    if before == "" {
      PieceAtFront(first, sep, rest, piece, after);
    }
    assert before != "" && s[|before| - 1] == sep;
    assert rest == s[|first| + 1..];
  }

  lemma PieceAtFront(first: string, sep: char, rest: string, piece: string, after: string)
    requires sep !in first && first + [sep] + rest == piece + after
    requires sep !in piece && (after == "" || after[0] == sep)
    ensures piece == first
  {
    var s := first + [sep] + rest;
    assert s[|first|] == sep;
    assert forall i :: 0 <= i < |first| ==> s[i] == first[i] && first[i] != sep;
    assert forall i :: 0 <= i < |piece| ==> s[i] == piece[i] && piece[i] != sep;
    assert forall i :: 0 <= i < |after| ==> s[|piece| + i] == after[i];
    assert |piece| == |first|;
    assert piece == s[..|piece|] && first == s[..|first|];
  }

  // ---------------------------------------------------------------
  // Operators
  // ---------------------------------------------------------------

  /** The claim holds the value, alone or among others. */
  predicate Has(w: World, left: string, value: string) {
    left in w.claims && exists k :: 0 <= k < |w.claims[left].Members()| && w.claims[left].Members()[k] == value
  }

  /** The claim holds some value written in the comma-separated list. */
  ghost predicate HasOneOf(w: World, left: string, right: string) {
    exists value :: Has(w, left, value) && IsPiece(right, ',', value)
  }

  ghost predicate HasAllOf(w: World, left: string, right: string) {
    left in w.claims && forall value :: IsPiece(right, ',', value) ==> Has(w, left, value)
  }

  /** The claim holds a value that compares with the operand in one of these ways. */
  ghost predicate HasCompared(w: World, left: string, right: string, ways: set<Ordering>) {
    exists value :: Has(w, left, value) && w.compare(value, right).Some? && w.compare(value, right).value in ways
  }

  lemma MembersAre(v: ClaimValue)
    ensures v.Single? ==> v.Members() == [v.value]
    ensures v.Multi? ==> v.Members() == v.values
  {
  }

  /** A claim is a value or a list of values; each operator asks something of the values it has. */
  lemma OperatorsMean(left: string, right: string, w: World)
    ensures EvaluateAtomic(left, Eq, right, w) <==> Has(w, left, right)
    ensures EvaluateAtomic(left, Neq, right, w) <==> left in w.claims && !Has(w, left, right)
    ensures EvaluateAtomic(left, IsAnyOf, right, w) <==> HasOneOf(w, left, right)
    ensures EvaluateAtomic(left, IsPartOf, right, w) <==> HasOneOf(w, left, right)
    ensures EvaluateAtomic(left, IsNoneOf, right, w) <==> !HasOneOf(w, left, right)
    ensures EvaluateAtomic(left, IsAllOf, right, w) <==> HasAllOf(w, left, right)
  {
    forall value ensures value in Split(right, ',') <==> IsPiece(right, ',', value) {
      SplitGivesPieces(right, ',', value);
    }
    if left in w.claims {
      MembersAre(w.claims[left]);
      forall value ensures value in w.claims[left].Members() <==> Has(w, left, value) {
      }
    }
  }

  lemma OrderingsMean(left: string, right: string, w: World)
    ensures EvaluateAtomic(left, Lt, right, w) <==> HasCompared(w, left, right, {Less})
    ensures EvaluateAtomic(left, Lteq, right, w) <==> HasCompared(w, left, right, {Less, Equal})
    ensures EvaluateAtomic(left, Gt, right, w) <==> HasCompared(w, left, right, {Greater})
    ensures EvaluateAtomic(left, Gteq, right, w) <==> HasCompared(w, left, right, {Greater, Equal})
  {
    if left in w.claims {
      forall value ensures value in w.claims[left].Members() <==> Has(w, left, value) {
      }
    }
  }

  // ---------------------------------------------------------------
  // Logical constraints
  // ---------------------------------------------------------------

  /** Exactly one of the children holds one level down. */
  ghost predicate JustOne(children: seq<Constraint>, w: World, depth: nat) {
    exists i: nat :: JustThisOne(children, w, depth, i)
  }

  ghost predicate JustThisOne(children: seq<Constraint>, w: World, depth: nat, i: nat) {
    && i < |children| && EvaluateBounded(children[i], w, depth)
    && forall j :: 0 <= j < |children| && EvaluateBounded(children[j], w, depth) ==> j == i
  }

  ghost predicate NoneHolds(children: seq<Constraint>, w: World, depth: nat) {
    forall j :: 0 <= j < |children| ==> !EvaluateBounded(children[j], w, depth)
  }

  lemma {:induction false} CountMeans(children: seq<Constraint>, w: World, depth: nat)
    ensures CountHolding(children, w, depth) == 0 <==> NoneHolds(children, w, depth + 1)
    ensures CountHolding(children, w, depth) == 1 <==> JustOne(children, w, depth + 1)
  {
    if children != [] {
      CountMeans(children[1..], w, depth);
      OneOfMore(children, w, depth + 1);
    }
  }

  lemma OneOfMore(children: seq<Constraint>, w: World, depth: nat)
    requires children != []
    ensures NoneHolds(children, w, depth)
       <==> !EvaluateBounded(children[0], w, depth) && NoneHolds(children[1..], w, depth)
    ensures JustOne(children, w, depth)
       <==> if EvaluateBounded(children[0], w, depth) then NoneHolds(children[1..], w, depth)
            else JustOne(children[1..], w, depth)
  {
    var rest := children[1..];
    assert forall j :: 0 <= j < |rest| ==> rest[j] == children[j + 1];
    assert forall j :: 0 < j < |children| ==> children[j] == rest[j - 1];
    if EvaluateBounded(children[0], w, depth) {
      assert NoneHolds(rest, w, depth) ==> JustThisOne(children, w, depth, 0);
    } else {
      if i: nat :| JustThisOne(children, w, depth, i) {
        assert JustThisOne(rest, w, depth, i - 1);
      }
      if i: nat :| JustThisOne(rest, w, depth, i) {
        assert JustThisOne(children, w, depth, i + 1);
      }
    }
  }

  /** Within the depth limit a logical constraint counts its children one level down; past it nothing holds. */
  lemma LogicalsMean(children: seq<Constraint>, w: World, depth: nat)
    ensures depth <= 64 ==>
      && (EvaluateBounded(And(children), w, depth)
          <==> forall i :: 0 <= i < |children| ==> EvaluateBounded(children[i], w, depth + 1))
      && (EvaluateBounded(AndSequence(children), w, depth) <==> EvaluateBounded(And(children), w, depth))
      && (EvaluateBounded(Or(children), w, depth) <==> !NoneHolds(children, w, depth + 1))
      && (EvaluateBounded(Xone(children), w, depth) <==> JustOne(children, w, depth + 1))
    ensures depth > 64 ==> forall c :: !EvaluateBounded(c, w, depth)
  {
    CountMeans(children, w, depth);
  }

  /** The test a constraint makes is that of its operator, at any depth within the limit. */
  lemma AtomsMean(left: string, op: Operator, right: string, w: World, depth: nat)
    ensures EvaluateBounded(Atomic(left, op, right), w, depth) <==> depth <= 64 && EvaluateAtomic(left, op, right, w)
  {
  }

  // ---------------------------------------------------------------
  // Tests as the compiler reads them
  // ---------------------------------------------------------------

  const OPERATOR_NAMES := {"eq", "neq", "lt", "lteq", "gt", "gteq"}

  /** Each operator name the compiler accepts, and what a test of that name asks of the claims. */
  lemma NamedTestsMean(left: string, right: string, w: World)
    ensures Holds(AtomForm(left, "eq", right), TruthIn(w)) <==> Has(w, left, right)
    ensures Holds(AtomForm(left, "neq", right), TruthIn(w)) <==> left in w.claims && !Has(w, left, right)
    ensures Holds(AtomForm(left, "lt", right), TruthIn(w)) <==> HasCompared(w, left, right, {Less})
    ensures Holds(AtomForm(left, "lteq", right), TruthIn(w)) <==> HasCompared(w, left, right, {Less, Equal})
    ensures Holds(AtomForm(left, "gt", right), TruthIn(w)) <==> HasCompared(w, left, right, {Greater})
    ensures Holds(AtomForm(left, "gteq", right), TruthIn(w)) <==> HasCompared(w, left, right, {Greater, Equal})
  {
    NamesResolve();
    OperatorsMean(left, right, w);
    OrderingsMean(left, right, w);
    forall op ensures Evaluate(Atomic(left, op, right), w) <==> EvaluateAtomic(left, op, right, w) {
      AtomsMean(left, op, right, w, 0);
    }
  }

  lemma NamesResolve()
    ensures ResolveOperator("eq") == Ok(Eq) && ResolveOperator("neq") == Ok(Neq)
    ensures ResolveOperator("lt") == Ok(Lt) && ResolveOperator("lteq") == Ok(Lteq)
    ensures ResolveOperator("gt") == Ok(Gt) && ResolveOperator("gteq") == Ok(Gteq)
  {
    assert "eq"[0] != "neq"[0] && "eq"[0] != "lt"[0] && "eq"[0] != "gt"[0] && |"eq"| != |"lteq"|;
    assert "neq"[0] != "lt"[0] && "neq"[0] != "gt"[0] && "lt"[0] != "gt"[0] && |"lt"| != |"lteq"|;
    assert "gteq"[0] != "lteq"[0] && "gteq"[0] != "lt"[0];
  }

  /** Any other name is refused by itself. */
  lemma OtherNamesAreRefused(name: string)
    ensures name in OPERATOR_NAMES <==> ResolveOperator(name).Ok?
    ensures name !in OPERATOR_NAMES ==> ResolveOperator(name) == Err(UnsupportedOperator(name))
  {
    NamesResolve();
  }
}
