/** Following links from a head for as long as what they lead to is a cell. */
module Chains {
  import opened Wrappers
  import opened Collections

  type Cells = string -> bool

  type Links = string -> Option<string>

  /** `cells` are cells, each linked to by the one before, starting at `head`. */
  ghost predicate IsChain(cell: Cells, link: Links, head: Option<string>, cells: seq<string>) {
    && (forall i :: 0 <= i < |cells| ==> cell(cells[i]))
    && (cells != [] ==> head == Some(cells[0]))
    && (forall i, j :: 0 <= i < j < |cells| && j == i + 1 ==> link(cells[i]) == Some(cells[j]))
  }

  /** What follows the cells: the head itself when there is none. */
  ghost function After(link: Links, head: Option<string>, cells: seq<string>): Option<string> {
    if cells == [] then head else link(cells[|cells| - 1])
  }

  /** The chain cannot be carried on: it leads nowhere, or to something that is not a cell. */
  ghost predicate IsWholeChain(cell: Cells, link: Links, head: Option<string>, cells: seq<string>) {
    && IsChain(cell, link, head, cells)
    && (After(link, head, cells).Some? ==> !cell(After(link, head, cells).value))
  }

  ghost predicate IsAcyclic(cell: Cells, link: Links, head: Option<string>) {
    forall cells :: IsChain(cell, link, head, cells) ==> NoDuplicates(cells)
  }

  lemma ChainExtends(cell: Cells, link: Links, head: Option<string>, cells: seq<string>, id: string)
    requires IsChain(cell, link, head, cells) && After(link, head, cells) == Some(id) && cell(id)
    ensures IsChain(cell, link, head, cells + [id])
    ensures IsAcyclic(cell, link, head) ==> id !in cells
  {
    if IsAcyclic(cell, link, head) {
      assert NoDuplicates(cells + [id]);
      forall i | 0 <= i < |cells| ensures cells[i] != id {
        assert (cells + [id])[i] != (cells + [id])[|cells|];
      }
    }
  }

  lemma GoesOn(cell: Cells, link: Links, head: Option<string>, whole: seq<string>, m: nat, id: string)
    requires IsWholeChain(cell, link, head, whole) && m <= |whole|
    requires After(link, head, whole[..m]) == Some(id) && cell(id)
    ensures m < |whole|
  {
    assert whole[..|whole|] == whole;
  }

  lemma AfterInside(cell: Cells, link: Links, head: Option<string>, cells: seq<string>, m: nat)
    requires IsChain(cell, link, head, cells) && m < |cells|
    ensures After(link, head, cells[..m]) == Some(cells[m])
  {
    if m > 0 {
      assert cells[..m][m - 1] == cells[m - 1];
    }
  }

  /** Any chain from the head runs along the one that cannot be carried on. */
  lemma {:induction false} ChainIsPrefix(
      cell: Cells, link: Links, head: Option<string>, a: seq<string>, whole: seq<string>, n: nat)
    requires IsChain(cell, link, head, a) && IsWholeChain(cell, link, head, whole) && n <= |a|
    ensures n <= |whole| && a[..n] == whole[..n]
    decreases n
  {
    if n > 0 {
      var m := n - 1;
      ChainIsPrefix(cell, link, head, a, whole, m);
      AfterInside(cell, link, head, a, m);
      GoesOn(cell, link, head, whole, m, a[m]);
      AfterInside(cell, link, head, whole, m);
      assert a[..n] == a[..m] + [a[m]];
      assert whole[..n] == whole[..m] + [whole[m]];
    }
  }

  /** The walk has one possible result. */
  lemma WholeChainIsUnique(cell: Cells, link: Links, head: Option<string>, a: seq<string>, b: seq<string>)
    requires IsWholeChain(cell, link, head, a) && IsWholeChain(cell, link, head, b)
    ensures a == b
  {
    ChainIsPrefix(cell, link, head, a, b, |a|);
    ChainIsPrefix(cell, link, head, b, a, |b|);
    assert a[..|a|] == a && b[..|b|] == b;
  }

  lemma Shortcut(cell: Cells, link: Links, head: Option<string>, whole: seq<string>, i: nat, j: nat)
    requires IsWholeChain(cell, link, head, whole) && i < j < |whole| && whole[i] == whole[j]
    ensures IsWholeChain(cell, link, head, whole[..i + 1] + whole[j + 1..])
  {
    var cut := whole[..i + 1] + whole[j + 1..];
    forall k, n | 0 <= k < n < |cut| && n == k + 1 ensures link(cut[k]) == Some(cut[n]) {
      var m := if k < i then k else k + (j - i);
      assert cut[k] == whole[m] && cut[n] == whole[m + 1];
    }
    assert cut[|cut| - 1] == whole[|whole| - 1];
  }

  /** A chain that comes to an end never meets a cell twice. */
  lemma EndingIsAcyclic(cell: Cells, link: Links, head: Option<string>, whole: seq<string>)
    requires IsWholeChain(cell, link, head, whole)
    ensures IsAcyclic(cell, link, head)
  {
    forall i, j | 0 <= i < j < |whole| ensures whole[i] != whole[j] {
      if whole[i] == whole[j] {
        Shortcut(cell, link, head, whole, i, j);
        WholeChainIsUnique(cell, link, head, whole, whole[..i + 1] + whole[j + 1..]);
      }
    }
    forall cells | IsChain(cell, link, head, cells) ensures NoDuplicates(cells) {
      ChainIsPrefix(cell, link, head, cells, whole, |cells|);
      assert cells[..|cells|] == cells;
      forall i, j | 0 <= i < j < |cells| ensures cells[i] != cells[j] {
        assert cells[i] == whole[..|cells|][i] && cells[j] == whole[..|cells|][j];
      }
    }
  }

  function NextId(cells: seq<string>, k: nat, end: string): string {
    if k + 1 < |cells| then cells[k + 1] else end
  }

  /** Cells each linked to the next, the last to `end`, are a chain that cannot be carried on. */
  lemma LinkedToTheEnd(cell: Cells, link: Links, cells: seq<string>, end: string)
    requires !cell(end)
    requires forall k :: 0 <= k < |cells| ==> cell(cells[k]) && link(cells[k]) == Some(NextId(cells, k, end))
    ensures IsWholeChain(cell, link, Some(if cells == [] then end else cells[0]), cells)
  {
    if cells != [] {
      var last := |cells| - 1;
      assert link(cells[last]) == Some(NextId(cells, last, end));
    }
  }
}
