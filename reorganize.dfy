// ReOrganize as a function on arenas: a post-order walk that drops the
// children of every node whose four children, once reorganized themselves,
// are empty leaves. The lemmas show that it only ever drops child links, that
// no subtree loses or gains an entry, that nothing collapsible is left behind,
// and that a second run changes nothing.

module Reorganizing {
  import opened Geometry
  import opened Agents
  import opened QuadtreeArena
  import opened Counting

  /** A leaf that stores nothing in either list. */
  predicate EmptyLeaf(nd: Node) {
    IsLeaf(nd) && |nd.elements| + |nd.overlapElements| == 0
  }

  /** An internal node whose four children are all empty leaves. */
  predicate Collapsible(ns: Arena, n: nat)
    requires WellFormed(ns) && n < |ns|
  {
    !IsLeaf(ns[n]) && forall k :: 0 <= k < 4 ==> EmptyLeaf(ns[Child(ns, n, k)])
  }

  /** y is x, or x with its child link dropped. */
  predicate Lopped(x: Node, y: Node) {
    y == x || (!IsLeaf(x) && y == x.(children := Null))
  }

  predicate Trimmed(ns: Arena, ns': Arena) {
    |ns'| == |ns| && forall i :: 0 <= i < |ns| ==> Lopped(ns[i], ns'[i])
  }

  /** Dropping one node's child link keeps the arena well formed. */
  lemma LopWellFormed(ns: Arena, i: nat)
    requires WellFormed(ns) && i < |ns|
    ensures WellFormed(ns[i := ns[i].(children := Null)])
  {
    var ns' := ns[i := ns[i].(children := Null)];
    forall j | 0 <= j < |ns'|
      ensures Linked(ns', j)
    {
      assert Linked(ns, j);
    }
  }

  lemma TrimmedWellFormed(ns: Arena, ns': Arena)
    requires WellFormed(ns) && Trimmed(ns, ns')
    ensures WellFormed(ns')
  {
    forall j | 0 <= j < |ns'|
      ensures Linked(ns', j)
    {
      assert Linked(ns, j);
      if ns'[j].children.NonNull? {
        var cs := ns[j].children.value;
        assert ChildrenLinked(ns, j, cs);
        forall k | 0 <= k < 4
          ensures ns'[cs[k]].parentNode == NonNull(j)
          ensures ns'[cs[k]].boundary == Quadrant(ns'[j].boundary, k)
        {
          assert Lopped(ns[cs[k]], ns'[cs[k]]);
        }
      }
    }
  }

  lemma TrimmedTransitive(a: Arena, b: Arena, c: Arena)
    requires Trimmed(a, b) && Trimmed(b, c)
    ensures Trimmed(a, c)
  {
    forall i | 0 <= i < |a|
      ensures Lopped(a[i], c[i])
    {
      assert Lopped(a[i], b[i]) && Lopped(b[i], c[i]);
    }
  }

  // ---------------------------------------------------------------------------
  // The reorganisation

  /**
   * ReOrganize from n: nothing on a leaf; otherwise reorganize the four
   * children in order, noting after each whether it is now an empty leaf,
   * and drop n's children when all four were.
   */
  function Reorg(ns: Arena, n: nat): (r: Arena)
    requires WellFormed(ns) && n < |ns|
    ensures |r| == |ns| && WellFormed(r)
    ensures forall i :: 0 <= i < n ==> r[i] == ns[i]
    decreases |ns| - n, 5
  {
    if IsLeaf(ns[n]) then ns
    else
      var (r1, clean) := ReorgChildren(ns, n, 4);
      if clean then
        LopWellFormed(r1, n);
        r1[n := r1[n].(children := Null)]
      else r1
  }

  /**
   * The first k children of n reorganized in order, and whether each of them
   * was an empty leaf right after its own reorganisation.
   */
  function ReorgChildren(ns: Arena, n: nat, k: nat): (res: (Arena, bool))
    requires WellFormed(ns) && n < |ns| && !IsLeaf(ns[n]) && k <= 4
    ensures |res.0| == |ns| && WellFormed(res.0)
    ensures forall i :: 0 <= i <= n ==> res.0[i] == ns[i]
    decreases |ns| - n, k
  {
    if k == 0 then (ns, true)
    else
      var (r1, clean) := ReorgChildren(ns, n, k - 1);
      var c := Child(r1, n, k - 1);
      var r2 := Reorg(r1, c);
      (r2, clean && IsLeaf(r2[c]) && |r2[c].elements| + |r2[c].overlapElements| == 0)
  }

  /** ReOrganize only ever drops child links. */
  lemma {:induction false} ReorgTrimmed(ns: Arena, n: nat)
    requires WellFormed(ns) && n < |ns|
    ensures Trimmed(ns, Reorg(ns, n))
    decreases |ns| - n, 5
  {
    if !IsLeaf(ns[n]) {
      var (r1, clean) := ReorgChildren(ns, n, 4);
      ReorgChildrenTrimmed(ns, n, 4);
      if clean {
        TrimmedTransitive(ns, r1, r1[n := r1[n].(children := Null)]);
      }
    }
  }

  lemma {:induction false} ReorgChildrenTrimmed(ns: Arena, n: nat, k: nat)
    requires WellFormed(ns) && n < |ns| && !IsLeaf(ns[n]) && k <= 4
    ensures Trimmed(ns, ReorgChildren(ns, n, k).0)
    decreases |ns| - n, k
  {
    if k > 0 {
      var (r1, clean) := ReorgChildren(ns, n, k - 1);
      ReorgChildrenTrimmed(ns, n, k - 1);
      var c := Child(r1, n, k - 1);
      ReorgTrimmed(r1, c);
      TrimmedTransitive(ns, r1, Reorg(r1, c));
    }
  }

  /**
   * The collapse test reads the final state: after ReOrganize, n has lost its
   * children exactly when each of its four children is an empty leaf.
   */
  lemma ReorgCollapse(ns: Arena, n: nat)
    requires WellFormed(ns) && n < |ns| && !IsLeaf(ns[n])
    ensures var r := Reorg(ns, n);
      IsLeaf(r[n]) <==> forall k :: 0 <= k < 4 ==> EmptyLeaf(r[Child(ns, n, k)])
  {
    var (r1, clean) := ReorgChildren(ns, n, 4);
    ReorgChildrenClean(ns, n, 4);
    forall k | 0 <= k < 4
      ensures Child(ns, n, k) == Child(r1, n, k)
    {
    }
  }

  /** The running flag says exactly that every child reorganized so far is an empty leaf. */
  lemma {:induction false} ReorgChildrenClean(ns: Arena, n: nat, k: nat)
    requires WellFormed(ns) && n < |ns| && !IsLeaf(ns[n]) && k <= 4
    ensures var res := ReorgChildren(ns, n, k);
      res.1 <==> forall j :: 0 <= j < k ==> EmptyLeaf(res.0[Child(ns, n, j)])
    decreases k
  {
    if k > 0 {
      var (r1, clean) := ReorgChildren(ns, n, k - 1);
      ReorgChildrenClean(ns, n, k - 1);
      var c := Child(r1, n, k - 1);
      assert c == Child(ns, n, k - 1);
      var r2 := Reorg(r1, c);
      forall j | 0 <= j < k - 1
        ensures r2[Child(ns, n, j)] == r1[Child(ns, n, j)]
      {
        assert Linked(ns, n);
      }
    }
  }

  // ---------------------------------------------------------------------------
  // Entries are preserved

  /**
   * ns' comes from ns by dropping child links, and only where the node's
   * subtree held nothing below the node itself.
   */
  ghost predicate Pruned(ns: Arena, ns': Arena)
    requires WellFormed(ns)
  {
    Trimmed(ns, ns') &&
    forall i :: 0 <= i < |ns| && ns'[i] != ns[i] ==> SubtreeEntries(ns, i) == Own(ns[i])
  }

  /** Pruning never changes what any subtree holds. */
  lemma {:induction false} PrunedKeepsSubtree(ns: Arena, ns': Arena, i: nat)
    requires WellFormed(ns) && Pruned(ns, ns') && i < |ns|
    ensures WellFormed(ns') && SubtreeEntries(ns', i) == SubtreeEntries(ns, i)
    decreases |ns| - i, 5
  {
    TrimmedWellFormed(ns, ns');
    if ns'[i] == ns[i] && !IsLeaf(ns[i]) {
      PrunedKeepsChildren(ns, ns', i, 4);
    }
  }

  lemma {:induction false} PrunedKeepsChildren(ns: Arena, ns': Arena, i: nat, k: nat)
    requires WellFormed(ns) && Pruned(ns, ns') && i < |ns| && !IsLeaf(ns[i]) && ns'[i] == ns[i] && k <= 4
    ensures WellFormed(ns') && ChildrenEntries(ns', i, k) == ChildrenEntries(ns, i, k)
    decreases |ns| - i, k
  {
    TrimmedWellFormed(ns, ns');
    if k > 0 {
      PrunedKeepsChildren(ns, ns', i, k - 1);
      assert Child(ns', i, k - 1) == Child(ns, i, k - 1);
      PrunedKeepsSubtree(ns, ns', Child(ns, i, k - 1));
    }
  }

  lemma PrunedTransitive(a: Arena, b: Arena, c: Arena)
    requires WellFormed(a) && Pruned(a, b) && WellFormed(b) && Pruned(b, c)
    ensures Pruned(a, c)
  {
    TrimmedTransitive(a, b, c);
    forall i | 0 <= i < |a| && c[i] != a[i]
      ensures SubtreeEntries(a, i) == Own(a[i])
    {
      PrunedKeepsSubtree(a, b, i);
      assert Lopped(a[i], b[i]) && Lopped(b[i], c[i]);
    }
  }

  /** The children of an internal node that are empty leaves add nothing to its subtree. */
  lemma {:induction false} EmptyChildren(ns: Arena, n: nat, k: nat)
    requires WellFormed(ns) && n < |ns| && !IsLeaf(ns[n]) && k <= 4
    requires forall j :: 0 <= j < k ==> EmptyLeaf(ns[Child(ns, n, j)])
    ensures ChildrenEntries(ns, n, k) == multiset{}
  {
    if k > 0 {
      EmptyChildren(ns, n, k - 1);
      var c := Child(ns, n, k - 1);
      assert EmptyLeaf(ns[c]);
      assert |Own(ns[c])| == 0;
    }
  }

  lemma {:induction false} ReorgPruned(ns: Arena, n: nat)
    requires WellFormed(ns) && n < |ns|
    ensures Pruned(ns, Reorg(ns, n))
    decreases |ns| - n, 5
  {
    if !IsLeaf(ns[n]) {
      var (r1, clean) := ReorgChildren(ns, n, 4);
      ReorgChildrenPruned(ns, n, 4);
      if clean {
        var r := r1[n := r1[n].(children := Null)];
        ReorgChildrenClean(ns, n, 4);
        forall j | 0 <= j < 4
          ensures EmptyLeaf(r1[Child(r1, n, j)])
        {
          assert Child(r1, n, j) == Child(ns, n, j);
        }
        EmptyChildren(r1, n, 4);
        PrunedKeepsSubtree(ns, r1, n);
        assert Pruned(r1, r);
        PrunedTransitive(ns, r1, r);
      }
    }
  }

  lemma {:induction false} ReorgChildrenPruned(ns: Arena, n: nat, k: nat)
    requires WellFormed(ns) && n < |ns| && !IsLeaf(ns[n]) && k <= 4
    ensures Pruned(ns, ReorgChildren(ns, n, k).0)
    decreases |ns| - n, k
  {
    if k > 0 {
      var (r1, clean) := ReorgChildren(ns, n, k - 1);
      ReorgChildrenPruned(ns, n, k - 1);
      var c := Child(r1, n, k - 1);
      ReorgPruned(r1, c);
      PrunedTransitive(ns, r1, Reorg(r1, c));
    } else {
      assert Trimmed(ns, ns);
    }
  }

  /**
   * ReOrganize changes no subtree's entries, so every element count that
   * TotalElements reports is the same before and after.
   */
  lemma ReorgKeepsEntries(ns: Arena, n: nat, i: nat)
    requires WellFormed(ns) && n < |ns| && i < |ns|
    ensures SubtreeEntries(Reorg(ns, n), i) == SubtreeEntries(ns, i)
    ensures Count(Reorg(ns, n), i, true, true) == Count(ns, i, true, true)
  {
    ReorgPruned(ns, n);
    PrunedKeepsSubtree(ns, Reorg(ns, n), i);
    CountIsSubtreeSize(ns, i);
    CountIsSubtreeSize(Reorg(ns, n), i);
  }

  // ---------------------------------------------------------------------------
  // Nothing collapsible is left, and a second run changes nothing

  /** m lies under a, following parent pointers up from m. */
  predicate Desc(ns: Arena, a: nat, m: nat)
    requires m < |ns|
    decreases m
  {
    m == a ||
    (a < m && ns[m].parentNode.NonNull? && ns[m].parentNode.value < m && Desc(ns, a, ns[m].parentNode.value))
  }

  lemma {:induction false} DescOfChild(ns: Arena, n: nat, k: nat, m: nat)
    requires WellFormed(ns) && n < |ns| && !IsLeaf(ns[n]) && k < 4 && m < |ns|
    requires Desc(ns, Child(ns, n, k), m)
    ensures Desc(ns, n, m)
    decreases m
  {
    if m != Child(ns, n, k) {
      DescOfChild(ns, n, k, ns[m].parentNode.value);
    }
  }

  /** The nodes above m form a single chain. */
  lemma {:induction false} DescLinear(ns: Arena, a: nat, b: nat, m: nat)
    requires m < |ns| && Desc(ns, a, m) && Desc(ns, b, m) && a <= b
    ensures b < |ns| && Desc(ns, a, b)
    decreases m
  {
    if m != b {
      DescLinear(ns, a, b, ns[m].parentNode.value);
    }
  }

  /** Two different children of a node have no node under both. */
  lemma SiblingsDisjoint(ns: Arena, n: nat, j: nat, k: nat, m: nat)
    requires WellFormed(ns) && n < |ns| && !IsLeaf(ns[n]) && j < 4 && k < 4 && j != k && m < |ns|
    ensures !(Desc(ns, Child(ns, n, j), m) && Desc(ns, Child(ns, n, k), m))
  {
    var cj, ck := Child(ns, n, j), Child(ns, n, k);
    ChildrenDistinct(ns, n, j, k);
    if Desc(ns, cj, m) && Desc(ns, ck, m) {
      if cj < ck {
        DescLinear(ns, cj, ck, m);
      } else {
        DescLinear(ns, ck, cj, m);
      }
    }
  }

  lemma {:induction false} DescTrimmed(ns: Arena, ns': Arena, a: nat, m: nat)
    requires Trimmed(ns, ns') && m < |ns|
    ensures Desc(ns', a, m) == Desc(ns, a, m)
    decreases m
  {
    assert Lopped(ns[m], ns'[m]);
    if a < m && ns[m].parentNode.NonNull? && ns[m].parentNode.value < m {
      DescTrimmed(ns, ns', a, ns[m].parentNode.value);
    }
  }

  /** ReOrganize from n touches only nodes under n. */
  lemma {:induction false} ReorgFrame(ns: Arena, n: nat, i: nat)
    requires WellFormed(ns) && n < |ns| && i < |ns| && !Desc(ns, n, i)
    ensures Reorg(ns, n)[i] == ns[i]
    decreases |ns| - n, 5
  {
    if !IsLeaf(ns[n]) {
      ReorgChildrenFrame(ns, n, 4, i);
    }
  }

  lemma {:induction false} ReorgChildrenFrame(ns: Arena, n: nat, k: nat, i: nat)
    requires WellFormed(ns) && n < |ns| && !IsLeaf(ns[n]) && k <= 4 && i < |ns| && !Desc(ns, n, i)
    ensures ReorgChildren(ns, n, k).0[i] == ns[i]
    decreases |ns| - n, k
  {
    if k > 0 {
      var (r1, clean) := ReorgChildren(ns, n, k - 1);
      ReorgChildrenFrame(ns, n, k - 1, i);
      var c := Child(r1, n, k - 1);
      assert c == Child(ns, n, k - 1);
      ReorgChildrenTrimmed(ns, n, k - 1);
      DescTrimmed(ns, r1, c, i);
      if Desc(ns, c, i) {
        DescOfChild(ns, n, k - 1, i);
      }
      ReorgFrame(r1, c, i);
    }
  }

  /** No node of n's subtree is collapsible. */
  predicate Tidy(ns: Arena, n: nat)
    requires WellFormed(ns) && n < |ns|
    decreases |ns| - n
  {
    IsLeaf(ns[n]) || (!Collapsible(ns, n) && forall k :: 0 <= k < 4 ==> Tidy(ns, Child(ns, n, k)))
  }

  /** Tidiness of a subtree depends on the nodes under it only. */
  lemma {:induction false} TidyFrame(ns: Arena, ns': Arena, c: nat)
    requires WellFormed(ns) && WellFormed(ns') && |ns'| == |ns| && c < |ns| && Tidy(ns, c)
    requires forall i :: 0 <= i < |ns| && Desc(ns, c, i) ==> ns'[i] == ns[i]
    ensures Tidy(ns', c)
    decreases |ns| - c
  {
    assert Desc(ns, c, c);
    if !IsLeaf(ns[c]) {
      forall k | 0 <= k < 4
        ensures Child(ns', c, k) == Child(ns, c, k)
        ensures ns'[Child(ns, c, k)] == ns[Child(ns, c, k)]
        ensures Tidy(ns', Child(ns, c, k))
      {
        var d := Child(ns, c, k);
        assert Desc(ns, d, d);
        DescOfChild(ns, c, k, d);
        forall i | 0 <= i < |ns| && Desc(ns, d, i)
          ensures ns'[i] == ns[i]
        {
          DescOfChild(ns, c, k, i);
        }
        TidyFrame(ns, ns', d);
      }
    }
  }

  /** After ReOrganize from n, nothing collapsible is left under n. */
  lemma {:induction false} ReorgTidy(ns: Arena, n: nat)
    requires WellFormed(ns) && n < |ns|
    ensures Tidy(Reorg(ns, n), n)
    decreases |ns| - n, 5
  {
    if !IsLeaf(ns[n]) {
      var (r1, clean) := ReorgChildren(ns, n, 4);
      ReorgChildrenTidy(ns, n, 4);
      ReorgChildrenClean(ns, n, 4);
      if !clean {
        forall k | 0 <= k < 4
          ensures Child(r1, n, k) == Child(ns, n, k)
        {
        }
      }
    }
  }

  lemma {:induction false} ReorgChildrenTidy(ns: Arena, n: nat, k: nat)
    requires WellFormed(ns) && n < |ns| && !IsLeaf(ns[n]) && k <= 4
    ensures forall j :: 0 <= j < k ==> Tidy(ReorgChildren(ns, n, k).0, Child(ns, n, j))
    decreases |ns| - n, k
  {
    if k > 0 {
      var (r1, clean) := ReorgChildren(ns, n, k - 1);
      ReorgChildrenTidy(ns, n, k - 1);
      var c := Child(r1, n, k - 1);
      assert c == Child(ns, n, k - 1);
      var r2 := Reorg(r1, c);
      ReorgTidy(r1, c);
      forall j | 0 <= j < k - 1
        ensures Tidy(r2, Child(ns, n, j))
      {
        var cj := Child(ns, n, j);
        assert cj == Child(r1, n, j);
        forall i | 0 <= i < |r1| && Desc(r1, cj, i)
          ensures r2[i] == r1[i]
        {
          SiblingsDisjoint(r1, n, j, k - 1, i);
          ReorgFrame(r1, c, i);
        }
        TidyFrame(r1, r2, cj);
      }
    }
  }

  /** On a tidy subtree ReOrganize changes nothing. */
  lemma {:induction false} TidyFixed(ns: Arena, n: nat)
    requires WellFormed(ns) && n < |ns| && Tidy(ns, n)
    ensures Reorg(ns, n) == ns
    decreases |ns| - n, 5
  {
    if !IsLeaf(ns[n]) {
      TidyChildrenFixed(ns, n, 4);
      ReorgChildrenClean(ns, n, 4);
    }
  }

  lemma {:induction false} TidyChildrenFixed(ns: Arena, n: nat, k: nat)
    requires WellFormed(ns) && n < |ns| && !IsLeaf(ns[n]) && k <= 4 && Tidy(ns, n)
    ensures ReorgChildren(ns, n, k).0 == ns
    decreases |ns| - n, k
  {
    if k > 0 {
      TidyChildrenFixed(ns, n, k - 1);
      TidyFixed(ns, Child(ns, n, k - 1));
    }
  }

  /** Running ReOrganize a second time changes nothing. */
  lemma ReorgIdempotent(ns: Arena, n: nat)
    requires WellFormed(ns) && n < |ns|
    ensures Reorg(Reorg(ns, n), n) == Reorg(ns, n)
  {
    ReorgTidy(ns, n);
    TidyFixed(Reorg(ns, n), n);
  }
}
