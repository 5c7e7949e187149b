// What a subtree holds: its entries as a multiset, the element count that
// TotalElements reports, and the list GetAllElements builds.

module Counting {
  import opened Agents
  import opened QuadtreeArena

  /** Every entry stored in the subtree of n, n's own lists included. */
  function SubtreeEntries(ns: Arena, n: nat): multiset<QtAgent>
    requires WellFormed(ns) && n < |ns|
    decreases |ns| - n, 5
  {
    Own(ns[n]) + (if IsLeaf(ns[n]) then multiset{} else ChildrenEntries(ns, n, 4))
  }

  /** The entries of the subtrees of the first k children of n. */
  function ChildrenEntries(ns: Arena, n: nat, k: nat): multiset<QtAgent>
    requires WellFormed(ns) && n < |ns| && !IsLeaf(ns[n]) && k <= 4
    decreases |ns| - n, k
  {
    if k == 0 then multiset{}
    else ChildrenEntries(ns, n, k - 1) + SubtreeEntries(ns, Child(ns, n, k - 1))
  }

  /** The subtree of child j is part of the subtrees of the first k children, counted per agent. */
  lemma {:induction false} ChildCount(ns: Arena, n: nat, k: nat, j: nat, a: QtAgent)
    requires WellFormed(ns) && n < |ns| && !IsLeaf(ns[n]) && j < k <= 4
    ensures SubtreeEntries(ns, Child(ns, n, j))[a] <= ChildrenEntries(ns, n, k)[a]
    decreases k
  {
    if j < k - 1 {
      ChildCount(ns, n, k - 1, j, a);
      assert ChildrenEntries(ns, n, k - 1)[a] <= ChildrenEntries(ns, n, k)[a];
    } else {
      assert Child(ns, n, j) == Child(ns, n, k - 1);
    }
  }

  lemma ChildrenEntriesStep(ns: Arena, n: nat, k: nat)
    requires WellFormed(ns) && n < |ns| && !IsLeaf(ns[n]) && k < 4
    ensures ChildrenEntries(ns, n, k + 1) == ChildrenEntries(ns, n, k) + SubtreeEntries(ns, Child(ns, n, k))
  {
  }

  /** One step of a children loop that may skip child k, search it and go on, or search it and stop. */
  lemma StepBound(f: multiset<QtAgent>, rest: multiset<QtAgent>, here: multiset<QtAgent>,
                  before: multiset<QtAgent>, sub: multiset<QtAgent>, all: multiset<QtAgent>)
    requires f <= sub && rest + (before + sub) <= all
    requires here == rest || here == f + rest || here == f
    ensures here + before <= all
  {
  }

  /** The subtree of child j is part of the subtrees of the first k children. */
  lemma {:induction false} ChildSub(ns: Arena, n: nat, k: nat, j: nat)
    requires WellFormed(ns) && n < |ns| && !IsLeaf(ns[n]) && j < k <= 4
    ensures SubtreeEntries(ns, Child(ns, n, j)) <= ChildrenEntries(ns, n, k)
    decreases k
  {
    if j < k - 1 {
      ChildSub(ns, n, k - 1, j);
      assert ChildrenEntries(ns, n, k - 1) <= ChildrenEntries(ns, n, k);
    } else {
      assert Child(ns, n, j) == Child(ns, n, k - 1);
    }
  }

  /**
   * The count TotalElements reports: the node's elements, its overlap
   * entries when includeOverlap holds, and, when deepNode holds, every entry
   * of every child subtree. The children are always counted with their
   * overlap entries, whatever includeOverlap says.
   */
  function Count(ns: Arena, n: nat, includeOverlap: bool, deepNode: bool): nat
    requires WellFormed(ns) && n < |ns|
  {
    |ns[n].elements| +
    (if includeOverlap then |ns[n].overlapElements| else 0) +
    (if deepNode && !IsLeaf(ns[n]) then |ChildrenEntries(ns, n, 4)| else 0)
  }

  /**
   * The list GetAllElements builds: the children's lists first (when
   * includeChild holds), then the node's elements, then its overlap entries
   * (when overlap holds); the flags are passed down unchanged.
   */
  function AllElements(ns: Arena, n: nat, overlap: bool, includeChild: bool): seq<QtAgent>
    requires WellFormed(ns) && n < |ns|
    decreases |ns| - n, 5
  {
    (if includeChild && !IsLeaf(ns[n]) then ChildrenElements(ns, n, 4, overlap, includeChild) else []) +
    ns[n].elements +
    (if overlap then ns[n].overlapElements else [])
  }

  /** The lists of the first k children of n, concatenated in child order. */
  function ChildrenElements(ns: Arena, n: nat, k: nat, overlap: bool, includeChild: bool): seq<QtAgent>
    requires WellFormed(ns) && n < |ns| && !IsLeaf(ns[n]) && k <= 4
    decreases |ns| - n, k
  {
    if k == 0 then []
    else ChildrenElements(ns, n, k - 1, overlap, includeChild) + AllElements(ns, Child(ns, n, k - 1), overlap, includeChild)
  }

  /**
   * GetAllElements with both flags set lists every entry of the subtree
   * exactly as often as it is stored, so it has as many entries as
   * TotalElements counts.
   */
  lemma {:induction false} AllElementsAreSubtreeEntries(ns: Arena, n: nat)
    requires WellFormed(ns) && n < |ns|
    ensures multiset(AllElements(ns, n, true, true)) == SubtreeEntries(ns, n)
    ensures |AllElements(ns, n, true, true)| == Count(ns, n, true, true)
    decreases |ns| - n, 5
  {
    if !IsLeaf(ns[n]) {
      ChildrenElementsAreEntries(ns, n, 4);
    }
    var all := AllElements(ns, n, true, true);
    assert |all| == |multiset(all)|;
  }

  lemma {:induction false} ChildrenElementsAreEntries(ns: Arena, n: nat, k: nat)
    requires WellFormed(ns) && n < |ns| && !IsLeaf(ns[n]) && k <= 4
    ensures multiset(ChildrenElements(ns, n, k, true, true)) == ChildrenEntries(ns, n, k)
    decreases |ns| - n, k
  {
    if k > 0 {
      ChildrenElementsAreEntries(ns, n, k - 1);
      AllElementsAreSubtreeEntries(ns, Child(ns, n, k - 1));
    }
  }

  /** The size of the subtree's entries is the full count. */
  lemma CountIsSubtreeSize(ns: Arena, n: nat)
    requires WellFormed(ns) && n < |ns|
    ensures Count(ns, n, true, true) == |SubtreeEntries(ns, n)|
  {
  }

  /** What the children's searches found, together with n's own lists, stays within n's subtree. */
  lemma OwnAndFound(ns: Arena, n: nat, found: seq<QtAgent>)
    requires WellFormed(ns) && n < |ns|
    requires IsLeaf(ns[n]) ==> found == []
    requires !IsLeaf(ns[n]) ==> multiset(found) <= ChildrenEntries(ns, n, 4)
    ensures multiset(found + ns[n].elements + ns[n].overlapElements) <= SubtreeEntries(ns, n)
  {
    assert multiset(found + ns[n].elements + ns[n].overlapElements) == multiset(found) + Own(ns[n]);
  }
}
