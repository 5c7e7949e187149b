// The read-only searches of the intermediate quadtree node that differ from
// the latest ones: FindElements, which stops at the first child the agent
// Fits and filters with compare only the node's own entries, and
// QueryElements, the range query over a query object that answers boolean
// tests. The same QueryElements appears in the original quadtree.

module IntermediateQueries {
  import opened Geometry
  import opened Agents
  import opened QuadtreeArena
  import opened Routing
  import opened Counting
  import RangeQueries

  // ---------------------------------------------------------------------------
  // Removing the entries that fail compare

  /**
   * For each agent of own, in order, that keep rejects, the first
   * occurrence of that agent taken out of t.
   */
  function RemoveFailing(t: seq<QtAgent>, own: seq<QtAgent>, keep: QtAgent -> bool): (r: seq<QtAgent>)
    ensures forall a :: a in r ==> a in t
    decreases |own|
  {
    if own == [] then t
    else
      var t' := if keep(own[0]) then t else RemoveFirst(t, own[0]);
      assert forall a :: a in t' ==> a in t by {
        forall a | a in t' ensures a in t {
          RangeQueries.RemoveFirstMembers(t, own[0], a);
        }
      }
      RemoveFailing(t', own[1..], keep)
  }

  /** Each rejected occurrence in own takes one occurrence out; accepted agents keep their count. */
  lemma {:induction false} RemoveFailingCount(t: seq<QtAgent>, own: seq<QtAgent>, keep: QtAgent -> bool, a: QtAgent)
    ensures multiset(RemoveFailing(t, own, keep))[a] ==
              if keep(a) then multiset(t)[a]
              else if multiset(t)[a] <= multiset(own)[a] then 0 else multiset(t)[a] - multiset(own)[a]
    decreases |own|
  {
    if own != [] {
      assert own == [own[0]] + own[1..];
      var t': seq<QtAgent> := if keep(own[0]) then t else RemoveFirst(t, own[0]);
      RemoveFailingCount(t', own[1..], keep, a);
      if !keep(own[0]) && own[0] in t {
        var before: multiset<QtAgent> := multiset(t);
        var after: multiset<QtAgent> := multiset(t');
        assert after[a] == before[a] - (if a == own[0] then 1 else 0);
      }
    }
  }

  lemma {:induction false} RemoveFailingSub(t: seq<QtAgent>, own: seq<QtAgent>, keep: QtAgent -> bool)
    ensures multiset(RemoveFailing(t, own, keep)) <= multiset(t)
    decreases |own|
  {
    if own != [] {
      var t' := if keep(own[0]) then t else RemoveFirst(t, own[0]);
      RemoveFailingSub(t', own[1..], keep);
    }
  }

  /**
   * The tail of one level of the intermediate FindElements: the searched
   * agent taken out once unless includeSelf holds, then, when there is a
   * compare callback, one occurrence of each of the node's own entries that
   * fails it.
   */
  function Trim(all: seq<QtAgent>, e: QtAgent, includeSelf: bool, compare: Nullable<QtAgent -> bool>, nd: Node): (r: seq<QtAgent>)
    ensures forall a :: a in r ==> a in all
  {
    var t := if includeSelf then all else RemoveFirst(all, e);
    assert forall a :: a in t ==> a in all by {
      forall a | a in t ensures a in all {
        RangeQueries.RemoveFirstMembers(all, e, a);
      }
    }
    if compare.Null? then t
    else RemoveFailing(RemoveFailing(t, nd.elements, compare.value), nd.overlapElements, compare.value)
  }

  lemma TrimKeeps(all: seq<QtAgent>, e: QtAgent, includeSelf: bool, compare: Nullable<QtAgent -> bool>, nd: Node, a: QtAgent)
    requires a in all && (includeSelf || a != e) && RangeQueries.Passes(compare, a)
    ensures a in Trim(all, e, includeSelf, compare, nd)
  {
    var t := if includeSelf then all else RemoveFirst(all, e);
    RangeQueries.RemoveFirstMembers(all, e, a);
    if compare.NonNull? {
      var keep := compare.value;
      RemoveFailingCount(t, nd.elements, keep, a);
      RemoveFailingCount(RemoveFailing(t, nd.elements, keep), nd.overlapElements, keep, a);
    }
  }

  lemma TrimSub(all: seq<QtAgent>, e: QtAgent, includeSelf: bool, compare: Nullable<QtAgent -> bool>, nd: Node)
    ensures multiset(Trim(all, e, includeSelf, compare, nd)) <= multiset(all)
  {
    var t := if includeSelf then all else RemoveFirst(all, e);
    if compare.NonNull? {
      RemoveFailingSub(t, nd.elements, compare.value);
      RemoveFailingSub(RemoveFailing(t, nd.elements, compare.value), nd.overlapElements, compare.value);
    }
  }

  /** An agent compare rejects is gone when the node's own lists hold every occurrence of it. */
  lemma TrimDropsFailing(all: seq<QtAgent>, e: QtAgent, includeSelf: bool, compare: Nullable<QtAgent -> bool>, nd: Node, a: QtAgent)
    requires compare.NonNull? && !compare.value(a) && multiset(all)[a] <= Own(nd)[a]
    ensures a !in Trim(all, e, includeSelf, compare, nd)
  {
    var t := if includeSelf then all else RemoveFirst(all, e);
    var keep := compare.value;
    assert multiset(t) <= multiset(all);
    RemoveFailingCount(t, nd.elements, keep, a);
    RemoveFailingCount(RemoveFailing(t, nd.elements, keep), nd.overlapElements, keep, a);
  }

  lemma TrimDropsSelf(all: seq<QtAgent>, e: QtAgent, compare: Nullable<QtAgent -> bool>, nd: Node)
    requires multiset(all)[e] <= 1
    ensures e !in Trim(all, e, false, compare, nd)
  {
    RangeQueries.RemoveFirstMembers(all, e, e);
  }

  // ---------------------------------------------------------------------------
  // FindElements

  /**
   * FindElements of the intermediate node: nothing when e's shape misses n;
   * otherwise the searched children, then n's elements and overlap entries,
   * trimmed.
   */
  function FindElements(ns: Arena, geo: Convex, n: nat, e: QtAgent, includeSelf: bool,
                        compare: Nullable<QtAgent -> bool>): (r: seq<QtAgent>)
    requires WellFormed(ns) && n < |ns|
    reads *
    ensures geo.shapeVsRect(e.shape, ns[n].boundary) == None ==> r == []
    decreases |ns| - n, 5
  {
    if geo.shapeVsRect(e.shape, ns[n].boundary) == None then []
    else
      var found := if IsLeaf(ns[n]) then [] else FitBreakChildren(ns, geo, n, 0, e, includeSelf, compare);
      Trim(found + ns[n].elements + ns[n].overlapElements, e, includeSelf, compare, ns[n])
  }

  /** FindElementsFromRoot: the search runs from the root of the tree, without a compare filter. */
  function FindElementsFromRoot(ns: Arena, geo: Convex, n: nat, e: QtAgent, includeSelf: bool): (r: seq<QtAgent>)
    requires WellFormed(ns) && n < |ns|
    reads *
    ensures Rooted(ns) ==> r == FindElements(ns, geo, 0, e, includeSelf, Null)
  {
    var start := if ns[n].parentNode.NonNull? then Root(ns, n) else n;
    assert Rooted(ns) ==> start == 0;
    FindElements(ns, geo, start, e, includeSelf, Null)
  }

  /**
   * The children loop from child k on: a child e's shape misses is skipped,
   * an Overlap child is searched and the loop goes on, and a Fit child is
   * searched and ends the loop.
   */
  function FitBreakChildren(ns: Arena, geo: Convex, n: nat, k: nat, e: QtAgent, includeSelf: bool,
                            compare: Nullable<QtAgent -> bool>): (r: seq<QtAgent>)
    requires WellFormed(ns) && n < |ns| && !IsLeaf(ns[n]) && k <= 4
    reads *
    decreases |ns| - n, 4 - k
  {
    if k == 4 then []
    else
      var c := Child(ns, n, k);
      var cr := geo.shapeVsRect(e.shape, ns[c].boundary);
      if cr == None then FitBreakChildren(ns, geo, n, k + 1, e, includeSelf, compare)
      else if cr == Overlap then FindElements(ns, geo, c, e, includeSelf, compare) + FitBreakChildren(ns, geo, n, k + 1, e, includeSelf, compare)
      else FindElements(ns, geo, c, e, includeSelf, compare)
  }

  /** No child of n from k up to, not including, j is Fit by s: the children loop goes past them. */
  predicate NoFitBetween(ns: Arena, geo: Convex, s: ConvexShape, n: nat, k: nat, j: nat)
    requires WellFormed(ns) && n < |ns| && !IsLeaf(ns[n]) && j <= 4
  {
    forall i :: k <= i < j ==> geo.shapeVsRect(s, ns[Child(ns, n, i)].boundary) != Fit
  }

  /** m is reached from n by the intermediate search for shape s. */
  predicate FitReached(ns: Arena, geo: Convex, s: ConvexShape, n: nat, m: nat)
    requires WellFormed(ns) && n < |ns|
    decreases |ns| - n
  {
    geo.shapeVsRect(s, ns[n].boundary) != None &&
    (m == n ||
     (!IsLeaf(ns[n]) && exists k :: 0 <= k < 4 && NoFitBetween(ns, geo, s, n, 0, k) && FitReached(ns, geo, s, Child(ns, n, k), m)))
  }

  /** Everything the search returns is an entry of the subtree, counted with multiplicity. */
  lemma {:induction false} FindElementsEntries(ns: Arena, geo: Convex, n: nat, e: QtAgent, includeSelf: bool,
                                               compare: Nullable<QtAgent -> bool>)
    requires WellFormed(ns) && n < |ns|
    ensures multiset(FindElements(ns, geo, n, e, includeSelf, compare)) <= SubtreeEntries(ns, n)
    decreases |ns| - n, 5
  {
    if geo.shapeVsRect(e.shape, ns[n].boundary) != None {
      var found := if IsLeaf(ns[n]) then [] else FitBreakChildren(ns, geo, n, 0, e, includeSelf, compare);
      var all := found + ns[n].elements + ns[n].overlapElements;
      if !IsLeaf(ns[n]) {
        FitBreakEntries(ns, geo, n, 0, e, includeSelf, compare);
        assert multiset(found) + multiset{} == multiset(found);
      }
      OwnAndFound(ns, n, found);
      TrimSub(all, e, includeSelf, compare, ns[n]);
    }
  }

  lemma {:induction false} FitBreakEntries(ns: Arena, geo: Convex, n: nat, k: nat, e: QtAgent, includeSelf: bool,
                                           compare: Nullable<QtAgent -> bool>)
    requires WellFormed(ns) && n < |ns| && !IsLeaf(ns[n]) && k <= 4
    ensures multiset(FitBreakChildren(ns, geo, n, k, e, includeSelf, compare)) + ChildrenEntries(ns, n, k) <= ChildrenEntries(ns, n, 4)
    decreases |ns| - n, 4 - k
  {
    if k < 4 {
      var c := Child(ns, n, k);
      FitBreakEntries(ns, geo, n, k + 1, e, includeSelf, compare);
      FindElementsEntries(ns, geo, c, e, includeSelf, compare);
      ChildrenEntriesStep(ns, n, k);
      FitBreakShape(ns, geo, n, k, e, includeSelf, compare);
      StepBound(multiset(FindElements(ns, geo, c, e, includeSelf, compare)),
                multiset(FitBreakChildren(ns, geo, n, k + 1, e, includeSelf, compare)),
                multiset(FitBreakChildren(ns, geo, n, k, e, includeSelf, compare)),
                ChildrenEntries(ns, n, k), SubtreeEntries(ns, c), ChildrenEntries(ns, n, 4));
    }
  }

  /** One step of the children loop: child k's result is skipped, prepended, or the whole answer. */
  lemma FitBreakShape(ns: Arena, geo: Convex, n: nat, k: nat, e: QtAgent, includeSelf: bool,
                      compare: Nullable<QtAgent -> bool>)
    requires WellFormed(ns) && n < |ns| && !IsLeaf(ns[n]) && k < 4
    ensures var f := multiset(FindElements(ns, geo, Child(ns, n, k), e, includeSelf, compare));
            var rest := multiset(FitBreakChildren(ns, geo, n, k + 1, e, includeSelf, compare));
            var here := multiset(FitBreakChildren(ns, geo, n, k, e, includeSelf, compare));
            here == rest || here == f + rest || here == f
  {
  }


  /**
   * The children loop from k includes the result of child j when e's shape
   * touches j and Fits none of the children from k up to j.
   */
  lemma {:induction false} FitBreakIncludes(ns: Arena, geo: Convex, n: nat, k: nat, j: nat, e: QtAgent, includeSelf: bool,
                                            compare: Nullable<QtAgent -> bool>, a: QtAgent)
    requires WellFormed(ns) && n < |ns| && !IsLeaf(ns[n]) && k <= j < 4
    requires NoFitBetween(ns, geo, e.shape, n, k, j)
    requires a in FindElements(ns, geo, Child(ns, n, j), e, includeSelf, compare)
    ensures a in FitBreakChildren(ns, geo, n, k, e, includeSelf, compare)
    decreases j - k, 1
  {
    if k < j {
      FitBreakIncludesLater(ns, geo, n, k, j, e, includeSelf, compare, a);
    } else {
      FitBreakHere(ns, geo, n, k, e, includeSelf, compare, a);
    }
  }

  lemma {:induction false} FitBreakIncludesLater(ns: Arena, geo: Convex, n: nat, k: nat, j: nat, e: QtAgent,
                                                 includeSelf: bool, compare: Nullable<QtAgent -> bool>, a: QtAgent)
    requires WellFormed(ns) && n < |ns| && !IsLeaf(ns[n]) && k < j < 4
    requires NoFitBetween(ns, geo, e.shape, n, k, j)
    requires a in FindElements(ns, geo, Child(ns, n, j), e, includeSelf, compare)
    ensures a in FitBreakChildren(ns, geo, n, k, e, includeSelf, compare)
    decreases j - k, 0
  {
    NoFitShrink(ns, geo, e.shape, n, k, j);
    FitBreakIncludes(ns, geo, n, k + 1, j, e, includeSelf, compare, a);
    FitBreakPass(ns, geo, n, k, e, includeSelf, compare, a);
  }

  lemma FitBreakHere(ns: Arena, geo: Convex, n: nat, k: nat, e: QtAgent, includeSelf: bool,
                     compare: Nullable<QtAgent -> bool>, a: QtAgent)
    requires WellFormed(ns) && n < |ns| && !IsLeaf(ns[n]) && k < 4
    requires a in FindElements(ns, geo, Child(ns, n, k), e, includeSelf, compare)
    ensures a in FitBreakChildren(ns, geo, n, k, e, includeSelf, compare)
  {
  }

  lemma NoFitShrink(ns: Arena, geo: Convex, s: ConvexShape, n: nat, k: nat, j: nat)
    requires WellFormed(ns) && n < |ns| && !IsLeaf(ns[n]) && k < j <= 4
    requires NoFitBetween(ns, geo, s, n, k, j)
    ensures NoFitBetween(ns, geo, s, n, k + 1, j)
    ensures geo.shapeVsRect(s, ns[Child(ns, n, k)].boundary) != Fit
  {
  }

  lemma FitBreakPass(ns: Arena, geo: Convex, n: nat, k: nat, e: QtAgent, includeSelf: bool,
                     compare: Nullable<QtAgent -> bool>, a: QtAgent)
    requires WellFormed(ns) && n < |ns| && !IsLeaf(ns[n]) && k < 4
    requires geo.shapeVsRect(e.shape, ns[Child(ns, n, k)].boundary) != Fit
    requires a in FitBreakChildren(ns, geo, n, k + 1, e, includeSelf, compare)
    ensures a in FitBreakChildren(ns, geo, n, k, e, includeSelf, compare)
  {
  }

  /** An agent the children loop from k returns comes from a child it searched. */
  lemma {:induction false} FitBreakFrom(ns: Arena, geo: Convex, n: nat, k: nat, e: QtAgent, includeSelf: bool,
                                        compare: Nullable<QtAgent -> bool>, a: QtAgent)
    requires WellFormed(ns) && n < |ns| && !IsLeaf(ns[n]) && k <= 4
    requires a in FitBreakChildren(ns, geo, n, k, e, includeSelf, compare)
    ensures exists j :: k <= j < 4 && NoFitBetween(ns, geo, e.shape, n, k, j) &&
                        a in FindElements(ns, geo, Child(ns, n, j), e, includeSelf, compare)
    decreases 4 - k, 1
  {
    var c := Child(ns, n, k);
    if a in FindElements(ns, geo, c, e, includeSelf, compare) {
      assert NoFitBetween(ns, geo, e.shape, n, k, k);
    } else {
      FitBreakFromLater(ns, geo, n, k, e, includeSelf, compare, a);
    }
  }

  lemma {:induction false} FitBreakFromLater(ns: Arena, geo: Convex, n: nat, k: nat, e: QtAgent, includeSelf: bool,
                                             compare: Nullable<QtAgent -> bool>, a: QtAgent)
    requires WellFormed(ns) && n < |ns| && !IsLeaf(ns[n]) && k < 4
    requires a in FitBreakChildren(ns, geo, n, k, e, includeSelf, compare)
    requires a !in FindElements(ns, geo, Child(ns, n, k), e, includeSelf, compare)
    ensures exists j :: k <= j < 4 && NoFitBetween(ns, geo, e.shape, n, k, j) &&
                        a in FindElements(ns, geo, Child(ns, n, j), e, includeSelf, compare)
    decreases 4 - k, 0
  {
    FitBreakSkip(ns, geo, n, k, e, includeSelf, compare, a);
    FitBreakFrom(ns, geo, n, k + 1, e, includeSelf, compare, a);
    var j :| k + 1 <= j < 4 && NoFitBetween(ns, geo, e.shape, n, k + 1, j) &&
             a in FindElements(ns, geo, Child(ns, n, j), e, includeSelf, compare);
    assert NoFitBetween(ns, geo, e.shape, n, k, j);
  }

  /** An agent the loop from k returns, not from child k, comes from the loop from k + 1 past a child that is not Fit. */
  lemma FitBreakSkip(ns: Arena, geo: Convex, n: nat, k: nat, e: QtAgent, includeSelf: bool,
                     compare: Nullable<QtAgent -> bool>, a: QtAgent)
    requires WellFormed(ns) && n < |ns| && !IsLeaf(ns[n]) && k < 4
    requires a in FitBreakChildren(ns, geo, n, k, e, includeSelf, compare)
    requires a !in FindElements(ns, geo, Child(ns, n, k), e, includeSelf, compare)
    ensures geo.shapeVsRect(e.shape, ns[Child(ns, n, k)].boundary) != Fit
    ensures a in FitBreakChildren(ns, geo, n, k + 1, e, includeSelf, compare)
  {
  }

  /**
   * Completeness: an agent that passes compare and is held by a node the
   * search reaches is in the result, unless it is e and includeSelf is off.
   */
  lemma {:induction false} FindElementsComplete(ns: Arena, geo: Convex, n: nat, m: nat, e: QtAgent, includeSelf: bool,
                                                compare: Nullable<QtAgent -> bool>, a: QtAgent)
    requires WellFormed(ns) && n < |ns| && m < |ns|
    requires FitReached(ns, geo, e.shape, n, m) && Holds(ns[m], a) && RangeQueries.Passes(compare, a) && (includeSelf || a != e)
    ensures a in FindElements(ns, geo, n, e, includeSelf, compare)
    decreases |ns| - n
  {
    var found := if IsLeaf(ns[n]) then [] else FitBreakChildren(ns, geo, n, 0, e, includeSelf, compare);
    var all := found + ns[n].elements + ns[n].overlapElements;
    if m != n {
      var k :| 0 <= k < 4 && NoFitBetween(ns, geo, e.shape, n, 0, k) && FitReached(ns, geo, e.shape, Child(ns, n, k), m);
      FindElementsComplete(ns, geo, Child(ns, n, k), m, e, includeSelf, compare, a);
      FitBreakIncludes(ns, geo, n, 0, k, e, includeSelf, compare, a);
    }
    assert a in all;
    TrimKeeps(all, e, includeSelf, compare, ns[n], a);
  }

  /** Soundness: every agent in the result is held by a node the search reaches. */
  lemma {:induction false} FindElementsSound(ns: Arena, geo: Convex, n: nat, e: QtAgent, includeSelf: bool,
                                             compare: Nullable<QtAgent -> bool>, a: QtAgent)
    requires WellFormed(ns) && n < |ns| && a in FindElements(ns, geo, n, e, includeSelf, compare)
    ensures exists m :: n <= m < |ns| && FitReached(ns, geo, e.shape, n, m) && Holds(ns[m], a)
    decreases |ns| - n
  {
    var found := if IsLeaf(ns[n]) then [] else FitBreakChildren(ns, geo, n, 0, e, includeSelf, compare);
    if a in found {
      FitBreakFrom(ns, geo, n, 0, e, includeSelf, compare, a);
      var j :| 0 <= j < 4 && NoFitBetween(ns, geo, e.shape, n, 0, j) &&
               a in FindElements(ns, geo, Child(ns, n, j), e, includeSelf, compare);
      FindElementsSound(ns, geo, Child(ns, n, j), e, includeSelf, compare, a);
      var m :| Child(ns, n, j) <= m < |ns| && FitReached(ns, geo, e.shape, Child(ns, n, j), m) && Holds(ns[m], a);
      assert FitReached(ns, geo, e.shape, n, m);
    } else {
      assert FitReached(ns, geo, e.shape, n, n);
    }
  }

  /** The children after the first one e's shape Fits are never searched. */
  lemma FitStopsSearch(ns: Arena, geo: Convex, n: nat, j: nat, k: nat, m: nat, e: QtAgent)
    requires WellFormed(ns) && n < |ns| && !IsLeaf(ns[n]) && j < k < 4 && m < |ns|
    requires geo.shapeVsRect(e.shape, ns[Child(ns, n, j)].boundary) == Fit
    ensures !NoFitBetween(ns, geo, e.shape, n, 0, k)
  {
  }

  /** With a compare callback, a rejected agent stored at most once in the subtree is not returned. */
  lemma {:induction false} FindElementsDropsFailing(ns: Arena, geo: Convex, n: nat, e: QtAgent, includeSelf: bool,
                                                    compare: Nullable<QtAgent -> bool>, a: QtAgent)
    requires WellFormed(ns) && n < |ns| && compare.NonNull? && !compare.value(a) && SubtreeEntries(ns, n)[a] <= 1
    ensures a !in FindElements(ns, geo, n, e, includeSelf, compare)
    decreases |ns| - n, 5
  {
    if geo.shapeVsRect(e.shape, ns[n].boundary) != None {
      var found := if IsLeaf(ns[n]) then [] else FitBreakChildren(ns, geo, n, 0, e, includeSelf, compare);
      if !IsLeaf(ns[n]) {
        assert ChildrenEntries(ns, n, 4)[a] <= SubtreeEntries(ns, n)[a];
        FitBreakDropsFailing(ns, geo, n, 0, e, includeSelf, compare, a);
      }
      DropsFailingStep(found, e, includeSelf, compare, ns[n], a);
    }
  }

  lemma DropsFailingStep(found: seq<QtAgent>, e: QtAgent, includeSelf: bool, compare: Nullable<QtAgent -> bool>, nd: Node, a: QtAgent)
    requires a !in found && compare.NonNull? && !compare.value(a)
    ensures a !in Trim(found + nd.elements + nd.overlapElements, e, includeSelf, compare, nd)
  {
    var all := found + nd.elements + nd.overlapElements;
    assert multiset(all) == multiset(found) + Own(nd);
    TrimDropsFailing(all, e, includeSelf, compare, nd, a);
  }

  lemma {:induction false} FitBreakDropsFailing(ns: Arena, geo: Convex, n: nat, k: nat, e: QtAgent, includeSelf: bool,
                                                compare: Nullable<QtAgent -> bool>, a: QtAgent)
    requires WellFormed(ns) && n < |ns| && !IsLeaf(ns[n]) && k <= 4
    requires compare.NonNull? && !compare.value(a) && ChildrenEntries(ns, n, 4)[a] <= 1
    ensures a !in FitBreakChildren(ns, geo, n, k, e, includeSelf, compare)
    decreases |ns| - n, 4 - k
  {
    if k < 4 {
      FitBreakDropsFailing(ns, geo, n, k + 1, e, includeSelf, compare, a);
      ChildCount(ns, n, 4, k, a);
      FindElementsDropsFailing(ns, geo, Child(ns, n, k), e, includeSelf, compare, a);
    }
  }

  /** With includeSelf off, an agent stored at most once in the subtree does not find itself. */
  lemma {:induction false} FindElementsDropsSelf(ns: Arena, geo: Convex, n: nat, e: QtAgent, compare: Nullable<QtAgent -> bool>)
    requires WellFormed(ns) && n < |ns| && SubtreeEntries(ns, n)[e] <= 1
    ensures e !in FindElements(ns, geo, n, e, false, compare)
    decreases |ns| - n, 5
  {
    if geo.shapeVsRect(e.shape, ns[n].boundary) != None {
      var found := if IsLeaf(ns[n]) then [] else FitBreakChildren(ns, geo, n, 0, e, false, compare);
      if !IsLeaf(ns[n]) {
        assert ChildrenEntries(ns, n, 4)[e] <= SubtreeEntries(ns, n)[e];
        FitBreakDropsSelf(ns, geo, n, 0, e, compare);
      }
      assert Own(ns[n])[e] <= SubtreeEntries(ns, n)[e];
      DropsSelfStep(found, e, compare, ns[n]);
    }
  }

  lemma DropsSelfStep(found: seq<QtAgent>, e: QtAgent, compare: Nullable<QtAgent -> bool>, nd: Node)
    requires e !in found && Own(nd)[e] <= 1
    ensures e !in Trim(found + nd.elements + nd.overlapElements, e, false, compare, nd)
  {
    var all := found + nd.elements + nd.overlapElements;
    assert multiset(all) == multiset(found) + Own(nd);
    TrimDropsSelf(all, e, compare, nd);
  }

  lemma {:induction false} FitBreakDropsSelf(ns: Arena, geo: Convex, n: nat, k: nat, e: QtAgent, compare: Nullable<QtAgent -> bool>)
    requires WellFormed(ns) && n < |ns| && !IsLeaf(ns[n]) && k <= 4 && ChildrenEntries(ns, n, 4)[e] <= 1
    ensures e !in FitBreakChildren(ns, geo, n, k, e, false, compare)
    decreases |ns| - n, 4 - k
  {
    if k < 4 {
      FitBreakDropsSelf(ns, geo, n, k + 1, e, compare);
      ChildCount(ns, n, 4, k, e);
      FindElementsDropsSelf(ns, geo, Child(ns, n, k), e, compare);
    }
  }

  // ---------------------------------------------------------------------------
  // QueryElements

  /**
   * A query object: whether it touches a node boundary and whether it
   * touches an agent. Its geometry is not part of this model.
   */
  datatype ElementQuery = ElementQuery(touchesBoundary: Rect -> bool, touchesElement: QtAgent -> bool)

  /**
   * QueryElements as written: no result for a null query, for a node the
   * query misses, and for a node without elements of its own; otherwise the
   * node's elements and overlap entries the query touches, then the
   * children's results that are not null.
   */
  function QueryElementsAsWritten(ns: Arena, n: nat, q: Nullable<ElementQuery>): (r: Nullable<seq<QtAgent>>)
    requires WellFormed(ns) && n < |ns|
    ensures r.NonNull? ==> q.NonNull? && forall a :: a in r.value ==> q.value.touchesElement(a)
    decreases |ns| - n, 5
  {
    if q.Null? then Null
    else if !q.value.touchesBoundary(ns[n].boundary) then Null
    else if |ns[n].elements| == 0 then Null
    else
      var own := RangeQueries.Filter(ns[n].elements, q.value.touchesElement) +
                 RangeQueries.Filter(ns[n].overlapElements, q.value.touchesElement);
      if IsLeaf(ns[n]) then NonNull(own) else NonNull(own + QueriedChildrenAsWritten(ns, n, 4, q.value))
  }

  function QueriedChildrenAsWritten(ns: Arena, n: nat, k: nat, q: ElementQuery): (r: seq<QtAgent>)
    requires WellFormed(ns) && n < |ns| && !IsLeaf(ns[n]) && k <= 4
    ensures forall a :: a in r ==> q.touchesElement(a)
    decreases |ns| - n, k
  {
    if k == 0 then []
    else
      var more := match QueryElementsAsWritten(ns, Child(ns, n, k - 1), NonNull(q))
        case Null => []
        case NonNull(x) => x;
      QueriedChildrenAsWritten(ns, n, k - 1, q) + more
  }

  /**
   * Once a node has split it keeps no elements of its own, so under the
   * storage discipline QueryElements as written answers null at every
   * internal node, whatever its overlap entries and children hold.
   */
  lemma QueryElementsNullWhenSplit(ns: Arena, cap: nat, n: nat, q: Nullable<ElementQuery>)
    requires WellFormed(ns) && n < |ns| && Balanced(ns, cap, {}) && !IsLeaf(ns[n])
    ensures QueryElementsAsWritten(ns, n, q) == Null
  {
  }

  /** QueryElements as evidently intended: the same search without the test on the node's own elements. */
  function QueryElements(ns: Arena, n: nat, q: Nullable<ElementQuery>): (r: Nullable<seq<QtAgent>>)
    requires WellFormed(ns) && n < |ns|
    ensures r.Null? <==> q.Null? || !q.value.touchesBoundary(ns[n].boundary)
    ensures r.NonNull? ==> forall a :: a in r.value ==> q.value.touchesElement(a)
    decreases |ns| - n, 5
  {
    if q.Null? then Null
    else if !q.value.touchesBoundary(ns[n].boundary) then Null
    else
      var own := RangeQueries.Filter(ns[n].elements, q.value.touchesElement) +
                 RangeQueries.Filter(ns[n].overlapElements, q.value.touchesElement);
      if IsLeaf(ns[n]) then NonNull(own) else NonNull(own + QueriedChildren(ns, n, 4, q.value))
  }

  function QueriedChildren(ns: Arena, n: nat, k: nat, q: ElementQuery): (r: seq<QtAgent>)
    requires WellFormed(ns) && n < |ns| && !IsLeaf(ns[n]) && k <= 4
    ensures forall a :: a in r ==> q.touchesElement(a)
    decreases |ns| - n, k
  {
    if k == 0 then []
    else
      var more := match QueryElements(ns, Child(ns, n, k - 1), NonNull(q))
        case Null => []
        case NonNull(x) => x;
      QueriedChildren(ns, n, k - 1, q) + more
  }

  /** QueryNodesFromRoot: the query runs from the root of the tree. */
  function QueryNodesFromRoot(ns: Arena, n: nat, q: Nullable<ElementQuery>): (r: Nullable<seq<QtAgent>>)
    requires WellFormed(ns) && n < |ns|
    ensures Rooted(ns) ==> r == QueryElements(ns, 0, q)
  {
    var start := if ns[n].parentNode.NonNull? then Root(ns, n) else n;
    assert Rooted(ns) ==> start == 0;
    QueryElements(ns, start, q)
  }

  /** m is reached from n by a query descending only through boundaries it touches. */
  predicate QueryReached(ns: Arena, q: ElementQuery, n: nat, m: nat)
    requires WellFormed(ns) && n < |ns|
    decreases |ns| - n
  {
    q.touchesBoundary(ns[n].boundary) &&
    (m == n || (!IsLeaf(ns[n]) && exists k :: 0 <= k < 4 && QueryReached(ns, q, Child(ns, n, k), m)))
  }

  /** Completeness: an agent the query touches, held by a node it reaches, is in the result. */
  lemma {:induction false} QueryElementsComplete(ns: Arena, n: nat, m: nat, q: ElementQuery, a: QtAgent)
    requires WellFormed(ns) && n < |ns| && m < |ns|
    requires QueryReached(ns, q, n, m) && Holds(ns[m], a) && q.touchesElement(a)
    ensures QueryElements(ns, n, NonNull(q)).NonNull? && a in QueryElements(ns, n, NonNull(q)).value
    decreases |ns| - n
  {
    if m != n {
      var k :| 0 <= k < 4 && QueryReached(ns, q, Child(ns, n, k), m);
      QueryElementsComplete(ns, Child(ns, n, k), m, q, a);
      QueriedChildrenIncludes(ns, n, k, q, a);
    } else {
      RangeQueries.FilterKeeps(ns[n].elements, q.touchesElement, a);
      RangeQueries.FilterKeeps(ns[n].overlapElements, q.touchesElement, a);
    }
  }

  /** An agent child j answers with is in what all four children answer. */
  lemma QueriedChildrenIncludes(ns: Arena, n: nat, j: nat, q: ElementQuery, a: QtAgent)
    requires WellFormed(ns) && n < |ns| && !IsLeaf(ns[n]) && j < 4
    requires QueryElements(ns, Child(ns, n, j), NonNull(q)).NonNull?
    requires a in QueryElements(ns, Child(ns, n, j), NonNull(q)).value
    ensures a in QueriedChildren(ns, n, 4, q)
  {
    QueriedChildrenLast(ns, n, j, q, a);
    QueriedChildrenGrowsTo(ns, n, j + 1, q, a);
  }

  /** What the first k children answer is kept in what all four answer. */
  lemma QueriedChildrenGrowsTo(ns: Arena, n: nat, k: nat, q: ElementQuery, a: QtAgent)
    requires WellFormed(ns) && n < |ns| && !IsLeaf(ns[n]) && k <= 4
    requires a in QueriedChildren(ns, n, k, q)
    ensures a in QueriedChildren(ns, n, 4, q)
  {
    var i := k;
    while i < 4
      invariant k <= i <= 4 && a in QueriedChildren(ns, n, i, q)
    {
      QueriedChildrenGrows(ns, n, i + 1, q, a);
      i := i + 1;
    }
  }

  /** What the first k - 1 children answer is kept when child k - 1 is queried too. */
  lemma QueriedChildrenGrows(ns: Arena, n: nat, k: nat, q: ElementQuery, a: QtAgent)
    requires WellFormed(ns) && n < |ns| && !IsLeaf(ns[n]) && 0 < k <= 4
    requires a in QueriedChildren(ns, n, k - 1, q)
    ensures a in QueriedChildren(ns, n, k, q)
  {
  }

  /** An agent child j answers with is in what the first j + 1 children answer. */
  lemma QueriedChildrenLast(ns: Arena, n: nat, j: nat, q: ElementQuery, a: QtAgent)
    requires WellFormed(ns) && n < |ns| && !IsLeaf(ns[n]) && j < 4
    requires QueryElements(ns, Child(ns, n, j), NonNull(q)).NonNull?
    requires a in QueryElements(ns, Child(ns, n, j), NonNull(q)).value
    ensures a in QueriedChildren(ns, n, j + 1, q)
  {
    assert Child(ns, n, j) == Child(ns, n, j + 1 - 1);
  }

  /** Soundness: every agent in the result is held by a node the query reaches. */
  lemma {:induction false} QueryElementsSound(ns: Arena, n: nat, q: ElementQuery, a: QtAgent)
    requires WellFormed(ns) && n < |ns|
    requires QueryElements(ns, n, NonNull(q)).NonNull? && a in QueryElements(ns, n, NonNull(q)).value
    ensures exists m :: n <= m < |ns| && QueryReached(ns, q, n, m) && Holds(ns[m], a)
    decreases |ns| - n
  {
    var own := RangeQueries.Filter(ns[n].elements, q.touchesElement) +
               RangeQueries.Filter(ns[n].overlapElements, q.touchesElement);
    if a in own {
      assert QueryReached(ns, q, n, n);
    } else {
      QueriedChildrenFrom(ns, n, 4, q, a);
      var j :| 0 <= j < 4 && QueryElements(ns, Child(ns, n, j), NonNull(q)).NonNull? &&
               a in QueryElements(ns, Child(ns, n, j), NonNull(q)).value;
      QueryElementsSound(ns, Child(ns, n, j), q, a);
      var m :| Child(ns, n, j) <= m < |ns| && QueryReached(ns, q, Child(ns, n, j), m) && Holds(ns[m], a);
      assert QueryReached(ns, q, n, m);
    }
  }

  lemma {:induction false} QueriedChildrenFrom(ns: Arena, n: nat, k: nat, q: ElementQuery, a: QtAgent)
    requires WellFormed(ns) && n < |ns| && !IsLeaf(ns[n]) && k <= 4
    requires a in QueriedChildren(ns, n, k, q)
    ensures exists j :: 0 <= j < k && QueryElements(ns, Child(ns, n, j), NonNull(q)).NonNull? &&
                        a in QueryElements(ns, Child(ns, n, j), NonNull(q)).value
  {
    var r := QueryElements(ns, Child(ns, n, k - 1), NonNull(q));
    if !(r.NonNull? && a in r.value) {
      QueriedChildrenFrom(ns, n, k - 1, q, a);
    }
  }
}
