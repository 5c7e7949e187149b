// The read-only searches of the first-generation quadtree node that differ
// from the later ones: FindNode, which follows the agent's center without
// asking whether the agent Fits, and FindElements, which searches only nodes
// containing the agent's center and faults when an Overlap search reaches a
// child that does not contain it.

module OriginalQueries {
  import opened Geometry
  import opened Agents
  import opened QuadtreeArena
  import opened Routing
  import opened Counting
  import opened RangeQueries

  // ---------------------------------------------------------------------------
  // FindNode

  /**
   * FindNode: nothing for a null agent or one whose center lies outside the
   * node; otherwise the answer of the child containing the center, even
   * when that answer is null; at a leaf, the node itself when its lists
   * hold the agent.
   */
  function FindNodeByCenter(ns: Arena, n: nat, a: QtAgent?): (r: Nullable<nat>)
    requires WellFormed(ns) && n < |ns|
    reads a
    ensures r.NonNull? ==> a != null && n <= r.value < |ns| && Holds(ns[r.value], a)
    ensures r.NonNull? ==> ContainPoint2D(ns[n].boundary, a.center)
    decreases |ns| - n
  {
    if a == null then Null
    else if !ContainPoint2D(ns[n].boundary, a.center) then Null
    else
      var k := ChildIndex(ns, n, a.center);
      if k >= 0 then FindNodeByCenter(ns, Child(ns, n, k), a)
      else if Holds(ns[n], a) then NonNull(n)
      else Null
  }

  /** FindNodeFromRoot: a null agent is not looked for; otherwise FindNode runs from the root. */
  function FindNodeFromRoot(ns: Arena, n: nat, a: QtAgent?): (r: Nullable<nat>)
    requires WellFormed(ns) && n < |ns|
    reads a
    ensures Rooted(ns) ==> r == FindNodeByCenter(ns, 0, a)
  {
    if a == null then Null
    else if ns[n].parentNode.NonNull? then FindNodeByCenter(ns, Root(ns, n), a)
    else FindNodeByCenter(ns, n, a)
  }

  /**
   * An agent Add's routing from n put into the elements of leaf t is found
   * there, provided its center lies in n.
   */
  lemma {:induction false} FindNodeByCenterFindsElement(ns: Arena, geo: Convex, n: nat, a: QtAgent, t: nat)
    requires WellFormed(ns) && n < |ns| && t < |ns|
    requires ContainPoint2D(ns[n].boundary, a.center)
    requires Route(ns, geo, n, a.center, a.shape) == StoreElement(t) && Holds(ns[t], a)
    ensures FindNodeByCenter(ns, n, a) == NonNull(t)
    decreases |ns| - n
  {
    if !IsLeaf(ns[n]) {
      ChildIndexInside(ns, n, a.center);
      var c := Child(ns, n, ChildIndex(ns, n, a.center));
      FindNodeByCenterFindsElement(ns, geo, c, a, t);
    }
  }

  /**
   * An agent Add's routing from n put into the overlap list of node t, and
   * held by no other node, is not found: at t the search goes on into the
   * child containing the center, which does not hold it.
   */
  lemma {:induction false} FindNodeByCenterMissesOverlap(ns: Arena, geo: Convex, n: nat, a: QtAgent, t: nat)
    requires WellFormed(ns) && n < |ns|
    requires ContainPoint2D(ns[n].boundary, a.center)
    requires Route(ns, geo, n, a.center, a.shape) == StoreOverlap(t)
    requires forall m :: 0 <= m < |ns| && m != t ==> !Holds(ns[m], a)
    ensures FindNodeByCenter(ns, n, a) == Null
    decreases |ns| - n
  {
    ChildIndexInside(ns, n, a.center);
    var c := Child(ns, n, ChildIndex(ns, n, a.center));
    if geo.shapeVsRect(a.shape, ns[c].boundary) == Fit {
      FindNodeByCenterMissesOverlap(ns, geo, c, a, t);
    }
  }

  // ---------------------------------------------------------------------------
  // FindElements as written

  /**
   * Adding a child's answer to the result list: a fault already raised goes
   * on, and adding a null answer faults as well.
   */
  function AddRange(found: Outcome<Nullable<seq<QtAgent>>>): (r: Outcome<seq<QtAgent>>)
    ensures r.Returned? <==> found.Returned? && found.value.NonNull?
    ensures r.Returned? ==> r.value == found.value.value
  {
    match found
    case NullReference => NullReference
    case Returned(Null) => NullReference
    case Returned(NonNull(x)) => Returned(x)
  }

  /**
   * FindElements as written: a null agent faults; an agent whose center
   * lies outside the node gets null; otherwise the children's answers, then
   * the node's elements and overlap entries, with the agent's first entry
   * taken out unless includeSelf. The children are always searched with
   * includeSelf false.
   */
  function FindElementsAsWritten(ns: Arena, geo: Convex, n: nat, e: QtAgent?, includeSelf: bool)
    : (r: Outcome<Nullable<seq<QtAgent>>>)
    requires WellFormed(ns) && n < |ns|
    reads e
    ensures e == null ==> r == NullReference
    ensures e != null && !ContainPoint2D(ns[n].boundary, e.center) ==> r == Returned(Null)
    decreases |ns| - n, 1
  {
    if e == null then NullReference
    else if !ContainPoint2D(ns[n].boundary, e.center) then Returned(Null)
    else
      match ChildResultsAsWritten(ns, geo, n, e)
      case NullReference => NullReference
      case Returned(found) =>
        var all := found + ns[n].elements + ns[n].overlapElements;
        Returned(NonNull(if includeSelf then all else RemoveFirst(all, e)))
  }

  /**
   * The children's part of FindElements: the child containing the center is
   * searched alone when e Fits it; when e Overlaps it, every child e touches
   * is searched; otherwise none.
   */
  function ChildResultsAsWritten(ns: Arena, geo: Convex, n: nat, e: QtAgent): (r: Outcome<seq<QtAgent>>)
    requires WellFormed(ns) && n < |ns|
    reads e
    decreases |ns| - n, 0, 5
  {
    var k := ChildIndex(ns, n, e.center);
    if k < 0 then Returned([])
    else
      var c := Child(ns, n, k);
      var cls := geo.shapeVsRect(e.shape, ns[c].boundary);
      if cls == Fit then AddRange(FindElementsAsWritten(ns, geo, c, e, false))
      else if cls == Overlap then OverlapChildrenAsWritten(ns, geo, n, 0, e)
      else Returned([])
  }

  /** The Overlap loop over the children from k on. */
  function OverlapChildrenAsWritten(ns: Arena, geo: Convex, n: nat, k: nat, e: QtAgent): (r: Outcome<seq<QtAgent>>)
    requires WellFormed(ns) && n < |ns| && !IsLeaf(ns[n]) && k <= 4
    reads e
    decreases |ns| - n, 0, 4 - k
  {
    if k == 4 then Returned([])
    else
      var c := Child(ns, n, k);
      if geo.shapeVsRect(e.shape, ns[c].boundary) == None then OverlapChildrenAsWritten(ns, geo, n, k + 1, e)
      else
        match AddRange(FindElementsAsWritten(ns, geo, c, e, false))
        case NullReference => NullReference
        case Returned(x) =>
          match OverlapChildrenAsWritten(ns, geo, n, k + 1, e)
          case NullReference => NullReference
          case Returned(y) => Returned(x + y)
  }

  // ---------------------------------------------------------------------------
  // FindElements as evidently intended

  /** A child's answer as a list: null counts as no agents. */
  function Contents(found: Nullable<seq<QtAgent>>): (r: seq<QtAgent>)
    ensures found.NonNull? ==> r == found.value
    ensures found.Null? ==> r == []
  {
    if found.Null? then [] else found.value
  }

  /**
   * FindElements with a null answer from a child counted as no agents, as
   * the first generation's QueryElements does with its children's answers.
   */
  function FindElements(ns: Arena, geo: Convex, n: nat, e: QtAgent, includeSelf: bool): (r: Nullable<seq<QtAgent>>)
    requires WellFormed(ns) && n < |ns|
    reads e
    ensures r.Null? <==> !ContainPoint2D(ns[n].boundary, e.center)
    decreases |ns| - n, 1
  {
    if !ContainPoint2D(ns[n].boundary, e.center) then Null
    else
      var all := ChildResults(ns, geo, n, e) + ns[n].elements + ns[n].overlapElements;
      NonNull(if includeSelf then all else RemoveFirst(all, e))
  }

  function ChildResults(ns: Arena, geo: Convex, n: nat, e: QtAgent): (r: seq<QtAgent>)
    requires WellFormed(ns) && n < |ns|
    reads e
    decreases |ns| - n, 0, 5
  {
    var k := ChildIndex(ns, n, e.center);
    if k < 0 then []
    else
      var c := Child(ns, n, k);
      var cls := geo.shapeVsRect(e.shape, ns[c].boundary);
      if cls == Fit then Contents(FindElements(ns, geo, c, e, false))
      else if cls == Overlap then OverlapChildren(ns, geo, n, 0, e)
      else []
  }

  function OverlapChildren(ns: Arena, geo: Convex, n: nat, k: nat, e: QtAgent): (r: seq<QtAgent>)
    requires WellFormed(ns) && n < |ns| && !IsLeaf(ns[n]) && k <= 4
    reads e
    decreases |ns| - n, 0, 4 - k
  {
    if k == 4 then []
    else
      var c := Child(ns, n, k);
      if geo.shapeVsRect(e.shape, ns[c].boundary) == None then OverlapChildren(ns, geo, n, k + 1, e)
      else Contents(FindElements(ns, geo, c, e, false)) + OverlapChildren(ns, geo, n, k + 1, e)
  }

  /** FindElementsFromRoot: the search runs from the root of the tree. */
  function FindElementsFromRoot(ns: Arena, geo: Convex, n: nat, e: QtAgent, includeSelf: bool): (r: Nullable<seq<QtAgent>>)
    requires WellFormed(ns) && n < |ns|
    reads e
    ensures Rooted(ns) ==> r == FindElements(ns, geo, 0, e, includeSelf)
  {
    var start := if ns[n].parentNode.NonNull? then Root(ns, n) else n;
    assert Rooted(ns) ==> start == 0;
    FindElements(ns, geo, start, e, includeSelf)
  }

  // ---------------------------------------------------------------------------
  // The two agree unless the code as written faults

  /** Whenever FindElements as written returns, it returns what the intended search does. */
  lemma {:induction false} FindElementsAgree(ns: Arena, geo: Convex, n: nat, e: QtAgent, includeSelf: bool)
    requires WellFormed(ns) && n < |ns|
    ensures FindElementsAsWritten(ns, geo, n, e, includeSelf) in
              {NullReference, Returned(FindElements(ns, geo, n, e, includeSelf))}
    decreases |ns| - n, 1
  {
    if ContainPoint2D(ns[n].boundary, e.center) {
      ChildResultsAgree(ns, geo, n, e);
    }
  }

  lemma {:induction false} ChildResultsAgree(ns: Arena, geo: Convex, n: nat, e: QtAgent)
    requires WellFormed(ns) && n < |ns|
    ensures ChildResultsAsWritten(ns, geo, n, e) in {NullReference, Returned(ChildResults(ns, geo, n, e))}
    decreases |ns| - n, 0, 5
  {
    var k := ChildIndex(ns, n, e.center);
    if k >= 0 {
      var c := Child(ns, n, k);
      var cls := geo.shapeVsRect(e.shape, ns[c].boundary);
      if cls == Fit {
        FindElementsAgree(ns, geo, c, e, false);
      } else if cls == Overlap {
        OverlapChildrenAgree(ns, geo, n, 0, e);
      }
    }
  }

  lemma {:induction false} OverlapChildrenAgree(ns: Arena, geo: Convex, n: nat, k: nat, e: QtAgent)
    requires WellFormed(ns) && n < |ns| && !IsLeaf(ns[n]) && k <= 4
    ensures OverlapChildrenAsWritten(ns, geo, n, k, e) in {NullReference, Returned(OverlapChildren(ns, geo, n, k, e))}
    decreases |ns| - n, 0, 4 - k
  {
    if k < 4 {
      var c := Child(ns, n, k);
      OverlapChildrenAgree(ns, geo, n, k + 1, e);
      if geo.shapeVsRect(e.shape, ns[c].boundary) != None {
        FindElementsAgree(ns, geo, c, e, false);
      }
    }
  }

  /**
   * The fault: when e Overlaps the child containing its center and touches
   * another child that does not contain its center, that child answers null
   * and adding the null answer faults.
   */
  lemma FindElementsFaults(ns: Arena, geo: Convex, n: nat, e: QtAgent, includeSelf: bool, j: nat)
    requires WellFormed(ns) && n < |ns| && !IsLeaf(ns[n]) && j < 4
    requires ContainPoint2D(ns[n].boundary, e.center)
    requires geo.shapeVsRect(e.shape, ns[Child(ns, n, ChildIndex(ns, n, e.center))].boundary) == Overlap
    requires geo.shapeVsRect(e.shape, ns[Child(ns, n, j)].boundary) != None
    requires !ContainPoint2D(ns[Child(ns, n, j)].boundary, e.center)
    ensures FindElementsAsWritten(ns, geo, n, e, includeSelf) == NullReference
  {
    ChildIndexInside(ns, n, e.center);
    OverlapChildrenFault(ns, geo, n, 0, j, e);
  }

  lemma {:induction false} OverlapChildrenFault(ns: Arena, geo: Convex, n: nat, k: nat, j: nat, e: QtAgent)
    requires WellFormed(ns) && n < |ns| && !IsLeaf(ns[n]) && k <= j < 4
    requires geo.shapeVsRect(e.shape, ns[Child(ns, n, j)].boundary) != None
    requires !ContainPoint2D(ns[Child(ns, n, j)].boundary, e.center)
    ensures OverlapChildrenAsWritten(ns, geo, n, k, e) == NullReference
    decreases j - k
  {
    if k < j {
      OverlapChildrenFault(ns, geo, n, k + 1, j, e);
    }
  }

  // ---------------------------------------------------------------------------
  // What the intended search returns

  /** Everything the search returns is an entry of the subtree, counted with multiplicity. */
  lemma {:induction false} FindElementsEntries(ns: Arena, geo: Convex, n: nat, e: QtAgent, includeSelf: bool)
    requires WellFormed(ns) && n < |ns|
    ensures FindElements(ns, geo, n, e, includeSelf).NonNull? ==>
              multiset(FindElements(ns, geo, n, e, includeSelf).value) <= SubtreeEntries(ns, n)
    decreases |ns| - n, 1
  {
    if ContainPoint2D(ns[n].boundary, e.center) {
      var found := ChildResults(ns, geo, n, e);
      var all := found + ns[n].elements + ns[n].overlapElements;
      ChildResultsEntries(ns, geo, n, e);
      OwnAndFound(ns, n, found);
      RemoveFirstSub(all, e);
      assert FindElements(ns, geo, n, e, includeSelf).value == if includeSelf then all else RemoveFirst(all, e);
    }
  }

  lemma {:induction false} ChildResultsEntries(ns: Arena, geo: Convex, n: nat, e: QtAgent)
    requires WellFormed(ns) && n < |ns|
    ensures IsLeaf(ns[n]) ==> ChildResults(ns, geo, n, e) == []
    ensures !IsLeaf(ns[n]) ==> multiset(ChildResults(ns, geo, n, e)) <= ChildrenEntries(ns, n, 4)
    decreases |ns| - n, 0, 5
  {
    var k := ChildIndex(ns, n, e.center);
    if k >= 0 {
      var c := Child(ns, n, k);
      var cls := geo.shapeVsRect(e.shape, ns[c].boundary);
      if cls == Fit {
        FindElementsEntries(ns, geo, c, e, false);
        ChildSub(ns, n, 4, k);
      } else if cls == Overlap {
        OverlapChildrenEntries(ns, geo, n, 0, e);
        assert multiset(OverlapChildren(ns, geo, n, 0, e)) + multiset{} == multiset(OverlapChildren(ns, geo, n, 0, e));
      }
    }
  }

  lemma {:induction false} OverlapChildrenEntries(ns: Arena, geo: Convex, n: nat, k: nat, e: QtAgent)
    requires WellFormed(ns) && n < |ns| && !IsLeaf(ns[n]) && k <= 4
    ensures multiset(OverlapChildren(ns, geo, n, k, e)) + ChildrenEntries(ns, n, k) <= ChildrenEntries(ns, n, 4)
    decreases |ns| - n, 0, 4 - k
  {
    if k < 4 {
      var c := Child(ns, n, k);
      OverlapChildrenEntries(ns, geo, n, k + 1, e);
      FindElementsEntries(ns, geo, c, e, false);
      ChildrenEntriesStep(ns, n, k);
      OverlapChildrenShape(ns, geo, n, k, e);
      StepBound(multiset(Contents(FindElements(ns, geo, c, e, false))),
                multiset(OverlapChildren(ns, geo, n, k + 1, e)),
                multiset(OverlapChildren(ns, geo, n, k, e)),
                ChildrenEntries(ns, n, k), SubtreeEntries(ns, c), ChildrenEntries(ns, n, 4));
    }
  }

  /** One step of the Overlap loop: child k's answer is skipped or put in front of the rest. */
  lemma OverlapChildrenShape(ns: Arena, geo: Convex, n: nat, k: nat, e: QtAgent)
    requires WellFormed(ns) && n < |ns| && !IsLeaf(ns[n]) && k < 4
    ensures var f := multiset(Contents(FindElements(ns, geo, Child(ns, n, k), e, false)));
            var rest := multiset(OverlapChildren(ns, geo, n, k + 1, e));
            var here := multiset(OverlapChildren(ns, geo, n, k, e));
            here == rest || here == f + rest
  {
  }

  /**
   * Without includeSelf, the agent searched for is not in the answer when
   * the subtree holds it at most once: each node takes out its first entry.
   */
  lemma {:induction false} FindElementsDropsSelf(ns: Arena, geo: Convex, n: nat, e: QtAgent)
    requires WellFormed(ns) && n < |ns| && SubtreeEntries(ns, n)[e] <= 1
    ensures FindElements(ns, geo, n, e, false).NonNull? ==> e !in FindElements(ns, geo, n, e, false).value
    decreases |ns| - n, 1
  {
    if ContainPoint2D(ns[n].boundary, e.center) {
      var found := ChildResults(ns, geo, n, e);
      var all := found + ns[n].elements + ns[n].overlapElements;
      ChildResultsDropsSelf(ns, geo, n, e);
      assert multiset(all) == multiset(found) + Own(ns[n]);
      RemoveFirstMembers(all, e, e);
    }
  }

  lemma {:induction false} ChildResultsDropsSelf(ns: Arena, geo: Convex, n: nat, e: QtAgent)
    requires WellFormed(ns) && n < |ns| && SubtreeEntries(ns, n)[e] <= 1
    ensures e !in ChildResults(ns, geo, n, e)
    decreases |ns| - n, 0, 5
  {
    var k := ChildIndex(ns, n, e.center);
    if k >= 0 {
      var c := Child(ns, n, k);
      var cls := geo.shapeVsRect(e.shape, ns[c].boundary);
      assert ChildrenEntries(ns, n, 4)[e] <= 1;
      if cls == Fit {
        ChildCount(ns, n, 4, k, e);
        FindElementsDropsSelf(ns, geo, c, e);
      } else if cls == Overlap {
        OverlapChildrenDropsSelf(ns, geo, n, 0, e);
      }
    }
  }

  lemma {:induction false} OverlapChildrenDropsSelf(ns: Arena, geo: Convex, n: nat, k: nat, e: QtAgent)
    requires WellFormed(ns) && n < |ns| && !IsLeaf(ns[n]) && k <= 4 && ChildrenEntries(ns, n, 4)[e] <= 1
    ensures e !in OverlapChildren(ns, geo, n, k, e)
    decreases |ns| - n, 0, 4 - k
  {
    if k < 4 {
      var c := Child(ns, n, k);
      OverlapChildrenDropsSelf(ns, geo, n, k + 1, e);
      ChildCount(ns, n, 4, k, e);
      FindElementsDropsSelf(ns, geo, c, e);
    }
  }

  /**
   * m is searched by FindElements from n for agent e: n contains e's center,
   * and either m is n, or the search goes on into the child containing the
   * center when e Fits it and reaches m from there, or, when e Overlaps that
   * child, reaches m from some child e touches.
   */
  predicate CenterReached(ns: Arena, geo: Convex, e: QtAgent, n: nat, m: nat)
    requires WellFormed(ns) && n < |ns|
    reads e
    decreases |ns| - n
  {
    ContainPoint2D(ns[n].boundary, e.center) &&
    (m == n ||
     (ChildIndex(ns, n, e.center) >= 0 &&
      var c := Child(ns, n, ChildIndex(ns, n, e.center));
      (geo.shapeVsRect(e.shape, ns[c].boundary) == Fit && CenterReached(ns, geo, e, c, m)) ||
      (geo.shapeVsRect(e.shape, ns[c].boundary) == Overlap &&
       exists j :: 0 <= j < 4 && geo.shapeVsRect(e.shape, ns[Child(ns, n, j)].boundary) != None &&
                   CenterReached(ns, geo, e, Child(ns, n, j), m))))
  }

  /** Completeness: every other agent held by a node the search reaches is in the answer. */
  lemma {:induction false} FindElementsComplete(ns: Arena, geo: Convex, n: nat, m: nat, e: QtAgent,
                                                includeSelf: bool, a: QtAgent)
    requires WellFormed(ns) && n < |ns| && m < |ns|
    requires CenterReached(ns, geo, e, n, m) && Holds(ns[m], a) && a != e
    ensures FindElements(ns, geo, n, e, includeSelf).NonNull?
    ensures a in FindElements(ns, geo, n, e, includeSelf).value
    decreases |ns| - n, 1
  {
    var all := ChildResults(ns, geo, n, e) + ns[n].elements + ns[n].overlapElements;
    if m != n {
      ChildResultsIncludes(ns, geo, n, m, e, a);
    }
    assert a in all;
    RemoveFirstMembers(all, e, a);
  }

  lemma {:induction false} ChildResultsIncludes(ns: Arena, geo: Convex, n: nat, m: nat, e: QtAgent, a: QtAgent)
    requires WellFormed(ns) && n < |ns| && m < |ns| && m != n
    requires CenterReached(ns, geo, e, n, m) && Holds(ns[m], a) && a != e
    ensures a in ChildResults(ns, geo, n, e)
    decreases |ns| - n, 0, 5
  {
    var c := Child(ns, n, ChildIndex(ns, n, e.center));
    if geo.shapeVsRect(e.shape, ns[c].boundary) == Fit {
      FindElementsComplete(ns, geo, c, m, e, false, a);
    } else {
      var j :| 0 <= j < 4 && geo.shapeVsRect(e.shape, ns[Child(ns, n, j)].boundary) != None &&
               CenterReached(ns, geo, e, Child(ns, n, j), m);
      FindElementsComplete(ns, geo, Child(ns, n, j), m, e, false, a);
      OverlapChildrenIncludes(ns, geo, n, 0, j, e, a);
    }
  }

  /** The Overlap loop from k includes the answer of every child from k on that e touches. */
  lemma OverlapChildrenIncludes(ns: Arena, geo: Convex, n: nat, k: nat, j: nat, e: QtAgent, a: QtAgent)
    requires WellFormed(ns) && n < |ns| && !IsLeaf(ns[n]) && k <= j < 4
    requires geo.shapeVsRect(e.shape, ns[Child(ns, n, j)].boundary) != None
    requires a in Contents(FindElements(ns, geo, Child(ns, n, j), e, false))
    ensures a in OverlapChildren(ns, geo, n, k, e)
  {
    OverlapChildrenHere(ns, geo, n, j, e, a);
    OverlapChildrenKeeps(ns, geo, n, k, j, e, a);
  }

  /** What the Overlap loop from j collects, the loop from any earlier k collects too. */
  lemma OverlapChildrenKeeps(ns: Arena, geo: Convex, n: nat, k: nat, j: nat, e: QtAgent, a: QtAgent)
    requires WellFormed(ns) && n < |ns| && !IsLeaf(ns[n]) && k <= j <= 4
    requires a in OverlapChildren(ns, geo, n, j, e)
    ensures a in OverlapChildren(ns, geo, n, k, e)
  {
    var i := j;
    while i > k
      invariant k <= i <= j && a in OverlapChildren(ns, geo, n, i, e)
    {
      OverlapChildrenPass(ns, geo, n, i - 1, e, a);
      i := i - 1;
    }
  }

  lemma OverlapChildrenPass(ns: Arena, geo: Convex, n: nat, k: nat, e: QtAgent, a: QtAgent)
    requires WellFormed(ns) && n < |ns| && !IsLeaf(ns[n]) && k < 4
    requires a in OverlapChildren(ns, geo, n, k + 1, e)
    ensures a in OverlapChildren(ns, geo, n, k, e)
  {
  }

  lemma OverlapChildrenHere(ns: Arena, geo: Convex, n: nat, k: nat, e: QtAgent, a: QtAgent)
    requires WellFormed(ns) && n < |ns| && !IsLeaf(ns[n]) && k < 4
    requires geo.shapeVsRect(e.shape, ns[Child(ns, n, k)].boundary) != None
    requires a in Contents(FindElements(ns, geo, Child(ns, n, k), e, false))
    ensures a in OverlapChildren(ns, geo, n, k, e)
  {
  }

  /** Soundness: every agent in the answer is held by a node the search reaches. */
  lemma {:induction false} FindElementsSound(ns: Arena, geo: Convex, n: nat, e: QtAgent, includeSelf: bool, a: QtAgent)
    requires WellFormed(ns) && n < |ns|
    requires FindElements(ns, geo, n, e, includeSelf).NonNull? && a in FindElements(ns, geo, n, e, includeSelf).value
    ensures exists m :: n <= m < |ns| && CenterReached(ns, geo, e, n, m) && Holds(ns[m], a)
    decreases |ns| - n, 1
  {
    var all := ChildResults(ns, geo, n, e) + ns[n].elements + ns[n].overlapElements;
    RemoveFirstMembers(all, e, a);
    if Holds(ns[n], a) {
      assert CenterReached(ns, geo, e, n, n);
    } else {
      ChildResultsFrom(ns, geo, n, e, a);
    }
  }

  lemma {:induction false} ChildResultsFrom(ns: Arena, geo: Convex, n: nat, e: QtAgent, a: QtAgent)
    requires WellFormed(ns) && n < |ns| && ContainPoint2D(ns[n].boundary, e.center)
    requires a in ChildResults(ns, geo, n, e)
    ensures exists m :: n <= m < |ns| && CenterReached(ns, geo, e, n, m) && Holds(ns[m], a)
    decreases |ns| - n, 0, 5
  {
    var c := Child(ns, n, ChildIndex(ns, n, e.center));
    if geo.shapeVsRect(e.shape, ns[c].boundary) == Fit {
      FindElementsSound(ns, geo, c, e, false, a);
      var m :| c <= m < |ns| && CenterReached(ns, geo, e, c, m) && Holds(ns[m], a);
      assert CenterReached(ns, geo, e, n, m);
    } else {
      OverlapChildrenFrom(ns, geo, n, 0, e, a);
      var j :| 0 <= j < 4 && geo.shapeVsRect(e.shape, ns[Child(ns, n, j)].boundary) != None &&
               a in Contents(FindElements(ns, geo, Child(ns, n, j), e, false));
      FindElementsSound(ns, geo, Child(ns, n, j), e, false, a);
      var m :| Child(ns, n, j) <= m < |ns| && CenterReached(ns, geo, e, Child(ns, n, j), m) && Holds(ns[m], a);
      assert CenterReached(ns, geo, e, n, m);
    }
  }

  /** An agent the Overlap loop from k returns comes from a child it searched. */
  lemma {:induction false} OverlapChildrenFrom(ns: Arena, geo: Convex, n: nat, k: nat, e: QtAgent, a: QtAgent)
    requires WellFormed(ns) && n < |ns| && !IsLeaf(ns[n]) && k <= 4
    requires a in OverlapChildren(ns, geo, n, k, e)
    ensures exists j :: k <= j < 4 && geo.shapeVsRect(e.shape, ns[Child(ns, n, j)].boundary) != None &&
                        a in Contents(FindElements(ns, geo, Child(ns, n, j), e, false))
    decreases 4 - k, 1
  {
    var c := Child(ns, n, k);
    if geo.shapeVsRect(e.shape, ns[c].boundary) != None && a in Contents(FindElements(ns, geo, c, e, false)) {
    } else {
      OverlapChildrenFromLater(ns, geo, n, k, e, a);
    }
  }

  lemma {:induction false} OverlapChildrenFromLater(ns: Arena, geo: Convex, n: nat, k: nat, e: QtAgent, a: QtAgent)
    requires WellFormed(ns) && n < |ns| && !IsLeaf(ns[n]) && k < 4
    requires a in OverlapChildren(ns, geo, n, k, e)
    requires geo.shapeVsRect(e.shape, ns[Child(ns, n, k)].boundary) == None ||
             a !in Contents(FindElements(ns, geo, Child(ns, n, k), e, false))
    ensures exists j :: k <= j < 4 && geo.shapeVsRect(e.shape, ns[Child(ns, n, j)].boundary) != None &&
                        a in Contents(FindElements(ns, geo, Child(ns, n, j), e, false))
    decreases 4 - k, 0
  {
    OverlapChildrenSkip(ns, geo, n, k, e, a);
    OverlapChildrenFrom(ns, geo, n, k + 1, e, a);
  }

  lemma OverlapChildrenSkip(ns: Arena, geo: Convex, n: nat, k: nat, e: QtAgent, a: QtAgent)
    requires WellFormed(ns) && n < |ns| && !IsLeaf(ns[n]) && k < 4
    requires a in OverlapChildren(ns, geo, n, k, e)
    requires geo.shapeVsRect(e.shape, ns[Child(ns, n, k)].boundary) == None ||
             a !in Contents(FindElements(ns, geo, Child(ns, n, k), e, false))
    ensures a in OverlapChildren(ns, geo, n, k + 1, e)
  {
  }
}
