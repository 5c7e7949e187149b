// The read-only searches of the latest quadtree node: FindNodeFromRoot, the
// range query QueryRange with its upward climb and QueryRangeFromRoot, and
// the neighbour search FindElements with FindElementsFromRoot. Results are
// lists of agents; a multiset view says which stored entries they come from.

module RangeQueries {
  import opened Geometry
  import opened Agents
  import opened QuadtreeArena
  import opened Routing
  import opened Counting
  import opened Reorganizing

  // ---------------------------------------------------------------------------
  // Lookups from the root

  /** FindNodeFromRoot: a null agent is not looked for; otherwise FindNode runs from the root. */
  function FindNodeFromRoot(ns: Arena, geo: Convex, n: nat, a: QtAgent?): (r: Nullable<nat>)
    requires WellFormed(ns) && n < |ns|
    reads a
    ensures Rooted(ns) ==> r == FindNode(ns, geo, 0, a)
  {
    if a == null then Null
    else
      var start := if ns[n].parentNode.NonNull? then Root(ns, n) else n;
      assert Rooted(ns) ==> start == 0;
      FindNode(ns, geo, start, a)
  }

  /**
   * Round trip: an agent stored where Add's routing from the root put it is
   * found there by FindNodeFromRoot started at any node of the tree.
   */
  lemma FindFromAnyNode(ns: Arena, ns': Arena, geo: Convex, m: nat, a: QtAgent, t: nat)
    requires WellFormed(ns) && WellFormed(ns') && Rooted(ns') && SameLinks(ns, ns') && m < |ns'|
    requires ContainPoint2D(ns[0].boundary, a.center)
    requires Route(ns, geo, 0, a.center, a.shape) in {StoreElement(t), StoreOverlap(t)}
    requires t < |ns| && Holds(ns'[t], a)
    ensures FindNodeFromRoot(ns', geo, m, a) == NonNull(t)
  {
    FindAfterRoute(ns, ns', geo, 0, a, t);
  }

  // ---------------------------------------------------------------------------
  // Filters

  /** The agents of s that keep accepts, in order. */
  function Filter(s: seq<QtAgent>, keep: QtAgent -> bool): (r: seq<QtAgent>)
    ensures forall a :: a in r ==> a in s && keep(a)
  {
    if s == [] then []
    else
      assert s == [s[0]] + s[1..];
      (if keep(s[0]) then [s[0]] else []) + Filter(s[1..], keep)
  }

  /** Filter keeps every accepted agent, as often as s holds it. */
  lemma {:induction false} FilterKeeps(s: seq<QtAgent>, keep: QtAgent -> bool, a: QtAgent)
    ensures multiset(Filter(s, keep))[a] == if keep(a) then multiset(s)[a] else 0
  {
    if s != [] {
      assert s == [s[0]] + s[1..];
      FilterKeeps(s[1..], keep, a);
    }
  }

  lemma {:induction false} FilterSub(s: seq<QtAgent>, keep: QtAgent -> bool)
    ensures multiset(Filter(s, keep)) <= multiset(s)
  {
    if s != [] {
      assert s == [s[0]] + s[1..];
      FilterSub(s[1..], keep);
    }
  }

  /** The agents of s whose shape the classifier does not call disjoint from q. */
  function Touching(geo: Convex, s: seq<QtAgent>, q: ConvexShape): (r: seq<QtAgent>)
    reads s
    ensures forall a :: a in r ==> a in s && geo.shapeVsShape(a.shape, q) != None
  {
    if s == [] then []
    else
      assert s == [s[0]] + s[1..];
      (if geo.shapeVsShape(s[0].shape, q) != None then [s[0]] else []) + Touching(geo, s[1..], q)
  }

  /** Touching keeps every touching agent, as often as s holds it. */
  lemma {:induction false} TouchingKeeps(geo: Convex, s: seq<QtAgent>, q: ConvexShape, a: QtAgent)
    ensures multiset(Touching(geo, s, q))[a] == if geo.shapeVsShape(a.shape, q) != None then multiset(s)[a] else 0
  {
    if s != [] {
      assert s == [s[0]] + s[1..];
      TouchingKeeps(geo, s[1..], q, a);
    }
  }

  lemma {:induction false} TouchingSub(geo: Convex, s: seq<QtAgent>, q: ConvexShape)
    ensures multiset(Touching(geo, s, q)) <= multiset(s)
  {
    if s != [] {
      assert s == [s[0]] + s[1..];
      TouchingSub(geo, s[1..], q);
    }
  }

  // ---------------------------------------------------------------------------
  // Which nodes a downward search visits

  /**
   * m is reached from n by a downward search for shape s: the search only
   * enters a node whose boundary s touches, and from an internal node it
   * enters its children.
   */
  predicate Reached(ns: Arena, geo: Convex, s: ConvexShape, n: nat, m: nat)
    requires WellFormed(ns) && n < |ns|
    decreases |ns| - n
  {
    geo.shapeVsRect(s, ns[n].boundary) != None &&
    (m == n || (!IsLeaf(ns[n]) && exists k :: 0 <= k < 4 && Reached(ns, geo, s, Child(ns, n, k), m)))
  }

  // ---------------------------------------------------------------------------
  // QueryRange

  /**
   * The downward range query from n: nothing when q misses n's boundary;
   * otherwise the children's results, then n's elements and overlap
   * entries, keeping those whose shape touches q.
   */
  function QueryDown(ns: Arena, geo: Convex, n: nat, q: ConvexShape): (r: seq<QtAgent>)
    requires WellFormed(ns) && n < |ns|
    reads *
    ensures geo.shapeVsRect(q, ns[n].boundary) == None ==> r == []
    ensures forall a :: a in r ==> geo.shapeVsShape(a.shape, q) != None
    decreases |ns| - n, 5
  {
    if geo.shapeVsRect(q, ns[n].boundary) == None then []
    else
      var found := if IsLeaf(ns[n]) then [] else QueryChildren(ns, geo, n, 4, q);
      var all := found + ns[n].elements + ns[n].overlapElements;
      var r := Touching(geo, all, q);
      r
  }

  /** The downward results of the first k children of n, in child order. */
  function QueryChildren(ns: Arena, geo: Convex, n: nat, k: nat, q: ConvexShape): (r: seq<QtAgent>)
    requires WellFormed(ns) && n < |ns| && !IsLeaf(ns[n]) && k <= 4
    reads *
    ensures forall a :: a in r ==> geo.shapeVsShape(a.shape, q) != None
    decreases |ns| - n, k
  {
    if k == 0 then []
    else QueryChildren(ns, geo, n, k - 1, q) + QueryDown(ns, geo, Child(ns, n, k - 1), q)
  }

  /** Everything the downward query returns is an entry of the subtree, counted with multiplicity. */
  lemma {:induction false} QueryDownEntries(ns: Arena, geo: Convex, n: nat, q: ConvexShape)
    requires WellFormed(ns) && n < |ns|
    ensures multiset(QueryDown(ns, geo, n, q)) <= SubtreeEntries(ns, n)
    decreases |ns| - n, 5
  {
    if geo.shapeVsRect(q, ns[n].boundary) != None {
      var found := if IsLeaf(ns[n]) then [] else QueryChildren(ns, geo, n, 4, q);
      var all := found + ns[n].elements + ns[n].overlapElements;
      if !IsLeaf(ns[n]) {
        QueryChildrenEntries(ns, geo, n, 4, q);
      }
      OwnAndFound(ns, n, found);
      TouchingSub(geo, all, q);
    }
  }

  lemma {:induction false} QueryChildrenEntries(ns: Arena, geo: Convex, n: nat, k: nat, q: ConvexShape)
    requires WellFormed(ns) && n < |ns| && !IsLeaf(ns[n]) && k <= 4
    ensures multiset(QueryChildren(ns, geo, n, k, q)) <= ChildrenEntries(ns, n, k)
    decreases |ns| - n, k
  {
    if k > 0 {
      QueryChildrenEntries(ns, geo, n, k - 1, q);
      QueryDownEntries(ns, geo, Child(ns, n, k - 1), q);
    }
  }

  lemma {:induction false} QueryChildrenIncludes(ns: Arena, geo: Convex, n: nat, k: nat, j: nat, q: ConvexShape, a: QtAgent)
    requires WellFormed(ns) && n < |ns| && !IsLeaf(ns[n]) && j < k <= 4
    requires a in QueryDown(ns, geo, Child(ns, n, j), q)
    ensures a in QueryChildren(ns, geo, n, k, q)
    decreases k
  {
    if j < k - 1 {
      QueryChildrenEarlier(ns, geo, n, k, j, q, a);
    } else {
      QueryChildrenLast(ns, geo, n, k, j, q, a);
    }
  }

  lemma {:induction false} QueryChildrenEarlier(ns: Arena, geo: Convex, n: nat, k: nat, j: nat, q: ConvexShape, a: QtAgent)
    requires WellFormed(ns) && n < |ns| && !IsLeaf(ns[n]) && j < k - 1 && k <= 4
    requires a in QueryDown(ns, geo, Child(ns, n, j), q)
    ensures a in QueryChildren(ns, geo, n, k, q)
    decreases k, 0
  {
    QueryChildrenIncludes(ns, geo, n, k - 1, j, q, a);
    assert a in QueryChildren(ns, geo, n, k - 1, q);
  }

  lemma QueryChildrenLast(ns: Arena, geo: Convex, n: nat, k: nat, j: nat, q: ConvexShape, a: QtAgent)
    requires WellFormed(ns) && n < |ns| && !IsLeaf(ns[n]) && j == k - 1 && k <= 4
    requires a in QueryDown(ns, geo, Child(ns, n, j), q)
    ensures a in QueryChildren(ns, geo, n, k, q)
  {
    assert Child(ns, n, j) == Child(ns, n, k - 1);
  }

  lemma {:induction false} QueryChildrenFrom(ns: Arena, geo: Convex, n: nat, k: nat, q: ConvexShape, a: QtAgent)
    requires WellFormed(ns) && n < |ns| && !IsLeaf(ns[n]) && k <= 4
    requires a in QueryChildren(ns, geo, n, k, q)
    ensures exists j :: 0 <= j < k && a in QueryDown(ns, geo, Child(ns, n, j), q)
  {
    if a !in QueryDown(ns, geo, Child(ns, n, k - 1), q) {
      QueryChildrenFrom(ns, geo, n, k - 1, q, a);
    }
  }

  /**
   * Completeness: an agent touching q and held by a node the downward
   * search reaches is in the result.
   */
  lemma {:induction false} QueryDownComplete(ns: Arena, geo: Convex, n: nat, m: nat, q: ConvexShape, a: QtAgent)
    requires WellFormed(ns) && n < |ns| && m < |ns|
    requires Reached(ns, geo, q, n, m) && Holds(ns[m], a) && geo.shapeVsShape(a.shape, q) != None
    ensures a in QueryDown(ns, geo, n, q)
    decreases |ns| - n
  {
    var found := if IsLeaf(ns[n]) then [] else QueryChildren(ns, geo, n, 4, q);
    var all := found + ns[n].elements + ns[n].overlapElements;
    if m != n {
      var k :| 0 <= k < 4 && Reached(ns, geo, q, Child(ns, n, k), m);
      QueryDownComplete(ns, geo, Child(ns, n, k), m, q, a);
      QueryChildrenIncludes(ns, geo, n, 4, k, q, a);
    }
    assert a in all;
    TouchingKeeps(geo, all, q, a);
  }

  /**
   * Soundness: every agent in the result is held by a node the downward
   * search reaches.
   */
  lemma {:induction false} QueryDownSound(ns: Arena, geo: Convex, n: nat, q: ConvexShape, a: QtAgent)
    requires WellFormed(ns) && n < |ns| && a in QueryDown(ns, geo, n, q)
    ensures exists m :: n <= m < |ns| && Reached(ns, geo, q, n, m) && Holds(ns[m], a)
    decreases |ns| - n
  {
    var found := if IsLeaf(ns[n]) then [] else QueryChildren(ns, geo, n, 4, q);
    if a in found {
      QueryChildrenFrom(ns, geo, n, 4, q, a);
      var j :| 0 <= j < 4 && a in QueryDown(ns, geo, Child(ns, n, j), q);
      QueryDownSound(ns, geo, Child(ns, n, j), q, a);
      var m :| Child(ns, n, j) <= m < |ns| && Reached(ns, geo, q, Child(ns, n, j), m) && Holds(ns[m], a);
      assert Reached(ns, geo, q, n, m);
    } else {
      assert Reached(ns, geo, q, n, n);
    }
  }

  /**
   * The node where an upward search starts its downward pass: from a node
   * with a parent, the parent when s Fits the node, otherwise the parent's
   * own upward search; from a node without a parent, the node itself.
   */
  function Climb(ns: Arena, geo: Convex, n: nat, s: ConvexShape): (m: nat)
    requires WellFormed(ns) && n < |ns|
    ensures m <= n && Desc(ns, m, n)
    ensures ns[n].parentNode.NonNull? ==> m < n
    decreases n
  {
    assert Linked(ns, n);
    if ns[n].parentNode.Null? then n
    else if geo.shapeVsRect(s, ns[n].boundary) == Fit then ns[n].parentNode.value
    else Climb(ns, geo, ns[n].parentNode.value, s)
  }

  /** Some node on the chain of n up to (not including) its root is Fit by s. */
  predicate FitOnChain(ns: Arena, geo: Convex, n: nat, s: ConvexShape)
    requires WellFormed(ns) && n < |ns|
    decreases n
  {
    assert Linked(ns, n);
    ns[n].parentNode.NonNull? &&
    (geo.shapeVsRect(s, ns[n].boundary) == Fit || FitOnChain(ns, geo, ns[n].parentNode.value, s))
  }

  /** With no Fit anywhere on the chain, the upward search goes all the way to the root. */
  lemma {:induction false} ClimbToRoot(ns: Arena, geo: Convex, n: nat, s: ConvexShape)
    requires WellFormed(ns) && n < |ns| && !FitOnChain(ns, geo, n, s)
    ensures Climb(ns, geo, n, s) == Root(ns, n)
    decreases n
  {
    assert Linked(ns, n);
    if ns[n].parentNode.NonNull? {
      ClimbToRoot(ns, geo, ns[n].parentNode.value, s);
    }
  }

  /** With a Fit on the chain, the upward search stops at the parent of a node s Fits. */
  lemma {:induction false} ClimbToFit(ns: Arena, geo: Convex, n: nat, s: ConvexShape)
    requires WellFormed(ns) && n < |ns| && FitOnChain(ns, geo, n, s)
    ensures exists c: nat :: c <= n && Desc(ns, c, n) && ns[c].parentNode == NonNull(Climb(ns, geo, n, s)) &&
                        geo.shapeVsRect(s, ns[c].boundary) == Fit
    decreases n
  {
    assert Linked(ns, n);
    if geo.shapeVsRect(s, ns[n].boundary) != Fit {
      var p := ns[n].parentNode.value;
      ClimbToFit(ns, geo, p, s);
      var c: nat :| c <= p && Desc(ns, c, p) && ns[c].parentNode == NonNull(Climb(ns, geo, p, s)) &&
               geo.shapeVsRect(s, ns[c].boundary) == Fit;
      assert Desc(ns, c, n);
    } else {
      assert Desc(ns, n, n);
    }
  }

  /**
   * QueryRange: no result for a null query; otherwise the downward query
   * from n, or, when upward holds, from the node the upward search stops at.
   */
  function QueryRange(ns: Arena, geo: Convex, n: nat, q: Nullable<ConvexShape>, upward: bool): (r: Nullable<seq<QtAgent>>)
    requires WellFormed(ns) && n < |ns|
    reads *
    ensures r.Null? <==> q.Null?
    ensures r.NonNull? ==> forall a :: a in r.value ==> geo.shapeVsShape(a.shape, q.value) != None
  {
    if q.Null? then Null
    else if upward then NonNull(QueryDown(ns, geo, Climb(ns, geo, n, q.value), q.value))
    else NonNull(QueryDown(ns, geo, n, q.value))
  }

  /** QueryRangeFromRoot: an upward query started at the root, which is the downward query from it. */
  function QueryRangeFromRoot(ns: Arena, geo: Convex, n: nat, q: Nullable<ConvexShape>): (r: Nullable<seq<QtAgent>>)
    requires WellFormed(ns) && n < |ns|
    reads *
    ensures Rooted(ns) && q.NonNull? ==> r == NonNull(QueryDown(ns, geo, 0, q.value))
    ensures q.Null? ==> r.Null?
  {
    QueryRange(ns, geo, Root(ns, n), q, true)
  }

  // ---------------------------------------------------------------------------
  // FindElements

  /** The outcome of code that may dereference a null reference. */
  datatype Outcome<T> = NullReference | Returned(value: T)

  /** An agent passes the optional compare callback. */
  predicate Passes(compare: Nullable<QtAgent -> bool>, a: QtAgent) {
    compare.Null? || compare.value(a)
  }

  /**
   * The tail of one level of FindElements: the searched agent taken out once
   * unless includeSelf holds, then the compare filter when there is one.
   */
  function Finish(s: seq<QtAgent>, e: QtAgent, includeSelf: bool, compare: Nullable<QtAgent -> bool>): (r: seq<QtAgent>)
    ensures forall a :: a in r ==> a in s && Passes(compare, a)
  {
    var t := if includeSelf then s else RemoveFirst(s, e);
    assert forall a :: a in t ==> a in s by {
      forall a | a in t ensures a in s {
        RemoveFirstMembers(s, e, a);
      }
    }
    if compare.Null? then t else Filter(t, compare.value)
  }

  /** Taking out the first e leaves another agent alone, and leaves e only if s held it twice. */
  lemma RemoveFirstMembers(s: seq<QtAgent>, e: QtAgent, a: QtAgent)
    ensures a in RemoveFirst(s, e) <==> a in s && (a != e || multiset(s)[e] > 1)
  {
    var r: seq<QtAgent> := RemoveFirst(s, e);
    if e in s {
      var before: multiset<QtAgent> := multiset(s);
      assert multiset(r)[a] == before[a] - (if a == e then 1 else 0);
    }
  }

  /** Finish keeps every agent of s that passes compare, except one e when includeSelf is off. */
  lemma FinishKeeps(s: seq<QtAgent>, e: QtAgent, includeSelf: bool, compare: Nullable<QtAgent -> bool>, a: QtAgent)
    requires a in s && (includeSelf || a != e) && Passes(compare, a)
    ensures a in Finish(s, e, includeSelf, compare)
  {
    var t := if includeSelf then s else RemoveFirst(s, e);
    RemoveFirstMembers(s, e, a);
    if compare.NonNull? {
      FilterKeeps(t, compare.value, a);
    }
  }

  /** Finish drops e when includeSelf is off and s holds e at most once. */
  lemma FinishDropsSelf(s: seq<QtAgent>, e: QtAgent, compare: Nullable<QtAgent -> bool>)
    requires multiset(s)[e] <= 1
    ensures e !in Finish(s, e, false, compare)
  {
    RemoveFirstMembers(s, e, e);
  }

  lemma FinishSub(s: seq<QtAgent>, e: QtAgent, includeSelf: bool, compare: Nullable<QtAgent -> bool>)
    ensures multiset(Finish(s, e, includeSelf, compare)) <= multiset(s)
  {
    var t := if includeSelf then s else RemoveFirst(s, e);
    if compare.NonNull? {
      FilterSub(t, compare.value);
    }
  }

  /**
   * The downward FindElements as written: nothing when e's shape misses n;
   * otherwise it walks n's child array without checking that there is one,
   * so on a leaf it faults.
   */
  function FindDownAsWritten(ns: Arena, geo: Convex, n: nat, e: QtAgent, includeSelf: bool,
                             compare: Nullable<QtAgent -> bool>): (r: Outcome<seq<QtAgent>>)
    requires WellFormed(ns) && n < |ns|
    reads *
    ensures geo.shapeVsRect(e.shape, ns[n].boundary) == None ==> r == Returned([])
    ensures IsLeaf(ns[n]) && geo.shapeVsRect(e.shape, ns[n].boundary) != None ==> r == NullReference
    decreases |ns| - n, 5
  {
    if geo.shapeVsRect(e.shape, ns[n].boundary) == None then Returned([])
    else if IsLeaf(ns[n]) then NullReference
    else match FindChildrenAsWritten(ns, geo, n, 4, e, includeSelf, compare)
      case NullReference => NullReference
      case Returned(found) =>
        Returned(Finish(found + ns[n].elements + ns[n].overlapElements, e, includeSelf, compare))
  }

  /** The first k children searched in order; the first fault ends the search. */
  function FindChildrenAsWritten(ns: Arena, geo: Convex, n: nat, k: nat, e: QtAgent, includeSelf: bool,
                                 compare: Nullable<QtAgent -> bool>): (r: Outcome<seq<QtAgent>>)
    requires WellFormed(ns) && n < |ns| && !IsLeaf(ns[n]) && k <= 4
    reads *
    ensures k == 0 ==> r == Returned([])
    decreases |ns| - n, k
  {
    if k == 0 then Returned([])
    else match FindChildrenAsWritten(ns, geo, n, k - 1, e, includeSelf, compare)
      case NullReference => NullReference
      case Returned(front) =>
        match FindDownAsWritten(ns, geo, Child(ns, n, k - 1), e, includeSelf, compare)
          case NullReference => NullReference
          case Returned(more) => Returned(front + more)
  }

  /** FindElements as written: no result for a null agent, else the downward search from where the climb stops. */
  function FindElementsAsWritten(ns: Arena, geo: Convex, n: nat, e: QtAgent?, upward: bool, includeSelf: bool,
                                 compare: Nullable<QtAgent -> bool>): (r: Outcome<Nullable<seq<QtAgent>>>)
    requires WellFormed(ns) && n < |ns|
    reads *
    ensures e == null ==> r == Returned(Null)
    ensures r == Returned(Null) ==> e == null
  {
    if e == null then Returned(Null)
    else
      var start := if upward then Climb(ns, geo, n, e.shape) else n;
      match FindDownAsWritten(ns, geo, start, e, includeSelf, compare)
        case NullReference => NullReference
        case Returned(found) => Returned(NonNull(found))
  }

  /** FindElementsFromRoot as written: includeSelf lands in the upwardSearch position. */
  function FindElementsFromRootAsWritten(ns: Arena, geo: Convex, n: nat, e: QtAgent?, includeSelf: bool): (r: Outcome<Nullable<seq<QtAgent>>>)
    requires WellFormed(ns) && n < |ns|
    reads *
    ensures e == null ==> r == Returned(Null)
  {
    FindElementsAsWritten(ns, geo, Root(ns, n), e, includeSelf, false, Null)
  }

  /**
   * The downward FindElements as evidently intended: like the range query,
   * a leaf contributes only its own lists.
   */
  function FindDown(ns: Arena, geo: Convex, n: nat, e: QtAgent, includeSelf: bool,
                    compare: Nullable<QtAgent -> bool>): (r: seq<QtAgent>)
    requires WellFormed(ns) && n < |ns|
    reads *
    ensures geo.shapeVsRect(e.shape, ns[n].boundary) == None ==> r == []
    ensures forall a :: a in r ==> Passes(compare, a)
    decreases |ns| - n, 5
  {
    if geo.shapeVsRect(e.shape, ns[n].boundary) == None then []
    else
      var found := if IsLeaf(ns[n]) then [] else FindChildren(ns, geo, n, 4, e, includeSelf, compare);
      var all := found + ns[n].elements + ns[n].overlapElements;
      Finish(all, e, includeSelf, compare)
  }

  function FindChildren(ns: Arena, geo: Convex, n: nat, k: nat, e: QtAgent, includeSelf: bool,
                        compare: Nullable<QtAgent -> bool>): (r: seq<QtAgent>)
    requires WellFormed(ns) && n < |ns| && !IsLeaf(ns[n]) && k <= 4
    reads *
    ensures forall a :: a in r ==> Passes(compare, a)
    decreases |ns| - n, k
  {
    if k == 0 then []
    else FindChildren(ns, geo, n, k - 1, e, includeSelf, compare) + FindDown(ns, geo, Child(ns, n, k - 1), e, includeSelf, compare)
  }

  /** FindElements as evidently intended: no result for a null agent, else the guarded downward search. */
  function FindElements(ns: Arena, geo: Convex, n: nat, e: QtAgent?, upward: bool, includeSelf: bool,
                        compare: Nullable<QtAgent -> bool>): (r: Nullable<seq<QtAgent>>)
    requires WellFormed(ns) && n < |ns|
    reads *
    ensures r.Null? <==> e == null
    ensures r.NonNull? ==> forall a :: a in r.value ==> Passes(compare, a)
  {
    if e == null then Null
    else NonNull(FindDown(ns, geo, if upward then Climb(ns, geo, n, e.shape) else n, e, includeSelf, compare))
  }

  /** FindElementsFromRoot as evidently intended: includeSelf reaches the search as includeSelf. */
  function FindElementsFromRoot(ns: Arena, geo: Convex, n: nat, e: QtAgent?, includeSelf: bool): (r: Nullable<seq<QtAgent>>)
    requires WellFormed(ns) && n < |ns|
    reads *
    ensures Rooted(ns) && e != null ==> r == NonNull(FindDown(ns, geo, 0, e, includeSelf, Null))
    ensures e == null ==> r.Null?
  {
    FindElements(ns, geo, Root(ns, n), e, true, includeSelf, Null)
  }

  // ---------------------------------------------------------------------------
  // What the guarded downward search returns

  lemma {:induction false} FindDownEntries(ns: Arena, geo: Convex, n: nat, e: QtAgent, includeSelf: bool,
                                           compare: Nullable<QtAgent -> bool>)
    requires WellFormed(ns) && n < |ns|
    ensures multiset(FindDown(ns, geo, n, e, includeSelf, compare)) <= SubtreeEntries(ns, n)
    decreases |ns| - n, 5
  {
    if geo.shapeVsRect(e.shape, ns[n].boundary) != None {
      var found := if IsLeaf(ns[n]) then [] else FindChildren(ns, geo, n, 4, e, includeSelf, compare);
      var all := found + ns[n].elements + ns[n].overlapElements;
      if !IsLeaf(ns[n]) {
        FindChildrenEntries(ns, geo, n, 4, e, includeSelf, compare);
      }
      OwnAndFound(ns, n, found);
      FinishSub(all, e, includeSelf, compare);
    }
  }

  lemma {:induction false} FindChildrenEntries(ns: Arena, geo: Convex, n: nat, k: nat, e: QtAgent, includeSelf: bool,
                                               compare: Nullable<QtAgent -> bool>)
    requires WellFormed(ns) && n < |ns| && !IsLeaf(ns[n]) && k <= 4
    ensures multiset(FindChildren(ns, geo, n, k, e, includeSelf, compare)) <= ChildrenEntries(ns, n, k)
    decreases |ns| - n, k
  {
    if k > 0 {
      FindChildrenEntries(ns, geo, n, k - 1, e, includeSelf, compare);
      FindDownEntries(ns, geo, Child(ns, n, k - 1), e, includeSelf, compare);
    }
  }

  /** An agent the search below child j finds is in what the search below all four children finds. */
  lemma FindChildrenIncludes(ns: Arena, geo: Convex, n: nat, j: nat, e: QtAgent, includeSelf: bool,
                             compare: Nullable<QtAgent -> bool>, a: QtAgent)
    requires WellFormed(ns) && n < |ns| && !IsLeaf(ns[n]) && j < 4
    requires a in FindDown(ns, geo, Child(ns, n, j), e, includeSelf, compare)
    ensures a in FindChildren(ns, geo, n, 4, e, includeSelf, compare)
  {
    FindChildrenLast(ns, geo, n, j, e, includeSelf, compare, a);
    FindChildrenGrowsTo(ns, geo, n, j + 1, e, includeSelf, compare, a);
  }

  /** What the search below the first k children finds is kept when child k is searched too. */
  lemma FindChildrenGrows(ns: Arena, geo: Convex, n: nat, k: nat, e: QtAgent, includeSelf: bool,
                          compare: Nullable<QtAgent -> bool>, a: QtAgent)
    requires WellFormed(ns) && n < |ns| && !IsLeaf(ns[n]) && k < 4
    requires a in FindChildren(ns, geo, n, k, e, includeSelf, compare)
    ensures a in FindChildren(ns, geo, n, k + 1, e, includeSelf, compare)
  {
  }

  /** What the search below the first k children finds is in what the search below all four finds. */
  lemma {:induction false} FindChildrenGrowsTo(ns: Arena, geo: Convex, n: nat, k: nat, e: QtAgent, includeSelf: bool,
                                               compare: Nullable<QtAgent -> bool>, a: QtAgent)
    requires WellFormed(ns) && n < |ns| && !IsLeaf(ns[n]) && k <= 4
    requires a in FindChildren(ns, geo, n, k, e, includeSelf, compare)
    ensures a in FindChildren(ns, geo, n, 4, e, includeSelf, compare)
    decreases 4 - k
  {
    if k < 4 {
      FindChildrenGrows(ns, geo, n, k, e, includeSelf, compare, a);
      FindChildrenGrowsTo(ns, geo, n, k + 1, e, includeSelf, compare, a);
    }
  }

  /** An agent the search below child j finds is in what the search below the first j + 1 children finds. */
  lemma FindChildrenLast(ns: Arena, geo: Convex, n: nat, j: nat, e: QtAgent, includeSelf: bool,
                         compare: Nullable<QtAgent -> bool>, a: QtAgent)
    requires WellFormed(ns) && n < |ns| && !IsLeaf(ns[n]) && j < 4
    requires a in FindDown(ns, geo, Child(ns, n, j), e, includeSelf, compare)
    ensures a in FindChildren(ns, geo, n, j + 1, e, includeSelf, compare)
  {
    assert Child(ns, n, j) == Child(ns, n, j + 1 - 1);
  }

  lemma {:induction false} FindChildrenFrom(ns: Arena, geo: Convex, n: nat, k: nat, e: QtAgent, includeSelf: bool,
                                            compare: Nullable<QtAgent -> bool>, a: QtAgent)
    requires WellFormed(ns) && n < |ns| && !IsLeaf(ns[n]) && k <= 4
    requires a in FindChildren(ns, geo, n, k, e, includeSelf, compare)
    ensures exists j :: 0 <= j < k && a in FindDown(ns, geo, Child(ns, n, j), e, includeSelf, compare)
  {
    var last := FindDown(ns, geo, Child(ns, n, k - 1), e, includeSelf, compare);
    assert FindChildren(ns, geo, n, k, e, includeSelf, compare) ==
           FindChildren(ns, geo, n, k - 1, e, includeSelf, compare) + last;
    if a !in last {
      FindChildrenFrom(ns, geo, n, k - 1, e, includeSelf, compare, a);
    }
  }

  /**
   * Completeness: an agent that passes compare and is held by a node the
   * search for e's shape reaches is in the result, unless it is e itself and
   * includeSelf is off.
   */
  lemma {:induction false} FindDownComplete(ns: Arena, geo: Convex, n: nat, m: nat, e: QtAgent, includeSelf: bool,
                                            compare: Nullable<QtAgent -> bool>, a: QtAgent)
    requires WellFormed(ns) && n < |ns| && m < |ns|
    requires Reached(ns, geo, e.shape, n, m) && Holds(ns[m], a) && Passes(compare, a) && (includeSelf || a != e)
    ensures a in FindDown(ns, geo, n, e, includeSelf, compare)
    decreases |ns| - n
  {
    var found := if IsLeaf(ns[n]) then [] else FindChildren(ns, geo, n, 4, e, includeSelf, compare);
    var all := found + ns[n].elements + ns[n].overlapElements;
    if m != n {
      var k :| 0 <= k < 4 && Reached(ns, geo, e.shape, Child(ns, n, k), m);
      FindDownComplete(ns, geo, Child(ns, n, k), m, e, includeSelf, compare, a);
      FindChildrenIncludes(ns, geo, n, k, e, includeSelf, compare, a);
    }
    assert a in all;
    FinishKeeps(all, e, includeSelf, compare, a);
  }

  /** Soundness: every agent in the result is held by a node the search reaches. */
  lemma {:induction false} FindDownSound(ns: Arena, geo: Convex, n: nat, e: QtAgent, includeSelf: bool,
                                         compare: Nullable<QtAgent -> bool>, a: QtAgent)
    requires WellFormed(ns) && n < |ns| && a in FindDown(ns, geo, n, e, includeSelf, compare)
    ensures exists m :: n <= m < |ns| && Reached(ns, geo, e.shape, n, m) && Holds(ns[m], a)
    decreases |ns| - n
  {
    var found := if IsLeaf(ns[n]) then [] else FindChildren(ns, geo, n, 4, e, includeSelf, compare);
    if a in found {
      FindChildrenFrom(ns, geo, n, 4, e, includeSelf, compare, a);
      var j :| 0 <= j < 4 && a in FindDown(ns, geo, Child(ns, n, j), e, includeSelf, compare);
      FindDownSound(ns, geo, Child(ns, n, j), e, includeSelf, compare, a);
      var m :| Child(ns, n, j) <= m < |ns| && Reached(ns, geo, e.shape, Child(ns, n, j), m) && Holds(ns[m], a);
      assert Reached(ns, geo, e.shape, n, m);
    } else {
      assert Reached(ns, geo, e.shape, n, n);
    }
  }

  /** With includeSelf off, an agent stored at most once in the subtree does not find itself. */
  lemma {:induction false} FindDownDropsSelf(ns: Arena, geo: Convex, n: nat, e: QtAgent, compare: Nullable<QtAgent -> bool>)
    requires WellFormed(ns) && n < |ns| && SubtreeEntries(ns, n)[e] <= 1
    ensures e !in FindDown(ns, geo, n, e, false, compare)
    decreases |ns| - n, 5
  {
    if geo.shapeVsRect(e.shape, ns[n].boundary) != None {
      var found := if IsLeaf(ns[n]) then [] else FindChildren(ns, geo, n, 4, e, false, compare);
      if !IsLeaf(ns[n]) {
        assert ChildrenEntries(ns, n, 4)[e] <= SubtreeEntries(ns, n)[e];
        FindChildrenDropsSelf(ns, geo, n, 4, e, compare);
      }
      assert Own(ns[n])[e] <= SubtreeEntries(ns, n)[e];
      DropsSelfStep(found, ns[n], e, compare);
    }
  }

  lemma DropsSelfStep(found: seq<QtAgent>, nd: Node, e: QtAgent, compare: Nullable<QtAgent -> bool>)
    requires e !in found && Own(nd)[e] <= 1
    ensures e !in Finish(found + nd.elements + nd.overlapElements, e, false, compare)
  {
    var all := found + nd.elements + nd.overlapElements;
    assert multiset(all) == multiset(found) + Own(nd);
    FinishDropsSelf(all, e, compare);
  }

  lemma {:induction false} FindChildrenDropsSelf(ns: Arena, geo: Convex, n: nat, k: nat, e: QtAgent,
                                                 compare: Nullable<QtAgent -> bool>)
    requires WellFormed(ns) && n < |ns| && !IsLeaf(ns[n]) && k <= 4 && ChildrenEntries(ns, n, k)[e] <= 1
    ensures e !in FindChildren(ns, geo, n, k, e, false, compare)
    decreases |ns| - n, k
  {
    if k > 0 {
      FindChildrenDropsSelf(ns, geo, n, k - 1, e, compare);
      FindDownDropsSelf(ns, geo, Child(ns, n, k - 1), e, compare);
    }
  }

  // ---------------------------------------------------------------------------
  // The fault in the downward FindElements

  /** The as-written search either faults or returns what the guarded search returns. */
  lemma {:induction false} FindDownAgrees(ns: Arena, geo: Convex, n: nat, e: QtAgent, includeSelf: bool,
                                          compare: Nullable<QtAgent -> bool>)
    requires WellFormed(ns) && n < |ns|
    ensures FindDownAsWritten(ns, geo, n, e, includeSelf, compare) in
              {NullReference, Returned(FindDown(ns, geo, n, e, includeSelf, compare))}
    decreases |ns| - n, 5
  {
    if geo.shapeVsRect(e.shape, ns[n].boundary) != None && !IsLeaf(ns[n]) {
      FindChildrenAgree(ns, geo, n, 4, e, includeSelf, compare);
    }
  }

  lemma {:induction false} FindChildrenAgree(ns: Arena, geo: Convex, n: nat, k: nat, e: QtAgent, includeSelf: bool,
                                             compare: Nullable<QtAgent -> bool>)
    requires WellFormed(ns) && n < |ns| && !IsLeaf(ns[n]) && k <= 4
    ensures FindChildrenAsWritten(ns, geo, n, k, e, includeSelf, compare) in
              {NullReference, Returned(FindChildren(ns, geo, n, k, e, includeSelf, compare))}
    decreases |ns| - n, k
  {
    if k > 0 {
      FindChildrenAgree(ns, geo, n, k - 1, e, includeSelf, compare);
      FindDownAgrees(ns, geo, Child(ns, n, k - 1), e, includeSelf, compare);
    }
  }

  /**
   * The geometric fact a real classifier has: a shape that is not disjoint
   * from a rectangle is not disjoint from at least one of its quadrants.
   */
  predicate SplitsTouch(geo: Convex, s: ConvexShape, r: Rect) {
    geo.shapeVsRect(s, r) != None ==> exists k :: 0 <= k < 4 && geo.shapeVsRect(s, Quadrant(r, k)) != None
  }

  /**
   * With such a classifier the as-written downward search faults exactly
   * when e's shape touches the start node, so it never returns a non-empty
   * list.
   */
  lemma {:induction false} FindDownFaults(ns: Arena, geo: Convex, n: nat, e: QtAgent, includeSelf: bool,
                                          compare: Nullable<QtAgent -> bool>)
    requires WellFormed(ns) && n < |ns|
    requires forall i :: 0 <= i < |ns| ==> SplitsTouch(geo, e.shape, ns[i].boundary)
    ensures FindDownAsWritten(ns, geo, n, e, includeSelf, compare) ==
              if geo.shapeVsRect(e.shape, ns[n].boundary) == None then Returned([]) else NullReference
    decreases |ns| - n
  {
    if geo.shapeVsRect(e.shape, ns[n].boundary) != None && !IsLeaf(ns[n]) {
      assert SplitsTouch(geo, e.shape, ns[n].boundary);
      var k :| 0 <= k < 4 && geo.shapeVsRect(e.shape, Quadrant(ns[n].boundary, k)) != None;
      FindDownFaults(ns, geo, Child(ns, n, k), e, includeSelf, compare);
      FindChildrenFault(ns, geo, n, 4, k, e, includeSelf, compare);
    }
  }

  /** A faulting child makes the search of any longer run of children fault. */
  lemma {:induction false} FindChildrenFault(ns: Arena, geo: Convex, n: nat, k: nat, j: nat, e: QtAgent, includeSelf: bool,
                                             compare: Nullable<QtAgent -> bool>)
    requires WellFormed(ns) && n < |ns| && !IsLeaf(ns[n]) && j < k <= 4
    requires FindDownAsWritten(ns, geo, Child(ns, n, j), e, includeSelf, compare) == NullReference
    ensures FindChildrenAsWritten(ns, geo, n, k, e, includeSelf, compare) == NullReference
    decreases k
  {
    if j < k - 1 {
      FindChildrenFaultEarlier(ns, geo, n, k, j, e, includeSelf, compare);
    } else {
      FindChildrenFaultLast(ns, geo, n, k, j, e, includeSelf, compare);
    }
  }

  lemma {:induction false} FindChildrenFaultEarlier(ns: Arena, geo: Convex, n: nat, k: nat, j: nat, e: QtAgent, includeSelf: bool,
                                                    compare: Nullable<QtAgent -> bool>)
    requires WellFormed(ns) && n < |ns| && !IsLeaf(ns[n]) && j < k - 1 && k <= 4
    requires FindDownAsWritten(ns, geo, Child(ns, n, j), e, includeSelf, compare) == NullReference
    ensures FindChildrenAsWritten(ns, geo, n, k, e, includeSelf, compare) == NullReference
    decreases k, 0
  {
    FindChildrenFault(ns, geo, n, k - 1, j, e, includeSelf, compare);
    assert FindChildrenAsWritten(ns, geo, n, k - 1, e, includeSelf, compare) == NullReference;
  }

  lemma FindChildrenFaultLast(ns: Arena, geo: Convex, n: nat, k: nat, j: nat, e: QtAgent, includeSelf: bool,
                              compare: Nullable<QtAgent -> bool>)
    requires WellFormed(ns) && n < |ns| && !IsLeaf(ns[n]) && j == k - 1 && k <= 4
    requires FindDownAsWritten(ns, geo, Child(ns, n, j), e, includeSelf, compare) == NullReference
    ensures FindChildrenAsWritten(ns, geo, n, k, e, includeSelf, compare) == NullReference
  {
    assert Child(ns, n, j) == Child(ns, n, k - 1);
  }

  // ---------------------------------------------------------------------------
  // FindElementsFromRoot

  /** As written, includeSelf only picks the upward mode, which the root ignores: the answer is the same either way. */
  lemma FromRootIgnoresIncludeSelf(ns: Arena, geo: Convex, n: nat, e: QtAgent?)
    requires WellFormed(ns) && n < |ns|
    ensures FindElementsFromRootAsWritten(ns, geo, n, e, true) == FindElementsFromRootAsWritten(ns, geo, n, e, false)
  {
  }

  /** So, as written, an agent stored once never finds itself from the root, even when asked to. */
  lemma FromRootNeverSelf(ns: Arena, geo: Convex, n: nat, e: QtAgent, includeSelf: bool)
    requires WellFormed(ns) && n < |ns| && SubtreeEntries(ns, Root(ns, n))[e] <= 1
    ensures FindElementsFromRootAsWritten(ns, geo, n, e, includeSelf) != Returned(NonNull([e]))
    ensures forall x :: FindElementsFromRootAsWritten(ns, geo, n, e, includeSelf) == Returned(NonNull(x)) ==> e !in x
  {
    var root := Root(ns, n);
    assert Climb(ns, geo, root, e.shape) == root;
    FindDownAgrees(ns, geo, root, e, false, Null);
    FindDownDropsSelf(ns, geo, root, e, Null);
  }

  /** Corrected, an agent stored at a node the search reaches from the root finds itself when includeSelf holds. */
  lemma FromRootFindsSelf(ns: Arena, geo: Convex, n: nat, m: nat, e: QtAgent)
    requires WellFormed(ns) && n < |ns| && m < |ns| && Rooted(ns)
    requires Reached(ns, geo, e.shape, 0, m) && Holds(ns[m], e)
    ensures FindElementsFromRoot(ns, geo, n, e, true).NonNull?
    ensures e in FindElementsFromRoot(ns, geo, n, e, true).value
  {
    FindDownComplete(ns, geo, 0, m, e, true, Null, e);
  }
}
