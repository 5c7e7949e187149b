// Where an agent goes and where it is looked for: the child-index test on the
// agent's center, the routing that Add follows before it stores anything, the
// search path of Remove and the FindNode lookup, and the lemmas tying them
// together.

module Routing {
  import opened Geometry
  import opened Agents
  import opened QuadtreeArena

  /**
   * Index of the first child of n whose boundary contains p, or -1 when n is
   * a leaf or no child contains p.
   */
  function ChildIndex(ns: Arena, n: nat, p: Point): (k: int)
    requires WellFormed(ns) && n < |ns|
    ensures -1 <= k < 4
    ensures k >= 0 ==> !IsLeaf(ns[n]) && ContainPoint2D(ns[Child(ns, n, k)].boundary, p)
    ensures k >= 0 ==> forall j :: 0 <= j < k ==> !ContainPoint2D(ns[Child(ns, n, j)].boundary, p)
    ensures k == -1 ==> IsLeaf(ns[n]) || forall j :: 0 <= j < 4 ==> !ContainPoint2D(ns[Child(ns, n, j)].boundary, p)
  {
    if IsLeaf(ns[n]) then -1 else QuadrantIndex(ns[n].boundary, p)
  }

  /** On an internal node, a child is found exactly when the node itself contains the point. */
  lemma ChildIndexInside(ns: Arena, n: nat, p: Point)
    requires WellFormed(ns) && n < |ns| && !IsLeaf(ns[n])
    ensures ChildIndex(ns, n, p) >= 0 <==> ContainPoint2D(ns[n].boundary, p)
  {
    QuadrantsCover(ns[n].boundary, p);
  }

  lemma ChildIndexSameLinks(ns: Arena, ns': Arena, n: nat, p: Point)
    requires WellFormed(ns) && WellFormed(ns') && SameLinks(ns, ns') && n < |ns|
    ensures ChildIndex(ns', n, p) == ChildIndex(ns, n, p)
  {
    assert SameShape(ns[n], ns'[n]);
  }

  // ---------------------------------------------------------------------------
  // Add's routing

  /** Where Add stores an agent before any split: in a leaf's elements, in an internal node's overlap list, or nowhere. */
  datatype Placement = Rejected | StoreElement(node: nat) | StoreOverlap(node: nat)

  /**
   * Add's descent from n for an agent centered at p with shape s: a leaf takes
   * it; an internal node picks the first child containing p and descends on
   * Fit, keeps it on Overlap, and refuses it on None or when no child
   * contains p.
   */
  function Route(ns: Arena, geo: Convex, n: nat, p: Point, s: ConvexShape): (r: Placement)
    requires WellFormed(ns) && n < |ns|
    ensures r.StoreElement? ==> n <= r.node < |ns| && IsLeaf(ns[r.node])
    ensures r.StoreOverlap? ==> n <= r.node < |ns| && !IsLeaf(ns[r.node])
    decreases |ns| - n
  {
    if IsLeaf(ns[n]) then StoreElement(n)
    else
      var k := ChildIndex(ns, n, p);
      if k < 0 then Rejected
      else
        var c := Child(ns, n, k);
        match geo.shapeVsRect(s, ns[c].boundary)
        case Fit => Route(ns, geo, c, p, s)
        case Overlap => StoreOverlap(n)
        case None => Rejected
  }

  /** A classifier that never calls a shape disjoint from a rectangle containing the shape's center. */
  ghost predicate TouchesAround(geo: Convex, s: ConvexShape, p: Point) {
    forall r :: ContainPoint2D(r, p) ==> geo.shapeVsRect(s, r) != None
  }

  /**
   * With such a classifier, an agent whose center lies inside the node is
   * never refused: Add's failure paths are exactly a center outside the
   * node or a classifier answer of None.
   */
  lemma {:induction false} RouteAcceptsInside(ns: Arena, geo: Convex, n: nat, p: Point, s: ConvexShape)
    requires WellFormed(ns) && n < |ns|
    requires ContainPoint2D(ns[n].boundary, p) && TouchesAround(geo, s, p)
    ensures !Route(ns, geo, n, p, s).Rejected?
    decreases |ns| - n
  {
    if !IsLeaf(ns[n]) {
      ChildIndexInside(ns, n, p);
      var c := Child(ns, n, ChildIndex(ns, n, p));
      if geo.shapeVsRect(s, ns[c].boundary) == Fit {
        RouteAcceptsInside(ns, geo, c, p, s);
      }
    }
  }

  /** Routing only looks at the links and boundaries, never at the lists. */
  lemma {:induction false} RouteSameLinks(ns: Arena, ns': Arena, geo: Convex, n: nat, p: Point, s: ConvexShape)
    requires WellFormed(ns) && WellFormed(ns') && SameLinks(ns, ns') && n < |ns|
    ensures Route(ns', geo, n, p, s) == Route(ns, geo, n, p, s)
    decreases |ns| - n
  {
    assert SameShape(ns[n], ns'[n]);
    if !IsLeaf(ns[n]) {
      ChildIndexSameLinks(ns, ns', n, p);
      var k := ChildIndex(ns, n, p);
      if k >= 0 {
        assert Child(ns, n, k) == Child(ns', n, k);
        RouteSameLinks(ns, ns', geo, Child(ns, n, k), p, s);
      }
    }
  }

  // ---------------------------------------------------------------------------
  // FindNode

  /**
   * The node under n holding agent a: nothing when a's center is outside n;
   * otherwise descend into the first child containing the center when the
   * shape Fits it, and else answer n if n's own lists hold a.
   */
  function FindNode(ns: Arena, geo: Convex, n: nat, a: QtAgent?): (r: Nullable<nat>)
    requires WellFormed(ns) && n < |ns|
    reads a
    ensures r.NonNull? ==> a != null && n <= r.value < |ns| && Holds(ns[r.value], a)
    ensures r.NonNull? ==> ContainPoint2D(ns[n].boundary, a.center)
    decreases |ns| - n
  {
    if a == null then Null
    else if !ContainPoint2D(ns[n].boundary, a.center) then Null
    else
      var k := ChildIndex(ns, n, a.center);
      if k >= 0 && geo.shapeVsRect(a.shape, ns[Child(ns, n, k)].boundary) == Fit then
        var r := FindNode(ns, geo, Child(ns, n, k), a);
        r
      else if Holds(ns[n], a) then NonNull(n)
      else Null
  }

  /**
   * Round trip: once an agent is stored where Add's routing put it, FindNode
   * from the same node finds it there, provided its center lies in that node.
   */
  lemma {:induction false} FindAfterRoute(ns: Arena, ns': Arena, geo: Convex, n: nat, a: QtAgent, t: nat)
    requires WellFormed(ns) && WellFormed(ns') && SameLinks(ns, ns') && n < |ns|
    requires ContainPoint2D(ns[n].boundary, a.center)
    requires Route(ns, geo, n, a.center, a.shape) in {StoreElement(t), StoreOverlap(t)}
    requires t < |ns| && Holds(ns'[t], a)
    ensures FindNode(ns', geo, n, a) == NonNull(t)
    decreases |ns| - n
  {
    assert SameShape(ns[n], ns'[n]);
    if !IsLeaf(ns[n]) {
      ChildIndexSameLinks(ns, ns', n, a.center);
      var k := ChildIndex(ns, n, a.center);
      var c := Child(ns, n, k);
      assert Child(ns', n, k) == c;
      assert SameShape(ns[c], ns'[c]);
      if geo.shapeVsRect(a.shape, ns[c].boundary) == Fit {
        FindAfterRoute(ns, ns', geo, c, a, t);
      }
    }
  }

  // ---------------------------------------------------------------------------
  // Remove's search

  /**
   * The nodes Remove visits from n looking for a, centered at p with shape s:
   * it stops at the first node whose own lists hold a, and otherwise descends
   * only into the first child containing p when the shape Fits that child.
   */
  function RemovalPath(ns: Arena, geo: Convex, n: nat, a: QtAgent, p: Point, s: ConvexShape): (path: seq<nat>)
    requires WellFormed(ns) && n < |ns|
    ensures |path| >= 1 && path[0] == n
    ensures forall j :: 0 <= j < |path| ==> n <= path[j] < |ns|
    ensures forall j :: 0 <= j < |path| - 1 ==> !Holds(ns[path[j]], a)
    ensures forall j :: 0 < j < |path| ==> path[j - 1] < path[j]
    decreases |ns| - n
  {
    if Holds(ns[n], a) || IsLeaf(ns[n]) then [n]
    else
      var k := ChildIndex(ns, n, p);
      if k >= 0 && geo.shapeVsRect(s, ns[Child(ns, n, k)].boundary) == Fit then
        [n] + RemovalPath(ns, geo, Child(ns, n, k), a, p, s)
      else [n]
  }

  function Last(path: seq<nat>): nat
    requires |path| > 0
  {
    path[|path| - 1]
  }

  /**
   * Round trip: an agent that was nowhere in the tree and was then stored
   * where Add's routing put it is exactly what Remove's search reaches.
   */
  lemma {:induction false} RemoveAfterRoute(ns: Arena, ns': Arena, geo: Convex, n: nat, a: QtAgent, t: nat)
    requires WellFormed(ns) && WellFormed(ns') && SameLinks(ns, ns') && n < |ns|
    requires Route(ns, geo, n, a.center, a.shape) in {StoreElement(t), StoreOverlap(t)}
    requires t < |ns| && Holds(ns'[t], a)
    requires forall i :: 0 <= i < |ns'| && i != t ==> !Holds(ns'[i], a)
    ensures Last(RemovalPath(ns', geo, n, a, a.center, a.shape)) == t
    decreases |ns| - n
  {
    assert SameShape(ns[n], ns'[n]);
    if n != t {
      ChildIndexSameLinks(ns, ns', n, a.center);
      var k := ChildIndex(ns, n, a.center);
      var c := Child(ns, n, k);
      assert Child(ns', n, k) == c;
      assert SameShape(ns[c], ns'[c]);
      RemoveAfterRoute(ns, ns', geo, c, a, t);
    }
  }

  // ---------------------------------------------------------------------------
  // Removing from a list

  /** A list with the first occurrence of x taken out, as a C# List.Remove does. */
  function RemoveFirst(s: seq<QtAgent>, x: QtAgent): (r: seq<QtAgent>)
    ensures x in s ==> multiset(r) == multiset(s) - multiset{x} && |r| == |s| - 1
    ensures x !in s ==> r == s
  {
    if s == [] then []
    else
      assert s == [s[0]] + s[1..];
      if s[0] == x then s[1..]
      else [s[0]] + RemoveFirst(s[1..], x)
  }

  /**
   * RemoveFirst takes out the first occurrence: when x sits at index i and
   * nowhere before it, the answer is the list without index i, the rest in
   * its order.
   */
  lemma {:induction false} RemoveFirstAt(s: seq<QtAgent>, x: QtAgent, i: nat)
    requires i < |s| && s[i] == x && x !in s[..i]
    ensures RemoveFirst(s, x) == s[..i] + s[i + 1..]
  {
    if i > 0 {
      assert s[0] in s[..i];
      assert s[1..][..i - 1] == s[1..i];
      RemoveFirstAt(s[1..], x, i - 1);
      assert s[..i] == [s[0]] + s[1..i];
      assert s[1..][i..] == s[i + 1..];
    }
  }

  /** Taking an agent out never adds to a list's agents. */
  lemma RemoveFirstSub(s: seq<QtAgent>, x: QtAgent)
    ensures multiset(RemoveFirst(s, x)) <= multiset(s)
  {
  }

  /** Taking out what was just appended gives the list back, when it was not there before. */
  lemma {:induction false} RemoveFirstAppended(s: seq<QtAgent>, x: QtAgent)
    requires x !in s
    ensures RemoveFirst(s + [x], x) == s
  {
    if s != [] {
      assert (s + [x])[1..] == s[1..] + [x];
      RemoveFirstAppended(s[1..], x);
    }
  }

  /** A node with a taken out of both of its lists. */
  function Drop(nd: Node, a: QtAgent): Node {
    nd.(elements := RemoveFirst(nd.elements, a), overlapElements := RemoveFirst(nd.overlapElements, a))
  }
}
