// The point agent of the original generation: an agent without extent, which
// classifies a node boundary by its position alone.

module PointAgents {
  import opened Geometry
  import opened QuadtreeArena
  import opened Routing

  /** A point agent's classification of a node boundary: Fit when the boundary contains it, None otherwise. */
  function IntersectWithBoundary(nodeBoundary: Rect, position: Point): (r: CollisionResult)
    ensures r == Fit <==> ContainPoint2D(nodeBoundary, position)
    ensures r != Overlap
  {
    if ContainPoint2D(nodeBoundary, position) then Fit else None
  }

  /** The tree's classifier answers for shape s exactly as a point agent at p would. */
  ghost predicate ActsAsPoint(geo: Convex, s: ConvexShape, p: Point) {
    forall r :: geo.shapeVsRect(s, r) == IntersectWithBoundary(r, p)
  }

  /**
   * A point agent inside node n is never kept in an overlap list and never
   * refused: Add's routing from n always ends in a leaf that contains it.
   */
  lemma {:induction false} PointRoutesToLeaf(ns: Arena, geo: Convex, n: nat, p: Point, s: ConvexShape)
    requires WellFormed(ns) && n < |ns|
    requires ContainPoint2D(ns[n].boundary, p) && ActsAsPoint(geo, s, p)
    ensures var r := Route(ns, geo, n, p, s);
      r.StoreElement? && ContainPoint2D(ns[r.node].boundary, p)
    decreases |ns| - n
  {
    if !IsLeaf(ns[n]) {
      ChildIndexInside(ns, n, p);
      var c := Child(ns, n, ChildIndex(ns, n, p));
      assert geo.shapeVsRect(s, ns[c].boundary) == Fit;
      PointRoutesToLeaf(ns, geo, c, p, s);
    }
  }

  /** Outside node n, a point agent is refused by an internal n and only a leaf n stores it. */
  lemma PointOutsideRefused(ns: Arena, geo: Convex, n: nat, p: Point, s: ConvexShape)
    requires WellFormed(ns) && n < |ns| && !ContainPoint2D(ns[n].boundary, p)
    ensures Route(ns, geo, n, p, s) == (if IsLeaf(ns[n]) then StoreElement(n) else Rejected)
  {
    if !IsLeaf(ns[n]) {
      ChildIndexInside(ns, n, p);
    }
  }
}
