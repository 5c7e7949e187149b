// Plane geometry shared by every generation of the quadtree: points, axis-aligned
// rectangles anchored at their top-left corner (y grows upward, so the rectangle
// extends from y down to y - height), the inclusive point-containment test and the
// four quadrants a node is split into.

module Geometry {

  datatype Point = Point(x: real, y: real)

  /** A rectangle with its origin at the top-left corner. */
  datatype Rect = Rect(x: real, y: real, width: real, height: real)

  /** An optional value; stands for a C# reference that may be null. */
  datatype Nullable<T> = Null | NonNull(value: T)

  function Min(a: real, b: real): real { if a <= b then a else b }
  function Max(a: real, b: real): real { if a <= b then b else a }

  function XMin(r: Rect): real { Min(r.x, r.x + r.width) }
  function XMax(r: Rect): real { Max(r.x, r.x + r.width) }
  function YMin(r: Rect): real { Min(r.y, r.y - r.height) }
  function YMax(r: Rect): real { Max(r.y, r.y - r.height) }

  /** Inclusive containment of a point in the box spanned by the corners. */
  predicate ContainPoint2D(r: Rect, p: Point) {
    XMin(r) <= p.x <= XMax(r) && YMin(r) <= p.y <= YMax(r)
  }

  /** Whether p lies between a and b (in either order), ends included. */
  predicate Between(a: real, b: real, v: real) {
    (a <= v <= b) || (b <= v <= a)
  }

  lemma ContainPoint2DMeaning(r: Rect, p: Point)
    ensures ContainPoint2D(r, p) <==>
            Between(r.x, r.x + r.width, p.x) && Between(r.y, r.y - r.height, p.y)
  {
  }

  /**
   * Quadrant k of r: 0 = top-left (north-west), 1 = top-right (north-east),
   * 2 = bottom-right (south-east), 3 = bottom-left (south-west); each has half
   * the width and half the height of r.
   */
  function Quadrant(r: Rect, k: nat): (q: Rect)
    requires k < 4
    ensures q.width == r.width / 2.0 && q.height == r.height / 2.0
  {
    var w := r.width / 2.0;
    var h := r.height / 2.0;
    if k == 0 then Rect(r.x, r.y, w, h)
    else if k == 1 then Rect(r.x + w, r.y, w, h)
    else if k == 2 then Rect(r.x + w, r.y - h, w, h)
    else Rect(r.x, r.y - h, w, h)
  }

  /** Every quadrant lies inside its parent rectangle. */
  lemma QuadrantInside(r: Rect, k: nat, p: Point)
    requires k < 4
    requires ContainPoint2D(Quadrant(r, k), p)
    ensures ContainPoint2D(r, p)
  {
  }

  /** Index of the first quadrant of r containing p, or -1 if there is none. */
  function QuadrantIndex(r: Rect, p: Point): (i: int)
    ensures -1 <= i < 4
    ensures i >= 0 ==> ContainPoint2D(Quadrant(r, i), p)
    ensures i >= 0 ==> forall k :: 0 <= k < i ==> !ContainPoint2D(Quadrant(r, k), p)
    ensures i == -1 ==> forall k :: 0 <= k < 4 ==> !ContainPoint2D(Quadrant(r, k), p)
  {
    if ContainPoint2D(Quadrant(r, 0), p) then 0
    else if ContainPoint2D(Quadrant(r, 1), p) then 1
    else if ContainPoint2D(Quadrant(r, 2), p) then 2
    else if ContainPoint2D(Quadrant(r, 3), p) then 3
    else -1
  }

  /**
   * The four quadrants cover their parent exactly: a point lies in some
   * quadrant if and only if it lies in the rectangle, whatever the signs of
   * the width and the height.
   */
  lemma QuadrantsCover(r: Rect, p: Point)
    ensures QuadrantIndex(r, p) >= 0 <==> ContainPoint2D(r, p)
  {
    var w := r.width / 2.0;
    var h := r.height / 2.0;
    if ContainPoint2D(r, p) {
      var left := Between(r.x, r.x + w, p.x);
      var top := Between(r.y, r.y - h, p.y);
      assert left || Between(r.x + w, r.x + r.width, p.x);
      assert top || Between(r.y - h, r.y - r.height, p.y);
      if left && top {
        assert ContainPoint2D(Quadrant(r, 0), p);
      } else if top {
        assert ContainPoint2D(Quadrant(r, 1), p);
      } else if left {
        assert ContainPoint2D(Quadrant(r, 3), p);
      } else {
        assert ContainPoint2D(Quadrant(r, 2), p);
      }
    } else if QuadrantIndex(r, p) >= 0 {
      QuadrantInside(r, QuadrantIndex(r, p), p);
    }
  }

  /** Three-valued outcome of testing a shape against a region. */
  datatype CollisionResult = Fit | Overlap | None

  /** The convex shapes an agent or a query can have. */
  datatype ConvexShape =
    | Rectangle(rect: Rect)
    | Circle(center: Point, radius: real)
    | Unknown

  /**
   * The classification library the tree relies on: how a shape lies against a
   * rectangular node boundary and against another shape. Its geometry is not
   * part of this model, so it is a parameter of every operation that needs it.
   */
  datatype Convex = Convex(
    shapeVsRect: (ConvexShape, Rect) -> CollisionResult,
    shapeVsShape: (ConvexShape, ConvexShape) -> CollisionResult)
}
