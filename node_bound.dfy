// The boundary object of the first-generation tree: a rectangle with its origin
// at the top-left corner, whose setters keep a cached center up to date.

module NodeBounds {
  import opened Geometry

  function Abs(v: real): (a: real)
    ensures a >= 0.0 && (a == v || a == -v)
  {
    if v < 0.0 then -v else v
  }

  /** The center a NodeBound caches: the middle of the rectangle. */
  function CenterOf(x: real, y: real, width: real, height: real): Point {
    Point(x + width / 2.0, y - height / 2.0)
  }

  class NodeBound {
    var x: real
    var y: real
    var width: real
    var height: real
    var center: Point

    /** Whether the cached center is the middle of the stored rectangle. */
    predicate CenterCurrent()
      reads this
    {
      center == CenterOf(x, y, width, height)
    }

    /**
     * Stores the corner and the absolute size. The center is not computed:
     * it keeps its default value until a setter runs.
     */
    constructor (x: real, y: real, width: real, height: real)
      ensures this.x == x && this.y == y
      ensures this.width == Abs(width) && this.height == Abs(height)
      ensures center == Point(0.0, 0.0)
    {
      this.x := x;
      this.y := y;
      this.width := Abs(width);
      this.height := Abs(height);
      center := Point(0.0, 0.0);
    }

    /** The same, from a position vector and a size vector. */
    constructor FromVectors(position: Point, size: Point)
      ensures x == position.x && y == position.y
      ensures width == Abs(size.x) && height == Abs(size.y)
      ensures center == Point(0.0, 0.0)
    {
      x := position.x;
      y := position.y;
      width := Abs(size.x);
      height := Abs(size.y);
      center := Point(0.0, 0.0);
    }

    method SetX(v: real)
      modifies this
      ensures x == v && y == old(y) && width == old(width) && height == old(height)
      ensures CenterCurrent()
    {
      x := v;
      CalculateCenter();
    }

    method SetY(v: real)
      modifies this
      ensures y == v && x == old(x) && width == old(width) && height == old(height)
      ensures CenterCurrent()
    {
      y := v;
      CalculateCenter();
    }

    /** Unlike the constructors, the setter stores the width as given, sign included. */
    method SetWidth(v: real)
      modifies this
      ensures width == v && x == old(x) && y == old(y) && height == old(height)
      ensures CenterCurrent()
    {
      width := v;
      CalculateCenter();
    }

    method SetHeight(v: real)
      modifies this
      ensures height == v && x == old(x) && y == old(y) && width == old(width)
      ensures CenterCurrent()
    {
      height := v;
      CalculateCenter();
    }

    method CalculateCenter()
      modifies this`center
      ensures CenterCurrent()
    {
      center := CenterOf(x, y, width, height);
    }

    function XMin(): (m: real)
      reads this
      ensures m <= x && m <= x + width && (m == x || m == x + width)
    {
      Min(x, x + width)
    }

    function XMax(): (m: real)
      reads this
      ensures m >= x && m >= x + width && (m == x || m == x + width)
    {
      Max(x, x + width)
    }

    function YMin(): (m: real)
      reads this
      ensures m <= y && m <= y - height && (m == y || m == y - height)
    {
      Min(y, y - height)
    }

    function YMax(): (m: real)
      reads this
      ensures m >= y && m >= y - height && (m == y || m == y - height)
    {
      Max(y, y - height)
    }

    /** Inclusive test: the point lies between the two vertical and the two horizontal edges. */
    predicate ContainPoint2D(p: Point)
      reads this
      ensures ContainPoint2D(p) <==> Between(x, x + width, p.x) && Between(y, y - height, p.y)
    {
      p.x >= XMin() && p.x <= XMax() && p.y >= YMin() && p.y <= YMax()
    }

    /** The value this object describes. */
    function ToRect(): (r: Rect)
      reads this
      ensures Geometry.ContainPoint2D(r, Point(x, y))
    {
      Rect(x, y, width, height)
    }
  }

  /** With a non-negative size the corners are the stored ones. */
  lemma NonNegativeExtent(b: NodeBound)
    requires b.width >= 0.0 && b.height >= 0.0
    ensures b.XMin() == b.x && b.XMax() == b.x + b.width
    ensures b.YMax() == b.y && b.YMin() == b.y - b.height
  {
  }

  /** The object test agrees with the value test on the rectangle it describes. */
  lemma ContainPoint2DAgrees(b: NodeBound, p: Point)
    ensures b.ContainPoint2D(p) <==> Geometry.ContainPoint2D(b.ToRect(), p)
  {
  }

  /**
   * The zero-boundary guard of the first-generation tree: the given bound is
   * compared by reference with a freshly built all-zero bound, so the
   * comparison never holds and every bound is accepted, an all-zero one included.
   */
  method SetBoundaryGuard(nodeBoundary: NodeBound) returns (accepted: bool)
    ensures accepted
  {
    var zero := new NodeBound(0.0, 0.0, 0.0, 0.0);
    accepted := nodeBoundary != zero;
  }
}
