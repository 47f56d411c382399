/**
 * The Core Graphics values the drawing code works with: points, sizes and
 * rectangles over the reals, and the operations a SwiftUI `Path` records
 * (move, line, quadratic and cubic curve, arc, close, ellipse, rounded
 * rectangle). A path is the sequence of its operations.
 */
module Geometry {

  datatype Point = Point(x: real, y: real)

  datatype Size = Size(width: real, height: real)

  /** A `CGRect`: its origin and its extent. */
  datatype Rect = Rect(x: real, y: real, width: real, height: real)

  /** `CGRect.zero`. */
  const ZeroRect: Rect := Rect(0.0, 0.0, 0.0, 0.0)

  /** One recorded operation of a `Path`. */
  datatype PathOp =
    | MoveTo(to: Point)
    | LineTo(to: Point)
    | QuadTo(to: Point, control: Point)
    | CurveTo(to: Point, control1: Point, control2: Point)
    | ArcAround(center: Point, radius: real, startAngle: real, endAngle: real, clockwise: bool)
    | CloseSubpath
    | EllipseIn(rect: Rect)
    | RoundedRectIn(rect: Rect, corner: Size)

  function Min(a: real, b: real): real { if a <= b then a else b }
  function Max(a: real, b: real): real { if a <= b then b else a }

  /** The square of the Euclidean distance, so that `hypot` and `sqrt` are never needed. */
  function SqDist(p: Point, q: Point): (d: real)
    ensures d >= 0.0
  {
    (p.x - q.x) * (p.x - q.x) + (p.y - q.y) * (p.y - q.y)
  }

  /** The midpoint of p and q, as the drawing code computes it coordinate by coordinate. */
  function Midpoint(p: Point, q: Point): Point {
    Point((p.x + q.x) / 2.0, (p.y + q.y) / 2.0)
  }

  lemma MulNonNegative(a: real, b: real)
    requires a >= 0.0 && b >= 0.0
    ensures a * b >= 0.0
  {
  }

  lemma MulPositive(a: real, b: real)
    requires a > 0.0 && b > 0.0
    ensures a * b > 0.0
  {
  }

  /** The point a fraction k of the way from p to q. */
  function Lerp(p: Point, q: Point, k: real): Point {
    Point(p.x + k * (q.x - p.x), p.y + k * (q.y - p.y))
  }

  /** The midpoint lies halfway: it is as far from p as from q, and a fourth of their squared distance from each. */
  lemma MidpointHalfway(p: Point, q: Point)
    ensures SqDist(Midpoint(p, q), p) == SqDist(Midpoint(p, q), q)
    ensures 4.0 * SqDist(Midpoint(p, q), p) == SqDist(p, q)
  {
    var m := Midpoint(p, q);
    assert m.x - p.x == (q.x - p.x) / 2.0 && m.x - q.x == (p.x - q.x) / 2.0;
    assert m.y - p.y == (q.y - p.y) / 2.0 && m.y - q.y == (p.y - q.y) / 2.0;
  }

  /**
   * `hypot(dx, dy) > bound` for a non-negative bound, said without
   * square roots: the squared distance exceeds the squared bound.
   */
  predicate FartherThan(p: Point, q: Point, bound: real)
    requires bound >= 0.0
  {
    SqDist(p, q) > bound * bound
  }

  /**
   * `hypot(dx, dy) >= tolerance`, said without square roots: always true for
   * a tolerance that is not positive, as a distance is never negative.
   */
  predicate AtLeastApart(p: Point, q: Point, tolerance: real) {
    tolerance <= 0.0 || SqDist(p, q) >= tolerance * tolerance
  }

  /** The closed rectangle r contains p. */
  predicate InRect(r: Rect, p: Point) {
    r.x <= p.x <= r.x + r.width && r.y <= p.y <= r.y + r.height
  }

  /**
   * The end point an operation names explicitly, for the operations that
   * carry one; an arc's end follows from its angles and is not computed here.
   */
  function EndPoint(op: PathOp): (r: Option<Point>)
    ensures r.Some? <==> (op.MoveTo? || op.LineTo? || op.QuadTo? || op.CurveTo?)
  {
    match op
    case MoveTo(to) => Some(to)
    case LineTo(to) => Some(to)
    case QuadTo(to, _) => Some(to)
    case CurveTo(to, _, _) => Some(to)
    case _ => None
  }

  datatype Option<T> = None | Some(value: T)
}
