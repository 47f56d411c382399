/**
 * Coloring pages and their outlines (ToddlerColoring/Models/ColoringPage.swift).
 * An outline is drawn in a 200 x 200 design box; `ColoringShape.path(in:)`
 * scales that box uniformly to fit the rectangle it is given, centres it,
 * and replays the outline's elements as path operations.
 */
module ColoringPages {
  import opened Geometry

  datatype ColoringCategory = Animals | Shapes | Nature | Vehicles | Food

  /** One element of an outline, in design-box coordinates. */
  datatype PathElement =
    | Move(to: Point)
    | Line(to: Point)
    | Curve(to: Point, control1: Point, control2: Point)
    | QuadCurve(to: Point, control: Point)
    | Arc(center: Point, radius: real, startAngle: real, endAngle: real, clockwise: bool)
    | Close
    | Circle(center: Point, radius: real)
    | RoundedRect(rect: Rect, cornerRadius: real)
    | Ellipse(rect: Rect)

  /**
   * A page of the app. The source gives each page a fresh UUID; here the
   * identity is a number chosen by whoever creates the page.
   */
  datatype ColoringPage = ColoringPage(id: nat, name: string, category: ColoringCategory, paths: seq<PathElement>)

  /** The `==` of ColoringPage: two pages are equal when their ids are, whatever they hold. */
  predicate SamePage(a: ColoringPage, b: ColoringPage) {
    a.id == b.id
  }

  /** Page equality is an equivalence that looks only at the id. */
  lemma SamePageIsIdentity(a: ColoringPage, b: ColoringPage, c: ColoringPage)
    ensures SamePage(a, a)
    ensures SamePage(a, b) == SamePage(b, a)
    ensures SamePage(a, b) && SamePage(b, c) ==> SamePage(a, c)
    ensures SamePage(a, b) <==> a.id == b.id
  {
  }

  /** A page equals any page with its id, whatever their names, categories and outlines. */
  lemma SamePageIgnoresContent(a: ColoringPage, name: string, category: ColoringCategory, paths: seq<PathElement>)
    ensures SamePage(a, ColoringPage(a.id, name, category, paths))
  {
  }

  /** The side of the square design box that outlines are drawn in. */
  const DesignSize: real := 200.0

  /** The map from design-box coordinates to the rectangle: a uniform scale, then an offset. */
  datatype Transform = Transform(scale: real, offsetX: real, offsetY: real)

  /**
   * The transform of `path(in:)`: `scale = min(width, height) / 200` and
   * offsets that share out the remaining space equally on both sides.
   * The rectangle's origin is not used.
   */
  function FitTransform(rect: Rect): Transform {
    var scale := Min(rect.width, rect.height) / DesignSize;
    Transform(scale, (rect.width - DesignSize * scale) / 2.0, (rect.height - DesignSize * scale) / 2.0)
  }

  /** The scaled design box fits the rectangle in both directions and fills it in one. */
  lemma ScaleFits(rect: Rect)
    ensures var t := FitTransform(rect);
            DesignSize * t.scale <= rect.width && DesignSize * t.scale <= rect.height &&
            (DesignSize * t.scale == rect.width || DesignSize * t.scale == rect.height)
  {
  }

  /**
   * The offsets centre the scaled design box: the space left on each side
   * is the same, never negative for a rectangle of non-negative size, and
   * nothing is left in the direction the box fills.
   */
  lemma OffsetsCentre(rect: Rect)
    requires rect.width >= 0.0 && rect.height >= 0.0
    ensures var t := FitTransform(rect);
            t.offsetX >= 0.0 && t.offsetY >= 0.0 && (t.offsetX == 0.0 || t.offsetY == 0.0) &&
            2.0 * t.offsetX + DesignSize * t.scale == rect.width &&
            2.0 * t.offsetY + DesignSize * t.scale == rect.height
  {
  }

  /** `transformPoint`. */
  function TransformPoint(t: Transform, p: Point): Point {
    Point(p.x * t.scale + t.offsetX, p.y * t.scale + t.offsetY)
  }

  /** `transformPoint` is affine: it maps the point k of the way from p to q to the point k of the way between their images. */
  lemma TransformAffine(t: Transform, p: Point, q: Point, k: real)
    ensures TransformPoint(t, Lerp(p, q, k)) == Lerp(TransformPoint(t, p), TransformPoint(t, q), k)
  {
    var a, b := TransformPoint(t, p), TransformPoint(t, q);
    assert (p.x + k * (q.x - p.x)) * t.scale + t.offsetX == a.x + k * (b.x - a.x);
    assert (p.y + k * (q.y - p.y)) * t.scale + t.offsetY == a.y + k * (b.y - a.y);
  }

  /** A point of the design box lands inside the rectangle, taken with its origin at (0, 0). */
  lemma TransformInside(rect: Rect, p: Point)
    requires rect.width >= 0.0 && rect.height >= 0.0
    requires 0.0 <= p.x <= DesignSize && 0.0 <= p.y <= DesignSize
    ensures InRect(Rect(0.0, 0.0, rect.width, rect.height), TransformPoint(FitTransform(rect), p))
  {
    var t := FitTransform(rect);
    OffsetsCentre(rect);
    CentredInside(t, rect.width, rect.height, p);
  }

  /** Any centring transform with a non-negative scale keeps the design box inside. */
  lemma CentredInside(t: Transform, w: real, h: real, p: Point)
    requires t.scale >= 0.0 && t.offsetX >= 0.0 && t.offsetY >= 0.0
    requires 2.0 * t.offsetX + DesignSize * t.scale == w && 2.0 * t.offsetY + DesignSize * t.scale == h
    requires 0.0 <= p.x <= DesignSize && 0.0 <= p.y <= DesignSize
    ensures InRect(Rect(0.0, 0.0, w, h), TransformPoint(t, p))
  {
    CentredCoordinate(p.x, t.scale, t.offsetX, w);
    CentredCoordinate(p.y, t.scale, t.offsetY, h);
  }

  /** One coordinate of the design box, scaled and offset, stays within [0, extent]. */
  lemma CentredCoordinate(v: real, scale: real, offset: real, extent: real)
    requires 0.0 <= v <= DesignSize && scale >= 0.0 && offset >= 0.0
    requires 2.0 * offset + DesignSize * scale == extent
    ensures 0.0 <= v * scale + offset <= extent
  {
    MulNonNegative(v, scale);
    MulNonNegative(DesignSize - v, scale);
  }

  /** A design-box rectangle scaled by the transform: origin and size both scaled, offsets added. */
  function TransformRect(t: Transform, r: Rect): Rect {
    Rect(r.x * t.scale + t.offsetX, r.y * t.scale + t.offsetY, r.width * t.scale, r.height * t.scale)
  }

  /**
   * The path operation one outline element becomes. Every point goes
   * through `transformPoint`; radii, corner sizes and rectangle sizes are
   * scaled; angles and direction are kept.
   */
  function ElementOp(t: Transform, e: PathElement): (op: PathOp)
    ensures e.Move? || e.Line? || e.Curve? || e.QuadCurve? ==> EndPoint(op) == Some(TransformPoint(t, e.to))
    ensures e.Move? <==> op.MoveTo?
    ensures e.Line? <==> op.LineTo?
    ensures e.Curve? <==> op.CurveTo?
    ensures e.QuadCurve? <==> op.QuadTo?
    ensures e.Arc? <==> op.ArcAround?
    ensures e.Close? <==> op.CloseSubpath?
    ensures e.Circle? || e.Ellipse? <==> op.EllipseIn?
    ensures e.RoundedRect? <==> op.RoundedRectIn?
  {
    match e
    case Move(to) => MoveTo(TransformPoint(t, to))
    case Line(to) => LineTo(TransformPoint(t, to))
    case Curve(to, c1, c2) => CurveTo(TransformPoint(t, to), TransformPoint(t, c1), TransformPoint(t, c2))
    case QuadCurve(to, c) => QuadTo(TransformPoint(t, to), TransformPoint(t, c))
    case Arc(center, radius, a0, a1, cw) => ArcAround(TransformPoint(t, center), radius * t.scale, a0, a1, cw)
    case Close => CloseSubpath
    case Circle(center, radius) =>
      var c := TransformPoint(t, center);
      EllipseIn(Rect(c.x - radius * t.scale, c.y - radius * t.scale, radius * t.scale * 2.0, radius * t.scale * 2.0))
    case RoundedRect(r, corner) => RoundedRectIn(TransformRect(t, r), Size(corner * t.scale, corner * t.scale))
    case Ellipse(r) => EllipseIn(TransformRect(t, r))
  }

  /** The control points of curves go through the same transform as their end points. */
  lemma ControlPointsTransformed(t: Transform, e: PathElement)
    ensures e.Curve? ==> ElementOp(t, e).control1 == TransformPoint(t, e.control1) &&
                         ElementOp(t, e).control2 == TransformPoint(t, e.control2)
    ensures e.QuadCurve? ==> ElementOp(t, e).control == TransformPoint(t, e.control)
    ensures e.Arc? ==> ElementOp(t, e).center == TransformPoint(t, e.center) &&
                       ElementOp(t, e).radius == e.radius * t.scale
  {
  }

  /**
   * A circle becomes the ellipse in the square of side `2 * radius * scale`
   * centred on the transformed centre.
   */
  lemma CircleBecomesSquareEllipse(t: Transform, center: Point, radius: real)
    ensures var r := ElementOp(t, Circle(center, radius)).rect;
            r.width == r.height == 2.0 * radius * t.scale &&
            Point(r.x + r.width / 2.0, r.y + r.height / 2.0) == TransformPoint(t, center)
  {
  }

  /**
   * A rectangle or an ellipse keeps its shape: its origin is transformed
   * like a point and its size is scaled.
   */
  lemma BoxesScaled(t: Transform, e: PathElement)
    requires e.RoundedRect? || e.Ellipse?
    ensures var r := ElementOp(t, e).rect;
            Point(r.x, r.y) == TransformPoint(t, Point(e.rect.x, e.rect.y)) &&
            r.width == e.rect.width * t.scale && r.height == e.rect.height * t.scale
    ensures e.RoundedRect? ==> ElementOp(t, e).corner == Size(e.cornerRadius * t.scale, e.cornerRadius * t.scale)
  {
  }

  /**
   * `ColoringShape.path(in:)`: one operation per outline element, in order,
   * all under the transform that fits the design box to `rect`.
   */
  method ShapePath(paths: seq<PathElement>, rect: Rect) returns (path: seq<PathOp>)
    ensures |path| == |paths|
    ensures forall i :: 0 <= i < |paths| ==> path[i] == ElementOp(FitTransform(rect), paths[i])
  {
    var scale := Min(rect.width, rect.height) / DesignSize;
    var offsetX := (rect.width - DesignSize * scale) / 2.0;
    var offsetY := (rect.height - DesignSize * scale) / 2.0;
    var t := Transform(scale, offsetX, offsetY);
    path := [];
    for k := 0 to |paths|
      invariant |path| == k
      invariant forall i :: 0 <= i < k ==> path[i] == ElementOp(t, paths[i])
    {
      path := path + [ElementOp(t, paths[k])];
    }
  }
}
