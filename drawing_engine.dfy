/**
 * The curve utilities of `DrawingEngine`
 * (ToddlerColoring/Utilities/DrawingEngine.swift). Each routine builds its
 * result step by step in a loop, as the source does, and is proved to
 * return what a specification function describes; the lemmas state what
 * those functions promise: the segment structure of the two smoothing
 * paths, the collapse of Catmull-Rom control points, the spacing and
 * end points of a simplified point list, and the tightness of a bounding
 * box.
 */
module DrawingEngine {
  import opened Geometry

  // ---------------------------------------------------------------------
  // smoothPath

  /**
   * The quadratic pieces of the midpoint chain over points[..k]: for each
   * i in 1..k-1, a curve to the midpoint of points[i-1] and points[i],
   * with points[i-1] as its control point.
   */
  function MidpointQuads(points: seq<Point>, k: nat): (quads: seq<PathOp>)
    requires 1 <= k <= |points|
    ensures |quads| == k - 1
    ensures forall j :: 0 <= j < k - 1 ==> quads[j] == QuadTo(Midpoint(points[j], points[j + 1]), points[j])
  {
    if k == 1 then []
    else MidpointQuads(points, k - 1) + [QuadTo(Midpoint(points[k - 2], points[k - 1]), points[k - 2])]
  }

  /**
   * The path of `smoothPath`: nothing for no point, a move for one, a
   * move and a line for two; for more, a move to the first point, one
   * quadratic curve per later point ending at consecutive midpoints, and
   * a line to the last point.
   */
  function SmoothSegments(points: seq<Point>): (path: seq<PathOp>)
    ensures |points| == 0 ==> path == []
    ensures |points| == 1 ==> path == [MoveTo(points[0])]
    ensures |points| == 2 ==> path == [MoveTo(points[0]), LineTo(points[1])]
    ensures |points| >= 3 ==>
              |path| == |points| + 1 &&
              path[0] == MoveTo(points[0]) &&
              (forall i :: 1 <= i < |points| ==> path[i] == QuadTo(Midpoint(points[i - 1], points[i]), points[i - 1])) &&
              path[|points|] == LineTo(points[|points| - 1])
  {
    if |points| == 0 then []
    else if |points| == 1 then [MoveTo(points[0])]
    else if |points| == 2 then [MoveTo(points[0]), LineTo(points[1])]
    else [MoveTo(points[0])] + MidpointQuads(points, |points|) + [LineTo(points[|points| - 1])]
  }

  /**
   * In a chain of three or more points each quadratic piece starts where
   * the one before it ended: piece i+1 has as control the point whose
   * midpoint with its predecessor ended piece i, and every midpoint lies
   * halfway between the two points it joins.
   */
  lemma SmoothChainJoins(points: seq<Point>, i: nat)
    requires |points| >= 3 && 1 <= i < |points| - 1
    ensures var path := SmoothSegments(points);
            EndPoint(path[i]) == Some(Midpoint(points[i - 1], points[i])) &&
            path[i + 1].control == points[i] &&
            SqDist(Midpoint(points[i - 1], points[i]), points[i]) == SqDist(Midpoint(points[i - 1], points[i]), points[i - 1])
  {
    var path := SmoothSegments(points);
    assert path[i] == QuadTo(Midpoint(points[i - 1], points[i]), points[i - 1]);
    assert path[i + 1] == QuadTo(Midpoint(points[i], points[i + 1]), points[i]);
    MidpointHalfway(points[i - 1], points[i]);
  }

  /** `smoothPath(points:tension:)`; the tension argument is not used by the source. */
  method SmoothPath(points: seq<Point>) returns (path: seq<PathOp>)
    ensures path == SmoothSegments(points)
  {
    path := [];
    if |points| <= 1 {
      if |points| == 1 {
        path := path + [MoveTo(points[0])];
      }
      return;
    }
    path := path + [MoveTo(points[0])];
    if |points| == 2 {
      path := path + [LineTo(points[1])];
      return;
    }
    for i := 1 to |points|
      invariant path == [MoveTo(points[0])] + MidpointQuads(points, i)
    {
      var previousPoint := points[i - 1];
      var currentPoint := points[i];
      var midPoint := Point((previousPoint.x + currentPoint.x) / 2.0, (previousPoint.y + currentPoint.y) / 2.0);
      path := path + [QuadTo(midPoint, previousPoint)];
    }
    path := path + [LineTo(points[|points| - 1])];
  }

  // ---------------------------------------------------------------------
  // catmullRomPath

  /** Powered distances at or below this make a control point collapse onto its end point. */
  const ControlEpsilon: real := 0.0001

  /** Division by a product of two positive reals, in both directions. */
  lemma DivBy(num: real, a: real, b: real, q: real)
    requires a > 0.0 && b > 0.0
    requires num == q * (a * b) || q == num / (a * b)
    ensures num / (a * b) == q && num == q * (a * b)
  {
    MulPositive(a, b);
  }

  /**
   * One coordinate of a Bezier control point of the centripetal
   * Catmull-Rom conversion: v1 is the end point it belongs to, v2 the other
   * end of the segment, v0 the point before v1, and da, db the powered
   * lengths of the edges v0-v1 and v1-v2.
   */
  function Blend(v0: real, v1: real, v2: real, da: real, db: real): real
    requires da > 0.0 && db > 0.0
  {
    MulPositive(3.0 * da, da + db);
    (da * da * v2 - db * db * v0 + (2.0 * da * da + 3.0 * da * db + db * db) * v1) / (3.0 * da * (da + db))
  }

  /**
   * A control point: the blend when both powered lengths exceed
   * ControlEpsilon, otherwise the end point p1 itself.
   */
  function Control(p0: Point, p1: Point, p2: Point, da: real, db: real): (b: Point)
    ensures !(da > ControlEpsilon && db > ControlEpsilon) ==> b == p1
  {
    if da > ControlEpsilon && db > ControlEpsilon then
      Point(Blend(p0.x, p1.x, p2.x, da, db), Blend(p0.y, p1.y, p2.y, da, db))
    else p1
  }

  /** For three equal coordinates the blend is that coordinate, whatever the lengths. */
  lemma BlendConstant(v: real, da: real, db: real)
    requires da > 0.0 && db > 0.0
    ensures Blend(v, v, v, da, db) == v
  {
    DivBy(da * da * v - db * db * v + (2.0 * da * da + 3.0 * da * db + db * db) * v, 3.0 * da, da + db, v);
  }

  /** Shifting the three coordinates shifts the blend by the same amount. */
  lemma BlendTranslate(v0: real, v1: real, v2: real, c: real, da: real, db: real)
    requires da > 0.0 && db > 0.0
    ensures Blend(v0 + c, v1 + c, v2 + c, da, db) == Blend(v0, v1, v2, da, db) + c
  {
    var num := da * da * v2 - db * db * v0 + (2.0 * da * da + 3.0 * da * db + db * db) * v1;
    DivBy(num, 3.0 * da, da + db, Blend(v0, v1, v2, da, db));
    DivBy(da * da * (v2 + c) - db * db * (v0 + c) + (2.0 * da * da + 3.0 * da * db + db * db) * (v1 + c),
          3.0 * da, da + db, Blend(v0, v1, v2, da, db) + c);
  }

  /** The point moved by the vector t. */
  function Shift(p: Point, t: Point): Point {
    Point(p.x + t.x, p.y + t.y)
  }

  /**
   * A control point moves with its three points: shifting them shifts it
   * by the same vector, and when the three coincide it is that point.
   */
  lemma ControlMovesWithPoints(p0: Point, p1: Point, p2: Point, t: Point, da: real, db: real)
    ensures Control(Shift(p0, t), Shift(p1, t), Shift(p2, t), da, db) == Shift(Control(p0, p1, p2, da, db), t)
    ensures p0 == p1 == p2 ==> Control(p0, p1, p2, da, db) == p1
  {
    if da > ControlEpsilon && db > ControlEpsilon {
      BlendTranslate(p0.x, p1.x, p2.x, t.x, da, db);
      BlendTranslate(p0.y, p1.y, p2.y, t.y, da, db);
      BlendConstant(p1.x, da, db);
      BlendConstant(p1.y, da, db);
    }
  }

  /**
   * Segment i of `catmullRomPath` (for 0 <= i < |points| - 1): a cubic
   * curve from points[i] to points[i+1]. The neighbours p0 and p3 are
   * clamped to points[0] at the start and to points[i+1] at the end;
   * `powLength(v)` stands for `pow(length(v), alpha)` of the edge vector v.
   */
  function CatmullSegment(points: seq<Point>, powLength: Point -> real, i: nat): (op: PathOp)
    requires i < |points| - 1
    ensures op.CurveTo? && op.to == points[i + 1]
    ensures i == 0 && powLength(Point(0.0, 0.0)) <= ControlEpsilon ==> op.control1 == points[0]
    ensures i + 2 == |points| && powLength(Point(0.0, 0.0)) <= ControlEpsilon ==> op.control2 == points[i + 1]
    ensures powLength(Point(points[i + 1].x - points[i].x, points[i + 1].y - points[i].y)) <= ControlEpsilon ==>
              op.control1 == points[i] && op.control2 == points[i + 1]
  {
    var p0 := if i > 0 then points[i - 1] else points[0];
    var p1 := points[i];
    var p2 := points[i + 1];
    var p3 := if i + 2 < |points| then points[i + 2] else points[i + 1];
    var d1a := powLength(Point(p1.x - p0.x, p1.y - p0.y));
    var d2a := powLength(Point(p2.x - p1.x, p2.y - p1.y));
    var d3a := powLength(Point(p3.x - p2.x, p3.y - p2.y));
    CurveTo(p2, Control(p0, p1, p2, d1a, d2a), Control(p3, p2, p1, d3a, d2a))
  }

  /** The first k Catmull-Rom segments. */
  function CatmullCurves(points: seq<Point>, powLength: Point -> real, k: nat): (curves: seq<PathOp>)
    requires k <= |points| - 1
    ensures |curves| == k
    ensures forall j :: 0 <= j < k ==> curves[j] == CatmullSegment(points, powLength, j)
  {
    if k == 0 then []
    else CatmullCurves(points, powLength, k - 1) + [CatmullSegment(points, powLength, k - 1)]
  }

  /**
   * The path of `catmullRomPath`: nothing for fewer than two points, a
   * move and a line for two, and for more a move to the first point
   * followed by exactly one cubic segment per later point, segment i
   * ending at points[i+1].
   */
  function CatmullSegments(points: seq<Point>, powLength: Point -> real): (path: seq<PathOp>)
    ensures |points| < 2 ==> path == []
    ensures |points| == 2 ==> path == [MoveTo(points[0]), LineTo(points[1])]
    ensures |points| >= 3 ==>
              |path| == |points| && path[0] == MoveTo(points[0]) &&
              forall i :: 0 <= i < |points| - 1 ==>
                path[i + 1] == CatmullSegment(points, powLength, i) && EndPoint(path[i + 1]) == Some(points[i + 1])
  {
    if |points| < 2 then []
    else if |points| == 2 then [MoveTo(points[0]), LineTo(points[1])]
    else [MoveTo(points[0])] + CatmullCurves(points, powLength, |points| - 1)
  }

  /**
   * A path that visits a point twice in a row, with `pow(0, alpha) = 0`,
   * has a straight segment there: both its control points are its ends.
   */
  lemma RepeatedPointGivesFlatSegment(points: seq<Point>, powLength: Point -> real, i: nat)
    requires i < |points| - 1 && points[i] == points[i + 1]
    requires powLength(Point(0.0, 0.0)) == 0.0
    ensures var op := CatmullSegment(points, powLength, i);
            op.control1 == points[i] && op.control2 == points[i] && op.to == points[i]
  {
    var v := Point(points[i + 1].x - points[i].x, points[i + 1].y - points[i].y);
    assert v == Point(0.0, 0.0);
    assert powLength(v) <= ControlEpsilon;
  }

  /** The body of the loop of `catmullRomPath`: segment i, with its two control points. */
  method CatmullCurve(points: seq<Point>, powLength: Point -> real, i: nat) returns (segment: PathOp)
    requires i < |points| - 1
    ensures segment == CatmullSegment(points, powLength, i)
  {
    var p0 := if i > 0 then points[i - 1] else points[0];
    var p1 := points[i];
    var p2 := points[i + 1];
    var p3 := if i + 2 < |points| then points[i + 2] else points[i + 1];
    var d1a := powLength(Point(p1.x - p0.x, p1.y - p0.y));
    var d2a := powLength(Point(p2.x - p1.x, p2.y - p1.y));
    var d3a := powLength(Point(p3.x - p2.x, p3.y - p2.y));
    var b1: Point;
    var b2: Point;
    if d1a > ControlEpsilon && d2a > ControlEpsilon {
      b1 := Point(Blend(p0.x, p1.x, p2.x, d1a, d2a), Blend(p0.y, p1.y, p2.y, d1a, d2a));
    } else {
      b1 := p1;
    }
    if d3a > ControlEpsilon && d2a > ControlEpsilon {
      b2 := Point(Blend(p3.x, p2.x, p1.x, d3a, d2a), Blend(p3.y, p2.y, p1.y, d3a, d2a));
    } else {
      b2 := p2;
    }
    segment := CurveTo(p2, b1, b2);
  }

  /** `catmullRomPath(points:alpha:)`, with `pow(length(v), alpha)` supplied as `powLength`. */
  method CatmullRomPath(points: seq<Point>, powLength: Point -> real) returns (path: seq<PathOp>)
    ensures path == CatmullSegments(points, powLength)
  {
    path := [];
    if |points| < 2 {
      return;
    }
    path := path + [MoveTo(points[0])];
    if |points| == 2 {
      path := path + [LineTo(points[1])];
      return;
    }
    for i := 0 to |points| - 1
      invariant path == [MoveTo(points[0])] + CatmullCurves(points, powLength, i)
    {
      var segment := CatmullCurve(points, powLength, i);
      path := path + [segment];
    }
  }

  // ---------------------------------------------------------------------
  // simplifyPoints

  /** a is a subsequence of b: b with some elements removed. */
  predicate IsSubsequence(a: seq<Point>, b: seq<Point>)
    decreases |b|
  {
    if |a| == 0 then true
    else if |b| == 0 then false
    else (a[|a| - 1] == b[|b| - 1] && IsSubsequence(a[..|a| - 1], b[..|b| - 1])) || IsSubsequence(a, b[..|b| - 1])
  }

  lemma SubsequenceExtend(a: seq<Point>, b: seq<Point>, x: Point)
    requires IsSubsequence(a, b)
    ensures IsSubsequence(a, b + [x]) && IsSubsequence(a + [x], b + [x])
  {
    assert (b + [x])[..|b|] == b;
    assert (a + [x])[..|a|] == a;
  }

  /** A subsequence is no longer than the sequence it is taken from. */
  lemma {:induction false} SubsequenceShorter(a: seq<Point>, b: seq<Point>)
    requires IsSubsequence(a, b)
    ensures |a| <= |b|
    decreases |b|
  {
    if |a| > 0 {
      if a[|a| - 1] == b[|b| - 1] && IsSubsequence(a[..|a| - 1], b[..|b| - 1]) {
        SubsequenceShorter(a[..|a| - 1], b[..|b| - 1]);
      } else {
        SubsequenceShorter(a, b[..|b| - 1]);
      }
    }
  }

  /**
   * The greedy phase of `simplifyPoints` after looking at points[..k]:
   * the first point, then every later point at distance at least
   * `tolerance` from the point kept before it.
   */
  function Greedy(points: seq<Point>, tolerance: real, k: nat): (kept: seq<Point>)
    requires 1 <= k <= |points|
    ensures 1 <= |kept| <= k && kept[0] == points[0]
    ensures forall j :: 0 <= j < |kept| - 1 ==> AtLeastApart(kept[j + 1], kept[j], tolerance)
  {
    if k == 1 then [points[0]]
    else
      var before := Greedy(points, tolerance, k - 1);
      if AtLeastApart(points[k - 1], before[|before| - 1], tolerance) then before + [points[k - 1]] else before
  }

  lemma {:induction false} GreedySubsequence(points: seq<Point>, tolerance: real, k: nat)
    requires 1 <= k <= |points|
    ensures IsSubsequence(Greedy(points, tolerance, k), points[..k])
  {
    if k == 1 {
      assert IsSubsequence([points[0]][..0], points[..1][..0]);
    } else {
      GreedySubsequence(points, tolerance, k - 1);
      assert points[..k] == points[..k - 1] + [points[k - 1]];
      SubsequenceExtend(Greedy(points, tolerance, k - 1), points[..k - 1], points[k - 1]);
    }
  }

  /**
   * The result of `simplifyPoints`: lists of at most two points come back
   * as they are; otherwise the greedy selection, followed by the last
   * point when the selection does not already end with it.
   */
  function Simplified(points: seq<Point>, tolerance: real): (r: seq<Point>)
    ensures |points| <= 2 ==> r == points
  {
    if |points| <= 2 then points
    else
      var kept := Greedy(points, tolerance, |points|);
      if kept[|kept| - 1] != points[|points| - 1] then kept + [points[|points| - 1]] else kept
  }

  /**
   * A simplified list of three or more points is a subsequence of them,
   * starts with the first point and ends with the last.
   */
  lemma SimplifiedShape(points: seq<Point>, tolerance: real)
    requires |points| >= 3
    ensures var r := Simplified(points, tolerance);
            IsSubsequence(r, points) && |r| <= |points| &&
            r[0] == points[0] && r[|r| - 1] == points[|points| - 1]
  {
    var n := |points|;
    var r := Simplified(points, tolerance);
    var kept := Greedy(points, tolerance, n);
    assert points[..n] == points;
    GreedySubsequence(points, tolerance, n);
    if kept[|kept| - 1] != points[n - 1] {
      // The last point was not kept, so the selection equals the one over points[..n-1].
      var before := Greedy(points, tolerance, n - 1);
      assert kept == before;
      GreedySubsequence(points, tolerance, n - 1);
      assert points[..n - 1] + [points[n - 1]] == points;
      SubsequenceExtend(before, points[..n - 1], points[n - 1]);
    }
    SubsequenceShorter(r, points);
  }

  /**
   * Every point of the greedy phase after the first is at least
   * `tolerance` from the one before it; only the final point may be closer.
   */
  lemma SimplifiedSpacing(points: seq<Point>, tolerance: real, j: nat)
    requires |points| >= 3 && j + 2 < |Simplified(points, tolerance)|
    ensures AtLeastApart(Simplified(points, tolerance)[j + 1], Simplified(points, tolerance)[j], tolerance)
  {
    var kept := Greedy(points, tolerance, |points|);
    assert Simplified(points, tolerance)[..|kept|] == kept;
    assert Simplified(points, tolerance)[j + 1] == kept[j + 1] && Simplified(points, tolerance)[j] == kept[j];
  }

  /** `simplifyPoints(_:tolerance:)`. */
  method SimplifyPoints(points: seq<Point>, tolerance: real) returns (simplified: seq<Point>)
    ensures simplified == Simplified(points, tolerance)
  {
    if |points| <= 2 {
      return points;
    }
    simplified := [points[0]];
    for i := 1 to |points|
      invariant simplified == Greedy(points, tolerance, i)
    {
      var lastPoint := simplified[|simplified| - 1];
      var currentPoint := points[i];
      if AtLeastApart(currentPoint, lastPoint, tolerance) {
        simplified := simplified + [currentPoint];
      }
    }
    var last := points[|points| - 1];
    if simplified[|simplified| - 1] != last {
      simplified := simplified + [last];
    }
  }

  // ---------------------------------------------------------------------
  // boundingBox

  /**
   * `boundingBox(of:)`: the zero rectangle for no points; otherwise the
   * smallest rectangle holding them all, each of its four sides touched
   * by some point.
   */
  method BoundingBox(points: seq<Point>) returns (r: Rect)
    ensures |points| == 0 ==> r == ZeroRect
    ensures |points| > 0 ==> r.width >= 0.0 && r.height >= 0.0
    ensures forall i :: 0 <= i < |points| ==> InRect(r, points[i])
    ensures |points| > 0 ==>
              (exists i :: 0 <= i < |points| && points[i].x == r.x) &&
              (exists i :: 0 <= i < |points| && points[i].y == r.y) &&
              (exists i :: 0 <= i < |points| && points[i].x == r.x + r.width) &&
              (exists i :: 0 <= i < |points| && points[i].y == r.y + r.height)
  {
    if |points| == 0 {
      return ZeroRect;
    }
    var minX, minY, maxX, maxY := points[0].x, points[0].y, points[0].x, points[0].y;
    ghost var iMinX, iMinY, iMaxX, iMaxY := 0, 0, 0, 0;
    for k := 1 to |points|
      invariant minX <= maxX && minY <= maxY
      invariant forall i :: 0 <= i < k ==> minX <= points[i].x <= maxX && minY <= points[i].y <= maxY
      invariant 0 <= iMinX < k && points[iMinX].x == minX
      invariant 0 <= iMinY < k && points[iMinY].y == minY
      invariant 0 <= iMaxX < k && points[iMaxX].x == maxX
      invariant 0 <= iMaxY < k && points[iMaxY].y == maxY
    {
      var point := points[k];
      if point.x < minX { minX, iMinX := point.x, k; }
      if point.y < minY { minY, iMinY := point.y, k; }
      if point.x > maxX { maxX, iMaxX := point.x, k; }
      if point.y > maxY { maxY, iMaxY := point.y, k; }
    }
    r := Rect(minX, minY, maxX - minX, maxY - minY);
  }
}
