/**
 * The logic of the drawing canvas (ToddlerColoring/Components/DrawingCanvas.swift):
 * the path `drawStroke` builds for a stroke, and the drag handlers that
 * clamp the touch point to the canvas and start, continue or end the
 * stroke of the view model.
 */
module DrawingCanvas {
  import opened Geometry
  import opened Strokes
  import opened DrawingEngine
  import CS = CanvasState
  import ViewModel

  // ---------------------------------------------------------------------
  // drawStroke

  /** The square of side `width` centred on p that a one-point stroke is drawn as. */
  function DotRect(p: Point, width: real): (r: Rect)
    ensures r.width == width && r.height == width
    ensures Point(r.x + r.width / 2.0, r.y + r.height / 2.0) == p
  {
    Rect(p.x - width / 2.0, p.y - width / 2.0, width, width)
  }

  /**
   * The path `drawStroke` strokes: nothing for no point, a dot for one,
   * and otherwise the same midpoint chain as `smoothPath`.
   */
  function StrokePath(stroke: Stroke): (path: seq<PathOp>)
    ensures |stroke.points| == 0 ==> path == []
    ensures |stroke.points| == 1 ==> path == [EllipseIn(DotRect(stroke.points[0], stroke.width))]
    ensures |stroke.points| != 1 ==> path == SmoothSegments(stroke.points)
  {
    var points := stroke.points;
    if |points| == 0 then []
    else if |points| == 1 then [EllipseIn(DotRect(points[0], stroke.width))]
    else if |points| == 2 then [MoveTo(points[0]), LineTo(points[1])]
    else [MoveTo(points[0])] + MidpointQuads(points, |points|) + [LineTo(points[|points| - 1])]
  }

  /** A stroke of two or more points is drawn from its first point and ends with a line to its last. */
  lemma StrokePathEnds(stroke: Stroke)
    requires |stroke.points| >= 2
    ensures var path := StrokePath(stroke);
            path[0] == MoveTo(stroke.points[0]) &&
            path[|path| - 1] == LineTo(stroke.points[|stroke.points| - 1]) &&
            |path| == if |stroke.points| == 2 then 2 else |stroke.points| + 1
  {
  }

  /** The path construction of `drawStroke(_:in:size:)`, without the final `context.stroke`. */
  method DrawStroke(stroke: Stroke) returns (path: seq<PathOp>)
    ensures path == StrokePath(stroke)
  {
    path := [];
    if |stroke.points| == 0 {
      return;
    }
    if |stroke.points| == 1 {
      var point := stroke.points[0];
      var rect := Rect(point.x - stroke.width / 2.0, point.y - stroke.width / 2.0, stroke.width, stroke.width);
      path := path + [EllipseIn(rect)];
    } else {
      path := path + [MoveTo(stroke.points[0])];
      if |stroke.points| == 2 {
        path := path + [LineTo(stroke.points[1])];
      } else {
        for i := 1 to |stroke.points|
          invariant path == [MoveTo(stroke.points[0])] + MidpointQuads(stroke.points, i)
        {
          var mid := Point((stroke.points[i - 1].x + stroke.points[i].x) / 2.0,
                           (stroke.points[i - 1].y + stroke.points[i].y) / 2.0);
          path := path + [QuadTo(mid, stroke.points[i - 1])];
        }
        path := path + [LineTo(stroke.points[|stroke.points| - 1])];
      }
    }
  }

  // ---------------------------------------------------------------------
  // handleDrag and handleDragEnd

  /** The canvas of the given size contains p. */
  predicate OnCanvas(size: Size, p: Point) {
    InRect(Rect(0.0, 0.0, size.width, size.height), p)
  }

  /** The clamp of `handleDrag`: each coordinate is `max(0, min(extent, coordinate))`. */
  function Clamp(p: Point, size: Size): (r: Point)
    ensures r.x >= 0.0 && r.y >= 0.0
  {
    Point(Max(0.0, Min(size.width, p.x)), Max(0.0, Min(size.height, p.y)))
  }

  /**
   * On a canvas of non-negative size the clamp lands on the canvas, leaves
   * points already on it where they are, and clamping twice is clamping once.
   */
  lemma ClampOntoCanvas(p: Point, size: Size)
    requires size.width >= 0.0 && size.height >= 0.0
    ensures OnCanvas(size, Clamp(p, size))
    ensures OnCanvas(size, p) ==> Clamp(p, size) == p
    ensures Clamp(Clamp(p, size), size) == Clamp(p, size)
  {
  }

  /** The effect of one drag event on the view model's state. */
  function Drag(s: CS.ViewState, location: Point, size: Size): (r: CS.ViewState)
    ensures s.currentStroke.None? ==> r == CS.StartStroke(s, Clamp(location, size))
    ensures s.currentStroke.Some? ==> r == CS.ContinueStroke(s, Clamp(location, size))
  {
    var clampedPoint := Clamp(location, size);
    if s.currentStroke.None? then CS.StartStroke(s, clampedPoint) else CS.ContinueStroke(s, clampedPoint)
  }

  /**
   * `handleDrag(_:in:)`: clamp the touch point, then start a stroke there
   * when none is in progress and continue the current one otherwise.
   */
  method HandleDrag(vm: ViewModel.ColoringViewModel, location: Point, size: Size)
    requires vm.Valid()
    modifies vm
    ensures vm.Valid() && vm.State() == Drag(old(vm.State()), location, size)
  {
    var clampedPoint := Clamp(location, size);
    if vm.currentStroke.None? {
      vm.StartStroke(clampedPoint);
    } else {
      vm.ContinueStroke(clampedPoint);
    }
  }

  /** `handleDragEnd(_:in:)`: the stroke in progress, if any, is ended. */
  method HandleDragEnd(vm: ViewModel.ColoringViewModel)
    requires vm.Valid()
    modifies vm
    ensures vm.Valid() && vm.State() == CS.EndStroke(old(vm.State()))
  {
    vm.EndStroke();
  }

  /** A sequence of drag events. */
  function Drags(s: CS.ViewState, locations: seq<Point>, size: Size): CS.ViewState
    decreases |locations|
  {
    if |locations| == 0 then s else Drags(Drag(s, locations[0], size), locations[1..], size)
  }

  predicate AllOnCanvas(size: Size, points: seq<Point>) {
    forall i :: 0 <= i < |points| ==> OnCanvas(size, points[i])
  }

  /** Every point of every stroke, finished or in progress, is on the canvas. */
  predicate DrawingOnCanvas(s: CS.ViewState, size: Size) {
    (forall k :: 0 <= k < |s.strokes| ==> AllOnCanvas(size, s.strokes[k].points)) &&
    (s.currentStroke.Some? ==> AllOnCanvas(size, s.currentStroke.value.points))
  }

  /** A drag event never puts a point off the canvas. */
  lemma DragStaysOnCanvas(s: CS.ViewState, location: Point, size: Size)
    requires size.width >= 0.0 && size.height >= 0.0 && DrawingOnCanvas(s, size)
    ensures DrawingOnCanvas(Drag(s, location, size), size)
  {
    ClampOntoCanvas(location, size);
  }

  /**
   * A whole gesture, any number of drags and then the end of the drag,
   * leaves every stroke of the drawing on the canvas, wherever the finger went.
   */
  lemma {:induction false} GestureStaysOnCanvas(s: CS.ViewState, locations: seq<Point>, size: Size)
    requires size.width >= 0.0 && size.height >= 0.0 && DrawingOnCanvas(s, size)
    ensures DrawingOnCanvas(Drags(s, locations, size), size)
    ensures DrawingOnCanvas(CS.EndStroke(Drags(s, locations, size)), size)
    decreases |locations|
  {
    if |locations| > 0 {
      DragStaysOnCanvas(s, locations[0], size);
      GestureStaysOnCanvas(Drag(s, locations[0], size), locations[1..], size);
    }
  }
}
