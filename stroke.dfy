/**
 * The drawing tools (ToddlerColoring/Components/ToolBar.swift) and one
 * stroke of the canvas (the `Stroke` struct of
 * ToddlerColoring/Components/DrawingCanvas.swift).
 */
module Strokes {
  import opened Geometry

  /** The three tools of the tool bar. */
  datatype DrawingTool = Brush | Fill | Eraser

  /** A SwiftUI colour given by its red, green, blue and opacity components. */
  datatype Color = Color(red: real, green: real, blue: real, opacity: real)

  const White: Color := Color(1.0, 1.0, 1.0, 1.0)

  /** The first colour of the palette, `Color(red: 1.0, green: 0.2, blue: 0.2)`. */
  const PaletteRed: Color := Color(1.0, 0.2, 0.2, 1.0)

  /** The points of one stroke, its colour, its line width and the tool that drew it. */
  datatype Stroke = Stroke(points: seq<Point>, color: Color, width: real, tool: DrawingTool)

  /**
   * `Stroke.init`: the eraser paints white with twice the brush width; the
   * other tools keep the colour and width they are given. Points and tool
   * are stored as given.
   */
  function MakeStroke(points: seq<Point>, color: Color, width: real, tool: DrawingTool): (s: Stroke)
    ensures s.points == points && s.tool == tool
    ensures tool == Eraser ==> s.color == White && s.width == 2.0 * width
    ensures tool != Eraser ==> s.color == color && s.width == width
  {
    if tool == Eraser then Stroke(points, White, width * 2.0, tool)
    else Stroke(points, color, width, tool)
  }

  /** An eraser stroke does not depend on the selected colour. */
  lemma EraserIgnoresColor(points: seq<Point>, c1: Color, c2: Color, width: real)
    ensures MakeStroke(points, c1, width, Eraser) == MakeStroke(points, c2, width, Eraser)
  {
  }

  /** Adding points to a stroke after it is made is the same as making it with those points. */
  lemma MakeStrokeAppend(points: seq<Point>, p: Point, color: Color, width: real, tool: DrawingTool)
    ensures MakeStroke(points, color, width, tool).(points := points + [p]) ==
            MakeStroke(points + [p], color, width, tool)
  {
  }
}
