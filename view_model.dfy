/**
 * The class `ColoringViewModel` (ToddlerColoring/Models/ColoringViewModel.swift):
 * its stored properties are fields that its methods update in place. Each
 * method is proved to move the fields from one state to the next exactly
 * as the matching function of module CanvasState says, and to keep the
 * history bounded.
 */
module ViewModel {
  import opened Geometry
  import opened Strokes
  import opened ColoringPages
  import CS = CanvasState

  class ColoringViewModel {
    var strokes: seq<Stroke>
    var currentStroke: Option<Stroke>
    var selectedColor: Color
    var brushSize: real
    var currentTool: DrawingTool
    var currentColoringPage: Option<ColoringPage>
    var undoStack: seq<seq<Stroke>>

    /** The history never holds more than `maxUndoSteps` snapshots. */
    ghost predicate Valid()
      reads this
    {
      |undoStack| <= CS.MaxUndoSteps
    }

    /** The fields, as one value. */
    function State(): (s: CS.ViewState)
      reads this
      ensures Valid() <==> CS.Bounded(s)
    {
      CS.ViewState(strokes, currentStroke, selectedColor, brushSize, currentTool, currentColoringPage, undoStack)
    }

    /** A new view model: nothing drawn, the first palette colour, brush size 25, the brush. */
    constructor()
      ensures Valid() && State() == CS.Initial
    {
      strokes := [];
      currentStroke := None;
      selectedColor := PaletteRed;
      brushSize := CS.DefaultBrushSize;
      currentTool := Brush;
      currentColoringPage := None;
      undoStack := [];
    }

    method SelectColor(color: Color)
      requires Valid()
      modifies this
      ensures Valid() && State() == CS.SelectColor(old(State()), color)
    {
      selectedColor := color;
      if currentTool == Eraser {
        currentTool := Brush;
      }
    }

    method SelectTool(tool: DrawingTool)
      requires Valid()
      modifies this
      ensures Valid() && State() == CS.SelectTool(old(State()), tool)
    {
      currentTool := tool;
    }

    method SetBrushSize(size: real)
      requires Valid()
      modifies this
      ensures Valid() && State() == CS.SetBrushSize(old(State()), size)
    {
      brushSize := size;
    }

    method StartStroke(point: Point)
      requires Valid()
      modifies this
      ensures Valid() && State() == CS.StartStroke(old(State()), point)
    {
      var stroke := MakeStroke([point], selectedColor, brushSize, currentTool);
      currentStroke := Some(stroke);
    }

    method ContinueStroke(point: Point)
      requires Valid()
      modifies this
      ensures Valid() && State() == CS.ContinueStroke(old(State()), point)
    {
      if currentStroke.None? {
        return;
      }
      var stroke := currentStroke.value;
      if |stroke.points| > 0 {
        var lastPoint := stroke.points[|stroke.points| - 1];
        if FartherThan(point, lastPoint, CS.MinPointDistance) {
          stroke := stroke.(points := stroke.points + [point]);
          currentStroke := Some(stroke);
        }
      } else {
        stroke := stroke.(points := stroke.points + [point]);
        currentStroke := Some(stroke);
      }
    }

    method EndStroke()
      requires Valid()
      modifies this
      ensures Valid() && State() == CS.EndStroke(old(State()))
    {
      if currentStroke.None? {
        return;
      }
      var stroke := currentStroke.value;
      SaveUndoState();
      strokes := strokes + [stroke];
      currentStroke := None;
    }

    /** Push a snapshot of `strokes`, dropping the oldest one when there are too many. */
    method SaveUndoState()
      requires Valid()
      modifies this
      ensures Valid() && State() == old(State()).(undoStack := CS.SaveUndo(old(undoStack), old(strokes)))
    {
      undoStack := undoStack + [strokes];
      if |undoStack| > CS.MaxUndoSteps {
        undoStack := undoStack[1..];
      }
    }

    method Undo()
      requires Valid()
      modifies this
      ensures Valid() && State() == CS.Undo(old(State()))
    {
      if |undoStack| == 0 {
        return;
      }
      var previousState := undoStack[|undoStack| - 1];
      undoStack := undoStack[..|undoStack| - 1];
      strokes := previousState;
    }

    function CanUndo(): (r: bool)
      reads this
      ensures r == CS.CanUndo(State())
    {
      |undoStack| != 0
    }

    method ClearCanvas()
      requires Valid()
      modifies this
      ensures Valid() && State() == CS.ClearCanvas(old(State()))
    {
      SaveUndoState();
      strokes := [];
      currentStroke := None;
    }

    method SetColoringPage(page: Option<ColoringPage>)
      requires Valid()
      modifies this
      ensures Valid() && State() == CS.SetColoringPage(old(State()), page)
    {
      currentColoringPage := page;
      ClearCanvas();
      undoStack := [];
    }
  }
}
