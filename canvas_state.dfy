/**
 * The drawing state of `ColoringViewModel`
 * (ToddlerColoring/Models/ColoringViewModel.swift) as a value, and each of
 * its operations as a function from the state before to the state after.
 * The class in module ViewModel is proved to perform exactly these
 * transitions; the lemmas here prove what they achieve together: the
 * bounded undo history, undo after a stroke or a clear, and the
 * jitter filter of `continueStroke`.
 */
module CanvasState {
  import opened Geometry
  import opened Strokes
  import opened ColoringPages

  /** The undo history keeps at most this many snapshots. */
  const MaxUndoSteps: nat := 20

  /** Strokes are extended only by points more than this far from the last one. */
  const MinPointDistance: real := 2.0

  /** The default brush width. */
  const DefaultBrushSize: real := 25.0

  /** Every stored field of the view model that its operations read or write. */
  datatype ViewState = ViewState(
    strokes: seq<Stroke>,
    currentStroke: Option<Stroke>,
    selectedColor: Color,
    brushSize: real,
    currentTool: DrawingTool,
    currentColoringPage: Option<ColoringPage>,
    undoStack: seq<seq<Stroke>>)

  /** The state a new view model starts in. */
  const Initial: ViewState := ViewState([], None, PaletteRed, DefaultBrushSize, Brush, None, [])

  /** The invariant of the history: never more than MaxUndoSteps snapshots. */
  predicate Bounded(s: ViewState) {
    |s.undoStack| <= MaxUndoSteps
  }

  /**
   * `saveUndoState`: push a snapshot of `strokes`; if that makes one too
   * many, drop the oldest (index 0).
   */
  function SaveUndo(undo: seq<seq<Stroke>>, strokes: seq<Stroke>): (r: seq<seq<Stroke>>)
    ensures |r| > 0 && r[|r| - 1] == strokes
    ensures |undo| < MaxUndoSteps ==> r == undo + [strokes]
    ensures |undo| >= MaxUndoSteps ==> r == undo[1..] + [strokes]
    ensures |undo| <= MaxUndoSteps ==> |r| <= MaxUndoSteps
  {
    var pushed := undo + [strokes];
    if |pushed| > MaxUndoSteps then pushed[1..] else pushed
  }

  /** A full history loses exactly its oldest snapshot, and keeps the others in order. */
  lemma SaveUndoDropsOldest(undo: seq<seq<Stroke>>, strokes: seq<Stroke>)
    requires |undo| == MaxUndoSteps
    ensures |SaveUndo(undo, strokes)| == MaxUndoSteps
    ensures forall i :: 0 <= i < MaxUndoSteps - 1 ==> SaveUndo(undo, strokes)[i] == undo[i + 1]
  {
  }

  /**
   * `startStroke`: the current stroke becomes a new stroke of exactly the
   * one point, with the selected colour, brush size and tool (through
   * `Stroke.init`); an active stroke is discarded.
   */
  function StartStroke(s: ViewState, p: Point): (r: ViewState)
    ensures r.currentStroke.Some? && r.currentStroke.value.points == [p] &&
            r.currentStroke.value == MakeStroke([p], s.selectedColor, s.brushSize, s.currentTool)
    ensures r == s.(currentStroke := r.currentStroke)
  {
    s.(currentStroke := Some(MakeStroke([p], s.selectedColor, s.brushSize, s.currentTool)))
  }

  /**
   * `continueStroke`: with no current stroke nothing happens; otherwise p
   * is appended exactly when the stroke has no point yet or p lies more
   * than MinPointDistance from its last point, and nothing else changes.
   */
  function ContinueStroke(s: ViewState, p: Point): (r: ViewState)
    ensures r == s.(currentStroke := r.currentStroke)
    ensures r.currentStroke.Some? <==> s.currentStroke.Some?
    ensures s.currentStroke.Some? ==>
              var st := s.currentStroke.value;
              var pts := st.points;
              r.currentStroke.value == st.(points := r.currentStroke.value.points) &&
              (r.currentStroke.value.points == pts + [p] <==>
                 (|pts| == 0 || FartherThan(p, pts[|pts| - 1], MinPointDistance))) &&
              (r.currentStroke.value.points == pts <==>
                 !(|pts| == 0 || FartherThan(p, pts[|pts| - 1], MinPointDistance)))
  {
    match s.currentStroke
    case None => s
    case Some(stroke) =>
      var pts := stroke.points;
      if |pts| > 0 then
        if FartherThan(p, pts[|pts| - 1], MinPointDistance) then
          s.(currentStroke := Some(stroke.(points := pts + [p])))
        else s
      else
        s.(currentStroke := Some(stroke.(points := pts + [p])))
  }

  /**
   * `endStroke`: with no current stroke nothing happens; otherwise the old
   * strokes are saved for undo, the current stroke is appended to them and
   * there is no current stroke any more.
   */
  function EndStroke(s: ViewState): (r: ViewState)
    ensures s.currentStroke.None? ==> r == s
    ensures s.currentStroke.Some? ==>
              r == s.(strokes := s.strokes + [s.currentStroke.value], currentStroke := None,
                      undoStack := SaveUndo(s.undoStack, s.strokes))
  {
    match s.currentStroke
    case None => s
    case Some(stroke) =>
      s.(undoStack := SaveUndo(s.undoStack, s.strokes)).(strokes := s.strokes + [stroke], currentStroke := None)
  }

  /**
   * `undo`: with an empty history nothing happens; otherwise the newest
   * snapshot is popped and becomes `strokes`. The current stroke is kept.
   */
  function Undo(s: ViewState): (r: ViewState)
    ensures |s.undoStack| == 0 ==> r == s
    ensures |s.undoStack| > 0 ==>
              r == s.(strokes := s.undoStack[|s.undoStack| - 1], undoStack := s.undoStack[..|s.undoStack| - 1])
  {
    if |s.undoStack| == 0 then s
    else s.(strokes := s.undoStack[|s.undoStack| - 1], undoStack := s.undoStack[..|s.undoStack| - 1])
  }

  /** `canUndo`. */
  predicate CanUndo(s: ViewState): (r: bool)
    ensures r <==> |Undo(s).undoStack| < |s.undoStack|
  {
    |s.undoStack| > 0
  }

  /** `clearCanvas`: the strokes are saved for undo, then there are no strokes and no current stroke. */
  function ClearCanvas(s: ViewState): (r: ViewState)
    ensures r == s.(strokes := [], currentStroke := None, undoStack := SaveUndo(s.undoStack, s.strokes))
  {
    s.(undoStack := SaveUndo(s.undoStack, s.strokes)).(strokes := [], currentStroke := None)
  }

  /** `setColoringPage`: a new page, an empty canvas and no history. */
  function SetColoringPage(s: ViewState, page: Option<ColoringPage>): (r: ViewState)
    ensures r == s.(currentColoringPage := page, strokes := [], currentStroke := None, undoStack := [])
  {
    ClearCanvas(s.(currentColoringPage := page)).(undoStack := [])
  }

  /** `selectColor`: the colour is selected, and picking a colour while erasing switches to the brush. */
  function SelectColor(s: ViewState, color: Color): (r: ViewState)
    ensures r == s.(selectedColor := color, currentTool := r.currentTool)
    ensures r.currentTool == if s.currentTool == Eraser then Brush else s.currentTool
  {
    var s1 := s.(selectedColor := color);
    if s1.currentTool == Eraser then s1.(currentTool := Brush) else s1
  }

  /** `selectTool`. */
  function SelectTool(s: ViewState, tool: DrawingTool): (r: ViewState)
    ensures r == s.(currentTool := tool)
  {
    s.(currentTool := tool)
  }

  /** `setBrushSize`. */
  function SetBrushSize(s: ViewState, size: real): (r: ViewState)
    ensures r == s.(brushSize := size)
  {
    s.(brushSize := size)
  }

  // ---------------------------------------------------------------------
  // What the operations achieve

  /** Every operation keeps the history within MaxUndoSteps snapshots. */
  lemma OperationsKeepBounded(s: ViewState, p: Point, page: Option<ColoringPage>, color: Color,
                              tool: DrawingTool, size: real)
    requires Bounded(s)
    ensures Bounded(Initial)
    ensures Bounded(StartStroke(s, p)) && Bounded(ContinueStroke(s, p)) && Bounded(EndStroke(s))
    ensures Bounded(Undo(s)) && Bounded(ClearCanvas(s)) && Bounded(SetColoringPage(s, page))
    ensures Bounded(SelectColor(s, color)) && Bounded(SelectTool(s, tool)) && Bounded(SetBrushSize(s, size))
  {
  }

  /**
   * Ending a stroke and undoing at once restores the strokes from before
   * the stroke; the history is as before too unless it was full, when its
   * oldest snapshot is gone.
   */
  lemma EndStrokeThenUndo(s: ViewState)
    requires s.currentStroke.Some? && Bounded(s)
    ensures Undo(EndStroke(s)).strokes == s.strokes
    ensures Undo(EndStroke(s)).currentStroke.None?
    ensures |s.undoStack| < MaxUndoSteps ==> Undo(EndStroke(s)) == s.(currentStroke := None)
    ensures |s.undoStack| == MaxUndoSteps ==> Undo(EndStroke(s)).undoStack == s.undoStack[1..]
  {
    var e := EndStroke(s);
    assert e.undoStack[..|e.undoStack| - 1] == if |s.undoStack| < MaxUndoSteps then s.undoStack else s.undoStack[1..];
  }

  /** Clearing the canvas and undoing at once brings the strokes back. */
  lemma ClearThenUndo(s: ViewState)
    requires Bounded(s)
    ensures Undo(ClearCanvas(s)).strokes == s.strokes
    ensures Undo(ClearCanvas(s)).currentStroke.None?
    ensures |s.undoStack| < MaxUndoSteps ==> Undo(ClearCanvas(s)) == s.(currentStroke := None)
  {
    var c := ClearCanvas(s);
    assert |s.undoStack| < MaxUndoSteps ==> c.undoStack[..|c.undoStack| - 1] == s.undoStack;
  }

  /** After a new page is set there is nothing to undo and nothing drawn. */
  lemma NewPageForgetsHistory(s: ViewState, page: Option<ColoringPage>)
    ensures !CanUndo(SetColoringPage(s, page))
    ensures SetColoringPage(s, page).strokes == [] && SetColoringPage(s, page).currentStroke.None?
    ensures Undo(SetColoringPage(s, page)) == SetColoringPage(s, page)
  {
  }

  /** Undo shortens the history by one snapshot exactly when there is something to undo. */
  lemma UndoShrinksHistory(s: ViewState)
    ensures |Undo(s).undoStack| == if CanUndo(s) then |s.undoStack| - 1 else |s.undoStack|
  {
  }

  /** A stroke only ever grows by continuing it: its earlier points stay, in order. */
  lemma ContinueKeepsPrefix(s: ViewState, p: Point)
    requires s.currentStroke.Some?
    ensures var pts := ContinueStroke(s, p).currentStroke.value.points;
            |s.currentStroke.value.points| <= |pts| <= |s.currentStroke.value.points| + 1 &&
            pts[..|s.currentStroke.value.points|] == s.currentStroke.value.points
  {
  }

  /** Drawing a whole stroke: it becomes current, then it is ended. */
  function Commit(s: ViewState, stroke: Stroke): ViewState {
    EndStroke(s.(currentStroke := Some(stroke)))
  }

  /** Drawing the given strokes one after another. */
  function CommitAll(s: ViewState, strokes: seq<Stroke>): (r: ViewState)
    ensures r.strokes == s.strokes + strokes
    ensures |strokes| > 0 ==> r.currentStroke.None?
    ensures |s.undoStack| + |strokes| <= MaxUndoSteps ==> |r.undoStack| == |s.undoStack| + |strokes|
    decreases |strokes|
  {
    if |strokes| == 0 then s
    else
      var before := CommitAll(s, strokes[..|strokes| - 1]);
      assert strokes[..|strokes| - 1] + [strokes[|strokes| - 1]] == strokes;
      Commit(before, strokes[|strokes| - 1])
  }

  /** Undoing n times. */
  function UndoTimes(s: ViewState, n: nat): ViewState
    decreases n
  {
    if n == 0 then s else UndoTimes(Undo(s), n - 1)
  }

  /**
   * Undo takes back strokes one by one: after drawing k strokes with room
   * for k more snapshots in the history, k undos restore the state before
   * the first of them, with no stroke in progress.
   */
  lemma {:induction false} UndoTakesBackCommits(s: ViewState, strokes: seq<Stroke>)
    requires |strokes| > 0 && |s.undoStack| + |strokes| <= MaxUndoSteps
    ensures UndoTimes(CommitAll(s, strokes), |strokes|) == s.(currentStroke := None)
    decreases |strokes|
  {
    var n := |strokes|;
    var before := CommitAll(s, strokes[..n - 1]);
    var last := strokes[n - 1];
    assert CommitAll(s, strokes) == Commit(before, last);
    EndStrokeThenUndo(before.(currentStroke := Some(last)));
    assert Undo(Commit(before, last)) == before.(currentStroke := None);
    if n == 1 {
      assert before == s;
    } else {
      assert before.currentStroke.None?;
      UndoTakesBackCommits(s, strokes[..n - 1]);
    }
  }
}
