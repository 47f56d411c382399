# ToddlerColoring: a verified model of its drawing core

ToddlerColoring is an iPad colouring app for small children. Under its
SwiftUI views sit four pieces of sequential logic, and this project models
each of them in Dafny and proves what they promise.

- **Flood fill** (`FloodFill`). The bitmap is a row-major RGBA byte buffer
  with `bytesPerRow = width * 4`. `fill(at:with:)` truncates the touch
  point, reads the seed colour, and refuses colours that are already
  close. Otherwise a scanline fill with an explicit stack walks left to
  the start of each run, walks right recolouring it, and pushes one seed
  per matching run above and below.
  - Modules `Raster` (colours, grids, byte offsets) and `Scanline` (one
    iteration of the outer loop as a function, plus the proofs) hold the
    reasoning.
  - Module `FloodFill` holds the class: a byte `array` updated in place,
    with methods that follow the source's loops.
- **Canvas and undo state** (`ColoringViewModel`).
  - Module `CanvasState` gives each operation as a function from state to
    state, and proves the undo history bound, undo after a stroke or a
    clear, and the jitter filter.
  - Module `ViewModel` holds the class, whose fields are updated in place.
    Each method is proved to perform exactly its CanvasState transition.
- **Strokes and the canvas** (`Stroke.init`, `drawStroke`, `handleDrag`,
  `handleDragEnd`), in modules `Strokes` and `DrawingCanvas`.
- **Curve utilities** (`DrawingEngine`: `smoothPath`, `catmullRomPath`,
  `simplifyPoints`, `boundingBox`) and the **outline transform**
  (`ColoringShape.path(in:)`), in modules `DrawingEngine` and
  `ColoringPages`. Module `Geometry` has the points, rectangles and path
  operations they share.

Modelling conventions:
- Coordinates are `real`.
- Distances are compared squared, so `hypot` and `sqrt` never appear.
- A `Path` is the sequence of operations recorded into it.
- Identities given by `UUID()` are naturals chosen by whoever creates the value.

## Model

| member | source | states |
|---|---|---|
| Raster.ColorsEqualReflexive | ToddlerColoring/Utilities/FloodFill.swift:138-143 | every colour is equal to itself under any non-negative tolerance |
| Raster.ColorsEqualSymmetric | ToddlerColoring/Utilities/FloodFill.swift:138-143 | the comparison is symmetric |
| Raster.ColorsEqualIgnoresAlpha | ToddlerColoring/Utilities/FloodFill.swift:138-143 | changing the alpha of either colour never changes the answer |
| Raster.ColorsEqual | ToddlerColoring/Utilities/FloodFill.swift:138-143 | no colour matches anything under a negative tolerance, and colours with the same red, green and blue match exactly when the tolerance is non-negative, whatever their alpha |
| Raster.WritePixel | ToddlerColoring/Utilities/FloodFill.swift:128-136 | the four bytes at the pixel's offset become r, g, b, a of the colour and every other byte of the buffer is kept, so the buffer keeps its size |
| Raster.DecodePixel | ToddlerColoring/Utilities/FloodFill.swift:116-126 | the four bytes at the pixel's offset are that pixel of the grid the buffer encodes |
| Raster.OffsetInRange | ToddlerColoring/Utilities/FloodFill.swift:119-135 | for 0 <= x < width and 0 <= y < height, all four bytes from `y*bytesPerRow + x*4` lie in the buffer of `height*bytesPerRow` bytes |
| Raster.OffsetsApart | ToddlerColoring/Utilities/FloodFill.swift:119-135 | two different pixels never share a byte |
| Raster.ReadAfterWrite | ToddlerColoring/Utilities/FloodFill.swift:116-136 | reading pixel q after writing colour c at p gives c when q = p, and q's old colour otherwise |
| Raster.DecodeWritePixel | ToddlerColoring/Utilities/FloodFill.swift:128-136 | writing the four bytes of one pixel changes exactly that pixel of the grid the buffer encodes |
| Scanline.RunStart | ToddlerColoring/Utilities/FloodFill.swift:70-72 | the walk left stops at a column s <= x: s is 0 or its left neighbour does not match, and every pixel from s up to x-1 matches |
| Scanline.Probe | ToddlerColoring/Utilities/FloodFill.swift:81-100 | after a probe the flag says whether the neighbour matches, and the neighbour is pushed exactly when it matches and the flag was down |
| Scanline.SpanPixel | ToddlerColoring/Utilities/FloodFill.swift:78-100 | one step of the walk right recolours exactly pixel (x, y) and only pushes onto the stack |
| Scanline.SpanFill | ToddlerColoring/Utilities/FloodFill.swift:74-103 | the walk right keeps the bitmap's shape and keeps the stack it started with as a prefix |
| Scanline.ScanStep | ToddlerColoring/Utilities/FloodFill.swift:66-104 | one iteration of the outer loop pops the top seed, keeps the seeds below it in place under whatever it pushes, and keeps the bitmap's shape |
| Scanline.InvInit | ToddlerColoring/Utilities/FloodFill.swift:63-64 | the one-seed stack establishes the invariant: only region pixels recoloured, seeds in the region, and every still-matching pixel next to a recoloured one covered by a seed |
| Scanline.ScanStepKeepsInv | ToddlerColoring/Utilities/FloodFill.swift:66-104 | one iteration of the outer loop (pop, walk left, walk right) keeps that invariant |
| Scanline.InvDone | ToddlerColoring/Utilities/FloodFill.swift:66-105 | once the stack is empty, every pixel 4-connected to the seed through matching pixels has the fill colour and every other pixel is unchanged |
| Scanline.ScanStepDecreases | ToddlerColoring/Utilities/FloodFill.swift:66-104 | when the fill colour does not match the target under tolerance 30, each iteration either shrinks the set of matching pixels or pops a seed and changes nothing |
| Scanline.ScanStepInside | ToddlerColoring/Utilities/FloodFill.swift:67-100 | every coordinate pushed lies in [0,width) x [0,height), so every later read and write is in bounds |
| Scanline.OneSeedPerRun | ToddlerColoring/Utilities/FloodFill.swift:74-103 | two seeds one walk right pushes onto the same row are in different runs: the pixel left of the later one does not match |
| Scanline.Run | ToddlerColoring/Utilities/FloodFill.swift:66-104 | n iterations of the outer loop keep the bitmap well formed and every stack entry in bounds; zero iterations change nothing |
| Scanline.StripFilledAsWritten | ToddlerColoring/Utilities/FloodFill.swift:47-104 | with the guard as written, the same fill on a white 3 x 1 strip ends after one iteration with the whole strip recoloured |
| Scanline.GuardLetsMatchingFillThrough | ToddlerColoring/Utilities/FloodFill.swift:51 | a fill colour of (235,255,255) on white passes the guard at tolerance 10 but still matches white at tolerance 30 |
| Scanline.EndlessScanAsWritten | ToddlerColoring/Utilities/FloodFill.swift:47-104 | with the guard as written, filling a white 1 x 2 bitmap with (235,255,255) leaves a seed on the stack after any number of iterations |
| FloodFill.Trunc | ToddlerColoring/Utilities/FloodFill.swift:42-43 | `Int(_:)` truncates toward zero: the result lies within 1 of the argument, on the side of zero |
| FloodFill.TruncNearZero | ToddlerColoring/Utilities/FloodFill.swift:42-45 | a touch point with coordinate in (-1, 1) lands on column or row 0, so it passes the bounds check |
| FloodFill.FillResult | ToddlerColoring/Utilities/FloodFill.swift:47-105 | the reference fill: the bitmap is unchanged when the seed already matches the fill colour at tolerance 30; otherwise the seed's region is painted with the fill colour (guard corrected, see Findings) |
| FloodFill.SameColorNoChange | ToddlerColoring/Utilities/FloodFill.swift:47-53 | a seed colour within 10 of the fill colour on every channel leaves the bitmap unchanged |
| FloodFill.SeedRecoloured | ToddlerColoring/Utilities/FloodFill.swift:56-78 | a fill that runs recolours the seed itself |
| FloodFill.FillIdempotent | ToddlerColoring/Utilities/FloodFill.swift:47-58 | a second fill with the same seed and colour changes nothing |
| FloodFill.FillSameRegion | ToddlerColoring/Utilities/FloodFill.swift:63-105 | two seeds of the same colour in one connected region give the same result |
| FloodFill.FloodFilledIsFillResult | ToddlerColoring/Utilities/FloodFill.swift:63-105 | a completed scanline fill equals the region-painting reference definition of the fill |
| FloodFill.CorrectedGuardRefusesNearWhite | ToddlerColoring/Utilities/FloodFill.swift:47-53 | with the guard at tolerance 30, the fill that runs forever as written leaves the white bitmap unchanged |
| FloodFill.CorrectedGuardRefusesStrip | ToddlerColoring/Utilities/FloodFill.swift:47-53 | with the guard at tolerance 30, the strip fill that the source completes leaves the strip white instead |
| FloodFill.FloodFill.constructor | ToddlerColoring/Utilities/FloodFill.swift:11-20 | a buffer of `height * bytesPerRow` bytes, `bytesPerRow = width * 4`, holding the given bitmap |
| FloodFill.FloodFill.GetPixelColor | ToddlerColoring/Utilities/FloodFill.swift:116-126 | the four bytes at the pixel's offset are the pixel of the decoded grid |
| FloodFill.FloodFill.SetPixelColor | ToddlerColoring/Utilities/FloodFill.swift:128-136 | all four channels, alpha included, are written; the decoded grid changes at that pixel only |
| FloodFill.FloodFill.WalkLeft | ToddlerColoring/Utilities/FloodFill.swift:69-72 | the loop stops at RunStart |
| FloodFill.FloodFill.WalkRight | ToddlerColoring/Utilities/FloodFill.swift:74-103 | the loop leaves the buffer and the stack exactly as SpanFill says |
| FloodFill.FloodFill.ScanlineFill | ToddlerColoring/Utilities/FloodFill.swift:63-105 | the buffer ends flood-filled (InvDone), and the loop terminates by ScanStepDecreases |
| FloodFill.FloodFill.Fill | ToddlerColoring/Utilities/FloodFill.swift:41-59 | false, with no byte touched, exactly when the truncated seed is outside the bitmap; otherwise the bitmap becomes the fill result of the seed (guard corrected, see Findings) |
| Strokes.MakeStroke | ToddlerColoring/Components/DrawingCanvas.swift:135-140 | the eraser stores white and twice the width; other tools store the given colour and width; points and tool as given |
| Strokes.EraserIgnoresColor | ToddlerColoring/Components/DrawingCanvas.swift:137-138 | an eraser stroke does not depend on the selected colour |
| Strokes.MakeStrokeAppend | ToddlerColoring/Components/DrawingCanvas.swift:130-140 | appending a point to a made stroke is making it with that point |
| CanvasState.SaveUndo | ToddlerColoring/Models/ColoringViewModel.swift:90-95 | the snapshot is pushed last; a full history drops exactly its oldest snapshot; at most 20 snapshots stay |
| CanvasState.SaveUndoDropsOldest | ToddlerColoring/Models/ColoringViewModel.swift:90-95 | pushing onto a full history shifts every snapshot down by one, so it is index 0 that goes |
| CanvasState.StartStroke | ToddlerColoring/Models/ColoringViewModel.swift:51-59 | the current stroke becomes exactly `[point]` with the selected colour, brush size and tool; nothing else changes, and an active stroke is overwritten |
| CanvasState.ContinueStroke | ToddlerColoring/Models/ColoringViewModel.swift:61-75 | no-op without a current stroke; otherwise the point is appended iff the stroke is empty or the point is more than 2 from the last one, and the state is unchanged if not |
| CanvasState.EndStroke | ToddlerColoring/Models/ColoringViewModel.swift:77-86 | no-op without a current stroke; otherwise the old strokes are pushed as a snapshot, the stroke is appended and there is no current stroke |
| CanvasState.Undo | ToddlerColoring/Models/ColoringViewModel.swift:97-100 | no-op on an empty history; otherwise strokes become the newest snapshot, which is popped, and the current stroke is kept |
| CanvasState.SelectColor | ToddlerColoring/Models/ColoringViewModel.swift:29-35 | the colour is selected; the eraser switches to the brush, other tools stay |
| CanvasState.SelectTool | ToddlerColoring/Models/ColoringViewModel.swift:39-41 | only the tool changes |
| CanvasState.SetBrushSize | ToddlerColoring/Models/ColoringViewModel.swift:45-47 | only the brush size changes |
| CanvasState.CanUndo | ToddlerColoring/Models/ColoringViewModel.swift:102-104 | true exactly when undo would shorten the history |
| CanvasState.ClearCanvas | ToddlerColoring/Models/ColoringViewModel.swift:108-112 | the strokes are pushed as a snapshot, then there are no strokes and no current stroke; colour, tool, size and page are kept |
| CanvasState.SetColoringPage | ToddlerColoring/Models/ColoringViewModel.swift:116-120 | the page is set, nothing is drawn, no stroke is in progress and the history is empty; colour, tool and size are kept |
| CanvasState.OperationsKeepBounded | ToddlerColoring/Models/ColoringViewModel.swift:17-120 | every operation keeps the history at 20 snapshots or fewer |
| CanvasState.EndStrokeThenUndo | ToddlerColoring/Models/ColoringViewModel.swift:77-100 | ending a stroke and undoing restores the strokes from before it and leaves no current stroke; when the history was not full everything else is as before too, and when it was full only the oldest snapshot is gone |
| CanvasState.ClearThenUndo | ToddlerColoring/Models/ColoringViewModel.swift:97-112 | clearing and undoing brings the strokes back, and everything else too when the history was not full |
| CanvasState.NewPageForgetsHistory | ToddlerColoring/Models/ColoringViewModel.swift:102-120 | after a new page nothing is drawn and `canUndo` is false |
| CanvasState.UndoShrinksHistory | ToddlerColoring/Models/ColoringViewModel.swift:97-104 | undo removes one snapshot exactly when `canUndo` holds |
| CanvasState.ContinueKeepsPrefix | ToddlerColoring/Models/ColoringViewModel.swift:61-75 | continuing a stroke keeps its points in order and adds at most one |
| CanvasState.CommitAll | ToddlerColoring/Models/ColoringViewModel.swift:77-95 | drawing strokes one after another appends them in order, and adds one snapshot per stroke while the history has room |
| CanvasState.UndoTakesBackCommits | ToddlerColoring/Models/ColoringViewModel.swift:77-100 | after k strokes with room for k snapshots, k undos restore the state before them |
| ViewModel.ColoringViewModel.State | ToddlerColoring/Models/ColoringViewModel.swift:7-18 | the invariant Valid (at most 20 snapshots) holds exactly when the state is bounded |
| ViewModel.ColoringViewModel.constructor | ToddlerColoring/Models/ColoringViewModel.swift:7-25 | no strokes, no current stroke, the first palette colour, brush size 25, the brush, no page, empty history |
| ViewModel.ColoringViewModel.SelectColor | ToddlerColoring/Models/ColoringViewModel.swift:29-35 | the fields change as CanvasState.SelectColor says |
| ViewModel.ColoringViewModel.SelectTool | ToddlerColoring/Models/ColoringViewModel.swift:39-41 | only the tool changes |
| ViewModel.ColoringViewModel.SetBrushSize | ToddlerColoring/Models/ColoringViewModel.swift:45-47 | only the brush size changes |
| ViewModel.ColoringViewModel.StartStroke | ToddlerColoring/Models/ColoringViewModel.swift:51-59 | the fields change as CanvasState.StartStroke says |
| ViewModel.ColoringViewModel.ContinueStroke | ToddlerColoring/Models/ColoringViewModel.swift:61-75 | the fields change as CanvasState.ContinueStroke says |
| ViewModel.ColoringViewModel.EndStroke | ToddlerColoring/Models/ColoringViewModel.swift:77-86 | the fields change as CanvasState.EndStroke says, and the history stays bounded |
| ViewModel.ColoringViewModel.SaveUndoState | ToddlerColoring/Models/ColoringViewModel.swift:90-95 | only the history changes, as CanvasState.SaveUndo says |
| ViewModel.ColoringViewModel.Undo | ToddlerColoring/Models/ColoringViewModel.swift:97-100 | the fields change as CanvasState.Undo says |
| ViewModel.ColoringViewModel.CanUndo | ToddlerColoring/Models/ColoringViewModel.swift:102-104 | true exactly when the history is not empty |
| ViewModel.ColoringViewModel.ClearCanvas | ToddlerColoring/Models/ColoringViewModel.swift:108-112 | the fields change as CanvasState.ClearCanvas says |
| ViewModel.ColoringViewModel.SetColoringPage | ToddlerColoring/Models/ColoringViewModel.swift:116-120 | the fields change as CanvasState.SetColoringPage says: new page, empty canvas, empty history |
| DrawingCanvas.DotRect | ToddlerColoring/Components/DrawingCanvas.swift:66-72 | a square of side `width` centred on the point |
| DrawingCanvas.StrokePath | ToddlerColoring/Components/DrawingCanvas.swift:59-90 | nothing for no point, one ellipse in the dot square for one point, and otherwise exactly the path of `smoothPath` |
| DrawingCanvas.StrokePathEnds | ToddlerColoring/Components/DrawingCanvas.swift:75-90 | two or more points: a move to the first, a final line to the last, 2 or n+1 operations |
| DrawingCanvas.DrawStroke | ToddlerColoring/Components/DrawingCanvas.swift:59-90 | the loop builds StrokePath |
| DrawingCanvas.Clamp | ToddlerColoring/Components/DrawingCanvas.swift:107-111 | both coordinates of the clamped point are non-negative |
| DrawingCanvas.ClampOntoCanvas | ToddlerColoring/Components/DrawingCanvas.swift:107-111 | on a canvas of non-negative size the clamped point lies in [0,width] x [0,height]; points on the canvas are kept; clamping is idempotent |
| DrawingCanvas.Drag | ToddlerColoring/Components/DrawingCanvas.swift:104-121 | with no current stroke a drag starts one at the clamped point, otherwise it continues the current one |
| DrawingCanvas.HandleDrag | ToddlerColoring/Components/DrawingCanvas.swift:104-121 | the view model changes as Drag says |
| DrawingCanvas.HandleDragEnd | ToddlerColoring/Components/DrawingCanvas.swift:123-125 | the view model changes as CanvasState.EndStroke says |
| DrawingCanvas.DragStaysOnCanvas | ToddlerColoring/Components/DrawingCanvas.swift:104-121 | a drag never puts a point of any stroke off the canvas |
| DrawingCanvas.GestureStaysOnCanvas | ToddlerColoring/Components/DrawingCanvas.swift:104-125 | after any drags and the end of the gesture, every point of every stroke is on the canvas |
| DrawingEngine.MidpointQuads | ToddlerColoring/Utilities/DrawingEngine.swift:23-33 | piece j is a quadratic curve to the midpoint of points j and j+1, with point j as control |
| DrawingEngine.SmoothSegments | ToddlerColoring/Utilities/DrawingEngine.swift:6-40 | 0 points: empty; 1: a move; 2: move and line; n >= 3: n+1 operations, a move to points[0], quads ending at consecutive midpoints, and a line to the last point |
| DrawingEngine.SmoothChainJoins | ToddlerColoring/Utilities/DrawingEngine.swift:23-33 | each quad ends at the midpoint of its two points, equidistant from both, and the next quad's control is the later of them |
| DrawingEngine.SmoothPath | ToddlerColoring/Utilities/DrawingEngine.swift:6-40 | the loop builds SmoothSegments |
| DrawingEngine.Control | ToddlerColoring/Utilities/DrawingEngine.swift:72-88 | a control point collapses to its end point whenever either guarding powered distance is at most 0.0001 |
| DrawingEngine.BlendConstant | ToddlerColoring/Utilities/DrawingEngine.swift:73-76 | the blend formula reproduces a coordinate shared by all three points |
| DrawingEngine.BlendTranslate | ToddlerColoring/Utilities/DrawingEngine.swift:73-85 | shifting the three coordinates shifts the blend by the same amount |
| DrawingEngine.ControlMovesWithPoints | ToddlerColoring/Utilities/DrawingEngine.swift:72-88 | a control point moves with its three points, and is their common point when they coincide |
| DrawingEngine.CatmullSegment | ToddlerColoring/Utilities/DrawingEngine.swift:55-90 | segment i is a cubic ending at points[i+1]; because p0 and p3 are clamped at the ends, the first control of the first segment and the second control of the last are the end points when pow(0, alpha) <= 0.0001; a zero-length edge gives a segment whose controls are its ends |
| DrawingEngine.CatmullCurve | ToddlerColoring/Utilities/DrawingEngine.swift:56-90 | the body of the loop builds segment i as CatmullSegment says |
| DrawingEngine.CatmullCurves | ToddlerColoring/Utilities/DrawingEngine.swift:55-91 | k segments, the j-th being CatmullSegment j |
| DrawingEngine.CatmullSegments | ToddlerColoring/Utilities/DrawingEngine.swift:43-94 | fewer than 2 points: empty; 2: move and line; n >= 3: a move to points[0] followed by exactly n-1 cubic segments, segment i ending at points[i+1] |
| DrawingEngine.RepeatedPointGivesFlatSegment | ToddlerColoring/Utilities/DrawingEngine.swift:61-90 | a point repeated twice in a row, with pow(0, alpha) = 0, gives a segment whose controls and end are all that point |
| DrawingEngine.CatmullRomPath | ToddlerColoring/Utilities/DrawingEngine.swift:43-94 | the loop builds CatmullSegments |
| DrawingEngine.SubsequenceShorter | ToddlerColoring/Utilities/DrawingEngine.swift:104-121 | a subsequence is never longer than its source |
| DrawingEngine.Greedy | ToddlerColoring/Utilities/DrawingEngine.swift:104-114 | the greedy phase starts with points[0], keeps at most the points seen, and each kept point is at least `tolerance` from the one kept before it |
| DrawingEngine.GreedySubsequence | ToddlerColoring/Utilities/DrawingEngine.swift:104-114 | the greedy phase keeps a subsequence of the points it has seen |
| DrawingEngine.Simplified | ToddlerColoring/Utilities/DrawingEngine.swift:101-102 | two or fewer points come back unchanged |
| DrawingEngine.SimplifiedShape | ToddlerColoring/Utilities/DrawingEngine.swift:104-121 | three or more points give a subsequence of the input, no longer than it, starting with points[0] and ending with points.last |
| DrawingEngine.SimplifiedSpacing | ToddlerColoring/Utilities/DrawingEngine.swift:106-114 | consecutive points of the result, except the final one, are at least `tolerance` apart |
| DrawingEngine.SimplifyPoints | ToddlerColoring/Utilities/DrawingEngine.swift:101-122 | the loop builds Simplified |
| DrawingEngine.BoundingBox | ToddlerColoring/Utilities/DrawingEngine.swift:125-141 | the zero rect for no points; otherwise every point inside, width and height non-negative, and each of the four bounds attained by a point |
| ColoringPages.SamePageIsIdentity | ToddlerColoring/Models/ColoringPage.swift:47-49 | page equality is an equivalence that compares ids only |
| ColoringPages.SamePageIgnoresContent | ToddlerColoring/Models/ColoringPage.swift:47-49 | a page equals any page with its id whatever its name, category and outline |
| ColoringPages.ScaleFits | ToddlerColoring/Models/ColoringPage.swift:83 | `200*scale` is at most the width and at most the height, and equals one of them |
| ColoringPages.OffsetsCentre | ToddlerColoring/Models/ColoringPage.swift:84-85 | for a rect of non-negative size both offsets are non-negative, one is 0, and each leaves equal space on both sides |
| ColoringPages.TransformAffine | ToddlerColoring/Models/ColoringPage.swift:87-92 | `transformPoint` maps the point a fraction k of the way from p to q to the point k of the way between their images |
| ColoringPages.TransformInside | ToddlerColoring/Models/ColoringPage.swift:83-92 | every point of the 200 x 200 design box lands inside the rect |
| ColoringPages.ElementOp | ToddlerColoring/Models/ColoringPage.swift:94-153 | each element becomes exactly one operation of the matching kind, its end point transformed |
| ColoringPages.ControlPointsTransformed | ToddlerColoring/Models/ColoringPage.swift:102-122 | control points and arc centres go through the same transform; arc radii are scaled |
| ColoringPages.CircleBecomesSquareEllipse | ToddlerColoring/Models/ColoringPage.swift:127-134 | a circle becomes the ellipse in a square of side `2*radius*scale` centred on the transformed centre |
| ColoringPages.BoxesScaled | ToddlerColoring/Models/ColoringPage.swift:136-152 | rounded rects and ellipses have their origin transformed and their size and corner scaled |
| ColoringPages.ShapePath | ToddlerColoring/Models/ColoringPage.swift:79-157 | one operation per element, in order, each ElementOp under the transform fitted to the rect |
| Geometry.MidpointHalfway | ToddlerColoring/Utilities/DrawingEngine.swift:27-30 | the midpoint is as far from either point, a quarter of their squared distance |

## Left out

- `FloodFill.init` draws a `CGImage` into the buffer through `CGContext`. The constructor takes the buffer's bytes instead. `deinit`, `makeImage` and the `UIImage.floodFill` extension are image I/O and are not modelled. `fill` returns true where the source returns an image and false where it returns nil.
- `pixelData` is never nil in the model. The source's nil cases (a transparent black read, an ignored write) cannot arise once `init` has allocated the buffer.
- `Color.toRGBA` and `Color.isLight` convert floating-point UIKit colours. `fill` takes the fill colour as four bytes.
- FloodFill.FloodFill.ScanlineFill: the two inner loops of `scanlineFill` are the methods WalkLeft and WalkRight. The statements and their order are kept.
- FloodFill.FloodFill.Fill: the corrected guard refuses every fill colour within 30 of the seed's colour. So it also refuses fills the source completes: a region confined to one row, filled with a colour more than 10 and at most 30 from its colour, is recoloured by the source but left unchanged by the model (Scanline.StripFilledAsWritten, FloodFill.CorrectedGuardRefusesStrip).
- FloodFill.FloodFill.ScanlineFill requires that the fill colour does not match the target under tolerance 30. Without that the loop need not terminate (see Findings).
- `CGFloat` is a floating-point type; the model computes over the reals. `pow(length, alpha)` in `catmullRomPath` is the caller-supplied function `powLength`; alpha is folded into it. `sqrt` and `hypot` appear only as squared-distance comparisons.
- DrawingEngine.CatmullRomPath: the `alpha` argument is absorbed into `powLength`, and the `tension` argument of `smoothPath` is unused by the source.
- DrawingEngine.BoundingBox starts its accumulators at the first point, not at plus or minus infinity, which the reals lack. The resulting rectangle is the same.
- `variableWidthPath` and `isPoint(_:insidePath:)` are not modelled. The first is floating-point geometry with `sqrt`; the second wraps `Path.contains`.
- ColoringPages.ShapePath ignores the rect's origin, as the source does. TransformInside is therefore stated for the rect moved to (0, 0).
- Identities: `Stroke.id` (a fresh UUID) is not modelled. `ColoringPage.id` is a natural chosen by the caller.
- `canvasSize` and `saveCurrentDrawing` (ImageRenderer, StorageManager) are not modelled. Neither is `DrawingSnapshotView`, which repeats `drawStroke` for saving.
- The `context.stroke` call of `drawStroke`, the gesture wiring, the tap handler for the fill tool and the haptic feedback are view code.
- `@MainActor`, dispatch queues, `HapticManager`, `SoundManager`, `StorageManager`, `ColoringPageData` (a static table of outlines) and every view are not modelled.

## Findings

| source | as written | input that shows it | evidently intended | confidence | as-written member | corrected member |
|---|---|---|---|---|---|---|
| ToddlerColoring/Utilities/FloodFill.swift:51 | `fill` skips the fill only when the seed is within 10 of the fill colour. The scan still recolours every pixel within 30 of the target, so a fill colour within 30 of it keeps matching, and two rows push each other's seed forever. | a white 1 x 2 bitmap filled at (0, 0) with RGBA(235, 255, 255, 255) | skip the fill whenever the fill colour matches the target at the scan's tolerance 30, so that every recoloured pixel stops matching and the scan ends; this also skips one-row regions that the source as written recolours (a white 3 x 1 strip with the same colour) | not executed | Scanline.EndlessScanAsWritten | FloodFill.FloodFill.Fill |
