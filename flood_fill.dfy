/**
 * The class `FloodFill` of ToddlerColoring/Utilities/FloodFill.swift: an
 * RGBA byte buffer of `width` x `height` pixels, `bytesPerRow = width * 4`,
 * recoloured in place by an explicit-stack scanline flood fill.
 */
module FloodFill {
  import opened Raster
  import opened Scanline

  /** Swift's `Int(_: CGFloat)`: the integer part, truncating toward zero. */
  function Trunc(r: real): (t: int)
    ensures 0.0 <= r ==> 0 <= t && t as real <= r < t as real + 1.0
    ensures r < 0.0 ==> t <= 0 && t as real - 1.0 < r <= t as real
  {
    if 0.0 <= r then r.Floor else -((-r).Floor)
  }

  /** A touch just left of or above the canvas still lands on column or row 0. */
  lemma TruncNearZero(r: real)
    requires -1.0 < r < 1.0
    ensures Trunc(r) == 0
  {
  }

  /** The grid g with the region of `job` recoloured to `job.fill`. */
  ghost function Paint(g: Grid, job: Job): (r: Grid)
    requires g.Valid()
    ensures r.width == g.width && r.height == g.height && r.Valid()
    ensures forall x, y :: g.Contains(x, y) ==>
              Pixel(r, x, y) == if InRegion(job, x, y) then job.fill else Pixel(g, x, y)
  {
    var r := Grid(g.width, g.height,
                  seq(g.height, y requires 0 <= y < g.height =>
                    seq(g.width, x requires 0 <= x < g.width =>
                      if InRegion(job, x, y) then job.fill else g.rows[y][x])));
    assert forall x, y :: g.Contains(x, y) ==> r.rows[y][x] == if InRegion(job, x, y) then job.fill else g.rows[y][x];
    r
  }

  /** The job a fill at `seed` with `color` runs: its target is the seed's colour. */
  function FillJob(g: Grid, seed: Coord, color: RGBA): Job {
    Job(g, Pixel(g, seed.0, seed.1), color, seed)
  }

  /**
   * The bitmap after a fill at `seed` with `color`: unchanged when the seed
   * already matches the colour, otherwise the seed's 4-connected region
   * of pixels matching it under `FillTolerance` takes the colour.
   */
  ghost function FillResult(g: Grid, seed: Coord, color: RGBA): (r: Grid)
    requires g.Valid()
    ensures ColorsEqual(Pixel(g, seed.0, seed.1), color, FillTolerance) ==> r == g
    ensures !ColorsEqual(Pixel(g, seed.0, seed.1), color, FillTolerance) ==> r == Paint(g, FillJob(g, seed, color))
  {
    if ColorsEqual(Pixel(g, seed.0, seed.1), color, FillTolerance) then g
    else Paint(g, FillJob(g, seed, color))
  }

  /** Two grids of the same shape with the same pixels are equal. */
  lemma GridExt(a: Grid, b: Grid)
    requires a.Valid() && b.Valid() && a.width == b.width && a.height == b.height
    requires forall x, y :: a.Contains(x, y) ==> Pixel(a, x, y) == Pixel(b, x, y)
    ensures a == b
  {
    forall y | 0 <= y < a.height
      ensures a.rows[y] == b.rows[y]
    {
      forall x | 0 <= x < a.width
        ensures a.rows[y][x] == b.rows[y][x]
      {
        assert Pixel(a, x, y) == Pixel(b, x, y);
      }
    }
  }

  /** A fill whose seed does not match the colour paints the seed's region. */
  lemma FillResultPaints(job: Job)
    requires Runnable(job)
    ensures FillResult(job.orig, job.seed, job.fill) == Paint(job.orig, job)
  {
    assert FillJob(job.orig, job.seed, job.fill) == job;
    ColorsEqualSymmetric(job.fill, job.target, FillTolerance);
  }

  /** A grid that is flood-filled is the painted grid. */
  lemma FloodFilledIsPaint(job: Job, c: Grid)
    requires job.orig.Valid() && FloodFilled(job, c)
    ensures c == Paint(job.orig, job)
  {
    var r := Paint(job.orig, job);
    forall x, y | c.Contains(x, y)
      ensures Pixel(c, x, y) == Pixel(r, x, y)
    {
      assert job.orig.Contains(x, y);
    }
    GridExt(c, r);
  }

  /** A completed scanline fill is the fill result. */
  lemma FloodFilledIsFillResult(job: Job, c: Grid)
    requires Runnable(job) && FloodFilled(job, c)
    ensures c == FillResult(job.orig, job.seed, job.fill)
  {
    FillResultPaints(job);
    FloodFilledIsPaint(job, c);
  }

  lemma ToleranceMonotone(c1: RGBA, c2: RGBA, t1: int, t2: int)
    requires t1 <= t2 && ColorsEqual(c1, c2, t1)
    ensures ColorsEqual(c1, c2, t2)
  {
  }

  /** A seed already within `SameColorTolerance` of the colour leaves the bitmap unchanged. */
  lemma SameColorNoChange(g: Grid, seed: Coord, color: RGBA)
    requires g.Valid() && g.Contains(seed.0, seed.1)
    requires ColorsEqual(Pixel(g, seed.0, seed.1), color, SameColorTolerance)
    ensures FillResult(g, seed, color) == g
  {
    ToleranceMonotone(Pixel(g, seed.0, seed.1), color, SameColorTolerance, FillTolerance);
  }

  /** The seed of a fill that runs lies in its own region, so it takes the colour. */
  lemma SeedRecoloured(g: Grid, seed: Coord, color: RGBA)
    requires g.Valid() && g.Contains(seed.0, seed.1)
    ensures Pixel(FillResult(g, seed, color), seed.0, seed.1) == color ||
            ColorsEqual(Pixel(g, seed.0, seed.1), color, FillTolerance)
  {
    var t := Pixel(g, seed.0, seed.1);
    ColorsEqualReflexive(t, FillTolerance);
    ConnectedSelf(g, t, seed);
  }

  /** Filling twice at the same seed with the same colour is filling once. */
  lemma FillIdempotent(g: Grid, seed: Coord, color: RGBA)
    requires g.Valid() && g.Contains(seed.0, seed.1)
    ensures var r := FillResult(g, seed, color);
            FillResult(r, seed, color) == r
  {
    var r := FillResult(g, seed, color);
    SeedRecoloured(g, seed, color);
    ColorsEqualReflexive(color, FillTolerance);
    if !ColorsEqual(Pixel(g, seed.0, seed.1), color, FillTolerance) {
      assert ColorsEqual(Pixel(r, seed.0, seed.1), color, FillTolerance);
    }
  }

  /** Painting two jobs with the same colour and the same region gives the same grid. */
  lemma PaintSameRegion(g: Grid, j1: Job, j2: Job)
    requires g.Valid() && j1.fill == j2.fill
    requires forall x, y :: g.Contains(x, y) ==> InRegion(j1, x, y) == InRegion(j2, x, y)
    ensures Paint(g, j1) == Paint(g, j2)
  {
    var r1, r2 := Paint(g, j1), Paint(g, j2);
    forall x, y | r1.Contains(x, y)
      ensures Pixel(r1, x, y) == Pixel(r2, x, y)
    {
      assert g.Contains(x, y);
    }
    GridExt(r1, r2);
  }

  /** Seeds of the same colour connected to each other have the same region. */
  lemma SameRegion(g: Grid, t: RGBA, p: Coord, q: Coord, color: RGBA)
    requires Connected(g, t, p, q)
    ensures forall x, y :: InRegion(Job(g, t, color, p), x, y) == InRegion(Job(g, t, color, q), x, y)
  {
    forall x, y
      ensures InRegion(Job(g, t, color, p), x, y) == InRegion(Job(g, t, color, q), x, y)
    {
      if Connected(g, t, p, (x, y)) {
        ConnectedSymmetric(g, t, p, q);
        ConnectedTransitive(g, t, q, p, (x, y));
      }
      if Connected(g, t, q, (x, y)) {
        ConnectedTransitive(g, t, p, q, (x, y));
      }
    }
  }

  /**
   * Two seeds of the same colour in one region fill the same pixels: the
   * result does not depend on which pixel of the region was touched.
   */
  lemma FillSameRegion(g: Grid, p: Coord, q: Coord, color: RGBA)
    requires g.Valid() && g.Contains(p.0, p.1) && g.Contains(q.0, q.1)
    requires Pixel(g, p.0, p.1) == Pixel(g, q.0, q.1)
    requires Connected(g, Pixel(g, p.0, p.1), p, q)
    ensures FillResult(g, p, color) == FillResult(g, q, color)
  {
    var t := Pixel(g, p.0, p.1);
    if !ColorsEqual(t, color, FillTolerance) {
      SameRegion(g, t, p, q, color);
      assert FillJob(g, p, color) == Job(g, t, color, p);
      assert FillJob(g, q, color) == Job(g, t, color, q);
      PaintSameRegion(g, Job(g, t, color, p), Job(g, t, color, q));
    }
  }

  /**
   * With the guard at the fill tolerance, the fill that never ends with
   * the guard as written (Scanline.EndlessScanAsWritten) is refused: the
   * white 1 x 2 bitmap stays as it is.
   */
  lemma CorrectedGuardRefusesNearWhite()
    ensures Grid(1, 2, [[White], [White]]).Valid()
    ensures FillResult(Grid(1, 2, [[White], [White]]), (0, 0), NearWhite) == Grid(1, 2, [[White], [White]])
  {
    GuardLetsMatchingFillThrough();
    ColorsEqualSymmetric(NearWhite, White, FillTolerance);
  }

  /**
   * The corrected guard also refuses the NearWhite fill of the white strip,
   * which the scan as written completes (Scanline.StripFilledAsWritten).
   */
  lemma CorrectedGuardRefusesStrip()
    ensures Strip.Valid()
    ensures FillResult(Strip, (0, 0), NearWhite) == Strip
    ensures FillResult(Strip, (0, 0), NearWhite) != StripDone
  {
    GuardLetsMatchingFillThrough();
    ColorsEqualSymmetric(NearWhite, White, FillTolerance);
    assert Strip.rows[0][0] != StripDone.rows[0][0];
  }

  class FloodFill {
    const width: nat
    const height: nat
    const bytesPerRow: nat
    /** The bitmap's bytes, row after row, four per pixel. */
    const pixelData: array<byte>

    ghost predicate Valid() {
      bytesPerRow == width * 4 && pixelData.Length == height * bytesPerRow
    }

    /** The pixels the buffer currently holds. */
    ghost function Image(): (g: Grid)
      reads pixelData
      requires Valid()
      ensures g.width == width && g.height == height && g.Valid()
    {
      Decode(pixelData[..], width, height)
    }

    /** A fill over a buffer holding `data`, the bitmap that `init(image:)` draws. */
    constructor (w: nat, h: nat, data: seq<byte>)
      requires |data| == h * (w * 4)
      ensures Valid() && width == w && height == h && fresh(pixelData)
      ensures pixelData[..] == data
    {
      width, height, bytesPerRow := w, h, w * 4;
      pixelData := new byte[|data|](i requires 0 <= i < |data| => data[i]);
    }

    /** The four bytes of pixel (x, y), read from the buffer. */
    function GetPixelColor(x: int, y: int): (c: RGBA)
      reads pixelData
      requires Valid() && 0 <= x < width && 0 <= y < height
      ensures c == Pixel(Image(), x, y)
    {
      OffsetInRange(width, height, x, y);
      DecodePixel(pixelData[..], width, height, x, y);
      var offset := y * bytesPerRow + x * 4;
      RGBA(pixelData[offset], pixelData[offset + 1], pixelData[offset + 2], pixelData[offset + 3])
    }

    /** Writes all four channels of `color`, alpha included, into pixel (x, y). */
    method SetPixelColor(x: int, y: int, color: RGBA)
      requires Valid() && 0 <= x < width && 0 <= y < height
      modifies pixelData
      ensures pixelData[..] == WritePixel(old(pixelData[..]), width, height, x, y, color)
      ensures Image() == SetPixel(old(Image()), x, y, color)
    {
      OffsetInRange(width, height, x, y);
      var offset := y * bytesPerRow + x * 4;
      pixelData[offset] := color.r;
      pixelData[offset + 1] := color.g;
      pixelData[offset + 2] := color.b;
      pixelData[offset + 3] := color.a;
      DecodeWritePixel(old(pixelData[..]), width, height, x, y, color);
    }

    /**
     * The walk left of `scanlineFill` from (x, y): the first column of the
     * run of pixels matching `targetColor` that ends just before x.
     */
    method WalkLeft(x: int, y: int, targetColor: RGBA) returns (start: int)
      requires Valid() && 0 <= x < width && 0 <= y < height
      ensures start == RunStart(Image(), targetColor, x, y)
    {
      var currentX := x;
      while currentX > 0 && ColorsEqual(GetPixelColor(currentX - 1, y), targetColor, FillTolerance)
        invariant 0 <= currentX <= x
        invariant RunStart(Image(), targetColor, currentX, y) == RunStart(Image(), targetColor, x, y)
        decreases currentX
      {
        currentX := currentX - 1;
      }
      start := currentX;
    }

    /**
     * The walk right of `scanlineFill` along row y from `start`: recolours
     * the run and pushes one seed per matching run above and below it.
     */
    method WalkRight(start: int, y: int, targetColor: RGBA, fillColor: RGBA, stack0: seq<Coord>)
      returns (stack: seq<Coord>)
      requires Valid() && 0 <= start && 0 <= y < height
      modifies pixelData
      ensures (Image(), stack) == SpanFill(old(Image()), targetColor, fillColor, start, y, false, false, stack0)
    {
      stack := stack0;
      var currentX := start;
      var spanAbove, spanBelow := false, false;
      while currentX < width && ColorsEqual(GetPixelColor(currentX, y), targetColor, FillTolerance)
        invariant Valid() && start <= currentX
        invariant SpanFill(Image(), targetColor, fillColor, currentX, y, spanAbove, spanBelow, stack) ==
                  SpanFill(old(Image()), targetColor, fillColor, start, y, false, false, stack0)
        decreases width - currentX
      {
        ghost var step := SpanPixel(Image(), targetColor, fillColor, currentX, y, spanAbove, spanBelow, stack);
        SpanFillUnfold(Image(), targetColor, fillColor, currentX, y, spanAbove, spanBelow, stack);
        SetPixelColor(currentX, y, fillColor);

        // Check above
        if y > 0 {
          var aboveColor := GetPixelColor(currentX, y - 1);
          if !spanAbove && ColorsEqual(aboveColor, targetColor, FillTolerance) {
            stack := stack + [(currentX, y - 1)];
            spanAbove := true;
          } else if spanAbove && !ColorsEqual(aboveColor, targetColor, FillTolerance) {
            spanAbove := false;
          }
        }

        // Check below
        if y < height - 1 {
          var belowColor := GetPixelColor(currentX, y + 1);
          if !spanBelow && ColorsEqual(belowColor, targetColor, FillTolerance) {
            stack := stack + [(currentX, y + 1)];
            spanBelow := true;
          } else if spanBelow && !ColorsEqual(belowColor, targetColor, FillTolerance) {
            spanBelow := false;
          }
        }

        assert Image() == step.image && stack == step.stack;
        assert spanAbove == step.spanAbove && spanBelow == step.spanBelow;
        currentX := currentX + 1;
      }
      SpanFillStop(Image(), targetColor, fillColor, currentX, y, spanAbove, spanBelow, stack);
    }

    /**
     * The scanline fill from seed (x, y). It recolours exactly the seed's
     * 4-connected region of pixels matching `targetColor` and nothing
     * else. It ends only because `fillColor` does not itself match
     * `targetColor` under the fill tolerance.
     */
    method ScanlineFill(x: int, y: int, targetColor: RGBA, fillColor: RGBA)
      requires Valid() && 0 <= x < width && 0 <= y < height
      requires targetColor == Pixel(Image(), x, y)
      requires !ColorsEqual(fillColor, targetColor, FillTolerance)
      modifies pixelData
      ensures FloodFilled(Job(old(Image()), targetColor, fillColor, (x, y)), Image())
    {
      ghost var job := Job(Image(), targetColor, fillColor, (x, y));
      var stack: seq<Coord> := [(x, y)];
      InvInit(job);
      while |stack| > 0
        invariant Valid() && Inv(job, Image(), stack)
        decreases MatchSet(Image(), targetColor), |stack|
      {
        ghost var before, stack0 := Image(), stack;
        var currentX, currentY := stack[|stack| - 1].0, stack[|stack| - 1].1;
        stack := stack[..|stack| - 1];
        currentX := WalkLeft(currentX, currentY, targetColor);
        stack := WalkRight(currentX, currentY, targetColor, fillColor, stack);
        ScanStepKeepsInv(job, before, stack0);
        ScanStepDecreases(before, targetColor, fillColor, stack0);
      }
      InvDone(job, Image());
    }

    /**
     * `fill(at:with:)`: false, with no pixel touched, when the truncated
     * seed lies outside the bitmap; otherwise true, with the bitmap now
     * the fill result of the seed.
     */
    method Fill(px: real, py: real, color: RGBA) returns (ok: bool)
      requires Valid()
      modifies pixelData
      ensures ok == (0 <= Trunc(px) < width && 0 <= Trunc(py) < height)
      ensures !ok ==> pixelData[..] == old(pixelData[..])
      ensures ok ==> Image() == FillResult(old(Image()), (Trunc(px), Trunc(py)), color)
    {
      var x, y := Trunc(px), Trunc(py);
      if !(x >= 0 && x < width && y >= 0 && y < height) {
        return false;
      }
      var targetColor := GetPixelColor(x, y);
      if ColorsEqual(targetColor, color, FillTolerance) {
        return true;
      }
      ghost var job := Job(Image(), targetColor, color, (x, y));
      ColorsEqualSymmetric(targetColor, color, FillTolerance);
      ScanlineFill(x, y, targetColor, color);
      FloodFilledIsFillResult(job, Image());
      return true;
    }
  }
}
