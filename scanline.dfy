/**
 * A value-level account of the scanline flood fill of
 * ToddlerColoring/Utilities/FloodFill.swift. One iteration of the outer
 * loop of `scanlineFill` (pop a seed, walk left, walk right recolouring
 * the run and pushing seeds above and below) is the function `ScanStep`;
 * the imperative method in module FloodFill is proved to perform exactly
 * these steps on its byte array. The lemmas here prove what the loop
 * achieves: it recolours exactly the 4-connected region of the seed.
 */
module Scanline {
  import opened Raster

  /** A pixel coordinate (x, y), as the `(Int, Int)` entries of the stack. */
  type Coord = (int, int)

  function Min(a: int, b: int): int { if a <= b then a else b }
  function Max(a: int, b: int): int { if a <= b then b else a }

  /** Pixel (x, y) lies in the bitmap and matches `target` under the fill tolerance. */
  predicate Matches(b: Grid, target: RGBA, x: int, y: int) {
    b.Contains(x, y) && ColorsEqual(Pixel(b, x, y), target, FillTolerance)
  }

  predicate AllInside(b: Grid, stack: seq<Coord>) {
    forall i :: 0 <= i < |stack| ==> b.Contains(stack[i].0, stack[i].1)
  }

  /**
   * The walk left of `scanlineFill` (FloodFill.swift:70-72): the start of
   * the matching run that ends just before x.
   */
  function RunStart(b: Grid, target: RGBA, x: int, y: int): (s: int)
    requires 0 <= x
    ensures 0 <= s <= x
    ensures s == 0 || !Matches(b, target, s - 1, y)
    ensures forall k :: s <= k < x ==> Matches(b, target, k, y)
    decreases x
  {
    if x > 0 && Matches(b, target, x - 1, y) then RunStart(b, target, x - 1, y) else x
  }

  /**
   * The check of one neighbouring pixel (x, ny) while walking a span
   * (FloodFill.swift:81-100): push it when it starts a new matching run.
   * The returned flag always says whether (x, ny) matches.
   */
  function Probe(b: Grid, target: RGBA, x: int, ny: int, span: bool, stack: seq<Coord>): (r: (seq<Coord>, bool))
    ensures r.1 == Matches(b, target, x, ny)
    ensures r.0 == if !span && Matches(b, target, x, ny) then stack + [(x, ny)] else stack
  {
    var m := Matches(b, target, x, ny);
    if !span && m then (stack + [(x, ny)], true)
    else if span && !m then (stack, false)
    else (stack, span)
  }

  /** The state of the span walk after recolouring pixel (x, y) and probing above and below it. */
  datatype SpanState = SpanState(image: Grid, stack: seq<Coord>, spanAbove: bool, spanBelow: bool)

  /** One pass of the body of the inner `while` (FloodFill.swift:78-100). */
  function SpanPixel(b: Grid, target: RGBA, fill: RGBA, x: int, y: int,
                     spanAbove: bool, spanBelow: bool, stack: seq<Coord>): (r: SpanState)
    requires b.Valid() && b.Contains(x, y)
    ensures r.image == SetPixel(b, x, y, fill)
    ensures |stack| <= |r.stack| && r.stack[..|stack|] == stack
  {
    var b1 := SetPixel(b, x, y, fill);
    var above := if y > 0 then Probe(b1, target, x, y - 1, spanAbove, stack) else (stack, spanAbove);
    var below := if y < b.height - 1 then Probe(b1, target, x, y + 1, spanBelow, above.0) else (above.0, spanBelow);
    SpanState(b1, below.0, above.1, below.1)
  }

  /**
   * The walk right of `scanlineFill` (FloodFill.swift:74-103), from x on
   * row y. It writes only row y and only pushes onto the stack.
   */
  function SpanFill(b: Grid, target: RGBA, fill: RGBA, x: int, y: int,
                    spanAbove: bool, spanBelow: bool, stack: seq<Coord>): (r: (Grid, seq<Coord>))
    requires b.Valid() && 0 <= x && 0 <= y < b.height
    ensures r.0.width == b.width && r.0.height == b.height && r.0.Valid()
    ensures |stack| <= |r.1| && r.1[..|stack|] == stack
    decreases b.width - x
  {
    if x < b.width && ColorsEqual(Pixel(b, x, y), target, FillTolerance) then
      var s := SpanPixel(b, target, fill, x, y, spanAbove, spanBelow, stack);
      SpanFill(s.image, target, fill, x + 1, y, s.spanAbove, s.spanBelow, s.stack)
    else
      (b, stack)
  }

  /** One more pixel of the walk right: the rest of the walk starts after SpanPixel. */
  lemma SpanFillUnfold(b: Grid, target: RGBA, fill: RGBA, x: int, y: int,
                       spanAbove: bool, spanBelow: bool, stack: seq<Coord>)
    requires b.Valid() && 0 <= x < b.width && 0 <= y < b.height
    requires ColorsEqual(Pixel(b, x, y), target, FillTolerance)
    ensures var s := SpanPixel(b, target, fill, x, y, spanAbove, spanBelow, stack);
            SpanFill(b, target, fill, x, y, spanAbove, spanBelow, stack) ==
            SpanFill(s.image, target, fill, x + 1, y, s.spanAbove, s.spanBelow, s.stack)
  {
  }

  /** The walk right stops at the edge of the bitmap or at the first pixel that does not match. */
  lemma SpanFillStop(b: Grid, target: RGBA, fill: RGBA, x: int, y: int,
                     spanAbove: bool, spanBelow: bool, stack: seq<Coord>)
    requires b.Valid() && 0 <= x && 0 <= y < b.height
    requires !(x < b.width && ColorsEqual(Pixel(b, x, y), target, FillTolerance))
    ensures SpanFill(b, target, fill, x, y, spanAbove, spanBelow, stack) == (b, stack)
  {
  }

  /** One iteration of the outer `while` of `scanlineFill` (FloodFill.swift:66-104). */
  function ScanStep(b: Grid, target: RGBA, fill: RGBA, stack: seq<Coord>): (r: (Grid, seq<Coord>))
    requires b.Valid() && |stack| > 0 && AllInside(b, stack)
    ensures r.0.width == b.width && r.0.height == b.height && r.0.Valid()
    ensures |stack| - 1 <= |r.1| && r.1[..|stack| - 1] == stack[..|stack| - 1]
  {
    var top := stack[|stack| - 1];
    var start := RunStart(b, target, top.0, top.1);
    SpanFill(b, target, fill, start, top.1, false, false, stack[..|stack| - 1])
  }

  // ---------------------------------------------------------------------
  // The region a fill must recolour

  /** A fill request: the original bitmap, the seed's colour, the new colour and the seed. */
  datatype Job = Job(orig: Grid, target: RGBA, fill: RGBA, seed: Coord)

  predicate Adjacent(p: Coord, q: Coord) {
    (p.0 == q.0 && (p.1 == q.1 + 1 || q.1 == p.1 + 1)) ||
    (p.1 == q.1 && (p.0 == q.0 + 1 || q.0 == p.0 + 1))
  }

  /** `path` leads from `from` to `to` through 4-adjacent pixels of `b` that all match `target`. */
  ghost predicate IsPath(b: Grid, target: RGBA, path: seq<Coord>, from: Coord, to: Coord) {
    |path| > 0 && path[0] == from && path[|path| - 1] == to &&
    (forall i :: 0 <= i < |path| ==> Matches(b, target, path[i].0, path[i].1)) &&
    (forall i :: 0 < i < |path| ==> Adjacent(path[i - 1], path[i]))
  }

  /** q is 4-connected to `from` through pixels of `b` that match `target`. */
  ghost predicate Connected(b: Grid, target: RGBA, from: Coord, q: Coord) {
    exists path :: IsPath(b, target, path, from, q)
  }

  /** The pixels the fill of `job` must recolour. */
  ghost predicate InRegion(job: Job, x: int, y: int) {
    Connected(job.orig, job.target, job.seed, (x, y))
  }

  /**
   * What a completed fill promises: every pixel of the seed's region has
   * the fill colour and every other pixel is as it was.
   */
  ghost predicate FloodFilled(job: Job, c: Grid) {
    c.width == job.orig.width && c.height == job.orig.height && c.Valid() &&
    forall x, y {:trigger Pixel(c, x, y)} :: job.orig.Contains(x, y) ==>
      Pixel(c, x, y) == if InRegion(job, x, y) then job.fill else Pixel(job.orig, x, y)
  }

  // ---------------------------------------------------------------------
  // The loop invariant

  /** The job is one `scanlineFill` can run: the seed has `target` and `fill` does not match it. */
  ghost predicate Runnable(job: Job) {
    job.orig.Valid() && job.orig.Contains(job.seed.0, job.seed.1) &&
    Pixel(job.orig, job.seed.0, job.seed.1) == job.target &&
    !ColorsEqual(job.fill, job.target, FillTolerance)
  }

  /** Each pixel either keeps its colour or matched originally and now has the fill colour. */
  ghost predicate OnlyRegionWritten(job: Job, c: Grid) {
    c.width == job.orig.width && c.height == job.orig.height && c.Valid() &&
    forall x, y {:trigger Pixel(c, x, y)} :: job.orig.Contains(x, y) ==>
      Pixel(c, x, y) == Pixel(job.orig, x, y) ||
      (Matches(job.orig, job.target, x, y) && Pixel(c, x, y) == job.fill)
  }

  /** A pixel the fill has already recoloured. */
  ghost predicate Filled(job: Job, c: Grid, x: int, y: int) {
    Matches(job.orig, job.target, x, y) && !Matches(c, job.target, x, y)
  }

  /** A still matching pixel that is the seed or touches a recoloured pixel. */
  ghost predicate Frontier(job: Job, c: Grid, x: int, y: int) {
    Matches(c, job.target, x, y) &&
    ((x, y) == job.seed ||
     Filled(job, c, x - 1, y) || Filled(job, c, x + 1, y) ||
     Filled(job, c, x, y - 1) || Filled(job, c, x, y + 1))
  }

  /** Every pixel of row y from lo to hi matches. */
  ghost predicate RunMatches(c: Grid, target: RGBA, y: int, lo: int, hi: int) {
    forall k :: lo <= k <= hi ==> Matches(c, target, k, y)
  }

  /** Popping seed s fills (x, y): they share a row and a matching run. */
  ghost predicate CoveredBy(c: Grid, target: RGBA, s: Coord, x: int, y: int) {
    s.1 == y && RunMatches(c, target, y, Min(s.0, x), Max(s.0, x))
  }

  ghost predicate Covered(c: Grid, target: RGBA, stack: seq<Coord>, x: int, y: int) {
    exists i :: 0 <= i < |stack| && CoveredBy(c, target, stack[i], x, y)
  }

  /** A seed on the stack lies at or left of x on row y, in the run that reaches x. */
  ghost predicate CoveredFromLeft(c: Grid, target: RGBA, stack: seq<Coord>, x: int, y: int) {
    exists i :: 0 <= i < |stack| && stack[i].1 == y && stack[i].0 <= x &&
      RunMatches(c, target, y, stack[i].0, x)
  }

  /**
   * What both loops of `scanlineFill` keep: only region pixels are
   * recoloured, and every seed and every recoloured pixel is in the region.
   */
  ghost predicate Sound(job: Job, c: Grid, stack: seq<Coord>) {
    Runnable(job) && OnlyRegionWritten(job, c) && AllInside(c, stack) &&
    (forall i :: 0 <= i < |stack| ==> InRegion(job, stack[i].0, stack[i].1)) &&
    (forall x, y {:trigger Filled(job, c, x, y)} :: Filled(job, c, x, y) ==> InRegion(job, x, y))
  }

  /** The invariant of the outer loop of `scanlineFill`: each frontier pixel is covered by a seed. */
  ghost predicate Inv(job: Job, c: Grid, stack: seq<Coord>) {
    Sound(job, c, stack) &&
    (forall x, y {:trigger Frontier(job, c, x, y)} :: Frontier(job, c, x, y) ==> Covered(c, job.target, stack, x, y))
  }

  /** (x, y) lies on row `row`, at or right of `x0`, in the run the walk right is still to fill. */
  ghost predicate Pending(c: Grid, target: RGBA, row: int, x0: int, x: int, y: int) {
    y == row && x0 <= x && RunMatches(c, target, row, x0, x)
  }

  /** The invariant of the walk right along row `row`, about to look at pixel x. */
  ghost predicate SpanInv(job: Job, c: Grid, stack: seq<Coord>, row: int, x: int,
                          spanAbove: bool, spanBelow: bool) {
    Sound(job, c, stack) && 0 <= row < c.height && 0 <= x &&
    (x == 0 || !Matches(c, job.target, x - 1, row)) &&
    (Matches(c, job.target, x, row) ==> InRegion(job, x, row)) &&
    (spanAbove ==> row > 0 && x > 0 && CoveredFromLeft(c, job.target, stack, x - 1, row - 1)) &&
    (spanBelow ==> row < c.height - 1 && x > 0 && CoveredFromLeft(c, job.target, stack, x - 1, row + 1)) &&
    (forall qx, qy {:trigger Frontier(job, c, qx, qy)} :: Frontier(job, c, qx, qy) ==>
       Covered(c, job.target, stack, qx, qy) || Pending(c, job.target, row, x, qx, qy))
  }

  // ---------------------------------------------------------------------
  // Reachability

  lemma ConnectedSelf(b: Grid, target: RGBA, p: Coord)
    requires Matches(b, target, p.0, p.1)
    ensures Connected(b, target, p, p)
  {
    assert IsPath(b, target, [p], p, p);
  }

  lemma ConnectedStep(b: Grid, target: RGBA, from: Coord, q: Coord, r: Coord)
    requires Connected(b, target, from, q)
    requires Adjacent(q, r) && Matches(b, target, r.0, r.1)
    ensures Connected(b, target, from, r)
  {
    var path :| IsPath(b, target, path, from, q);
    var path' := path + [r];
    assert IsPath(b, target, path', from, r);
  }

  /** Walking left along a matching run stays in the region. */
  lemma {:induction false} ConnectedLeft(b: Grid, target: RGBA, from: Coord, y: int, lo: int, hi: int)
    requires lo <= hi && Connected(b, target, from, (hi, y))
    requires forall k :: lo <= k < hi ==> Matches(b, target, k, y)
    ensures Connected(b, target, from, (lo, y))
    decreases hi - lo
  {
    if lo < hi {
      ConnectedStep(b, target, from, (hi, y), (hi - 1, y));
      ConnectedLeft(b, target, from, y, lo, hi - 1);
    }
  }

  lemma ReversePath(b: Grid, target: RGBA, path: seq<Coord>, from: Coord, to: Coord)
    requires IsPath(b, target, path, from, to)
    ensures Connected(b, target, to, from)
  {
    var n := |path|;
    var rev := seq(n, i requires 0 <= i < n => path[n - 1 - i]);
    forall i | 0 < i < n
      ensures Adjacent(rev[i - 1], rev[i])
    {
      assert rev[i - 1] == path[n - i] && rev[i] == path[n - i - 1];
      assert Adjacent(path[n - i - 1], path[n - i]);
    }
    forall i | 0 <= i < n
      ensures Matches(b, target, rev[i].0, rev[i].1)
    {
      assert rev[i] == path[n - 1 - i];
    }
    assert IsPath(b, target, rev, to, from);
  }

  /** Connectivity through matching pixels is symmetric. */
  lemma ConnectedSymmetric(b: Grid, target: RGBA, p: Coord, q: Coord)
    requires Connected(b, target, p, q)
    ensures Connected(b, target, q, p)
  {
    var path :| IsPath(b, target, path, p, q);
    ReversePath(b, target, path, p, q);
  }

  /** Connectivity through matching pixels is transitive. */
  lemma ConnectedTransitive(b: Grid, target: RGBA, p: Coord, q: Coord, r: Coord)
    requires Connected(b, target, p, q) && Connected(b, target, q, r)
    ensures Connected(b, target, p, r)
  {
    var p1 :| IsPath(b, target, p1, p, q);
    var p2 :| IsPath(b, target, p2, q, r);
    var path := p1 + p2[1..];
    assert forall i :: |p1| <= i < |path| ==> path[i] == p2[i - |p1| + 1];
    forall i | 0 < i < |path|
      ensures Adjacent(path[i - 1], path[i])
    {
      if i == |p1| {
        assert path[i - 1] == p1[|p1| - 1] == p2[0];
      }
    }
    assert IsPath(b, target, path, p, r);
  }

  // ---------------------------------------------------------------------
  // Facts about the frame

  /** A pixel that still matches has kept its original colour. */
  lemma StillMatchingUnchanged(job: Job, c: Grid, x: int, y: int)
    requires Runnable(job) && OnlyRegionWritten(job, c)
    requires Matches(c, job.target, x, y)
    ensures Pixel(c, x, y) == Pixel(job.orig, x, y)
    ensures Matches(job.orig, job.target, x, y)
  {
  }

  lemma RunMatchesOrig(job: Job, c: Grid, y: int, lo: int, hi: int)
    requires Runnable(job) && OnlyRegionWritten(job, c)
    requires forall k :: lo <= k < hi ==> Matches(c, job.target, k, y)
    ensures forall k :: lo <= k < hi ==> Matches(job.orig, job.target, k, y)
  {
    forall k | lo <= k < hi
      ensures Matches(job.orig, job.target, k, y)
    {
      StillMatchingUnchanged(job, c, k, y);
    }
  }

  // ---------------------------------------------------------------------
  // The invariant is established, kept and, at the end, gives FloodFilled

  lemma InvInit(job: Job)
    requires Runnable(job)
    ensures Inv(job, job.orig, [job.seed])
  {
    var o, t, s := job.orig, job.target, job.seed;
    ColorsEqualReflexive(t, FillTolerance);
    ConnectedSelf(o, t, s);
    var st := [s];
    forall x, y | Frontier(job, o, x, y)
      ensures Covered(o, t, st, x, y)
    {
      assert (x, y) == s;
      assert st[0] == s && CoveredBy(o, t, st[0], x, y);
    }
  }

  /** Popping the top seed and walking left sets up the walk right. */
  lemma PopKeepsInv(job: Job, c: Grid, stack: seq<Coord>)
    requires Inv(job, c, stack) && |stack| > 0
    ensures var top := stack[|stack| - 1];
            SpanInv(job, c, stack[..|stack| - 1], top.1,
                    RunStart(c, job.target, top.0, top.1), false, false)
  {
    var top := stack[|stack| - 1];
    var rest := stack[..|stack| - 1];
    assert forall i :: 0 <= i < |rest| ==> rest[i] == stack[i];
    assert c.Contains(top.0, top.1) && InRegion(job, top.0, top.1);
    PopStartInRegion(job, c, top.0, top.1);
    PopFrontier(job, c, stack);
  }

  /** The start of the run the popped seed lies in belongs to the region. */
  lemma PopStartInRegion(job: Job, c: Grid, sx: int, sy: int)
    requires Runnable(job) && OnlyRegionWritten(job, c) && c.Contains(sx, sy) && InRegion(job, sx, sy)
    ensures var start := RunStart(c, job.target, sx, sy);
            Matches(c, job.target, start, sy) ==> InRegion(job, start, sy)
  {
    var start := RunStart(c, job.target, sx, sy);
    RunMatchesOrig(job, c, sy, start, sx);
    ConnectedLeft(job.orig, job.target, job.seed, sy, start, sx);
  }

  /** After the pop, the frontier the popped seed covered is pending on its row. */
  lemma PopFrontier(job: Job, c: Grid, stack: seq<Coord>)
    requires Inv(job, c, stack) && |stack| > 0
    ensures var top := stack[|stack| - 1];
            var start := RunStart(c, job.target, top.0, top.1);
            forall qx, qy {:trigger Frontier(job, c, qx, qy)} :: Frontier(job, c, qx, qy) ==>
              Covered(c, job.target, stack[..|stack| - 1], qx, qy) ||
              Pending(c, job.target, top.1, start, qx, qy)
  {
    var t := job.target;
    var top := stack[|stack| - 1];
    var rest := stack[..|stack| - 1];
    var sx, sy := top.0, top.1;
    var start := RunStart(c, t, sx, sy);
    forall qx, qy | Frontier(job, c, qx, qy)
      ensures Covered(c, t, rest, qx, qy) || Pending(c, t, sy, start, qx, qy)
    {
      var i :| 0 <= i < |stack| && CoveredBy(c, t, stack[i], qx, qy);
      if i < |rest| {
        assert rest[i] == stack[i];
      } else {
        PoppedCover(c, t, sx, sy, qx, qy);
      }
    }
  }

  /** The walk left from x goes at least as far as any matching stretch that ends just before x. */
  lemma {:induction false} RunStartReaches(c: Grid, t: RGBA, x: int, y: int, lo: int)
    requires 0 <= lo <= x
    requires forall k :: lo <= k < x ==> Matches(c, t, k, y)
    ensures RunStart(c, t, x, y) <= lo
    decreases x
  {
    if lo < x {
      RunStartReaches(c, t, x - 1, y, lo);
    }
  }

  /** A pixel in the matching run of seed (sx, sy) lies at or right of the run's start. */
  lemma PoppedCover(c: Grid, t: RGBA, sx: int, sy: int, qx: int, qy: int)
    requires 0 <= sx && CoveredBy(c, t, (sx, sy), qx, qy)
    ensures Pending(c, t, sy, RunStart(c, t, sx, sy), qx, qy)
  {
    var start := RunStart(c, t, sx, sy);
    var lo, hi := Min(sx, qx), Max(sx, qx);
    assert Matches(c, t, lo, sy);
    RunStartReaches(c, t, sx, sy, lo);
    forall k | start <= k <= qx
      ensures Matches(c, t, k, sy)
    {
      if k >= sx {
        assert lo <= k <= hi;
      }
    }
  }

  /** Recolouring pixel (x, row) of c changes no other pixel. */
  lemma SetPixelFrame(c: Grid, target: RGBA, fill: RGBA, x: int, row: int)
    requires c.Valid() && c.Contains(x, row)
    ensures forall qx, qy :: (qx != x || qy != row) ==>
              Pixel(SetPixel(c, x, row, fill), qx, qy) == Pixel(c, qx, qy) &&
              Matches(SetPixel(c, x, row, fill), target, qx, qy) == Matches(c, target, qx, qy)
  {
  }

  /** Recolouring a matching pixel of the region keeps the region-only and filled-in-region facts. */
  lemma WriteRegionPixel(job: Job, c: Grid, x: int, row: int)
    requires Runnable(job) && OnlyRegionWritten(job, c)
    requires Matches(c, job.target, x, row) && InRegion(job, x, row)
    requires forall qx, qy {:trigger Filled(job, c, qx, qy)} :: Filled(job, c, qx, qy) ==> InRegion(job, qx, qy)
    ensures var c1 := SetPixel(c, x, row, job.fill);
            OnlyRegionWritten(job, c1) && !Matches(c1, job.target, x, row) &&
            forall qx, qy {:trigger Filled(job, c1, qx, qy)} :: Filled(job, c1, qx, qy) ==> InRegion(job, qx, qy)
  {
    var c1 := SetPixel(c, x, row, job.fill);
    StillMatchingUnchanged(job, c, x, row);
    SetPixelFrame(c, job.target, job.fill, x, row);
    forall qx, qy | Filled(job, c1, qx, qy)
      ensures InRegion(job, qx, qy)
    {
      if qx != x || qy != row {
        assert Filled(job, c, qx, qy);
      }
    }
  }

  /** The seeds the probes push lie in the region, next to (x, row). */
  lemma PushesInRegion(job: Job, c: Grid, stack: seq<Coord>, row: int, x: int,
                       spanAbove: bool, spanBelow: bool)
    requires Runnable(job) && c.Valid() && c.Contains(x, row) && AllInside(c, stack)
    requires c.width == job.orig.width && c.height == job.orig.height
    requires InRegion(job, x, row)
    requires forall i :: 0 <= i < |stack| ==> InRegion(job, stack[i].0, stack[i].1)
    requires OnlyRegionWritten(job, SetPixel(c, x, row, job.fill))
    ensures var s := SpanPixel(c, job.target, job.fill, x, row, spanAbove, spanBelow, stack);
            |stack| <= |s.stack| && s.stack[..|stack|] == stack &&
            AllInside(s.image, s.stack) &&
            forall i :: 0 <= i < |s.stack| ==> InRegion(job, s.stack[i].0, s.stack[i].1)
  {
    var t, o := job.target, job.orig;
    var s := SpanPixel(c, t, job.fill, x, row, spanAbove, spanBelow, stack);
    var c1, stack' := s.image, s.stack;
    PushedNeighbours(c1, t, x, row, spanAbove, spanBelow, stack);
    forall i | |stack| <= i < |stack'|
      ensures c1.Contains(stack'[i].0, stack'[i].1) && InRegion(job, stack'[i].0, stack'[i].1)
    {
      var p := stack'[i];
      StillMatchingUnchanged(job, c1, p.0, p.1);
      ConnectedStep(o, t, job.seed, (x, row), p);
    }
    assert forall i :: 0 <= i < |stack| ==> stack'[i] == stack[i];
  }

  /** The probes at pixel x push only matching neighbours (x, row - 1) and (x, row + 1). */
  lemma PushedNeighbours(c1: Grid, t: RGBA, x: int, row: int, sa: bool, sb: bool, stack: seq<Coord>)
    ensures var above := if row > 0 then Probe(c1, t, x, row - 1, sa, stack) else (stack, sa);
            var below := if row < c1.height - 1 then Probe(c1, t, x, row + 1, sb, above.0) else (above.0, sb);
            |stack| <= |below.0| && below.0[..|stack|] == stack &&
            forall i :: |stack| <= i < |below.0| ==>
              (below.0[i] == (x, row - 1) || below.0[i] == (x, row + 1)) &&
              Matches(c1, t, below.0[i].0, below.0[i].1)
  {
  }

  /** Recolouring pixel (x, y) and probing its neighbours keeps the invariant of the walk right. */
  lemma SpanPixelKeepsInv(job: Job, c: Grid, stack: seq<Coord>, row: int, x: int,
                          spanAbove: bool, spanBelow: bool)
    requires SpanInv(job, c, stack, row, x, spanAbove, spanBelow)
    requires x < c.width && Matches(c, job.target, x, row)
    ensures var s := SpanPixel(c, job.target, job.fill, x, row, spanAbove, spanBelow, stack);
            SpanInv(job, s.image, s.stack, row, x + 1, s.spanAbove, s.spanBelow)
  {
    WriteRegionPixel(job, c, x, row);
    PushesInRegion(job, c, stack, row, x, spanAbove, spanBelow);
    NextPixelInRegion(job, c, x, row);
    AboveFlag(c, job.target, job.fill, stack, row, x, spanAbove, spanBelow);
    BelowFlag(c, job.target, job.fill, stack, row, x, spanAbove, spanBelow);
    FrontierKept(job, c, stack, row, x, spanAbove, spanBelow);
  }

  /** The pixel right of a recoloured region pixel, if it still matches, is in the region too. */
  lemma NextPixelInRegion(job: Job, c: Grid, x: int, row: int)
    requires Runnable(job) && OnlyRegionWritten(job, c) && c.Contains(x, row)
    requires InRegion(job, x, row)
    ensures Matches(SetPixel(c, x, row, job.fill), job.target, x + 1, row) ==> InRegion(job, x + 1, row)
  {
    var c1 := SetPixel(c, x, row, job.fill);
    if Matches(c1, job.target, x + 1, row) {
      assert Pixel(c1, x + 1, row) == Pixel(c, x + 1, row);
      StillMatchingUnchanged(job, c, x + 1, row);
      ConnectedStep(job.orig, job.target, job.seed, (x, row), (x + 1, row));
    }
  }

  /** Every frontier pixel after recolouring (x, row) is covered by a seed or still pending on the row. */
  lemma FrontierKept(job: Job, c: Grid, stack: seq<Coord>, row: int, x: int,
                     spanAbove: bool, spanBelow: bool)
    requires c.Valid() && c.Contains(x, row) && Matches(c, job.target, x, row)
    requires !ColorsEqual(job.fill, job.target, FillTolerance)
    requires x == 0 || !Matches(c, job.target, x - 1, row)
    requires spanAbove ==> row > 0 && x > 0 && CoveredFromLeft(c, job.target, stack, x - 1, row - 1)
    requires spanBelow ==> row < c.height - 1 && x > 0 && CoveredFromLeft(c, job.target, stack, x - 1, row + 1)
    requires forall qx, qy {:trigger Frontier(job, c, qx, qy)} :: Frontier(job, c, qx, qy) ==>
               Covered(c, job.target, stack, qx, qy) || Pending(c, job.target, row, x, qx, qy)
    ensures var s := SpanPixel(c, job.target, job.fill, x, row, spanAbove, spanBelow, stack);
            forall qx, qy {:trigger Frontier(job, s.image, qx, qy)} :: Frontier(job, s.image, qx, qy) ==>
              Covered(s.image, job.target, s.stack, qx, qy) || Pending(s.image, job.target, row, x + 1, qx, qy)
  {
    var t, f := job.target, job.fill;
    var s := SpanPixel(c, t, f, x, row, spanAbove, spanBelow, stack);
    var c1, stack' := s.image, s.stack;
    AboveFlag(c, t, f, stack, row, x, spanAbove, spanBelow);
    BelowFlag(c, t, f, stack, row, x, spanAbove, spanBelow);
    forall qx, qy | Frontier(job, c1, qx, qy)
      ensures Covered(c1, t, stack', qx, qy) || Pending(c1, t, row, x + 1, qx, qy)
    {
      if qx == x && qy == row - 1 {
        assert s.spanAbove;
        FromLeftCovered(c1, t, stack', qx, qy);
      } else if qx == x && qy == row + 1 {
        assert s.spanBelow;
        FromLeftCovered(c1, t, stack', qx, qy);
      } else if qx == x + 1 && qy == row {
        SetPixelFrame(c, t, f, x, row);
        assert Pending(c1, t, row, x + 1, qx, qy);
      } else {
        FrontierAway(job, c, x, row, qx, qy);
        CoverKept(c, t, f, stack, row, x, spanAbove, spanBelow, qx, qy);
      }
    }
  }

  /**
   * A frontier pixel after recolouring (x, row) that is not (x, row) and not
   * one of its neighbours that the walk looks at was a frontier pixel before.
   */
  lemma FrontierAway(job: Job, c: Grid, x: int, row: int, qx: int, qy: int)
    requires c.Valid() && c.Contains(x, row)
    requires x == 0 || !Matches(c, job.target, x - 1, row)
    requires (qx, qy) != (x, row) && (qx, qy) != (x, row - 1) && (qx, qy) != (x, row + 1) && (qx, qy) != (x + 1, row)
    requires Frontier(job, SetPixel(c, x, row, job.fill), qx, qy)
    ensures Frontier(job, c, qx, qy)
  {
    SetPixelFrame(c, job.target, job.fill, x, row);
  }

  lemma FromLeftCovered(c: Grid, target: RGBA, stack: seq<Coord>, x: int, y: int)
    requires CoveredFromLeft(c, target, stack, x, y)
    ensures Covered(c, target, stack, x, y)
  {
    var i :| 0 <= i < |stack| && stack[i].1 == y && stack[i].0 <= x && RunMatches(c, target, y, stack[i].0, x);
    assert CoveredBy(c, target, stack[i], x, y);
  }

  /**
   * After the probe above (x, row) the flag `spanAbove` is set exactly when
   * (x, row - 1) matches, and then a seed on the stack covers it from the left.
   */
  lemma AboveFlag(c: Grid, t: RGBA, f: RGBA, stack: seq<Coord>, row: int, x: int,
                  spanAbove: bool, spanBelow: bool)
    requires c.Valid() && c.Contains(x, row)
    requires spanAbove ==> row > 0 && x > 0 && CoveredFromLeft(c, t, stack, x - 1, row - 1)
    ensures var s := SpanPixel(c, t, f, x, row, spanAbove, spanBelow, stack);
            s.spanAbove == (row > 0 && Matches(s.image, t, x, row - 1)) &&
            (s.spanAbove ==> CoveredFromLeft(s.image, t, s.stack, x, row - 1))
  {
    var s := SpanPixel(c, t, f, x, row, spanAbove, spanBelow, stack);
    var c1 := s.image;
    if row > 0 {
      var mid := Probe(c1, t, x, row - 1, spanAbove, stack).0;
      var stack' := s.stack;
      assert stack' == mid || stack' == mid + [(x, row + 1)];
      if s.spanAbove {
        if !spanAbove {
          var i := |stack|;
          assert stack'[i] == (x, row - 1);
          assert RunMatches(c1, t, row - 1, x, x);
        } else {
          var i :| 0 <= i < |stack| && stack[i].1 == row - 1 && stack[i].0 <= x - 1 &&
                   RunMatches(c, t, row - 1, stack[i].0, x - 1);
          assert stack'[i] == stack[i];
          SetPixelFrame(c, t, f, x, row);
          var ny := row - 1;
          forall k | stack[i].0 <= k <= x
            ensures Matches(c1, t, k, ny)
          {
            if k < x {
              assert Matches(c, t, k, ny);
            }
          }
          assert RunMatches(c1, t, ny, stack[i].0, x);
        }
      }
    }
  }

  /**
   * After the probe below (x, row) the flag `spanBelow` is set exactly when
   * (x, row + 1) matches, and then a seed on the stack covers it from the left.
   */
  lemma BelowFlag(c: Grid, t: RGBA, f: RGBA, stack: seq<Coord>, row: int, x: int,
                  spanAbove: bool, spanBelow: bool)
    requires c.Valid() && c.Contains(x, row)
    requires spanBelow ==> row < c.height - 1 && x > 0 && CoveredFromLeft(c, t, stack, x - 1, row + 1)
    ensures var s := SpanPixel(c, t, f, x, row, spanAbove, spanBelow, stack);
            s.spanBelow == (row < c.height - 1 && Matches(s.image, t, x, row + 1)) &&
            (s.spanBelow ==> CoveredFromLeft(s.image, t, s.stack, x, row + 1))
  {
    var s := SpanPixel(c, t, f, x, row, spanAbove, spanBelow, stack);
    var c1 := s.image;
    var mid := if row > 0 then Probe(c1, t, x, row - 1, spanAbove, stack).0 else stack;
    assert |stack| <= |mid| && forall i :: 0 <= i < |stack| ==> mid[i] == stack[i];
    if row < c.height - 1 {
      var stack' := s.stack;
      if s.spanBelow {
        if !spanBelow {
          var i := |mid|;
          assert stack' == mid + [(x, row + 1)];
          assert stack'[i] == (x, row + 1);
          assert RunMatches(c1, t, row + 1, x, x);
        } else {
          var i :| 0 <= i < |stack| && stack[i].1 == row + 1 && stack[i].0 <= x - 1 &&
                   RunMatches(c, t, row + 1, stack[i].0, x - 1);
          assert stack' == mid;
          assert stack'[i] == stack[i];
          SetPixelFrame(c, t, f, x, row);
          var ny := row + 1;
          forall k | stack[i].0 <= k <= x
            ensures Matches(c1, t, k, ny)
          {
            if k < x {
              assert Matches(c, t, k, ny);
            }
          }
          assert RunMatches(c1, t, ny, stack[i].0, x);
        }
      }
    }
  }

  /** A matching run reaching from lo to hi covers the left neighbour of every x in it past lo. */
  lemma RunCoversLeft(c: Grid, t: RGBA, row: int, lo: int, hi: int, x: int)
    requires lo <= x <= hi && RunMatches(c, t, row, lo, hi)
    ensures lo < x ==> Matches(c, t, x - 1, row)
  {
    if lo < x {
      assert lo <= x - 1 <= hi;
    }
  }

  /** A pixel away from (x, row), covered or pending before (x, row) is recoloured, stays so after. */
  lemma CoverKept(c: Grid, t: RGBA, f: RGBA, stack: seq<Coord>, row: int, x: int,
                  spanAbove: bool, spanBelow: bool, qx: int, qy: int)
    requires c.Valid() && c.Contains(x, row) && Matches(c, t, x, row)
    requires x == 0 || !Matches(c, t, x - 1, row)
    requires qx != x || qy != row
    requires Covered(c, t, stack, qx, qy) || Pending(c, t, row, x, qx, qy)
    ensures var s := SpanPixel(c, t, f, x, row, spanAbove, spanBelow, stack);
            Covered(s.image, t, s.stack, qx, qy) || Pending(s.image, t, row, x + 1, qx, qy)
  {
    var s := SpanPixel(c, t, f, x, row, spanAbove, spanBelow, stack);
    var c1 := s.image;
    SetPixelFrame(c, t, f, x, row);
    if Covered(c, t, stack, qx, qy) {
      var i :| 0 <= i < |stack| && CoveredBy(c, t, stack[i], qx, qy);
      var lo, hi := Min(stack[i].0, qx), Max(stack[i].0, qx);
      if qy == row && lo <= x <= hi {
        RunCoversLeft(c, t, row, lo, hi, x);
        assert Pending(c1, t, row, x + 1, qx, qy);
      } else {
        assert s.stack[i] == stack[i];
        assert CoveredBy(c1, t, s.stack[i], qx, qy);
      }
    } else {
      assert Pending(c1, t, row, x + 1, qx, qy);
    }
  }

  /** The whole walk right ends in the invariant of the outer loop. */
  lemma {:induction false} SpanFillKeepsInv(job: Job, c: Grid, stack: seq<Coord>, row: int, x: int,
                                            spanAbove: bool, spanBelow: bool)
    requires SpanInv(job, c, stack, row, x, spanAbove, spanBelow)
    ensures var r := SpanFill(c, job.target, job.fill, x, row, spanAbove, spanBelow, stack);
            Inv(job, r.0, r.1)
    decreases c.width - x
  {
    if x < c.width && ColorsEqual(Pixel(c, x, row), job.target, FillTolerance) {
      var s := SpanPixel(c, job.target, job.fill, x, row, spanAbove, spanBelow, stack);
      SpanPixelKeepsInv(job, c, stack, row, x, spanAbove, spanBelow);
      SpanFillKeepsInv(job, s.image, s.stack, row, x + 1, s.spanAbove, s.spanBelow);
      SpanFillUnfold(c, job.target, job.fill, x, row, spanAbove, spanBelow, stack);
    } else {
      SpanEndKeepsInv(job, c, stack, row, x, spanAbove, spanBelow);
    }
  }

  /** Where the walk right stops, nothing is pending and the outer invariant holds again. */
  lemma SpanEndKeepsInv(job: Job, c: Grid, stack: seq<Coord>, row: int, x: int,
                        spanAbove: bool, spanBelow: bool)
    requires SpanInv(job, c, stack, row, x, spanAbove, spanBelow)
    requires !(x < c.width && ColorsEqual(Pixel(c, x, row), job.target, FillTolerance))
    ensures var r := SpanFill(c, job.target, job.fill, x, row, spanAbove, spanBelow, stack);
            r == (c, stack) && Inv(job, c, stack)
  {
    SpanFillStop(c, job.target, job.fill, x, row, spanAbove, spanBelow, stack);
    assert !Matches(c, job.target, x, row);
    forall qx, qy | Frontier(job, c, qx, qy)
      ensures Covered(c, job.target, stack, qx, qy)
    {
      if Pending(c, job.target, row, x, qx, qy) {
        assert false;
      }
    }
  }

  /** One iteration of the outer loop keeps its invariant. */
  lemma ScanStepKeepsInv(job: Job, c: Grid, stack: seq<Coord>)
    requires Inv(job, c, stack) && |stack| > 0
    ensures var r := ScanStep(c, job.target, job.fill, stack);
            Inv(job, r.0, r.1)
  {
    var top := stack[|stack| - 1];
    PopKeepsInv(job, c, stack);
    SpanFillKeepsInv(job, c, stack[..|stack| - 1], top.1,
                     RunStart(c, job.target, top.0, top.1), false, false);
  }

  /** With the stack empty, no pixel is on the frontier. */
  lemma NoFrontierWhenDone(job: Job, c: Grid, x: int, y: int)
    requires Inv(job, c, [])
    ensures !Frontier(job, c, x, y)
  {
  }

  /** With the stack empty, every pixel of the region has been recoloured. */
  lemma {:induction false} PathFilled(job: Job, c: Grid, path: seq<Coord>, q: Coord)
    requires Inv(job, c, []) && IsPath(job.orig, job.target, path, job.seed, q)
    ensures Filled(job, c, q.0, q.1)
    decreases |path|
  {
    NoFrontierWhenDone(job, c, q.0, q.1);
    if |path| > 1 {
      var prev := path[|path| - 2];
      assert IsPath(job.orig, job.target, path[..|path| - 1], job.seed, prev);
      PathFilled(job, c, path[..|path| - 1], prev);
      assert Adjacent(prev, q);
    }
  }

  /** The invariant with an empty stack is the promise of a completed fill. */
  lemma InvDone(job: Job, c: Grid)
    requires Inv(job, c, [])
    ensures FloodFilled(job, c)
  {
    forall x, y | job.orig.Contains(x, y)
      ensures Pixel(c, x, y) == if InRegion(job, x, y) then job.fill else Pixel(job.orig, x, y)
    {
      if InRegion(job, x, y) {
        var path :| IsPath(job.orig, job.target, path, job.seed, (x, y));
        PathFilled(job, c, path, (x, y));
      } else {
        assert !Filled(job, c, x, y);
      }
    }
  }

  // ---------------------------------------------------------------------
  // Termination: the pixels that still match, then the stack size

  /** The pixels of b that match `target`. */
  ghost function MatchSet(b: Grid, target: RGBA): set<Coord> {
    set x, y | 0 <= x < b.width && 0 <= y < b.height && Matches(b, target, x, y) :: (x, y)
  }

  lemma SetPixelShrinks(b: Grid, target: RGBA, fill: RGBA, x: int, y: int)
    requires b.Valid() && Matches(b, target, x, y) && !ColorsEqual(fill, target, FillTolerance)
    ensures MatchSet(SetPixel(b, x, y, fill), target) == MatchSet(b, target) - {(x, y)}
    ensures (x, y) in MatchSet(b, target)
  {
  }

  /** A walk right either recolours a pixel, and then fewer pixels match, or changes nothing. */
  lemma {:induction false} SpanFillShrinks(b: Grid, target: RGBA, fill: RGBA, x: int, y: int,
                                           spanAbove: bool, spanBelow: bool, stack: seq<Coord>)
    requires b.Valid() && 0 <= x && 0 <= y < b.height && !ColorsEqual(fill, target, FillTolerance)
    ensures var r := SpanFill(b, target, fill, x, y, spanAbove, spanBelow, stack);
            r == (b, stack) || MatchSet(r.0, target) < MatchSet(b, target)
    decreases b.width - x
  {
    if x < b.width && ColorsEqual(Pixel(b, x, y), target, FillTolerance) {
      var s := SpanPixel(b, target, fill, x, y, spanAbove, spanBelow, stack);
      SetPixelShrinks(b, target, fill, x, y);
      SpanFillShrinks(s.image, target, fill, x + 1, y, s.spanAbove, s.spanBelow, s.stack);
    }
  }

  /**
   * The outer loop terminates: each iteration either shrinks the set of
   * matching pixels or leaves the bitmap alone and pops one seed.
   */
  lemma ScanStepDecreases(b: Grid, target: RGBA, fill: RGBA, stack: seq<Coord>)
    requires b.Valid() && |stack| > 0 && AllInside(b, stack) && !ColorsEqual(fill, target, FillTolerance)
    ensures var r := ScanStep(b, target, fill, stack);
            MatchSet(r.0, target) < MatchSet(b, target) ||
            (r.0 == b && |r.1| < |stack|)
  {
    var top := stack[|stack| - 1];
    SpanFillShrinks(b, target, fill, RunStart(b, target, top.0, top.1), top.1, false, false, stack[..|stack| - 1]);
  }

  // ---------------------------------------------------------------------
  // The seeds a walk right pushes

  /** A probe pushes a coordinate in bounds: x is inside and y - 1 or y + 1 is a row of the bitmap. */
  lemma SpanPixelInside(b: Grid, target: RGBA, fill: RGBA, x: int, y: int,
                        spanAbove: bool, spanBelow: bool, stack: seq<Coord>)
    requires b.Valid() && b.Contains(x, y) && AllInside(b, stack)
    ensures var s := SpanPixel(b, target, fill, x, y, spanAbove, spanBelow, stack);
            AllInside(s.image, s.stack)
  {
  }

  /** Every coordinate on the stack after a walk right lies inside the bitmap. */
  lemma {:induction false} SpanFillInside(b: Grid, target: RGBA, fill: RGBA, x: int, y: int,
                                          spanAbove: bool, spanBelow: bool, stack: seq<Coord>)
    requires b.Valid() && 0 <= x && 0 <= y < b.height && AllInside(b, stack)
    ensures var r := SpanFill(b, target, fill, x, y, spanAbove, spanBelow, stack);
            AllInside(r.0, r.1)
    decreases b.width - x
  {
    if x < b.width && ColorsEqual(Pixel(b, x, y), target, FillTolerance) {
      var s := SpanPixel(b, target, fill, x, y, spanAbove, spanBelow, stack);
      SpanPixelInside(b, target, fill, x, y, spanAbove, spanBelow, stack);
      SpanFillInside(s.image, target, fill, x + 1, y, s.spanAbove, s.spanBelow, s.stack);
    }
  }

  /** Every stack entry stays inside the bitmap, so each later read and write is in bounds. */
  lemma ScanStepInside(b: Grid, target: RGBA, fill: RGBA, stack: seq<Coord>)
    requires b.Valid() && |stack| > 0 && AllInside(b, stack)
    ensures var r := ScanStep(b, target, fill, stack);
            AllInside(r.0, r.1)
  {
    var top := stack[|stack| - 1];
    assert AllInside(b, stack[..|stack| - 1]);
    SpanFillInside(b, target, fill, RunStart(b, target, top.0, top.1), top.1, false, false, stack[..|stack| - 1]);
  }

  /**
   * p starts a matching run at or after x0: it matches, and it is x0 itself
   * or its left neighbour does not match.
   */
  predicate RunHead(b: Grid, target: RGBA, x0: int, p: Coord) {
    x0 <= p.0 && Matches(b, target, p.0, p.1) &&
    (p.0 == x0 || !Matches(b, target, p.0 - 1, p.1))
  }

  /**
   * The entries of `out` beyond the old stack are seeds on row y - 1 or
   * y + 1, at or right of x, each starting a matching run at or after x0.
   */
  ghost predicate PushedHeads(b: Grid, t: RGBA, x0: int, x: int, y: int, stack: seq<Coord>, out: seq<Coord>) {
    |stack| <= |out| &&
    forall i :: |stack| <= i < |out| ==>
      (out[i].1 == y - 1 || out[i].1 == y + 1) && x <= out[i].0 && RunHead(b, t, x0, out[i])
  }

  /** The entries of `out` beyond the old stack that share a row were pushed left to right. */
  ghost predicate PushedInOrder(stack: seq<Coord>, out: seq<Coord>) {
    forall i, j :: |stack| <= i < j < |out| && out[i].1 == out[j].1 ==> out[i].0 < out[j].0
  }

  /** A probe pushes (x, ny) only when it starts a matching run at or after x0. */
  lemma ProbeHead(b: Grid, t: RGBA, x0: int, x: int, ny: int, span: bool, stack: seq<Coord>)
    requires x0 <= x
    requires span == (x0 < x && Matches(b, t, x - 1, ny))
    ensures var r := Probe(b, t, x, ny, span, stack);
            r.0 == stack || (r.0 == stack + [(x, ny)] && RunHead(b, t, x0, (x, ny)))
  {
  }

  /** Pushing one more run head p at x, on a row below those already pushed at x. */
  lemma PushOne(b: Grid, t: RGBA, x0: int, x: int, y: int, stack: seq<Coord>, mid: seq<Coord>, p: Coord)
    requires PushedHeads(b, t, x0, x, y, stack, mid) && PushedInOrder(stack, mid) && mid[..|stack|] == stack
    requires forall i :: |stack| <= i < |mid| ==> mid[i].0 == x && mid[i].1 < p.1
    requires p.0 == x && (p.1 == y - 1 || p.1 == y + 1) && RunHead(b, t, x0, p)
    ensures var out := mid + [p];
            PushedHeads(b, t, x0, x, y, stack, out) && PushedInOrder(stack, out) && out[..|stack|] == stack &&
            (forall i :: |stack| <= i < |out| ==> out[i].0 == x && out[i].1 <= p.1)
  {
    var out := mid + [p];
    assert forall i :: 0 <= i < |mid| ==> out[i] == mid[i];
  }

  /** The probes above and below pixel x, on a bitmap already recoloured at (x, y). */
  lemma TwoProbes(b1: Grid, t: RGBA, x0: int, x: int, y: int, sa: bool, sb: bool, stack: seq<Coord>)
    requires 0 <= x0 <= x
    requires sa == (x0 < x && y > 0 && Matches(b1, t, x - 1, y - 1))
    requires sb == (x0 < x && y < b1.height - 1 && Matches(b1, t, x - 1, y + 1))
    ensures var above := if y > 0 then Probe(b1, t, x, y - 1, sa, stack) else (stack, sa);
            var below := if y < b1.height - 1 then Probe(b1, t, x, y + 1, sb, above.0) else (above.0, sb);
            PushedHeads(b1, t, x0, x, y, stack, below.0) && PushedInOrder(stack, below.0) &&
            below.0[..|stack|] == stack &&
            (forall i :: |stack| <= i < |below.0| ==> below.0[i].0 == x)
  {
    if y > 0 {
      ProbeHead(b1, t, x0, x, y - 1, sa, stack);
    }
    var above := if y > 0 then Probe(b1, t, x, y - 1, sa, stack) else (stack, sa);
    if above.0 != stack {
      PushOne(b1, t, x0, x, y, stack, stack, (x, y - 1));
    }
    assert forall i :: |stack| <= i < |above.0| ==> above.0[i].0 == x && above.0[i].1 < y + 1;
    if y < b1.height - 1 {
      ProbeHead(b1, t, x0, x, y + 1, sb, above.0);
    }
    var below := if y < b1.height - 1 then Probe(b1, t, x, y + 1, sb, above.0) else (above.0, sb);
    if below.0 != above.0 {
      PushOne(b1, t, x0, x, y, stack, above.0, (x, y + 1));
    }
  }

  /** Recolouring pixel (x, row) leaves pixel (qx, qy) elsewhere as it was. */
  lemma SetPixelOther(c: Grid, t: RGBA, f: RGBA, x: int, row: int, qx: int, qy: int)
    requires c.Valid() && c.Contains(x, row) && qy != row
    ensures Matches(SetPixel(c, x, row, f), t, qx, qy) == Matches(c, t, qx, qy)
  {
  }

  /** The probes above and below pixel x push run heads at x, at most one per row. */
  lemma SpanPixelPushes(b: Grid, t: RGBA, f: RGBA, x0: int, x: int, y: int,
                        sa: bool, sb: bool, stack: seq<Coord>)
    requires b.Valid() && 0 <= x0 <= x && b.Contains(x, y)
    requires sa == (x0 < x && y > 0 && Matches(b, t, x - 1, y - 1))
    requires sb == (x0 < x && y < b.height - 1 && Matches(b, t, x - 1, y + 1))
    ensures var s := SpanPixel(b, t, f, x, y, sa, sb, stack);
            PushedHeads(s.image, t, x0, x, y, stack, s.stack) && PushedInOrder(stack, s.stack) &&
            s.stack[..|stack|] == stack &&
            (forall i :: |stack| <= i < |s.stack| ==> s.stack[i].0 == x)
  {
    var b1 := SetPixel(b, x, y, f);
    SetPixelOther(b, t, f, x, y, x - 1, y - 1);
    SetPixelOther(b, t, f, x, y, x - 1, y + 1);
    TwoProbes(b1, t, x0, x, y, sa, sb, stack);
  }

  /** After the probes at pixel x the flags say whether (x, y - 1) and (x, y + 1) match; a flag for a missing row is kept. */
  lemma SpanPixelFlags(b: Grid, t: RGBA, f: RGBA, x: int, y: int, sa: bool, sb: bool, stack: seq<Coord>)
    requires b.Valid() && b.Contains(x, y)
    ensures var s := SpanPixel(b, t, f, x, y, sa, sb, stack);
            s.spanAbove == (if y > 0 then Matches(b, t, x, y - 1) else sa) &&
            s.spanBelow == (if y < b.height - 1 then Matches(b, t, x, y + 1) else sb)
  {
    SetPixelOther(b, t, f, x, y, x, y - 1);
    SetPixelOther(b, t, f, x, y, x, y + 1);
  }

  /** Recolouring a pixel of row y changes no run head on another row. */
  lemma PushedHeadsFrame(b: Grid, t: RGBA, f: RGBA, x0: int, x: int, y: int, stack: seq<Coord>, out: seq<Coord>)
    requires b.Valid() && b.Contains(x, y)
    requires PushedHeads(SetPixel(b, x, y, f), t, x0, x, y, stack, out)
    ensures PushedHeads(b, t, x0, x, y, stack, out)
  {
    SetPixelFrame(b, t, f, x, y);
  }

  /** The seeds of one pixel followed by those of the rest of the walk. */
  lemma PushedConcat(b: Grid, t: RGBA, x0: int, x: int, y: int, stack: seq<Coord>, mid: seq<Coord>, out: seq<Coord>)
    requires PushedHeads(b, t, x0, x, y, stack, mid) && PushedInOrder(stack, mid)
    requires forall i :: |stack| <= i < |mid| ==> mid[i].0 == x
    requires PushedHeads(b, t, x0, x + 1, y, mid, out) && PushedInOrder(mid, out)
    requires out[..|mid|] == mid && mid[..|stack|] == stack
    ensures PushedHeads(b, t, x0, x, y, stack, out) && PushedInOrder(stack, out)
  {
    assert forall i :: |stack| <= i < |mid| ==> out[i] == mid[i];
  }

  /**
   * The seeds a walk right from x0 pushes (FloodFill.swift:81-100): each
   * lies on the row above or below, at or right of the current pixel, and
   * starts a matching run of that row; two seeds on one row are pushed
   * left to right. Here b is the bitmap at pixel x of the walk, and the
   * flags say what the walk has seen at x - 1.
   */
  lemma {:induction false} SpanFillPushes(b: Grid, t: RGBA, f: RGBA, x0: int, x: int, y: int,
                                          sa: bool, sb: bool, stack: seq<Coord>)
    requires b.Valid() && 0 <= x0 <= x && 0 <= y < b.height
    requires sa == (x0 < x && y > 0 && Matches(b, t, x - 1, y - 1))
    requires sb == (x0 < x && y < b.height - 1 && Matches(b, t, x - 1, y + 1))
    ensures var r := SpanFill(b, t, f, x, y, sa, sb, stack);
            PushedHeads(b, t, x0, x, y, stack, r.1) && PushedInOrder(stack, r.1)
    decreases b.width - x
  {
    if x < b.width && ColorsEqual(Pixel(b, x, y), t, FillTolerance) {
      var s := SpanPixel(b, t, f, x, y, sa, sb, stack);
      SpanPixelPushes(b, t, f, x0, x, y, sa, sb, stack);
      SpanPixelFlags(b, t, f, x, y, sa, sb, stack);
      SetPixelOther(b, t, f, x, y, x, y - 1);
      SetPixelOther(b, t, f, x, y, x, y + 1);
      SpanFillPushes(s.image, t, f, x0, x + 1, y, s.spanAbove, s.spanBelow, s.stack);
      var r := SpanFill(s.image, t, f, x + 1, y, s.spanAbove, s.spanBelow, s.stack);
      PushedConcat(s.image, t, x0, x, y, stack, s.stack, r.1);
      PushedHeadsFrame(b, t, f, x0, x, y, stack, r.1);
    }
  }

  /**
   * One seed per run: two seeds that one walk right pushes onto the same
   * row lie in different matching runs, a non-matching pixel between them.
   */
  lemma OneSeedPerRun(b: Grid, t: RGBA, f: RGBA, x: int, y: int, stack: seq<Coord>, out: seq<Coord>, i: int, j: int)
    requires b.Valid() && 0 <= x && 0 <= y < b.height
    requires out == SpanFill(b, t, f, x, y, false, false, stack).1
    requires |stack| <= i < j < |out| && out[i].1 == out[j].1
    ensures out[i].0 < out[j].0 - 1 && !Matches(b, t, out[j].0 - 1, out[j].1)
  {
    SpanFillPushes(b, t, f, x, x, y, false, false, stack);
    HeadsApart(b, t, x, x, y, stack, out, i, j);
  }

  /** Two run heads pushed onto one row, left to right, have a non-matching pixel between them. */
  lemma HeadsApart(b: Grid, t: RGBA, x0: int, x: int, y: int, stack: seq<Coord>, out: seq<Coord>, i: int, j: int)
    requires PushedHeads(b, t, x0, x, y, stack, out) && PushedInOrder(stack, out)
    requires |stack| <= i < j < |out| && out[i].1 == out[j].1
    ensures out[i].0 < out[j].0 - 1 && !Matches(b, t, out[j].0 - 1, out[j].1)
  {
    var p, q := out[i], out[j];
    assert p.0 < q.0;
    assert x0 <= p.0 && RunHead(b, t, x0, q);
  }

  // ---------------------------------------------------------------------
  // The guard of `fill` as written: a fill colour that still matches

  /** The outer loop run for at most n iterations: the bitmap and the stack afterwards. */
  function Run(b: Grid, target: RGBA, fill: RGBA, stack: seq<Coord>, n: nat): (r: (Grid, seq<Coord>))
    requires b.Valid() && AllInside(b, stack)
    ensures r.0.Valid() && AllInside(r.0, r.1)
    ensures n == 0 ==> r == (b, stack)
    decreases n
  {
    if n == 0 || |stack| == 0 then (b, stack)
    else
      ScanStepInside(b, target, fill, stack);
      var s := ScanStep(b, target, fill, stack);
      Run(s.0, target, fill, s.1, n - 1)
  }

  const White: RGBA := RGBA(255, 255, 255, 255)

  /** A fill colour 20 below white in red: more than 10 from white, at most 30. */
  const NearWhite: RGBA := RGBA(235, 255, 255, 255)

  /** A white bitmap one pixel wide and two high, its top pixel already recoloured, and both recoloured. */
  const TopDone: Grid := Grid(1, 2, [[NearWhite], [White]])
  const BothDone: Grid := Grid(1, 2, [[NearWhite], [NearWhite]])

  /**
   * The guard of `fill` (FloodFill.swift:51) compares with tolerance 10, so
   * it lets NearWhite through on white, but the scan (tolerance 30) still
   * takes a NearWhite pixel for white.
   */
  lemma GuardLetsMatchingFillThrough()
    ensures !ColorsEqual(White, NearWhite, SameColorTolerance)
    ensures ColorsEqual(NearWhite, White, FillTolerance)
  {
  }

  /** Once both pixels are recoloured each seed pops and pushes the other one. */
  lemma BothDoneSwaps()
    ensures BothDone.Valid() && AllInside(BothDone, [(0, 0)]) && AllInside(BothDone, [(0, 1)])
    ensures ScanStep(BothDone, White, NearWhite, [(0, 0)]) == (BothDone, [(0, 1)])
    ensures ScanStep(BothDone, White, NearWhite, [(0, 1)]) == (BothDone, [(0, 0)])
  {
    assert BothDone.Valid();
    assert [NearWhite][0 := NearWhite] == [NearWhite];
    assert SetPixel(BothDone, 0, 0, NearWhite) == BothDone;
    assert SetPixel(BothDone, 0, 1, NearWhite) == BothDone;
    assert RunStart(BothDone, White, 0, 0) == 0 && RunStart(BothDone, White, 0, 1) == 0;
    assert SpanPixel(BothDone, White, NearWhite, 0, 0, false, false, []) == SpanState(BothDone, [(0, 1)], false, true);
    assert SpanFill(BothDone, White, NearWhite, 1, 0, false, true, [(0, 1)]) == (BothDone, [(0, 1)]);
    assert SpanFill(BothDone, White, NearWhite, 0, 0, false, false, []) == (BothDone, [(0, 1)]);
    assert SpanPixel(BothDone, White, NearWhite, 0, 1, false, false, []) == SpanState(BothDone, [(0, 0)], true, false);
    assert SpanFill(BothDone, White, NearWhite, 1, 1, true, false, [(0, 0)]) == (BothDone, [(0, 0)]);
    assert SpanFill(BothDone, White, NearWhite, 0, 1, false, false, []) == (BothDone, [(0, 0)]);
  }

  /** From BothDone the stack never empties, however many iterations run. */
  lemma {:induction false} PingPong(n: nat)
    ensures BothDone.Valid() && AllInside(BothDone, [(0, 0)]) && AllInside(BothDone, [(0, 1)])
    ensures |Run(BothDone, White, NearWhite, [(0, 0)], n).1| > 0
    ensures |Run(BothDone, White, NearWhite, [(0, 1)], n).1| > 0
    decreases n
  {
    BothDoneSwaps();
    if n > 0 {
      PingPong(n - 1);
    }
  }

  /**
   * With the guard as written, filling the white 1 x 2 bitmap from (0, 0)
   * with NearWhite never ends: after any number of iterations of the outer
   * loop the stack still holds a seed.
   */
  lemma {:induction false} EndlessScanAsWritten(n: nat)
    ensures var start := Grid(1, 2, [[White], [White]]);
            start.Valid() && AllInside(start, [(0, 0)]) &&
            |Run(start, White, NearWhite, [(0, 0)], n).1| > 0
  {
    var start := Grid(1, 2, [[White], [White]]);
    assert start.Valid() && TopDone.Valid();
    assert [White][0 := NearWhite] == [NearWhite];
    assert SetPixel(start, 0, 0, NearWhite) == TopDone;
    assert SetPixel(TopDone, 0, 1, NearWhite) == BothDone;
    assert RunStart(start, White, 0, 0) == 0 && RunStart(TopDone, White, 0, 1) == 0;
    assert SpanFill(TopDone, White, NearWhite, 1, 0, false, true, [(0, 1)]) == (TopDone, [(0, 1)]);
    assert ScanStep(start, White, NearWhite, [(0, 0)]) == (TopDone, [(0, 1)]);
    assert SpanFill(BothDone, White, NearWhite, 1, 1, true, false, [(0, 0)]) == (BothDone, [(0, 0)]);
    assert ScanStep(TopDone, White, NearWhite, [(0, 1)]) == (BothDone, [(0, 0)]);
    if n >= 2 {
      PingPong(n - 2);
    }
  }

  /** A white strip three pixels wide and one high, and the same strip recoloured. */
  const Strip: Grid := Grid(3, 1, [[White, White, White]])
  const StripDone: Grid := Grid(3, 1, [[NearWhite, NearWhite, NearWhite]])

  /**
   * With the guard as written, the same NearWhite fill on a region confined
   * to one row does finish: one pass of the outer loop recolours the whole
   * strip, finds no row above or below, and leaves the stack empty.
   */
  lemma StripFilledAsWritten()
    ensures Strip.Valid() && AllInside(Strip, [(0, 0)])
    ensures ScanStep(Strip, White, NearWhite, [(0, 0)]) == (StripDone, [])
    ensures Run(Strip, White, NearWhite, [(0, 0)], 2) == (StripDone, [])
  {
    var g1 := Grid(3, 1, [[NearWhite, White, White]]);
    var g2 := Grid(3, 1, [[NearWhite, NearWhite, White]]);
    assert Strip.Valid() && g1.Valid() && g2.Valid() && StripDone.Valid();
    assert [White, White, White][0 := NearWhite] == [NearWhite, White, White];
    assert [NearWhite, White, White][1 := NearWhite] == [NearWhite, NearWhite, White];
    assert [NearWhite, NearWhite, White][2 := NearWhite] == [NearWhite, NearWhite, NearWhite];
    assert SetPixel(Strip, 0, 0, NearWhite) == g1;
    assert SetPixel(g1, 1, 0, NearWhite) == g2;
    assert SetPixel(g2, 2, 0, NearWhite) == StripDone;
    assert RunStart(Strip, White, 0, 0) == 0;
    assert SpanFill(StripDone, White, NearWhite, 3, 0, false, false, []) == (StripDone, []);
    assert SpanFill(g2, White, NearWhite, 2, 0, false, false, []) == (StripDone, []);
    assert SpanFill(g1, White, NearWhite, 1, 0, false, false, []) == (StripDone, []);
    assert SpanFill(Strip, White, NearWhite, 0, 0, false, false, []) == (StripDone, []);
  }
}
