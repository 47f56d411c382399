/**
 * The pixel buffer that the flood fill works on
 * (ToddlerColoring/Utilities/FloodFill.swift): a row-major RGBA byte
 * buffer with four bytes per pixel and `bytesPerRow = width * 4`, and the
 * grid of pixels that the buffer encodes.
 */
module Raster {

  /** An unsigned 8-bit channel value (Swift's UInt8). */
  newtype byte = x: int | 0 <= x < 256

  /** One pixel, its channels in buffer order. */
  datatype RGBA = RGBA(r: byte, g: byte, b: byte, a: byte)

  /** The tolerance of the "already that colour" check in `fill(at:with:)`. */
  const SameColorTolerance: int := 10

  /** The tolerance that decides which pixels belong to the region being filled. */
  const FillTolerance: int := 30

  /** The transparent black that an unreadable pixel yields. */
  const Clear: RGBA := RGBA(0, 0, 0, 0)

  function Abs(x: int): (r: nat)
    ensures r == x || r == -x
  {
    if x < 0 then -x else x
  }

  /**
   * Channel-wise comparison of `colorsEqual`: red, green and blue may each
   * differ by at most `tolerance`; alpha is not compared.
   */
  predicate ColorsEqual(c1: RGBA, c2: RGBA, tolerance: int): (r: bool)
    ensures r ==> 0 <= tolerance
    ensures c1.r == c2.r && c1.g == c2.g && c1.b == c2.b ==> (r <==> 0 <= tolerance)
  {
    Abs(c1.r as int - c2.r as int) <= tolerance &&
    Abs(c1.g as int - c2.g as int) <= tolerance &&
    Abs(c1.b as int - c2.b as int) <= tolerance
  }

  /** `colorsEqual` is reflexive for any non-negative tolerance. */
  lemma ColorsEqualReflexive(c: RGBA, tolerance: int)
    requires 0 <= tolerance
    ensures ColorsEqual(c, c, tolerance)
  {
  }

  /** `colorsEqual` is symmetric. */
  lemma ColorsEqualSymmetric(c1: RGBA, c2: RGBA, tolerance: int)
    ensures ColorsEqual(c1, c2, tolerance) == ColorsEqual(c2, c1, tolerance)
  {
  }

  /** `colorsEqual` ignores the alpha channel. */
  lemma ColorsEqualIgnoresAlpha(c1: RGBA, c2: RGBA, tolerance: int, a1: byte, a2: byte)
    ensures ColorsEqual(c1, c2, tolerance) == ColorsEqual(c1.(a := a1), c2.(a := a2), tolerance)
  {
  }

  // ---------------------------------------------------------------------
  // The grid of pixels

  /** `width` x `height` pixels, one sequence per row, top row first. */
  datatype Grid = Grid(width: nat, height: nat, rows: seq<seq<RGBA>>) {

    ghost predicate Valid() {
      |rows| == height && forall y :: 0 <= y < height ==> |rows[y]| == width
    }

    predicate Contains(x: int, y: int) {
      0 <= x < width && 0 <= y < height
    }
  }

  /** The colour of pixel (x, y); `Clear` outside the grid, where the fill never looks. */
  function Pixel(g: Grid, x: int, y: int): RGBA {
    if 0 <= y < |g.rows| && 0 <= x < |g.rows[y]| then g.rows[y][x] else Clear
  }

  /** Pixel (x, y) takes colour c; every other pixel keeps its colour. */
  function SetPixel(g: Grid, x: int, y: int, c: RGBA): (r: Grid)
    requires g.Valid() && g.Contains(x, y)
    ensures r.width == g.width && r.height == g.height && r.Valid()
    ensures Pixel(r, x, y) == c
  {
    g.(rows := g.rows[y := g.rows[y][x := c]])
  }

  // ---------------------------------------------------------------------
  // The byte buffer

  /** The index of the red byte of pixel (x, y) when each row takes `bytesPerRow` bytes. */
  function Offset(bytesPerRow: int, x: int, y: int): int {
    y * bytesPerRow + x * 4
  }

  lemma MulMonotone(a: nat, b: nat, c: nat)
    requires a <= b
    ensures a * c <= b * c
  {
  }

  /**
   * Every pixel inside the bitmap has all four of its bytes inside the
   * buffer: `0 <= y * bytesPerRow + x * 4` and
   * `y * bytesPerRow + x * 4 + 3 < height * bytesPerRow`.
   */
  lemma OffsetInRange(w: nat, h: nat, x: int, y: int)
    requires 0 <= x < w && 0 <= y < h
    ensures 0 <= Offset(w * 4, x, y)
    ensures Offset(w * 4, x, y) + 3 < h * (w * 4)
  {
    assert y * (w * 4) + x * 4 + 4 <= y * (w * 4) + w * 4 == (y + 1) * (w * 4);
    MulMonotone(y + 1, h, w * 4);
  }

  /** Two different pixels never share a byte of the buffer. */
  lemma OffsetsApart(w: nat, h: nat, x1: int, y1: int, x2: int, y2: int)
    requires 0 <= x1 < w && 0 <= y1 < h
    requires 0 <= x2 < w && 0 <= y2 < h
    requires x1 != x2 || y1 != y2
    ensures Offset(w * 4, x1, y1) + 3 < Offset(w * 4, x2, y2) ||
            Offset(w * 4, x2, y2) + 3 < Offset(w * 4, x1, y1)
  {
    if y1 < y2 {
      MulMonotone(y1 + 1, y2, w * 4);
      assert y1 * (w * 4) + x1 * 4 + 4 <= (y1 + 1) * (w * 4);
    } else if y2 < y1 {
      MulMonotone(y2 + 1, y1, w * 4);
      assert y2 * (w * 4) + x2 * 4 + 4 <= (y2 + 1) * (w * 4);
    }
  }

  /** The buffer of a `w` x `h` bitmap holds `h * bytesPerRow` bytes. */
  predicate BufferFits(data: seq<byte>, w: nat, h: nat) {
    |data| == h * (w * 4)
  }

  /** The pixel that `getPixelColor` reads: the four bytes at the pixel's offset. */
  function ReadPixel(data: seq<byte>, w: nat, h: nat, x: int, y: int): RGBA
    requires BufferFits(data, w, h) && 0 <= x < w && 0 <= y < h
  {
    OffsetInRange(w, h, x, y);
    var o := Offset(w * 4, x, y);
    RGBA(data[o], data[o + 1], data[o + 2], data[o + 3])
  }

  /**
   * The bytes after `setPixelColor` writes all four channels of c, alpha
   * included: the four bytes at the pixel's offset become c and every
   * other byte is kept.
   */
  function WritePixel(data: seq<byte>, w: nat, h: nat, x: int, y: int, c: RGBA): (r: seq<byte>)
    requires BufferFits(data, w, h) && 0 <= x < w && 0 <= y < h
    ensures BufferFits(r, w, h) && |r| == |data|
    ensures var o := Offset(w * 4, x, y);
            0 <= o && o + 3 < |r| && r[o..o + 4] == [c.r, c.g, c.b, c.a] &&
            forall i :: 0 <= i < |data| && (i < o || o + 3 < i) ==> r[i] == data[i]
  {
    OffsetInRange(w, h, x, y);
    var o := Offset(w * 4, x, y);
    data[o := c.r][o + 1 := c.g][o + 2 := c.b][o + 3 := c.a]
  }

  /** The first n pixels of row y of the buffer. */
  function DecodeRow(data: seq<byte>, w: nat, h: nat, y: int, n: nat): (row: seq<RGBA>)
    requires BufferFits(data, w, h) && 0 <= y < h && n <= w
    ensures |row| == n
  {
    if n == 0 then [] else DecodeRow(data, w, h, y, n - 1) + [ReadPixel(data, w, h, n - 1, y)]
  }

  /** The first n rows of the buffer. */
  function DecodeRows(data: seq<byte>, w: nat, h: nat, n: nat): (rows: seq<seq<RGBA>>)
    requires BufferFits(data, w, h) && n <= h
    ensures |rows| == n && forall y :: 0 <= y < n ==> |rows[y]| == w
  {
    if n == 0 then [] else DecodeRows(data, w, h, n - 1) + [DecodeRow(data, w, h, n - 1, w)]
  }

  /** The grid a buffer encodes. */
  function Decode(data: seq<byte>, w: nat, h: nat): (g: Grid)
    requires BufferFits(data, w, h)
    ensures g.width == w && g.height == h && g.Valid()
  {
    Grid(w, h, DecodeRows(data, w, h, h))
  }

  lemma {:induction false} DecodeRowAt(data: seq<byte>, w: nat, h: nat, y: int, n: nat, x: int)
    requires BufferFits(data, w, h) && 0 <= y < h && n <= w && 0 <= x < n
    ensures DecodeRow(data, w, h, y, n)[x] == ReadPixel(data, w, h, x, y)
    decreases n
  {
    if x < n - 1 {
      DecodeRowAt(data, w, h, y, n - 1, x);
    }
  }

  lemma {:induction false} DecodeRowsAt(data: seq<byte>, w: nat, h: nat, n: nat, y: int)
    requires BufferFits(data, w, h) && n <= h && 0 <= y < n
    ensures DecodeRows(data, w, h, n)[y] == DecodeRow(data, w, h, y, w)
    decreases n
  {
    if y < n - 1 {
      DecodeRowsAt(data, w, h, n - 1, y);
    }
  }

  /** Each pixel of the decoded grid is the four bytes at its offset. */
  lemma DecodePixel(data: seq<byte>, w: nat, h: nat, x: int, y: int)
    requires BufferFits(data, w, h) && 0 <= x < w && 0 <= y < h
    ensures Pixel(Decode(data, w, h), x, y) == ReadPixel(data, w, h, x, y)
  {
    DecodeRowsAt(data, w, h, h, y);
    DecodeRowAt(data, w, h, y, w, x);
  }

  /** Reading a pixel back after writing one sees the written colour there and the old one elsewhere. */
  lemma ReadAfterWrite(data: seq<byte>, w: nat, h: nat, x: int, y: int, c: RGBA, x2: int, y2: int)
    requires BufferFits(data, w, h) && 0 <= x < w && 0 <= y < h && 0 <= x2 < w && 0 <= y2 < h
    ensures ReadPixel(WritePixel(data, w, h, x, y, c), w, h, x2, y2) ==
            if x2 == x && y2 == y then c else ReadPixel(data, w, h, x2, y2)
  {
    OffsetInRange(w, h, x, y);
    OffsetInRange(w, h, x2, y2);
    if x2 != x || y2 != y {
      OffsetsApart(w, h, x, y, x2, y2);
    }
  }

  /**
   * Writing the four bytes of one pixel changes that pixel of the decoded
   * grid and no other.
   */
  lemma DecodeWritePixel(data: seq<byte>, w: nat, h: nat, x: int, y: int, c: RGBA)
    requires BufferFits(data, w, h) && 0 <= x < w && 0 <= y < h
    ensures Decode(WritePixel(data, w, h, x, y, c), w, h) == SetPixel(Decode(data, w, h), x, y, c)
  {
    var d1 := WritePixel(data, w, h, x, y, c);
    var g1, g2 := Decode(d1, w, h), SetPixel(Decode(data, w, h), x, y, c);
    forall y2 | 0 <= y2 < h
      ensures g1.rows[y2] == g2.rows[y2]
    {
      forall x2 | 0 <= x2 < w
        ensures g1.rows[y2][x2] == g2.rows[y2][x2]
      {
        assert Pixel(g1, x2, y2) == g1.rows[y2][x2] && Pixel(g2, x2, y2) == g2.rows[y2][x2];
        ReadAfterWrite(data, w, h, x, y, c, x2, y2);
        DecodePixel(d1, w, h, x2, y2);
        DecodePixel(data, w, h, x2, y2);
      }
    }
  }
}
