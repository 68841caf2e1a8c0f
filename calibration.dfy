/** The affine map from a mask's pixel grid onto the data-space rectangle of an
    image, with the Y axis inverted because raster row 0 is the top. */
module Calibration {

  /** The target rectangle: `x_min`, `x_max`, `y_min`, `y_max`. */
  datatype Bounds = Bounds(xMin: real, xMax: real, yMin: real, yMax: real)

  predicate Ordered(b: Bounds)
  {
    b.xMin <= b.xMax && b.yMin <= b.yMax
  }

  /** A contour point as OpenCV reports it: column `x`, row `y`. */
  datatype Pixel = Pixel(x: int, y: int)

  /** A point in data space. */
  datatype Coord = Coord(x: real, y: real)

  /** `scale_x = (x_max - x_min) / width`. */
  function ScaleX(b: Bounds, width: nat): (s: real)
    requires width > 0
    ensures s * width as real == b.xMax - b.xMin
    ensures b.xMin <= b.xMax ==> s >= 0.0
    ensures b.xMin < b.xMax ==> s > 0.0
  {
    (b.xMax - b.xMin) / width as real
  }

  /** `scale_y = (y_max - y_min) / height`. */
  function ScaleY(b: Bounds, height: nat): (s: real)
    requires height > 0
    ensures s * height as real == b.yMax - b.yMin
    ensures b.yMin <= b.yMax ==> s >= 0.0
    ensures b.yMin < b.yMax ==> s > 0.0
  {
    (b.yMax - b.yMin) / height as real
  }

  /** `x * scale_x + x_min` and `y_max - y * scale_y`. */
  function ToDataSpace(b: Bounds, height: nat, width: nat, p: Pixel): (c: Coord)
    requires height > 0 && width > 0
    ensures p.x == 0 ==> c.x == b.xMin
    ensures p.x == width ==> c.x == b.xMax
    ensures p.y == 0 ==> c.y == b.yMax
    ensures p.y == height ==> c.y == b.yMin
  {
    Coord(p.x as real * ScaleX(b, width) + b.xMin, b.yMax - p.y as real * ScaleY(b, height))
  }

  function InRect(b: Bounds, c: Coord): bool
  {
    b.xMin <= c.x <= b.xMax && b.yMin <= c.y <= b.yMax
  }

  /** A pixel of the grid (corners included) lands inside the target rectangle. */
  lemma ToDataSpaceInBounds(b: Bounds, height: nat, width: nat, p: Pixel)
    requires height > 0 && width > 0 && Ordered(b)
    requires 0 <= p.x <= width && 0 <= p.y <= height
    ensures InRect(b, ToDataSpace(b, height, width, p))
  {
    var sx, sy := ScaleX(b, width), ScaleY(b, height);
    assert sx * width as real == b.xMax - b.xMin;
    assert sy * height as real == b.yMax - b.yMin;
    assert 0.0 <= sx && 0.0 <= sy;
    assert p.x as real * sx <= width as real * sx;
    assert p.y as real * sy <= height as real * sy;
  }

  /** The corners: pixel (0, 0) is the top-left corner (x_min, y_max) of the
      rectangle and pixel (width, height) its bottom-right corner (x_max, y_min). */
  lemma ToDataSpaceCorners(b: Bounds, height: nat, width: nat)
    requires height > 0 && width > 0
    ensures ToDataSpace(b, height, width, Pixel(0, 0)) == Coord(b.xMin, b.yMax)
    ensures ToDataSpace(b, height, width, Pixel(width, height)) == Coord(b.xMax, b.yMin)
  {
    assert ScaleX(b, width) * width as real == b.xMax - b.xMin;
    assert ScaleY(b, height) * height as real == b.yMax - b.yMin;
  }

  /** Moving down the raster moves down in data space: a larger row gives a
      smaller y, and a larger column a larger x, when the bounds are proper. */
  lemma ToDataSpaceOrientation(b: Bounds, height: nat, width: nat, p: Pixel, q: Pixel)
    requires height > 0 && width > 0 && b.xMin < b.xMax && b.yMin < b.yMax
    ensures p.x < q.x ==> ToDataSpace(b, height, width, p).x < ToDataSpace(b, height, width, q).x
    ensures p.y < q.y ==> ToDataSpace(b, height, width, p).y > ToDataSpace(b, height, width, q).y
  {
    if p.x < q.x {
      ColumnOrder(b, height, width, p, q);
    }
    if p.y < q.y {
      RowOrder(b, height, width, p, q);
    }
  }

  lemma ColumnOrder(b: Bounds, height: nat, width: nat, p: Pixel, q: Pixel)
    requires height > 0 && width > 0 && b.xMin < b.xMax && p.x < q.x
    ensures ToDataSpace(b, height, width, p).x < ToDataSpace(b, height, width, q).x
  {
    var sx := ScaleX(b, width);
    assert ToDataSpace(b, height, width, p).x == p.x as real * sx + b.xMin;
    assert ToDataSpace(b, height, width, q).x == q.x as real * sx + b.xMin;
    MulStrict(p.x as real, q.x as real, sx, b.xMin);
  }

  lemma RowOrder(b: Bounds, height: nat, width: nat, p: Pixel, q: Pixel)
    requires height > 0 && width > 0 && b.yMin < b.yMax && p.y < q.y
    ensures ToDataSpace(b, height, width, p).y > ToDataSpace(b, height, width, q).y
  {
    var sy := ScaleY(b, height);
    assert ToDataSpace(b, height, width, p).y == b.yMax - p.y as real * sy;
    assert ToDataSpace(b, height, width, q).y == b.yMax - q.y as real * sy;
    MulStrictFlipped(p.y as real, q.y as real, sy, b.yMax);
  }

  /** An increasing affine map keeps a strict order. */
  lemma MulStrict(a: real, c: real, s: real, o: real)
    requires a < c && 0.0 < s
    ensures a * s + o < c * s + o
  {
    assert c * s - a * s == (c - a) * s;
  }

  /** A decreasing affine map reverses a strict order. */
  lemma MulStrictFlipped(a: real, c: real, s: real, o: real)
    requires a < c && 0.0 < s
    ensures o - a * s > o - c * s
  {
    assert c * s - a * s == (c - a) * s;
  }

  /** The inverse map, from data space back to (fractional) pixel space. */
  function ToPixelSpace(b: Bounds, height: nat, width: nat, c: Coord): (real, real)
    requires height > 0 && width > 0 && b.xMin < b.xMax && b.yMin < b.yMax
  {
    ((c.x - b.xMin) / ScaleX(b, width), (b.yMax - c.y) / ScaleY(b, height))
  }

  /** With a non-degenerate rectangle the pixel is recovered from its image, so
      no two pixels are mapped to the same point. */
  lemma ToDataSpaceRoundTrip(b: Bounds, height: nat, width: nat, p: Pixel)
    requires height > 0 && width > 0 && b.xMin < b.xMax && b.yMin < b.yMax
    ensures ToPixelSpace(b, height, width, ToDataSpace(b, height, width, p)) == (p.x as real, p.y as real)
  {
    var sx, sy := ScaleX(b, width), ScaleY(b, height);
    assert 0.0 < sx && 0.0 < sy;
    var c := ToDataSpace(b, height, width, p);
    assert c.x - b.xMin == p.x as real * sx;
    assert b.yMax - c.y == p.y as real * sy;
    MulDiv(p.x as real, sx);
    MulDiv(p.y as real, sy);
    assert (c.x - b.xMin) / sx == p.x as real;
    assert (b.yMax - c.y) / sy == p.y as real;
  }

  /** Dividing by a non-zero factor undoes multiplying by it. */
  lemma MulDiv(a: real, s: real)
    requires s != 0.0
    ensures (a * s) / s == a
  {
  }
}
