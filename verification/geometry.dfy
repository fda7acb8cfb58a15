/** From a detector's relative bounding box to the block of pixels the
    redactor rewrites: each coordinate becomes `max(0, int(frac * dim))`,
    and the block is the numpy slice `img[y:y+h, x:x+w]`, which numpy clips
    to the frame; nothing in the pipeline clamps the rectangle explicitly. */
module Geometry {
  import opened Builtins

  /** A detection's relative box, as fractions of the frame's width and
      height. The detector gives no guarantee of range: boxes may start
      left of or above the frame, or reach past it. */
  datatype BoundingBox = BoundingBox(xmin: real, ymin: real, width: real, height: real)

  /** Absolute origin and size in pixels. */
  datatype PixelRect = PixelRect(x: nat, y: nat, w: nat, h: nat)

  /** A half-open range of indices [lo, hi). */
  datatype Span = Span(lo: nat, hi: nat)

  predicate InSpan(s: Span, k: int)
  {
    s.lo <= k < s.hi
  }

  /** `max(0, int(frac * dim))`: the truncated product, or 0 when it is
      negative. For a non-negative product this is its floor. */
  function ToPixel(frac: real, dim: nat): (p: nat)
    ensures 0.0 <= frac * dim as real ==> p as real <= frac * dim as real < p as real + 1.0
    ensures p == 0 <==> frac * dim as real < 1.0
  {
    var t := Trunc(frac * dim as real);
    if t < 0 then 0 else t
  }

  /** The pixel rectangle of a box in a `width` x `height` frame: each
      coordinate scaled by its axis and turned into a pixel count. A
      non-negative coordinate lands on the pixel it falls in; one that
      scales to less than one pixel (every negative one included) becomes 0. */
  function ToPixelRect(b: BoundingBox, width: nat, height: nat): (r: PixelRect)
    ensures 0.0 <= b.xmin ==> r.x as real <= b.xmin * width as real < r.x as real + 1.0
    ensures 0.0 <= b.ymin ==> r.y as real <= b.ymin * height as real < r.y as real + 1.0
    ensures 0.0 <= b.width ==> r.w as real <= b.width * width as real < r.w as real + 1.0
    ensures 0.0 <= b.height ==> r.h as real <= b.height * height as real < r.h as real + 1.0
    ensures r.x == 0 <==> b.xmin * width as real < 1.0
    ensures r.y == 0 <==> b.ymin * height as real < 1.0
    ensures r.w == 0 <==> b.width * width as real < 1.0
    ensures r.h == 0 <==> b.height * height as real < 1.0
  {
    var x := ToPixel(b.xmin, width);
    var y := ToPixel(b.ymin, height);
    var w := ToPixel(b.width, width);
    var h := ToPixel(b.height, height);
    PixelRect(x, y, w, h)
  }

  /** The indices numpy selects with `a[start:start + len]` along an axis
      of length `dim`: both ends are cut down to `dim`, so an origin past
      the edge selects nothing. */
  function ClipSpan(start: nat, len: nat, dim: nat): (s: Span)
    ensures s.lo <= s.hi <= dim
    ensures forall k :: InSpan(s, k) <==> start <= k < start + len && k < dim
  {
    Span(if start < dim then start else dim,
         if start + len < dim then start + len else dim)
  }

  /** Pixel (i, j) (row, column) lies in the slice of `r` in a frame of
      `height` rows and `width` columns. */
  predicate InRect(r: PixelRect, height: nat, width: nat, i: int, j: int)
  {
    InSpan(ClipSpan(r.y, r.h, height), i) && InSpan(ClipSpan(r.x, r.w, width), j)
  }

  /** A box that lies inside the unit square maps to a rectangle that lies
      inside the frame: truncation never pushes `x + w` past the width, so
      for such boxes the slice needs no clipping. */
  lemma UnitBoxInsideFrame(b: BoundingBox, width: nat, height: nat)
    requires 0.0 <= b.xmin && 0.0 <= b.width && b.xmin + b.width <= 1.0
    requires 0.0 <= b.ymin && 0.0 <= b.height && b.ymin + b.height <= 1.0
    ensures var r := ToPixelRect(b, width, height);
      r.x + r.w <= width && r.y + r.h <= height
  {
    AxisInside(b.xmin, b.width, width);
    AxisInside(b.ymin, b.height, height);
  }

  /** One axis of UnitBoxInsideFrame. */
  lemma AxisInside(start: real, len: real, dim: nat)
    requires 0.0 <= start && 0.0 <= len && start + len <= 1.0
    ensures ToPixel(start, dim) + ToPixel(len, dim) <= dim
  {
    var d := dim as real;
    MulNonneg(start, d);
    MulNonneg(len, d);
    MulNonneg(1.0 - (start + len), d);
    assert start * d + len * d == (start + len) * d;
    assert (start + len) * d + (1.0 - (start + len)) * d == d;
    assert ToPixel(start, dim) as real <= start * d && ToPixel(len, dim) as real <= len * d;
  }

  /** The product of two non-negative reals is non-negative. */
  lemma MulNonneg(x: real, y: real)
    requires 0.0 <= x && 0.0 <= y
    ensures 0.0 <= x * y
  {
  }

  /** A box of 0.1, 0.1, 0.2, 0.2 in a 100 x 100 frame is the rectangle at
      (10, 10) of 20 x 20 pixels. */
  lemma TenPercentBox()
    ensures ToPixelRect(BoundingBox(0.1, 0.1, 0.2, 0.2), 100, 100) == PixelRect(10, 10, 20, 20)
  {
  }

  /** The whole-frame box selects every pixel of the frame. */
  lemma FullBoxCoversFrame(width: nat, height: nat, i: int, j: int)
    requires 0 <= i < height && 0 <= j < width
    ensures InRect(ToPixelRect(BoundingBox(0.0, 0.0, 1.0, 1.0), width, height), height, width, i, j)
  {
  }
}
