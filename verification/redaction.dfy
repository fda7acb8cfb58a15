/** What redacting one frame means. A frame is a grid of pixels (rows of
    columns; the colour channels travel inside the pixel type `P`). For each
    detection, in the detector's order, the slice `img[y:y+h, x:x+w]` is
    replaced by the blur of that same slice; nothing else is written.

    The two foreign calls are parameters: the face detector maps a frame to
    its detections (`None` when it reports none), and the blur filter maps a
    block, the kernel size and a position inside the block to the output
    pixel there, so its result has the block's shape by construction. */
module Redaction {
  import opened Builtins
  import opened Geometry

  type Grid<P> = seq<seq<P>>

  /** `cv2.blur(block, (k, k))`, read at one position of the block. */
  type Blur<!P> = (Grid<P>, int, nat, nat) -> P

  /** `FaceDetection.process(frame).detections`, as relative boxes. */
  type Detector<!P> = Grid<P> -> Option<seq<BoundingBox>>

  datatype Collaborators<!P> = Collaborators(detect: Detector<P>, blur: Blur<P>)

  predicate IsFrame<P>(g: Grid<P>, height: nat, width: nat)
  {
    |g| == height && forall i :: 0 <= i < height ==> |g[i]| == width
  }

  /** Width of a frame read from a capture: the length of its first row. */
  function Width<P>(g: Grid<P>): nat
  {
    if |g| == 0 then 0 else |g[0]|
  }

  predicate Rectangular<P>(g: Grid<P>)
  {
    IsFrame(g, |g|, Width(g))
  }

  /** The block `g[rows.lo:rows.hi, cols.lo:cols.hi]`. */
  function Crop<P>(g: Grid<P>, height: nat, width: nat, rows: Span, cols: Span): (b: Grid<P>)
    requires IsFrame(g, height, width)
    requires rows.lo <= rows.hi <= height && cols.lo <= cols.hi <= width
    ensures IsFrame(b, rows.hi - rows.lo, cols.hi - cols.lo)
    ensures forall i, j :: 0 <= i < rows.hi - rows.lo && 0 <= j < cols.hi - cols.lo ==>
      b[i][j] == g[rows.lo + i][cols.lo + j]
  {
    seq(rows.hi - rows.lo, i requires 0 <= i < rows.hi - rows.lo => g[rows.lo + i][cols.lo..cols.hi])
  }

  /** One statement of the detection loop:
      `img[y:y+h, x:x+w] = cv2.blur(img[y:y+h, x:x+w], (k, k))`. */
  function BlurRect<P>(g: Grid<P>, height: nat, width: nat, r: PixelRect, k: int, blur: Blur<P>): (g': Grid<P>)
    requires IsFrame(g, height, width)
    ensures IsFrame(g', height, width)
    ensures forall i, j :: 0 <= i < height && 0 <= j < width && !InRect(r, height, width, i, j) ==>
      g'[i][j] == g[i][j]
  {
    var rows := ClipSpan(r.y, r.h, height);
    var cols := ClipSpan(r.x, r.w, width);
    var block := Crop(g, height, width, rows, cols);
    seq(height, i requires 0 <= i < height =>
      seq(width, j requires 0 <= j < width =>
        if InSpan(rows, i) && InSpan(cols, j) then blur(block, k, i - rows.lo, j - cols.lo) else g[i][j]))
  }

  /** The rectangles of a detection list, in the detector's order. */
  function Rects(boxes: seq<BoundingBox>, height: nat, width: nat): (rs: seq<PixelRect>)
    ensures |rs| == |boxes|
  {
    seq(|boxes|, n requires 0 <= n < |boxes| => ToPixelRect(boxes[n], width, height))
  }

  /** The rectangles blurred one after the other, each reading the frame as
      the previous ones left it (overlapping regions are blurred twice). */
  function RedactRects<P>(g: Grid<P>, height: nat, width: nat, rects: seq<PixelRect>, k: int, blur: Blur<P>): (g': Grid<P>)
    requires IsFrame(g, height, width)
    ensures IsFrame(g', height, width)
    decreases |rects|
  {
    if |rects| == 0 then g
    else BlurRect(RedactRects(g, height, width, rects[..|rects| - 1], k, blur),
                  height, width, rects[|rects| - 1], k, blur)
  }

  /** A frame with the given detections redacted; no detections (`None`, or
      an empty list) leave the frame as it is. */
  function RedactFrame<P>(g: Grid<P>, height: nat, width: nat, dets: Option<seq<BoundingBox>>, k: int, blur: Blur<P>): (g': Grid<P>)
    requires IsFrame(g, height, width)
    ensures IsFrame(g', height, width)
    ensures dets == None || dets == Some([]) ==> g' == g
  {
    match dets
    case None => g
    case Some(boxes) => RedactRects(g, height, width, Rects(boxes, height, width), k, blur)
  }

  /** A frame redacted with the detections the detector finds in it. */
  function Redacted<P>(g: Grid<P>, c: Collaborators<P>, k: int): (g': Grid<P>)
    requires Rectangular(g)
    ensures |g'| == |g| && Width(g') == Width(g)
    ensures c.detect(g) == None || c.detect(g) == Some([]) ==> g' == g
  {
    RedactFrame(g, |g|, Width(g), c.detect(g), k, c.blur)
  }

  predicate AllRectangular<P>(frames: seq<Grid<P>>)
  {
    forall n :: 0 <= n < |frames| ==> Rectangular(frames[n])
  }

  /** Every frame of a sequence redacted, in order. */
  function RedactSequence<P>(frames: seq<Grid<P>>, c: Collaborators<P>, k: int): (out: seq<Grid<P>>)
    requires AllRectangular(frames)
    ensures |out| == |frames|
  {
    seq(|frames|, n requires 0 <= n < |frames| && AllRectangular(frames) => Redacted(frames[n], c, k))
  }

  /** Each frame of a redacted sequence is the redaction of the frame at
      the same position, with that frame's size. */
  lemma RedactSequenceFrames<P>(frames: seq<Grid<P>>, c: Collaborators<P>, k: int)
    requires AllRectangular(frames)
    ensures AllRectangular(RedactSequence(frames, c, k))
    ensures forall n :: 0 <= n < |frames| ==>
      RedactSequence(frames, c, k)[n] == Redacted(frames[n], c, k) &&
      |RedactSequence(frames, c, k)[n]| == |frames[n]| && Width(RedactSequence(frames, c, k)[n]) == Width(frames[n])
  {
  }

  /** Redacting one more frame appends its redaction. */
  lemma RedactSequenceSnoc<P>(frames: seq<Grid<P>>, n: nat, c: Collaborators<P>, k: int)
    requires AllRectangular(frames) && n < |frames|
    ensures AllRectangular(frames[..n]) && AllRectangular(frames[..n + 1])
    ensures RedactSequence(frames[..n + 1], c, k) == RedactSequence(frames[..n], c, k) + [Redacted(frames[n], c, k)]
  {
  }

  /** A pixel outside the slice of every rectangle keeps its value. */
  lemma {:induction false} RedactRectsOutside<P>(g: Grid<P>, height: nat, width: nat, rects: seq<PixelRect>,
                                                 k: int, blur: Blur<P>, i: nat, j: nat)
    requires IsFrame(g, height, width) && i < height && j < width
    requires forall r :: r in rects ==> !InRect(r, height, width, i, j)
    ensures RedactRects(g, height, width, rects, k, blur)[i][j] == g[i][j]
    decreases |rects|
  {
    if |rects| > 0 {
      var front := rects[..|rects| - 1];
      assert forall r :: r in front ==> r in rects;
      RedactRectsOutside(g, height, width, front, k, blur, i, j);
      assert rects[|rects| - 1] in rects;
    }
  }

  /** Only pixels inside the slice of some detection can change. */
  lemma RedactFrameOutside<P>(g: Grid<P>, height: nat, width: nat, dets: Option<seq<BoundingBox>>,
                              k: int, blur: Blur<P>, i: nat, j: nat)
    requires IsFrame(g, height, width) && i < height && j < width
    requires dets.Some? ==> forall b :: b in dets.value ==> !InRect(ToPixelRect(b, width, height), height, width, i, j)
    ensures RedactFrame(g, height, width, dets, k, blur)[i][j] == g[i][j]
  {
    if dets.Some? {
      var boxes := dets.value;
      var rects := Rects(boxes, height, width);
      forall r | r in rects
        ensures !InRect(r, height, width, i, j)
      {
        var n :| 0 <= n < |rects| && rects[n] == r;
        assert boxes[n] in boxes;
      }
      RedactRectsOutside(g, height, width, rects, k, blur, i, j);
    }
  }

  /** The value BlurRect leaves at one pixel. */
  lemma BlurRectAt<P>(g: Grid<P>, height: nat, width: nat, r: PixelRect, k: int, blur: Blur<P>, i: nat, j: nat)
    requires IsFrame(g, height, width) && i < height && j < width
    ensures var rows := ClipSpan(r.y, r.h, height);
      var cols := ClipSpan(r.x, r.w, width);
      BlurRect(g, height, width, r, k, blur)[i][j] ==
        if InRect(r, height, width, i, j) then blur(Crop(g, height, width, rows, cols), k, i - rows.lo, j - cols.lo)
        else g[i][j]
  {
  }

  /** With a single detection, every pixel of its slice is the blur of the
      original block at the same position. */
  lemma SingleDetectionInside<P>(g: Grid<P>, height: nat, width: nat, b: BoundingBox,
                                 k: int, blur: Blur<P>, i: nat, j: nat)
    requires IsFrame(g, height, width) && i < height && j < width
    requires InRect(ToPixelRect(b, width, height), height, width, i, j)
    ensures var r := ToPixelRect(b, width, height);
      var rows := ClipSpan(r.y, r.h, height);
      var cols := ClipSpan(r.x, r.w, width);
      RedactFrame(g, height, width, Some([b]), k, blur)[i][j] ==
        blur(Crop(g, height, width, rows, cols), k, i - rows.lo, j - cols.lo)
  {
    var r := ToPixelRect(b, width, height);
    var rects := Rects([b], height, width);
    assert rects == [r];
    assert rects[..0] == [];
    assert RedactRects(g, height, width, rects, k, blur) == BlurRect(g, height, width, r, k, blur);
    BlurRectAt(g, height, width, r, k, blur, i, j);
  }

  /** Redacting with one whole-frame detection blurs the entire frame: every
      pixel becomes the blur of the whole frame at that position. */
  lemma FullFrameDetection<P>(g: Grid<P>, height: nat, width: nat, k: int, blur: Blur<P>, i: nat, j: nat)
    requires IsFrame(g, height, width) && i < height && j < width
    ensures RedactFrame(g, height, width, Some([BoundingBox(0.0, 0.0, 1.0, 1.0)]), k, blur)[i][j] == blur(g, k, i, j)
  {
    var b := BoundingBox(0.0, 0.0, 1.0, 1.0);
    FullBoxCoversFrame(width, height, i, j);
    SingleDetectionInside(g, height, width, b, k, blur, i, j);
    var r := ToPixelRect(b, width, height);
    assert r == PixelRect(0, 0, width, height) by {
      assert Trunc(1.0 * width as real) == width;
      assert Trunc(1.0 * height as real) == height;
    }
    var block := Crop(g, height, width, Span(0, height), Span(0, width));
    assert block == g by {
      forall n | 0 <= n < height
        ensures block[n] == g[n]
      {
        assert g[n][0..width] == g[n];
      }
    }
  }

  /** The pixels of an array, as a grid. */
  function Snapshot<P>(img: array2<P>): (g: Grid<P>)
    reads img
    ensures IsFrame(g, img.Length0, img.Length1)
    ensures forall i, j :: 0 <= i < img.Length0 && 0 <= j < img.Length1 ==> g[i][j] == img[i, j]
  {
    seq(img.Length0, i requires 0 <= i < img.Length0 reads img =>
      seq(img.Length1, j requires 0 <= j < img.Length1 reads img => img[i, j]))
  }

  /** The slice assignment of one detection, done in place on the frame. */
  method BlurRectInPlace<P>(img: array2<P>, r: PixelRect, k: int, blur: Blur<P>)
    modifies img
    ensures Snapshot(img) == BlurRect(old(Snapshot(img)), img.Length0, img.Length1, r, k, blur)
  {
    var height, width := img.Length0, img.Length1;
    var rows := ClipSpan(r.y, r.h, height);
    var cols := ClipSpan(r.x, r.w, width);
    var before := Snapshot(img);
    var block := Crop(before, height, width, rows, cols);
    forall i, j | rows.lo <= i < rows.hi && cols.lo <= j < cols.hi {
      img[i, j] := blur(block, k, i - rows.lo, j - cols.lo);
    }
    ghost var after := BlurRect(before, height, width, r, k, blur);
    forall i | 0 <= i < height
      ensures Snapshot(img)[i] == after[i]
    {
      forall j | 0 <= j < width
        ensures Snapshot(img)[i][j] == after[i][j]
      {
        BlurRectAt(before, height, width, r, k, blur, i, j);
      }
    }
  }
}
