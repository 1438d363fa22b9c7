/** What FrameComparer.Compare reports, as functions of the two images: the changed
    pixels of a rectangle, in the order a sequential scan (rows top to bottom, each
    row left to right) finds them. */
module Comparison {
  import opened Frames
  import Numerics

  /** Two 24-bit images compared byte for byte, addressed with one stride (the first
      image's). */
  datatype Images = Images(a: seq<byte>, b: seq<byte>, stride: int)

  /** The half-open pixel rectangle [xMin, xMax) x [yMin, yMax). */
  datatype Roi = Roi(xMin: int, xMax: int, yMin: int, yMax: int)

  predicate InRoi(roi: Roi, p: Point) {
    roi.xMin <= p.x < roi.xMax && roi.yMin <= p.y < roi.yMax
  }

  /** The first of the three bytes of pixel (x, y): x*3 + stride*y. */
  function Offset(x: int, y: int, stride: int): int {
    x * 3 + stride * y
  }

  /** Both images hold all three bytes of every pixel of the rectangle, so an unchecked
      read of them stays in bounds. */
  predicate Scannable(im: Images, roi: Roi) {
    forall x, y | roi.xMin <= x < roi.xMax && roi.yMin <= y < roi.yMax ::
      0 <= Offset(x, y, im.stride) && Offset(x, y, im.stride) + 3 <= |im.a|
      && Offset(x, y, im.stride) + 3 <= |im.b|
  }

  /** Every pixel of a scannable rectangle has its three bytes in both images. */
  lemma PixelInside(im: Images, roi: Roi, x: int, y: int)
    requires Scannable(im, roi) && roi.xMin <= x < roi.xMax && roi.yMin <= y < roi.yMax
    ensures 0 <= Offset(x, y, im.stride)
    ensures Offset(x, y, im.stride) + 3 <= |im.a| && Offset(x, y, im.stride) + 3 <= |im.b|
  {
  }

  function AbsDiff(u: int, v: int): (d: int)
    ensures d >= 0 && (d == u - v || d == v - u)
  {
    if u >= v then u - v else v - u
  }

  /** Byte i of s; reads outside s (which Scannable rules out for the scan) give 0. */
  function ByteAt(s: seq<byte>, i: int): byte {
    if 0 <= i < |s| then s[i] else 0
  }

  /** The summed absolute differences of the three colour bytes of pixel (x, y). */
  function ColorDifference(im: Images, x: int, y: int): (d: int)
    ensures d >= 0
  {
    var o := Offset(x, y, im.stride);
    AbsDiff(ByteAt(im.a, o), ByteAt(im.b, o))
    + AbsDiff(ByteAt(im.a, o + 1), ByteAt(im.b, o + 1))
    + AbsDiff(ByteAt(im.a, o + 2), ByteAt(im.b, o + 2))
  }

  /** For a pixel whose bytes lie in both images, the colour difference is read straight
      from its three bytes. */
  lemma ColorDifferenceAt(im: Images, x: int, y: int)
    requires 0 <= Offset(x, y, im.stride)
    requires Offset(x, y, im.stride) + 3 <= |im.a| && Offset(x, y, im.stride) + 3 <= |im.b|
    ensures var o := Offset(x, y, im.stride);
            ColorDifference(im, x, y)
            == AbsDiff(im.a[o], im.b[o]) + AbsDiff(im.a[o + 1], im.b[o + 1]) + AbsDiff(im.a[o + 2], im.b[o + 2])
  {
  }

  /** A pixel is reported when its colour difference strictly exceeds three times the
      threshold. */
  predicate Changed(im: Images, threshold: int, x: int, y: int) {
    ColorDifference(im, x, y) > threshold * 3
  }

  /** The changed pixels of row y with xMin <= x < xEnd, left to right. */
  function RowChanges(im: Images, threshold: int, xMin: int, xEnd: int, y: int): seq<Point>
    decreases xEnd - xMin
  {
    if xEnd <= xMin then []
    else
      RowChanges(im, threshold, xMin, xEnd - 1, y)
      + (if Changed(im, threshold, xEnd - 1, y) then [Point(xEnd - 1, y)] else [])
  }

  /** Scanning pixel (x, y) extends the pixels found so far in its row by that pixel
      exactly when it changed. */
  lemma RowChangesNext(im: Images, threshold: int, xMin: int, x: int, y: int, above: seq<Point>, found: seq<Point>)
    requires xMin <= x && found == above + RowChanges(im, threshold, xMin, x, y)
    ensures Changed(im, threshold, x, y) ==> found + [Point(x, y)] == above + RowChanges(im, threshold, xMin, x + 1, y)
    ensures !Changed(im, threshold, x, y) ==> found == above + RowChanges(im, threshold, xMin, x + 1, y)
  {
  }

  /** The changed pixels of the rows yMin <= y < yEnd of the rectangle, row by row. */
  function Changes(im: Images, threshold: int, roi: Roi, yEnd: int): seq<Point>
    decreases yEnd - roi.yMin
  {
    if yEnd <= roi.yMin then []
    else Changes(im, threshold, roi, yEnd - 1) + RowChanges(im, threshold, roi.xMin, roi.xMax, yEnd - 1)
  }

  /** Every changed pixel of the rectangle, in scan order. */
  function ChangedPixels(im: Images, threshold: int, roi: Roi): seq<Point> {
    Changes(im, threshold, roi, roi.yMax)
  }

  /** Scan order: p comes before q. */
  predicate Before(p: Point, q: Point) {
    p.y < q.y || (p.y == q.y && p.x < q.x)
  }

  /** Strictly increasing in scan order. */
  predicate InScanOrder(s: seq<Point>) {
    forall i, j | 0 <= i < j < |s| :: Before(s[i], s[j])
  }

  /** A row reports exactly its changed pixels in [xMin, xEnd). */
  lemma {:induction false} RowChangesMembers(im: Images, threshold: int, xMin: int, xEnd: int, y: int, p: Point)
    ensures p in RowChanges(im, threshold, xMin, xEnd, y)
            <==> p.y == y && xMin <= p.x < xEnd && Changed(im, threshold, p.x, p.y)
    decreases xEnd - xMin
  {
    if xEnd > xMin {
      RowChangesMembers(im, threshold, xMin, xEnd - 1, y, p);
    }
  }

  /** The rows scanned so far report exactly their changed pixels. */
  lemma {:induction false} ChangesMembers(im: Images, threshold: int, roi: Roi, yEnd: int, p: Point)
    ensures p in Changes(im, threshold, roi, yEnd)
            <==> roi.yMin <= p.y < yEnd && roi.xMin <= p.x < roi.xMax && Changed(im, threshold, p.x, p.y)
    decreases yEnd - roi.yMin
  {
    if yEnd > roi.yMin {
      ChangesMembers(im, threshold, roi, yEnd - 1, p);
      RowChangesMembers(im, threshold, roi.xMin, roi.xMax, yEnd - 1, p);
    }
  }

  /** A pixel is reported iff it lies in the rectangle and its colour difference
      exceeds three times the threshold. */
  lemma ChangedPixelsExactly(im: Images, threshold: int, roi: Roi, p: Point)
    ensures p in ChangedPixels(im, threshold, roi) <==> InRoi(roi, p) && Changed(im, threshold, p.x, p.y)
  {
    ChangesMembers(im, threshold, roi, roi.yMax, p);
  }

  /** A row is reported left to right. */
  lemma {:induction false} RowChangesInOrder(im: Images, threshold: int, xMin: int, xEnd: int, y: int)
    ensures InScanOrder(RowChanges(im, threshold, xMin, xEnd, y))
    decreases xEnd - xMin
  {
    if xEnd > xMin {
      var front := RowChanges(im, threshold, xMin, xEnd - 1, y);
      RowChangesInOrder(im, threshold, xMin, xEnd - 1, y);
      forall i | 0 <= i < |front|
        ensures Before(front[i], Point(xEnd - 1, y))
      {
        RowChangesMembers(im, threshold, xMin, xEnd - 1, y, front[i]);
      }
    }
  }

  /** Rows are reported top to bottom, each left to right. */
  lemma {:induction false} ChangesInOrder(im: Images, threshold: int, roi: Roi, yEnd: int)
    ensures InScanOrder(Changes(im, threshold, roi, yEnd))
    decreases yEnd - roi.yMin
  {
    if yEnd > roi.yMin {
      var front := Changes(im, threshold, roi, yEnd - 1);
      var row := RowChanges(im, threshold, roi.xMin, roi.xMax, yEnd - 1);
      ChangesInOrder(im, threshold, roi, yEnd - 1);
      RowChangesInOrder(im, threshold, roi.xMin, roi.xMax, yEnd - 1);
      forall i, j | 0 <= i < |front| && 0 <= j < |row|
        ensures Before(front[i], row[j])
      {
        ChangesMembers(im, threshold, roi, yEnd - 1, front[i]);
        RowChangesMembers(im, threshold, roi.xMin, roi.xMax, yEnd - 1, row[j]);
      }
      var s := front + row;
      forall i, j | 0 <= i < j < |s|
        ensures Before(s[i], s[j])
      {
        if j < |front| {
          assert s[i] == front[i] && s[j] == front[j];
        } else if i >= |front| {
          assert s[i] == row[i - |front|] && s[j] == row[j - |front|];
        } else {
          assert s[i] == front[i] && s[j] == row[j - |front|];
        }
      }
    }
  }

  /** No pixel is reported twice, so the number of reported pixels is the number of
      distinct changed pixels. */
  lemma ChangedPixelsDistinct(im: Images, threshold: int, roi: Roi)
    ensures var c := ChangedPixels(im, threshold, roi);
            forall i, j | 0 <= i < j < |c| :: c[i] != c[j]
  {
    ChangesInOrder(im, threshold, roi, roi.yMax);
  }

  /** Comparing an image with itself reports nothing when the threshold is not negative. */
  lemma SelfCompareUnchanged(a: seq<byte>, stride: int, threshold: int, roi: Roi)
    requires threshold >= 0
    ensures ChangedPixels(Images(a, a, stride), threshold, roi) == []
  {
    var c := ChangedPixels(Images(a, a, stride), threshold, roi);
    if |c| > 0 {
      ChangedPixelsExactly(Images(a, a, stride), threshold, roi, c[0]);
      assert false;
    }
  }

  /** A row reports no more pixels at a higher threshold. */
  lemma {:induction false} RowChangesAntitone(im: Images, t1: int, t2: int, xMin: int, xEnd: int, y: int)
    requires t1 <= t2
    ensures |RowChanges(im, t2, xMin, xEnd, y)| <= |RowChanges(im, t1, xMin, xEnd, y)|
    decreases xEnd - xMin
  {
    if xEnd > xMin {
      RowChangesAntitone(im, t1, t2, xMin, xEnd - 1, y);
    }
  }

  /** The rows scanned so far report no more pixels at a higher threshold. */
  lemma {:induction false} ChangesAntitone(im: Images, t1: int, t2: int, roi: Roi, yEnd: int)
    requires t1 <= t2
    ensures |Changes(im, t2, roi, yEnd)| <= |Changes(im, t1, roi, yEnd)|
    decreases yEnd - roi.yMin
  {
    if yEnd > roi.yMin {
      ChangesAntitone(im, t1, t2, roi, yEnd - 1);
      RowChangesAntitone(im, t1, t2, roi.xMin, roi.xMax, yEnd - 1);
    }
  }

  /** Raising the threshold never increases the count of changed pixels, and every
      pixel reported at the higher threshold is reported at the lower one. */
  lemma ThresholdMonotone(im: Images, t1: int, t2: int, roi: Roi)
    requires t1 <= t2
    ensures |ChangedPixels(im, t2, roi)| <= |ChangedPixels(im, t1, roi)|
    ensures forall p | p in ChangedPixels(im, t2, roi) :: p in ChangedPixels(im, t1, roi)
  {
    ChangesAntitone(im, t1, t2, roi, roi.yMax);
    forall p | p in ChangedPixels(im, t2, roi)
      ensures p in ChangedPixels(im, t1, roi)
    {
      ChangedPixelsExactly(im, t2, roi, p);
      ChangedPixelsExactly(im, t1, roi, p);
    }
  }

  /** The pixel rectangle of a frame for bounds given as fractions of its width and
      height: each bound is the (int) cast, a truncation, of size times fraction. */
  function RoiOf(width: int, height: int, left: real, top: real, right: real, bottom: real): Roi {
    Roi(Numerics.Truncate(width as real * left), Numerics.Truncate(width as real * right),
        Numerics.Truncate(height as real * top), Numerics.Truncate(height as real * bottom))
  }

  /** Bounds (0, 0, 1, 1) give the whole frame. */
  lemma WholeFrameRoi(width: int, height: int)
    ensures RoiOf(width, height, 0.0, 0.0, 1.0, 1.0) == Roi(0, width, 0, height)
  {
  }

  /** Bounds never set are all 0, which selects an empty rectangle: nothing is reported. */
  lemma ZeroBoundsReportNothing(im: Images, threshold: int, width: int, height: int)
    ensures ChangedPixels(im, threshold, RoiOf(width, height, 0.0, 0.0, 0.0, 0.0)) == []
  {
  }

  /** A non-negative size scaled by a fraction and truncated stays at or above 0 for a
      fraction not below 0, and at or below the size for a fraction not above 1. */
  lemma ScaledBound(size: int, frac: real)
    requires size >= 0
    ensures 0.0 <= frac ==> 0 <= Numerics.Truncate(size as real * frac)
    ensures frac <= 1.0 ==> Numerics.Truncate(size as real * frac) <= size
  {
    var s := size as real;
    if 0.0 <= frac {
      assert 0.0 <= s * frac;
    }
    if frac <= 1.0 {
      assert s * (1.0 - frac) >= 0.0;
      assert s * frac == s - s * (1.0 - frac);
    }
  }

  /** Fractions within [0, 1] give a rectangle inside the frame. */
  lemma RoiInsideFrame(width: int, height: int, left: real, top: real, right: real, bottom: real)
    requires width >= 0 && height >= 0
    requires 0.0 <= left && right <= 1.0 && 0.0 <= top && bottom <= 1.0
    ensures var roi := RoiOf(width, height, left, top, right, bottom);
            0 <= roi.xMin && roi.xMax <= width && 0 <= roi.yMin && roi.yMax <= height
  {
    ScaledBound(width, left);
    ScaledBound(width, right);
    ScaledBound(height, top);
    ScaledBound(height, bottom);
  }

  /** Row y of an image with `stride` bytes per row ends within `height` rows. */
  lemma RowEnd(stride: int, y: int, height: int)
    requires 0 <= stride && 0 <= y < height
    ensures stride * y + stride <= stride * height
  {
    var k := height - y - 1;
    assert stride * k >= 0;
    assert stride * height == stride * y + stride * k + stride;
  }

  /** Two images of `height` rows of `stride` bytes, with at least 3 bytes per pixel of
      `width`, can be scanned over any rectangle inside the frame. */
  lemma WholeImagesScannable(im: Images, width: int, height: int, roi: Roi)
    requires 0 <= width && 3 * width <= im.stride
    requires |im.a| == height * im.stride && |im.b| == height * im.stride
    requires 0 <= roi.xMin && roi.xMax <= width && 0 <= roi.yMin && roi.yMax <= height
    ensures Scannable(im, roi)
  {
    forall x, y | roi.xMin <= x < roi.xMax && roi.yMin <= y < roi.yMax
      ensures 0 <= Offset(x, y, im.stride) && Offset(x, y, im.stride) + 3 <= height * im.stride
    {
      RowEnd(im.stride, y, height);
      assert 0 <= im.stride * y;
    }
  }
}
