/** MotionDetector: a video processor that keeps a window of the last two frames it
    was given and reports the pixels that changed between them. */
module MotionTracking {
  import opened Wrappers
  import opened Frames

  /** A System.Windows.Rect: the corner with the smaller coordinates, and a size that
      is never negative. */
  datatype Rect = Rect(x: real, y: real, width: real, height: real)

  /** The rectangle spanned by two opposite corners, in either order. */
  function RectOf(x1: real, y1: real, x2: real, y2: real): (r: Rect)
    ensures r.width >= 0.0 && r.height >= 0.0
    ensures (r.x == x1 && r.x + r.width == x2) || (r.x == x2 && r.x + r.width == x1)
    ensures (r.y == y1 && r.y + r.height == y2) || (r.y == y2 && r.y + r.height == y1)
  {
    Rect(if x1 <= x2 then x1 else x2, if y1 <= y2 then y1 else y2,
         if x1 <= x2 then x2 - x1 else x1 - x2, if y1 <= y2 then y2 - y1 else y1 - y2)
  }

  /** The changed pixels between a frame and the one before it, at a threshold, within
      a rectangle: Frame.ChangeExtentPoints, which is not part of this model. */
  type ChangeExtent = (Frame, Frame, int, Rect) -> seq<Point>

  class MotionDetector {
    /** The frames held, oldest first (a FrameBuffer list in the source). */
    var window: seq<Frame>
    /** How many frames a comparison needs. */
    const framesNeeded: int := 2
    var threshold: int

    var leftBoundPct: real
    var rightBoundPct: real
    var topBoundPct: real
    var bottomBoundPct: real

    /** The window never holds more frames than a comparison needs. */
    ghost predicate Valid()
      reads this`window
    {
      |window| <= framesNeeded
    }

    constructor ()
      ensures Valid() && window == [] && threshold == 30
      ensures leftBoundPct == 0.0 && rightBoundPct == 0.0 && topBoundPct == 0.0 && bottomBoundPct == 0.0
    {
      window := [];
      threshold := 30;
      leftBoundPct := 0.0;
      rightBoundPct := 0.0;
      topBoundPct := 0.0;
      bottomBoundPct := 0.0;
    }

    /** Records the four bounds, each in its own field. */
    method SetBounds(leftPercent: real, topPercent: real, rightPercent: real, bottomPercent: real)
      modifies this`leftBoundPct, this`rightBoundPct, this`topBoundPct, this`bottomBoundPct
      ensures leftBoundPct == leftPercent && topBoundPct == topPercent
      ensures rightBoundPct == rightPercent && bottomBoundPct == bottomPercent
    {
      leftBoundPct := leftPercent;
      rightBoundPct := rightPercent;
      topBoundPct := topPercent;
      bottomBoundPct := bottomPercent;
    }

    /** The bounds, scaled to frame f, as a rectangle. */
    function Region(f: Frame): Rect
      reads this`leftBoundPct, this`rightBoundPct, this`topBoundPct, this`bottomBoundPct
    {
      RectOf(f.width as real * leftBoundPct, f.height as real * topBoundPct,
             f.width as real * rightBoundPct, f.height as real * bottomBoundPct)
    }

    /** Adds a clone of `frame` to the window, disposing and dropping the oldest frame
        when that leaves more than two; then, when the window holds two frames of the
        same size, reports the changed pixels between them on the original frame, and
        otherwise the default result. */
    method OnProcessing(frame: Frame, changeExtentPoints: ChangeExtent) returns (result: FrameComparerResults)
      requires Valid()
      modifies this`window, (if |window| == framesNeeded then {window[0]} else {})`disposed
      ensures Valid() && 0 < |window|
      ensures var current := window[|window| - 1];
              && fresh(current) && current.pixels == frame.pixels
              && current.width == frame.width && current.height == frame.height
              && current.frameIndex == frame.frameIndex && current.frameTime == frame.frameTime
      ensures |old(window)| < framesNeeded ==> window[..|window| - 1] == old(window)
      ensures |old(window)| == framesNeeded ==>
                window[..|window| - 1] == old(window)[1..] && old(window)[0].disposed
      ensures |window| == framesNeeded && window[1].SameSizeAs(window[0]) ==>
                var changed := changeExtentPoints(window[1], window[0], threshold, Region(frame));
                result == FrameComparerResults(threshold, Some(changed), |changed|, frame,
                                               frame.frameIndex, frame.frameTime)
      ensures !(|window| == framesNeeded && window[1].SameSizeAs(window[0])) ==> result == EmptyResults
      ensures old(window) == [] ==> result == EmptyResults
    {
      result := EmptyResults;

      var current := frame.Clone();

      window := window + [current];

      if |window| > framesNeeded {
        var oldest := window[0];
        oldest.Dispose();
        window := window[1..];
      }

      if |window| == framesNeeded && current.SameSizeAs(window[0]) {
        var prev := window[0];

        var roi := Region(frame);

        var changedPixels := changeExtentPoints(current, prev, threshold, roi);

        result := result.(threshold := threshold);

        result := result.(changedPixels := Some(changedPixels), changedPixelsCount := |changedPixels|);

        result := result.(frame := frame, frameIndex := frame.frameIndex, frameTime := frame.frameTime);
      }
    }
  }
}
