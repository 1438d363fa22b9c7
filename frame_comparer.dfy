/** FrameComparer: compares consecutive frames taken from a VideoDecoder's buffer and
    reports the pixels whose colour changed by more than a threshold within a
    rectangle given as fractions of the frame. */
module FrameComparing {
  import opened Wrappers
  import opened Frames
  import opened Comparison
  import opened FrameDecoding
  import opened VideoDecoding
  import Numerics

  /** The pixel bytes of two frames, addressed with the first frame's stride. */
  function ImagesOf(a: Frame, b: Frame): Images {
    Images(a.pixels, b.pixels, a.stride)
  }

  /** Two whole images of a 24-bit decoder can be compared over any rectangle whose
      bounds are fractions within [0, 1]: every byte the scan reads lies in both. */
  lemma ScanInsideFrames(fd: FrameDecoder, a: Frame, b: Frame, left: real, top: real, right: real, bottom: real)
    requires fd.IsRgb24() && fd.IsWholeImage(a) && fd.IsWholeImage(b)
    requires 0.0 <= left && right <= 1.0 && 0.0 <= top && bottom <= 1.0
    ensures Scannable(ImagesOf(a, b), RoiOf(a.width, a.height, left, top, right, bottom))
  {
    Stride24(fd.width);
    RoiInsideFrame(fd.width, fd.height, left, top, right, bottom);
    WholeImagesScannable(ImagesOf(a, b), fd.width, fd.height, RoiOf(a.width, a.height, left, top, right, bottom));
  }

  /** The body of Compare's loop over rows, for row y: each pixel of the row within
      the rectangle, left to right, whose summed byte differences at x*3 + stride*y
      exceed three times the threshold is appended to the changed pixels and counted. */
  method ScanRow(aPx: seq<byte>, bPx: seq<byte>, stride: int, threshold: int, roi: Roi, y: int,
                 changedPixels: seq<Point>, changedPixelsCount: int)
    returns (changedPixels': seq<Point>, changedPixelsCount': int)
    requires Scannable(Images(aPx, bPx, stride), roi) && roi.yMin <= y < roi.yMax
    requires changedPixelsCount == |changedPixels|
    ensures changedPixels' == changedPixels + RowChanges(Images(aPx, bPx, stride), threshold, roi.xMin, roi.xMax, y)
    ensures changedPixelsCount' == |changedPixels'|
  {
    ghost var im := Images(aPx, bPx, stride);
    changedPixels', changedPixelsCount' := changedPixels, changedPixelsCount;
    var efficientThreshold := threshold * 3;
    var rowStart := stride * y;

    var x := roi.xMin;
    while x < roi.xMax
      invariant x == roi.xMin || roi.xMin <= x <= roi.xMax
      invariant changedPixels' == changedPixels + RowChanges(im, threshold, roi.xMin, x, y)
      invariant changedPixelsCount' == |changedPixels'|
    {
      var offset := x * 3 + rowStart;
      PixelInside(im, roi, x, y);
      ColorDifferenceAt(im, x, y);
      var colorDifference :=
        AbsDiff(aPx[offset + 0], bPx[offset + 0]) +
        AbsDiff(aPx[offset + 1], bPx[offset + 1]) +
        AbsDiff(aPx[offset + 2], bPx[offset + 2]);
      RowChangesNext(im, threshold, roi.xMin, x, y, changedPixels, changedPixels');

      if colorDifference > efficientThreshold {
        changedPixelsCount' := changedPixelsCount' + 1;
        changedPixels' := changedPixels' + [Point(x, y)];
      }
      x := x + 1;
    }
  }

  /** Compare's loop over the rows of the rectangle, run one row after another, top to
      bottom: it finds exactly the changed pixels of the rectangle, in scan order, and
      counts them. */
  method ScanRows(aPx: seq<byte>, bPx: seq<byte>, stride: int, threshold: int, roi: Roi)
    returns (changedPixels: seq<Point>, changedPixelsCount: int)
    requires Scannable(Images(aPx, bPx, stride), roi)
    ensures changedPixels == ChangedPixels(Images(aPx, bPx, stride), threshold, roi)
    ensures changedPixelsCount == |changedPixels|
  {
    changedPixels := [];
    changedPixelsCount := 0;

    var y := roi.yMin;
    while y < roi.yMax
      invariant y == roi.yMin || roi.yMin <= y <= roi.yMax
      invariant changedPixels == Changes(Images(aPx, bPx, stride), threshold, roi, y)
      invariant changedPixelsCount == |changedPixels|
    {
      changedPixels, changedPixelsCount :=
        ScanRow(aPx, bPx, stride, threshold, roi, y, changedPixels, changedPixelsCount);
      y := y + 1;
    }
  }

  /** What one pass of the buffer monitor's loop did: compared the head of the buffer
      with the previous frame, stopped at the end of the video, or found nothing to do
      (the source then sleeps and polls again). */
  datatype StepOutcome = Advanced | Finished | Waiting

  class FrameComparer {
    var showMotion: bool
    var shadeRadius: int
    var threshold: int
    /** The index of the last frame taken from the buffer; -1 before the first. */
    var mostRecentFrameIndex: int

    /** The video decoder compared frames come from; the owner may swap it between plays. */
    var decoder: VideoDecoder
    var previousFrame: Frame?
    var isPlaying: bool
    /** The buffer monitor thread is running. */
    var monitoring: bool

    var leftBoundPct: real
    var rightBoundPct: real
    var topBoundPct: real
    var bottomBoundPct: real

    /** The results carried by every FrameCompared notification raised so far, in order. */
    var compared: seq<FrameComparerResults>
    /** The number of Stopped notifications raised so far. */
    var stoppedEvents: nat

    constructor (decoder: VideoDecoder)
      ensures this.decoder == decoder
      ensures showMotion && shadeRadius == 1 && threshold == 50 && mostRecentFrameIndex == -1
      ensures previousFrame == null && !isPlaying && !monitoring
      ensures leftBoundPct == 0.0 && rightBoundPct == 0.0 && topBoundPct == 0.0 && bottomBoundPct == 0.0
      ensures compared == [] && stoppedEvents == 0
    {
      showMotion := true;
      shadeRadius := 1;
      threshold := 50;
      mostRecentFrameIndex := -1;
      this.decoder := decoder;
      previousFrame := null;
      isPlaying := false;
      monitoring := false;
      leftBoundPct := 0.0;
      rightBoundPct := 0.0;
      topBoundPct := 0.0;
      bottomBoundPct := 0.0;
      compared := [];
      stoppedEvents := 0;
    }

    /** The bounds are fractions that keep the compared rectangle inside the frame. */
    predicate BoundsInFrame()
      reads this`leftBoundPct, this`rightBoundPct, this`topBoundPct, this`bottomBoundPct
    {
      0.0 <= leftBoundPct && rightBoundPct <= 1.0 && 0.0 <= topBoundPct && bottomBoundPct <= 1.0
    }

    /** The pixel rectangle the bounds select in frame f. */
    function Bounds(f: Frame): Roi
      reads this`leftBoundPct, this`rightBoundPct, this`topBoundPct, this`bottomBoundPct
    {
      RoiOf(f.width, f.height, leftBoundPct, topBoundPct, rightBoundPct, bottomBoundPct)
    }

    /** Records the four bounds, each in its own field. */
    method SetBounds(leftPercent: real, topPercent: real, rightPercent: real, bottomPercent: real)
      modifies this`leftBoundPct, this`rightBoundPct, this`topBoundPct, this`bottomBoundPct
      ensures leftBoundPct == leftPercent && topBoundPct == topPercent
      ensures rightBoundPct == rightPercent && bottomBoundPct == bottomPercent
    {
      leftBoundPct := leftPercent;
      rightBoundPct := rightPercent;
      topBoundPct := topPercent;
      bottomBoundPct := bottomPercent;
    }

    /** Scans the bounded rectangle of bitmapA and reports every pixel whose three
        colour bytes differ from bitmapB's by more than three times the threshold in
        total. The frame index and time come from bitmapB. */
    method Compare(bitmapA: Frame, bitmapB: Frame) returns (result: FrameComparerResults)
      requires Scannable(ImagesOf(bitmapA, bitmapB), Bounds(bitmapA))
      ensures var changed := ChangedPixels(ImagesOf(bitmapA, bitmapB), threshold, Bounds(bitmapA));
              result == FrameComparerResults(threshold, Some(changed), |changed|, null,
                                             bitmapB.frameIndex, bitmapB.frameTime)
    {
      var roi := Bounds(bitmapA);
      var changedPixels, changedPixelsCount := ScanRows(bitmapA.pixels, bitmapB.pixels, bitmapA.stride, threshold, roi);

      result := FrameComparerResults(threshold, Some(changedPixels), changedPixelsCount, null,
                                     bitmapB.frameIndex, bitmapB.frameTime);
    }

    /** Moves the comparison to the given fraction of the video: the frame to resume
        after, and the decoder's start time. */
    method SeekTo(percentLocation: real)
      requires decoder.videoInfo.Some?
      modifies this`mostRecentFrameIndex, decoder`playStartTimeInSec
      ensures mostRecentFrameIndex
              == Numerics.RoundHalfEven(decoder.videoInfo.value.totalFrames as real * percentLocation)
      ensures decoder.playStartTimeInSec == decoder.videoInfo.value.duration * percentLocation
    {
      var info := decoder.videoInfo.value;
      var frameAt := info.totalFrames as real * percentLocation;
      mostRecentFrameIndex := Numerics.RoundHalfEven(frameAt);
      decoder.SeekToTime(info.duration * percentLocation);
      assert frameAt == decoder.videoInfo.value.totalFrames as real * percentLocation;
    }

    /** Back to the beginning: no frame taken yet, not playing, and the previous frame
        disposed and dropped. */
    method Reset()
      modifies this`mostRecentFrameIndex, this`isPlaying, this`previousFrame, (if previousFrame == null then {} else {previousFrame})`disposed
      ensures mostRecentFrameIndex == -1 && !isPlaying && previousFrame == null
      ensures old(previousFrame) != null ==> old(previousFrame).disposed
    {
      mostRecentFrameIndex := -1;
      isPlaying := false;

      if previousFrame != null {
        previousFrame.Dispose();
        previousFrame := null;
      }
    }

    /** Stops the decoder, stops the buffer monitor when `stopSelf`, and disposes and
        empties the decoder's buffer. */
    method Pause(stopSelf: bool)
      requires decoder.frameDecoder != null ==> decoder.frameDecoder.Valid()
      modifies decoder`isPlaying, this`monitoring, this`isPlaying
      modifies decoder.Decoders()`frameBuffer, decoder.Decoders()`consumed
      modifies (if decoder.frameDecoder != null then decoder.frameDecoder.frameBuffer else [])`disposed
      ensures !decoder.isPlaying && !isPlaying
      ensures monitoring == (old(monitoring) && !stopSelf)
      ensures decoder.frameDecoder != null ==>
                && decoder.frameDecoder.Valid() && decoder.frameDecoder.frameBuffer == []
                && forall f <- old(decoder.frameDecoder.frameBuffer) :: f.disposed
    {
      decoder.Stop();

      if stopSelf {
        monitoring := false;
      }

      decoder.ClearBuffer();

      isPlaying := false;
    }

    /** Pause, then back to the beginning. */
    method Stop()
      requires decoder.frameDecoder != null ==> decoder.frameDecoder.Valid()
      modifies decoder`isPlaying, this`monitoring, this`isPlaying, this`mostRecentFrameIndex, this`previousFrame
      modifies decoder.Decoders()`frameBuffer, decoder.Decoders()`consumed
      modifies (if decoder.frameDecoder != null then decoder.frameDecoder.frameBuffer else [])`disposed
      modifies (if previousFrame == null then {} else {previousFrame})`disposed
      ensures !decoder.isPlaying && !isPlaying && !monitoring
      ensures mostRecentFrameIndex == -1 && previousFrame == null
      ensures old(previousFrame) != null ==> old(previousFrame).disposed
      ensures decoder.frameDecoder != null ==>
                && decoder.frameDecoder.Valid() && decoder.frameDecoder.frameBuffer == []
                && forall f <- old(decoder.frameDecoder.frameBuffer) :: f.disposed
    {
      Pause(true);
      Reset();
    }

    /** The decoder's buffer is ready and its head is a decoded frame. */
    predicate HeadReady()
      reads this`decoder, decoder, decoder.frameDecoder, if decoder.frameDecoder != null then decoder.frameDecoder.frameBuffer else []
    {
      decoder.isBufferReady && decoder.FramesInBuffer() && decoder.frameDecoder.frameBuffer[0].isDecoded
    }

    /** The frames the loop reads are whole images of the decoder's 24-bit geometry, so
        a comparison stays within both frames' pixels. */
    ghost predicate Feedable()
      reads this`previousFrame, this`decoder, decoder, decoder.frameDecoder
      reads if decoder.frameDecoder != null then decoder.frameDecoder.bmpBuffer else null
    {
      && (decoder.frameDecoder != null ==> decoder.frameDecoder.Valid() && decoder.frameDecoder.IsRgb24())
      && (previousFrame != null && decoder.frameDecoder != null ==> decoder.frameDecoder.IsWholeImage(previousFrame))
    }

    /** Compares `current` with the previous frame and announces the result, on a clone
        of `current` when motion is shown and on `current` itself otherwise; then
        disposes the previous frame. */
    method Announce(current: Frame)
      requires previousFrame != null && Scannable(ImagesOf(current, previousFrame), Bounds(current))
      modifies this`compared, previousFrame`disposed
      ensures var changed := ChangedPixels(ImagesOf(current, previousFrame), threshold, Bounds(current));
              && |compared| == |old(compared)| + 1 && compared[..|old(compared)|] == old(compared)
              && compared[|old(compared)|].(frame := null)
                 == FrameComparerResults(threshold, Some(changed), |changed|, null,
                                         previousFrame.frameIndex, previousFrame.frameTime)
      ensures showMotion ==>
                var shown := compared[|old(compared)|].frame;
                fresh(shown) && shown.pixels == current.pixels && shown.frameIndex == current.frameIndex
      ensures !showMotion ==> compared[|old(compared)|].frame == current
      ensures previousFrame.disposed
    {
      var compareResult := Compare(current, previousFrame);

      // the announced frame is a private copy when motion is shown (shading is not modelled)
      if showMotion {
        var shadedFrame := current.Clone();
        compareResult := compareResult.(frame := shadedFrame);
      } else {
        compareResult := compareResult.(frame := current);
      }

      // one FrameCompared notification
      compared := compared + [compareResult];

      previousFrame.Dispose();
    }

    /** One pass of the buffer monitor's loop with a ready head: announces its
        comparison with the previous frame, if any; then the head becomes the previous
        frame and leaves the buffer. */
    method TakeHead() returns (ghost current: Frame)
      requires Feedable() && BoundsInFrame() && HeadReady()
      modifies this`previousFrame, this`mostRecentFrameIndex, this`compared
      modifies decoder.Decoders()`frameBuffer, decoder.Decoders()`consumed
      modifies (if previousFrame == null then {} else {previousFrame})`disposed
      ensures Feedable()
      ensures current == old(decoder.frameDecoder.frameBuffer[0])
      ensures decoder.frameDecoder.frameBuffer == old(decoder.frameDecoder.frameBuffer[1..])
      ensures previousFrame == current && mostRecentFrameIndex == old(current.frameIndex)
      ensures old(previousFrame) == null ==> compared == old(compared)
      ensures old(previousFrame) != null ==>
                var changed := ChangedPixels(ImagesOf(current, old(previousFrame)), threshold, Bounds(current));
                && |compared| == |old(compared)| + 1 && compared[..|old(compared)|] == old(compared)
                && compared[|old(compared)|].(frame := null)
                   == FrameComparerResults(threshold, Some(changed), |changed|, null,
                                           old(previousFrame.frameIndex), old(previousFrame.frameTime))
                && (showMotion ==> var shown := compared[|old(compared)|].frame;
                                   fresh(shown) && shown.pixels == current.pixels
                                   && shown.frameIndex == old(current.frameIndex))
                && (!showMotion ==> compared[|old(compared)|].frame == current)
                && old(previousFrame).disposed
    {
      var fd := decoder.frameDecoder;
      var currentFrame := fd.frameBuffer[0];
      current := currentFrame;
      fd.BufferHoldsWholeImages(currentFrame);

      if previousFrame != null {
        ScanInsideFrames(fd, currentFrame, previousFrame, leftBoundPct, topBoundPct, rightBoundPct, bottomBoundPct);
        Announce(currentFrame);
      }

      mostRecentFrameIndex := currentFrame.frameIndex;

      previousFrame := currentFrame;
      fd.RemoveFirst();
    }

    /** One pass of the buffer monitor's loop at the end of the video: pauses without
        stopping the monitor, announces Stopped, resets, and the monitor ends. */
    method StopAtEnd()
      requires decoder.frameDecoder != null ==> decoder.frameDecoder.Valid()
      modifies decoder`isPlaying, this`monitoring, this`isPlaying, this`mostRecentFrameIndex, this`previousFrame
      modifies this`stoppedEvents, (if previousFrame == null then {} else {previousFrame})`disposed
      modifies decoder.Decoders()`frameBuffer, decoder.Decoders()`consumed
      modifies (if decoder.frameDecoder != null then decoder.frameDecoder.frameBuffer else [])`disposed
      ensures !decoder.isPlaying && !isPlaying && !monitoring
      ensures decoder.frameDecoder != null ==>
                && decoder.frameDecoder.Valid() && decoder.frameDecoder.frameBuffer == []
                && forall f <- old(decoder.frameDecoder.frameBuffer) :: f.disposed
      ensures stoppedEvents == old(stoppedEvents) + 1
      ensures mostRecentFrameIndex == -1 && previousFrame == null
      ensures old(previousFrame) != null ==> old(previousFrame).disposed
    {
      Pause(false);

      stoppedEvents := stoppedEvents + 1;

      Reset();

      // the monitor thread returns
      monitoring := false;
    }

    /** One pass of the buffer monitor's loop. */
    method Step() returns (outcome: StepOutcome)
      requires monitoring && Feedable() && BoundsInFrame()
      modifies this`previousFrame, this`mostRecentFrameIndex, this`compared, this`isPlaying
      modifies this`monitoring, this`stoppedEvents, decoder`isPlaying, (if previousFrame == null then {} else {previousFrame})`disposed
      modifies decoder.Decoders()`frameBuffer, decoder.Decoders()`consumed
      modifies (if decoder.frameDecoder != null then decoder.frameDecoder.frameBuffer else [])`disposed
      ensures Feedable()
      ensures outcome == Advanced <==> old(HeadReady())
      ensures outcome == Finished <==> !old(HeadReady()) && old(decoder.AtEndOfVideo())
      ensures outcome == Advanced ==>
                && decoder.frameDecoder.frameBuffer == old(decoder.frameDecoder.frameBuffer[1..])
                && previousFrame == old(decoder.frameDecoder.frameBuffer[0])
                && mostRecentFrameIndex == old(decoder.frameDecoder.frameBuffer[0].frameIndex)
                && monitoring && isPlaying == old(isPlaying) && stoppedEvents == old(stoppedEvents)
      ensures outcome == Advanced && old(previousFrame) == null ==> compared == old(compared)
      ensures outcome == Advanced && old(previousFrame) != null ==>
                var current := old(decoder.frameDecoder.frameBuffer[0]);
                var changed := ChangedPixels(ImagesOf(current, old(previousFrame)), threshold, Bounds(current));
                && |compared| == |old(compared)| + 1 && compared[..|old(compared)|] == old(compared)
                && compared[|old(compared)|].(frame := null)
                   == FrameComparerResults(threshold, Some(changed), |changed|, null,
                                           old(previousFrame.frameIndex), old(previousFrame.frameTime))
                && (showMotion ==> var shown := compared[|old(compared)|].frame;
                                   fresh(shown) && shown.pixels == current.pixels
                                   && shown.frameIndex == old(current.frameIndex))
                && (!showMotion ==> compared[|old(compared)|].frame == current)
                && old(previousFrame).disposed
      ensures outcome == Finished ==>
                && !decoder.isPlaying && !isPlaying && !monitoring
                && (decoder.frameDecoder != null ==>
                      && decoder.frameDecoder.frameBuffer == []
                      && forall f <- old(decoder.frameDecoder.frameBuffer) :: f.disposed)
                && stoppedEvents == old(stoppedEvents) + 1 && compared == old(compared)
                && mostRecentFrameIndex == -1 && previousFrame == null
                && (old(previousFrame) != null ==> old(previousFrame).disposed)
      ensures outcome == Advanced && old(decoder.frameDecoder) != null ==>
                forall f <- old(decoder.frameDecoder.frameBuffer) ::
                  f != old(previousFrame) ==> f.disposed == old(f.disposed)
      ensures outcome == Waiting && old(decoder.frameDecoder) != null ==>
                forall f <- old(decoder.frameDecoder.frameBuffer) :: f.disposed == old(f.disposed)
      ensures outcome == Waiting && old(previousFrame) != null ==>
                old(previousFrame).disposed == old(previousFrame.disposed)
      ensures outcome == Waiting ==>
                && unchanged(this) && decoder.isPlaying == old(decoder.isPlaying)
                && (decoder.frameDecoder != null ==> decoder.frameDecoder.frameBuffer == old(decoder.frameDecoder.frameBuffer))
    {
      if HeadReady() {
        ghost var current := TakeHead();
        return Advanced;
      } else if decoder.AtEndOfVideo() {
        StopAtEnd();
        return Finished;
      }
      return Waiting;
    }
  }
}
