/** The raw-byte frame assembler: FrameDecoder turns the decode feed's byte stream into
    Frames of height*stride bytes and queues them in a bounded FIFO buffer. */
module FrameDecoding {
  import opened Frames
  import Numerics

  /** The most frames decoded ahead of the consumer. */
  const FrameBufferCapacity := 30
  /** Once full, the producer waits until no more than this many frames remain;
      more than this many makes the buffer "ready". */
  const MinimumWorkingFrames := 5

  /** Bits 8..15 of a pixel format value: its bits per pixel. */
  function BitsPerPixel(pxFormat: PixelFormat): int {
    ((pxFormat >> 8) & 0xFF) as int
  }

  /** Bytes per image row: the valid bits of a row rounded up to whole 32-bit words. */
  function GetStride(width: int, pxFormat: PixelFormat): int {
    var validBitsPerLine := width * BitsPerPixel(pxFormat);
    Numerics.DivTrunc(validBitsPerLine + 31, 32) * 4
  }

  /** The bytes of a row of `v` valid bits rounded up to whole 32-bit words: a multiple
      of 4 that holds the `v` bits and pads by less than 4 bytes. */
  lemma RowBytes(v: int)
    requires v >= 0
    ensures Numerics.DivTrunc(v + 31, 32) * 4 % 4 == 0
    ensures v <= 8 * (Numerics.DivTrunc(v + 31, 32) * 4)
    ensures Numerics.CeilDiv(v, 8) <= Numerics.DivTrunc(v + 31, 32) * 4 < Numerics.CeilDiv(v, 8) + 4
  {
    var q := Numerics.DivTrunc(v + 31, 32);
    assert 32 * q <= v + 31 < 32 * q + 32;
    var c := Numerics.CeilDiv(v, 8);
    assert (c - 1) * 8 < v <= c * 8;
  }

  /** The stride is 4-byte aligned, holds every valid bit of a row and pads by less than 4 bytes. */
  lemma StrideBounds(width: int, pxFormat: PixelFormat)
    requires width >= 0
    ensures GetStride(width, pxFormat) % 4 == 0
    ensures width * BitsPerPixel(pxFormat) <= 8 * GetStride(width, pxFormat)
    ensures Numerics.CeilDiv(width * BitsPerPixel(pxFormat), 8) <= GetStride(width, pxFormat)
            < Numerics.CeilDiv(width * BitsPerPixel(pxFormat), 8) + 4
  {
    var bpp := BitsPerPixel(pxFormat);
    assert 0 <= bpp by {
      assert (pxFormat >> 8) & 0xFF <= 0xFF;
    }
    assert width * bpp >= 0;
    RowBytes(width * bpp);
  }

  /** For the 24-bit format the decoder is constructed with, the stride is
      ((24*width+31)/32)*4, which leaves room for 3 bytes per pixel. */
  lemma Stride24(width: int)
    requires width >= 0
    ensures BitsPerPixel(Format24bppRgb) == 24
    ensures GetStride(width, Format24bppRgb) == ((24 * width + 31) / 32) * 4
    ensures 3 * width <= GetStride(width, Format24bppRgb)
  {
    assert (Format24bppRgb >> 8) & 0xFF == 0x18;
    StrideBounds(width, Format24bppRgb);
  }

  /** The pixel bytes of a sequence of frames, one after the other. */
  function PixelsOf(frames: seq<Frame>): seq<byte> {
    if |frames| == 0 then [] else PixelsOf(frames[..|frames| - 1]) + frames[|frames| - 1].pixels
  }

  /** The bytes that Write copies into image buffers, in copy order, for a chunk of
      `left` bytes starting at `offset` of `buffer`, when the image being filled has
      `room` bytes free and a new image holds `frameSize` bytes. Each copy takes what
      fits; after an image is completed the next copy starts at the index equal to the
      LENGTH of the copy just made (FrameDecoder.cs:112 assigns, it does not add). */
  function Fed(buffer: seq<byte>, offset: int, left: int, room: int, frameSize: int): seq<byte>
    requires 0 < room && 0 < frameSize
    requires left > 0 ==> 0 <= offset && offset + left <= |buffer|
    decreases left
  {
    if left <= 0 then []
    else
      var n := if left <= room then left else room;
      buffer[offset..offset + n] + Fed(buffer, n, left - n, frameSize, frameSize)
  }

  /** When the chunk starts at offset 0 and completes at most one image beyond the one in
      flight, Write copies exactly the chunk, in order. */
  lemma {:induction false} FedContiguous(buffer: seq<byte>, count: int, room: int, frameSize: int)
    requires 0 < room && 0 < frameSize
    requires 0 <= count <= |buffer|
    requires count <= room + frameSize
    ensures Fed(buffer, 0, count, room, frameSize) == buffer[..count]
  {
    if count > 0 {
      var n := if count <= room then count else room;
      assert Fed(buffer, n, count - n, frameSize, frameSize) == buffer[n..count] by {
        if count - n > 0 {
          assert Fed(buffer, count, 0, frameSize, frameSize) == [];
        }
      }
      assert buffer[0..n] + buffer[n..count] == buffer[..count];
    }
  }

  /** Two 4-byte images and a 12-byte chunk holding 0..11: the third image receives bytes
      4..7 a second time and bytes 8..11 are never copied. */
  lemma FedRereadsAfterSecondImage()
    ensures Fed([0, 1, 2, 3, 4, 5, 6, 7, 8, 9, 10, 11], 0, 12, 4, 4)
            == [0, 1, 2, 3, 4, 5, 6, 7, 4, 5, 6, 7]
  {
    var b: seq<byte> := [0, 1, 2, 3, 4, 5, 6, 7, 8, 9, 10, 11];
    assert Fed(b, 4, 4, 4, 4) == b[4..8] + Fed(b, 4, 0, 4, 4);
    assert Fed(b, 4, 8, 4, 4) == b[4..8] + Fed(b, 4, 4, 4, 4);
    assert Fed(b, 0, 12, 4, 4) == b[0..4] + Fed(b, 4, 8, 4, 4);
    assert b[0..4] == [0, 1, 2, 3] && b[4..8] == [4, 5, 6, 7];
    assert Fed(b, 4, 0, 4, 4) == [];
  }

  /** One turn of Fed: the first `n` bytes from `offset`, then the rest fed from offset `n`. */
  lemma FedStep(buffer: seq<byte>, offset: int, left: int, room: int, frameSize: int, n: int)
    requires 0 < room && 0 < frameSize
    requires 0 < left && 0 <= offset && offset + left <= |buffer|
    requires n == if left <= room then left else room
    ensures Fed(buffer, offset, left, room, frameSize)
            == buffer[offset..offset + n] + Fed(buffer, n, left - n, frameSize, frameSize)
  {
  }

  /** Appending a frame appends its pixels. */
  lemma PixelsOfSnoc(frames: seq<Frame>, f: Frame)
    ensures PixelsOf(frames + [f]) == PixelsOf(frames) + f.pixels
  {
    assert (frames + [f])[..|frames|] == frames;
  }

  /** The offset the next pass of Write's loop copies from, after a pass that copied
      `n` bytes from `off` and completed an image, with `left` bytes still to copy: the
      source assigns the length of that copy to the offset (FrameDecoder.cs:112)
      instead of adding it. */
  function NextOffset(off: int, n: int, left: int): int {
    if left > 0 then n else off
  }

  /** A pass of Write's loop that copies the rest of the chunk into the image in flight
      without filling it keeps the byte accounting. */
  lemma FeedPassPartial(buffer: seq<byte>, off: int, left: int, room: int, frameSize: int,
                        done: seq<byte>, before: seq<byte>, after: seq<byte>, target: seq<byte>, r: int)
    requires 0 < room && 0 < frameSize && 0 < r
    requires 0 < left < room && 0 <= off && off + left <= |buffer|
    requires done + before + Fed(buffer, off, left, room, frameSize) == target
    requires after == before + buffer[off..off + left]
    ensures done + after + Fed(buffer, off, 0, r, frameSize) == target
  {
    FedStep(buffer, off, left, room, frameSize, left);
    assert Fed(buffer, left, 0, frameSize, frameSize) == [];
    assert done + before + (buffer[off..off + left] + []) == done + after + [];
  }

  /** A pass of Write's loop that fills the image in flight keeps the byte accounting,
      with the full image counted among the completed bytes and the next pass
      starting at NextOffset. */
  lemma FeedPassComplete(buffer: seq<byte>, off: int, left: int, room: int, frameSize: int,
                         done: seq<byte>, before: seq<byte>, pixels: seq<byte>, target: seq<byte>)
    requires 0 < room <= left && 0 < frameSize
    requires 0 <= off && off + left <= |buffer|
    requires done + before + Fed(buffer, off, left, room, frameSize) == target
    requires pixels == before + buffer[off..off + room]
    ensures (done + pixels) + [] + Fed(buffer, NextOffset(off, room, left - room), left - room, frameSize, frameSize)
            == target
  {
    FedStep(buffer, off, left, room, frameSize, room);
    var rest := Fed(buffer, room, left - room, frameSize, frameSize);
    if left - room <= 0 {
      assert Fed(buffer, off, 0, frameSize, frameSize) == [] == rest;
    }
    assert done + before + (buffer[off..off + room] + rest) == (done + pixels) + [] + rest;
  }

  /** The same, stated just after the copy that fills the image in flight, whose bytes
      are then `full`. */
  lemma FeedPassFilled(buffer: seq<byte>, off: int, left: int, room: int, frameSize: int,
                       done: seq<byte>, before: seq<byte>, full: seq<byte>, target: seq<byte>,
                       n: int, rest: int)
    requires 0 < room <= left && 0 < frameSize
    requires 0 <= off && off + left <= |buffer|
    requires done + before + Fed(buffer, off, left, room, frameSize) == target
    requires n == room && rest == left - n
    requires full == before + buffer[off..off + room]
    ensures rest > 0 ==> 0 <= n && n + rest <= |buffer|
    ensures done + full + Fed(buffer, NextOffset(off, n, rest), rest, frameSize, frameSize) == target
  {
    FeedPassComplete(buffer, off, left, room, frameSize, done, before, full, target);
    assert done + full == (done + full) + [];
  }

  /** The frames-side bookkeeping of Write's loop, on values: the announcements
      `events` extend those at the start of the call (`events0`) by the frames
      `completed`, and no frame left the buffer (`consumed` is unchanged) unless the
      buffer, which held `len0` frames, reached its capacity. */
  ghost predicate QueueProgressOf(events: seq<Frame>, consumed: nat, completed: seq<Frame>,
                                  events0: seq<Frame>, consumed0: nat, len0: nat)
  {
    && consumed0 <= |events0| && len0 == |events0| - consumed0
    && events == events0 + completed
    && consumed >= consumed0
    && (len0 + |completed| <= FrameBufferCapacity ==> consumed == consumed0)
  }

  /** Announcing one more frame keeps the frames-side bookkeeping, when frames leave the
      buffer only if it held `len1` frames at capacity. */
  lemma QueuePassComplete(events: seq<Frame>, consumed: nat, len1: nat, events2: seq<Frame>, consumed2: nat,
                          completed: seq<Frame>, frame: Frame,
                          events0: seq<Frame>, consumed0: nat, len0: nat)
    requires QueueProgressOf(events, consumed, completed, events0, consumed0, len0)
    requires consumed <= |events| && len1 == |events| - consumed
    requires events2 == events + [frame]
    requires consumed2 >= consumed
    requires len1 < FrameBufferCapacity ==> consumed2 == consumed
    ensures QueueProgressOf(events2, consumed2, completed + [frame], events0, consumed0, len0)
  {
    assert events0 + completed + [frame] == events0 + (completed + [frame]);
  }

  /** At the end of Write, when the buffer never reached its capacity, it holds the
      frames it held before followed by the frames completed, in order. */
  lemma QueueDone(events: seq<Frame>, consumed: nat, frames: seq<Frame>, completed: seq<Frame>,
                  events0: seq<Frame>, consumed0: nat, frames0: seq<Frame>)
    requires QueueProgressOf(events, consumed, completed, events0, consumed0, |frames0|)
    requires consumed <= |events| && frames == events[consumed..]
    requires consumed0 <= |events0| && frames0 == events0[consumed0..]
    ensures |frames0| + |completed| <= FrameBufferCapacity ==> frames == frames0 + completed
  {
  }

  /** At the end of Write the byte accounting says that the completed frames and the
      image in flight hold the bytes in flight before, followed by the bytes fed. */
  lemma FeedDone(buffer: seq<byte>, off: int, room: int, frameSize: int,
                 done: seq<byte>, inFlight: seq<byte>, target: seq<byte>)
    requires 0 < room && 0 < frameSize
    requires done + inFlight + Fed(buffer, off, 0, room, frameSize) == target
    ensures done + inFlight == target
  {
    assert Fed(buffer, off, 0, room, frameSize) == [];
  }

  /** Buffer.BlockCopy from a chunk into an image buffer. */
  method BlockCopy(src: seq<byte>, srcOffset: int, dst: array<byte>, dstOffset: int, count: int)
    requires 0 <= srcOffset && 0 <= count && srcOffset + count <= |src|
    requires 0 <= dstOffset && dstOffset + count <= dst.Length
    modifies dst
    ensures dst[..dstOffset] == old(dst[..dstOffset])
    ensures dst[dstOffset..dstOffset + count] == src[srcOffset..srcOffset + count]
    ensures dst[dstOffset + count..] == old(dst[dstOffset + count..])
  {
    forall i | 0 <= i < count {
      dst[dstOffset + i] := src[srcOffset + i];
    }
  }


  class FrameDecoder {
    const width: int
    const height: int
    const pxFormat: PixelFormat
    const stride: int
    /** Bytes per image: height * stride. */
    const frameSize: int

    /** The bounded FIFO of completed frames (a LinkedList in the source). */
    var frameBuffer: seq<Frame>
    /** The image being filled, if any, with `bufferOffset` bytes written and `roomInBuffer` free. */
    var bmpBuffer: array?<byte>
    var bufferOffset: int
    var roomInBuffer: int
    var bytesLeftToCopy: int
    /** Number of frames appended so far. */
    var frameIndex: int
    /** The frame carried by every FrameReady notification raised so far, in order. */
    var frameReadyEvents: seq<Frame>

    /** The bytes written into the image in flight so far. */
    ghost var inFlight: seq<byte>
    /** How many announced frames have left the buffer from the front (taken by the
        consumer or cleared); the buffer holds the announced frames after them. */
    ghost var consumed: nat

    /** A frame holding one whole image of this decoder's geometry. */
    predicate IsWholeImage(f: Frame) {
      f.width == width && f.height == height && f.stride == stride && |f.pixels| == frameSize
    }

    /** The image in flight, if any, is an array of one image's size whose first
        `bufferOffset` bytes are `inFlight`. */
    ghost predicate ImageValid()
      reads this`bmpBuffer, this`bufferOffset, this`roomInBuffer, this`inFlight, bmpBuffer
    {
      && frameSize > 0
      && (bmpBuffer == null ==> inFlight == [])
      && (bmpBuffer != null ==>
            && bmpBuffer.Length == frameSize
            && 0 <= bufferOffset && 0 <= roomInBuffer
            && bufferOffset + roomInBuffer == frameSize
            && inFlight == bmpBuffer[..bufferOffset])
    }

    /** The buffer never exceeds its capacity and holds the announced frames that have
        not left it, in announcement order; every announced frame is one whole image;
        one notification per appended frame. */
    ghost predicate QueueValid()
      reads this`frameBuffer, this`frameReadyEvents, this`frameIndex, this`consumed
    {
      && |frameBuffer| <= FrameBufferCapacity
      && consumed <= |frameReadyEvents|
      && frameBuffer == frameReadyEvents[consumed..]
      && (forall i | 0 <= i < |frameReadyEvents| :: IsWholeImage(frameReadyEvents[i]))
      && frameIndex == |frameReadyEvents|
    }

    /** The invariant between calls: an image in flight is never full, since a full
        image is turned into a frame at once. */
    ghost predicate Valid()
      reads this`bmpBuffer, this`bufferOffset, this`roomInBuffer, this`inFlight, bmpBuffer
      reads this`frameBuffer, this`frameReadyEvents, this`frameIndex, this`consumed
    {
      ImageValid() && QueueValid() && (bmpBuffer != null ==> roomInBuffer > 0)
    }

    /** The room the next copy can fill: what is left of the image in flight, or a whole new image. */
    function RoomForNext(): int
      reads this`bmpBuffer, this`roomInBuffer
    {
      if bmpBuffer == null then frameSize else roomInBuffer
    }

    /** The buffer holds more frames than the working minimum. */
    function FramesInBufferMoreThanMinimum(): (r: bool)
      reads this`frameBuffer
      ensures r <==> |frameBuffer| > MinimumWorkingFrames
    {
      |frameBuffer| > MinimumWorkingFrames
    }

    /** The geometry of a decoder of 24-bit RGB frames of a non-negative size: the
        stride of the width and one image of height rows of that stride. */
    predicate IsRgb24() {
      && pxFormat == Format24bppRgb && 0 <= width && 0 <= height
      && stride == GetStride(width, pxFormat) && frameSize == height * stride
    }

    /** Every frame in the buffer holds one whole image. */
    lemma BufferHoldsWholeImages(f: Frame)
      requires Valid() && f in frameBuffer
      ensures IsWholeImage(f)
    {
      var i :| 0 <= i < |frameBuffer| && frameBuffer[i] == f;
      assert frameReadyEvents[consumed + i] == f;
    }

    constructor (width: int, height: int, pxFormat: PixelFormat)
      requires height * GetStride(width, pxFormat) > 0
      ensures Valid()
      ensures this.width == width && this.height == height && this.pxFormat == pxFormat
      ensures stride == GetStride(width, pxFormat) && frameSize == height * stride
      ensures frameBuffer == [] && frameReadyEvents == [] && bmpBuffer == null
      ensures bufferOffset == 0 && roomInBuffer == 0 && bytesLeftToCopy == 0 && frameIndex == 0
    {
      this.width := width;
      this.height := height;
      this.pxFormat := pxFormat;
      stride := GetStride(width, pxFormat);
      frameSize := height * GetStride(width, pxFormat);
      frameBuffer := [];
      bmpBuffer := null;
      bufferOffset := 0;
      roomInBuffer := 0;
      bytesLeftToCopy := 0;
      frameIndex := 0;
      frameReadyEvents := [];
      inFlight := [];
      consumed := 0;
    }

    /** The part of one pass of Write's loop that fills the image: a new image buffer if
        none is in flight, then as many of the bytes left to copy as fit, from `off`. */
    method Accumulate(buffer: seq<byte>, off: int) returns (bytesToCopy: int)
      requires Valid()
      requires 0 < bytesLeftToCopy && 0 <= off && off + bytesLeftToCopy <= |buffer|
      modifies this`bmpBuffer, this`roomInBuffer, this`bufferOffset, this`inFlight, bmpBuffer,
               this`bytesLeftToCopy
      ensures ImageValid() && bmpBuffer != null
      ensures old(bmpBuffer) == null ==> fresh(bmpBuffer)
      ensures old(bmpBuffer) != null ==> bmpBuffer == old(bmpBuffer)
      ensures bytesToCopy == if old(bytesLeftToCopy) <= old(RoomForNext()) then old(bytesLeftToCopy)
                             else old(RoomForNext())
      ensures inFlight == old(inFlight) + buffer[off..off + bytesToCopy]
      ensures roomInBuffer == old(RoomForNext()) - bytesToCopy
      ensures bytesLeftToCopy == old(bytesLeftToCopy) - bytesToCopy
      ensures 0 < bytesToCopy && 0 <= bytesLeftToCopy
    {
      // a fresh array per image, so a completed frame never shares it
      if bmpBuffer == null {
        var bmpBufferLength := frameSize;
        bmpBuffer := new byte[bmpBufferLength];
        roomInBuffer := bmpBufferLength;
        bufferOffset := 0;
      }

      bytesToCopy := if bytesLeftToCopy <= roomInBuffer then bytesLeftToCopy else roomInBuffer;
      ghost var chunk := buffer[off..off + bytesToCopy];
      BlockCopy(buffer, off, bmpBuffer, bufferOffset, bytesToCopy);
      assert bmpBuffer[..bufferOffset + bytesToCopy]
          == bmpBuffer[..bufferOffset] + bmpBuffer[bufferOffset..bufferOffset + bytesToCopy];
      roomInBuffer := roomInBuffer - bytesToCopy;
      bufferOffset := bufferOffset + bytesToCopy;
      bytesLeftToCopy := bytesLeftToCopy - bytesToCopy;
      inFlight := inFlight + chunk;
    }

    /** Turns the full image into a new frame, releases the decoder's reference to the
        image buffer, waits for room if the buffer is full, appends the frame at the
        tail and then raises FrameReady once. */
    method CompleteImage() returns (frame: Frame)
      requires ImageValid() && QueueValid() && bmpBuffer != null && roomInBuffer == 0
      modifies this`bmpBuffer, this`frameBuffer, this`frameIndex, this`frameReadyEvents,
               this`inFlight, this`consumed
      ensures Valid() && bmpBuffer == null
      ensures roomInBuffer == 0 && bytesLeftToCopy == old(bytesLeftToCopy)
      ensures fresh(frame) && !frame.isDecoded && !frame.disposed
      ensures IsWholeImage(frame) && frame.pixels == old(inFlight)
      ensures frameReadyEvents == old(frameReadyEvents) + [frame]
      ensures |frameBuffer| > 0 && frameBuffer[|frameBuffer| - 1] == frame
      ensures |old(frameBuffer)| < FrameBufferCapacity ==> frameBuffer == old(frameBuffer) + [frame]
      ensures |old(frameBuffer)| >= FrameBufferCapacity ==>
                |frameBuffer| <= MinimumWorkingFrames + 1 && consumed >= old(consumed)
      ensures |old(frameBuffer)| < FrameBufferCapacity ==> consumed == old(consumed)
    {
      assert bmpBuffer[..] == bmpBuffer[..bufferOffset];
      frame := new Frame(width, height, stride, pxFormat, bmpBuffer[..]);
      bmpBuffer := null;
      inFlight := [];

      // backpressure: at capacity the producer blocks until the consumer drains the buffer
      WaitForRoom();

      frameBuffer := frameBuffer + [frame];
      frameIndex := frameIndex + 1;
      frameReadyEvents := frameReadyEvents + [frame];
    }

    /** The backpressure wait (busy-polling in the source). Below capacity it returns at
        once. At capacity the consumer takes frames from the front while the producer
        sleeps, until no more than MinimumWorkingFrames remain; how many it leaves is
        the consumer's affair, so it is chosen arbitrarily here. */
    method WaitForRoom()
      requires QueueValid()
      modifies this`frameBuffer, this`consumed
      ensures QueueValid()
      ensures old(|frameBuffer|) < FrameBufferCapacity ==> frameBuffer == old(frameBuffer)
      ensures old(|frameBuffer|) < FrameBufferCapacity ==> consumed == old(consumed)
      ensures old(|frameBuffer|) >= FrameBufferCapacity ==>
                |frameBuffer| <= MinimumWorkingFrames && consumed >= old(consumed)
    {
      if |frameBuffer| >= FrameBufferCapacity {
        var keep: nat :| keep <= MinimumWorkingFrames;
        consumed := consumed + |frameBuffer| - keep;
        frameBuffer := frameBuffer[|frameBuffer| - keep..];
      }
    }

    /** What Write's loop keeps true about the bytes of the call in progress: `left`
        bytes from `off` remain; the bytes `done` of the frames completed so far, the
        image in flight and the bytes still to be fed make up `target`. */
    ghost predicate FeedProgress(buffer: seq<byte>, off: int, left: int, done: seq<byte>, target: seq<byte>)
      reads this`bmpBuffer, this`roomInBuffer, this`inFlight
    {
      && (left > 0 ==> 0 <= off && off + left <= |buffer|)
      && 0 < RoomForNext() && 0 < frameSize
      && done + inFlight + Fed(buffer, off, left, RoomForNext(), frameSize) == target
    }

    /** What Write's loop keeps true about the frames of the call in progress, which
        started with the announcements `events0`, `consumed0` frames taken from the
        buffer and `len0` frames in it: the frames `completed` so far have been announced
        in order, and frames left the buffer only if it had to wait for room. */
    ghost predicate QueueProgress(completed: seq<Frame>, events0: seq<Frame>, consumed0: nat, len0: nat)
      reads this`frameReadyEvents, this`consumed
    {
      QueueProgressOf(frameReadyEvents, consumed, completed, events0, consumed0, len0)
    }

    /** The rest of a pass of Write's loop once the image is full: CompleteImage, then
        the offset moves on (to NextOffset). The ghost parameters carry the loop's
        bookkeeping. */
    method Finish(buffer: seq<byte>, off: int, bytesToCopy: int, ghost completed: seq<Frame>,
                  ghost done: seq<byte>, ghost target: seq<byte>,
                  ghost events0: seq<Frame>, ghost consumed0: nat, ghost len0: nat)
      returns (nextOff: int, frame: Frame, ghost completed': seq<Frame>, ghost done': seq<byte>)
      requires ImageValid() && QueueValid() && bmpBuffer != null && roomInBuffer == 0
      requires QueueProgress(completed, events0, consumed0, len0)
      requires done == PixelsOf(completed)
      requires bytesLeftToCopy > 0 ==> 0 <= bytesToCopy && bytesToCopy + bytesLeftToCopy <= |buffer|
      requires done + inFlight
               + Fed(buffer, NextOffset(off, bytesToCopy, bytesLeftToCopy), bytesLeftToCopy, frameSize, frameSize)
               == target
      modifies this`bmpBuffer, this`frameBuffer, this`frameIndex, this`frameReadyEvents,
               this`inFlight, this`consumed
      ensures Valid() && bmpBuffer == null
      ensures roomInBuffer == 0 && bytesLeftToCopy == old(bytesLeftToCopy)
      ensures fresh(frame) && !frame.isDecoded && !frame.disposed
      ensures completed' == completed + [frame]
      ensures FeedProgress(buffer, nextOff, bytesLeftToCopy, done', target)
      ensures QueueProgress(completed', events0, consumed0, len0)
      ensures done' == PixelsOf(completed')
    {
      ghost var len1 := |frameBuffer|;
      ghost var events1 := frameReadyEvents;
      ghost var consumed1 := consumed;
      ghost var full := inFlight;
      frame := CompleteImage();
      completed', done' := completed + [frame], done + frame.pixels;
      QueuePassComplete(events1, consumed1, len1, frameReadyEvents, consumed, completed, frame,
                        events0, consumed0, len0);
      PixelsOfSnoc(completed, frame);
      nextOff := off;
      if bytesLeftToCopy > 0 {
        nextOff := bytesToCopy;
      }
      assert done' + inFlight == done + full + [];
    }

    /** One pass of Write's loop: fills the image (Accumulate), and once it is full
        finishes the pass (Finish). The ghost parameters carry the loop's bookkeeping. */
    method Pass(buffer: seq<byte>, off: int, ghost completed: seq<Frame>,
                ghost done: seq<byte>, ghost target: seq<byte>,
                ghost events0: seq<Frame>, ghost consumed0: nat, ghost len0: nat)
      returns (nextOff: int, frame: Frame?, ghost completed': seq<Frame>, ghost done': seq<byte>)
      requires Valid() && bytesLeftToCopy > 0
      requires FeedProgress(buffer, off, bytesLeftToCopy, done, target)
      requires QueueProgress(completed, events0, consumed0, len0)
      requires done == PixelsOf(completed)
      modifies this`bmpBuffer, this`roomInBuffer, this`bufferOffset, this`inFlight, bmpBuffer,
               this`frameBuffer, this`frameIndex, this`frameReadyEvents, this`consumed,
               this`bytesLeftToCopy
      ensures Valid()
      ensures bmpBuffer == null || bmpBuffer == old(bmpBuffer) || fresh(bmpBuffer)
      ensures 0 <= bytesLeftToCopy < old(bytesLeftToCopy)
      ensures frame == null <==> roomInBuffer > 0
      ensures frame == null ==> bytesLeftToCopy == 0
      ensures FeedProgress(buffer, nextOff, bytesLeftToCopy, done', target)
      ensures QueueProgress(completed', events0, consumed0, len0)
      ensures done' == PixelsOf(completed')
    {
      ghost var room := RoomForNext();
      ghost var before := inFlight;
      ghost var left := bytesLeftToCopy;
      var bytesToCopy := Accumulate(buffer, off);
      if roomInBuffer > 0 {
        nextOff, frame := off, null;
        completed', done' := completed, done;
        FeedPassPartial(buffer, off, left, room, frameSize, done, before, inFlight, target, roomInBuffer);
      } else {
        FeedPassFilled(buffer, off, left, room, frameSize, done, before, inFlight, target,
                       bytesToCopy, bytesLeftToCopy);
        nextOff, frame, completed', done' := Finish(buffer, off, bytesToCopy, completed, done, target,
                                                    events0, consumed0, len0);
      }
    }

    /** Splits or accumulates a chunk into images. Every completed image becomes a new
        frame, appended at the tail of the buffer (after the backpressure wait) and then
        announced by one FrameReady notification; an incomplete image stays in flight.
        The frames completed, followed by the new image in flight, hold the old image in
        flight followed by the bytes Fed describes. */
    method Write(buffer: seq<byte>, offset: int, count: int) returns (ghost completed: seq<Frame>)
      requires Valid()
      requires count > 0 ==> 0 <= offset && offset + count <= |buffer|
      modifies this, bmpBuffer
      ensures Valid()
      ensures frameReadyEvents == old(frameReadyEvents) + completed
      ensures PixelsOf(completed) + inFlight
              == old(inFlight) + Fed(buffer, offset, count, old(RoomForNext()), frameSize)
      ensures consumed >= old(consumed)
      ensures |old(frameBuffer)| + |completed| <= FrameBufferCapacity ==>
                frameBuffer == old(frameBuffer) + completed
      ensures bytesLeftToCopy == if count > 0 then 0 else count
      ensures count <= 0 ==> completed == [] && inFlight == old(inFlight)
    {
      bytesLeftToCopy := count;
      var off := offset;
      ghost var target := inFlight + Fed(buffer, offset, count, RoomForNext(), frameSize);
      ghost var done := [];
      ghost var frames0 := frameBuffer;
      completed := [];
      assert done + inFlight == inFlight;

      while bytesLeftToCopy > 0
        invariant Valid()
        invariant FeedProgress(buffer, off, bytesLeftToCopy, done, target)
        invariant QueueProgress(completed, old(frameReadyEvents), old(consumed), |frames0|)
        invariant done == PixelsOf(completed)
        invariant if count > 0 then bytesLeftToCopy >= 0 else bytesLeftToCopy == count
        invariant count <= 0 ==> completed == [] && inFlight == old(inFlight)
        invariant bmpBuffer == null || bmpBuffer == old(bmpBuffer) || fresh(bmpBuffer)
        decreases bytesLeftToCopy
      {
        var frame;
        off, frame, completed, done := Pass(buffer, off, completed, done, target,
                                            old(frameReadyEvents), old(consumed), |frames0|);
        if roomInBuffer > 0 {
          // the image is not yet full: it stays in flight
          break;
        }
      }
      FeedDone(buffer, off, RoomForNext(), frameSize, done, inFlight, target);
      QueueDone(frameReadyEvents, consumed, frameBuffer, completed,
                old(frameReadyEvents), old(consumed), frames0);
    }

    /** Disposes every buffered frame and empties the buffer. */
    method ClearBuffer()
      requires Valid()
      modifies this`frameBuffer, this`consumed, frameBuffer`disposed
      ensures Valid()
      ensures frameBuffer == []
      ensures forall f <- old(frameBuffer) :: f.disposed
    {
      forall f | f in frameBuffer {
        f.disposed := true;
      }
      frameBuffer := [];
      consumed := |frameReadyEvents|;
    }

    /** Removes the head of the buffer, as LinkedList.Remove does for its first node. */
    method RemoveFirst()
      requires Valid() && |frameBuffer| > 0
      modifies this`frameBuffer, this`consumed
      ensures Valid()
      ensures frameBuffer == old(frameBuffer)[1..]
    {
      frameBuffer := frameBuffer[1..];
      consumed := consumed + 1;
    }
  }
}
