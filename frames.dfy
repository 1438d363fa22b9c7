/** The Frame entity shared by the decoder, the comparer and the motion detector,
    and the comparison result they hand to consumers. */
module Frames {
  import opened Wrappers

  type byte = x: int | 0 <= x < 256

  /** A GDI+ pixel format value; bits 8..15 hold the bits per pixel. */
  type PixelFormat = bv32

  /** PixelFormat.Format24bppRgb: 24 bits per pixel, blue-green-red byte order. */
  const Format24bppRgb: PixelFormat := 0x21808

  datatype Point = Point(x: int, y: int)

  /** One decoded raster image with its position in the video. The geometry and the
      pixel bytes never change after construction; the metadata is stamped in place
      once the playback clock learns of the frame, and Dispose releases the bytes. */
  class Frame {
    const width: int
    const height: int
    const stride: int
    const pixelFormat: PixelFormat
    const pixels: seq<byte>

    var frameIndex: int
    var framePercentage: real
    /** Position in the video as a TimeSpan, in whole milliseconds. */
    var frameTime: int
    var isDecoded: bool
    var disposed: bool

    constructor (width: int, height: int, stride: int, pixelFormat: PixelFormat, pixels: seq<byte>)
      ensures this.width == width && this.height == height && this.stride == stride
      ensures this.pixelFormat == pixelFormat && this.pixels == pixels
      ensures frameIndex == 0 && framePercentage == 0.0 && frameTime == 0
      ensures !isDecoded && !disposed
    {
      this.width := width;
      this.height := height;
      this.stride := stride;
      this.pixelFormat := pixelFormat;
      this.pixels := pixels;
      frameIndex := 0;
      framePercentage := 0.0;
      frameTime := 0;
      isDecoded := false;
      disposed := false;
    }

    /** Releases the pixel memory; nothing else about the frame changes. */
    method Dispose()
      modifies this`disposed
      ensures disposed
    {
      disposed := true;
    }

    /** A fresh frame with the same image and metadata that owns its own pixel memory. */
    method Clone() returns (c: Frame)
      ensures fresh(c) && !c.disposed
      ensures c.width == width && c.height == height && c.stride == stride
      ensures c.pixelFormat == pixelFormat && c.pixels == pixels
      ensures c.frameIndex == frameIndex && c.framePercentage == framePercentage
      ensures c.frameTime == frameTime && c.isDecoded == isDecoded
    {
      c := new Frame(width, height, stride, pixelFormat, pixels);
      c.frameIndex := frameIndex;
      c.framePercentage := framePercentage;
      c.frameTime := frameTime;
      c.isDecoded := isDecoded;
    }

    /** Frames of equal width and height. */
    predicate SameSizeAs(other: Frame) {
      width == other.width && height == other.height
    }
  }

  /** What one comparison reports. `changedPixels` is None in the default value,
      which stands for the C# object whose list was never assigned. */
  datatype FrameComparerResults = FrameComparerResults(
    threshold: int,
    changedPixels: Option<seq<Point>>,
    changedPixelsCount: int,
    frame: Frame?,
    frameIndex: int,
    frameTime: int)

  /** A freshly constructed result object: every field at its default. */
  const EmptyResults := FrameComparerResults(0, None, 0, null, 0, 0)
}
