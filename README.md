# SwarmSight frame pipeline, modelled in Dafny

SwarmSight finds motion in video. An external decoder writes raw 24-bit RGB bytes
into a `FrameDecoder`. The decoder cuts the byte stream into frames of `height*stride`
bytes and queues them in a bounded FIFO buffer, with backpressure. A `VideoDecoder`
stamps each announced frame with its position in the video, runs the playback clock
and hands buffered frames out. A `FrameComparer` runs a loop that takes frames from
the buffer's head, one at a time. It compares each frame with the one before it,
pixel by pixel, inside a rectangle set by fractional bounds, and announces which
pixels changed by more than a threshold. A `MotionDetector` runs the same kind of
comparison through a sliding window of the last two frames it was given.

The project has these modules:

- `Wrappers`: `Option` and the `Outcome` of an operation that can fail.
- `Numerics`: the C# conversions the code relies on, written out over integers and
  reals. These are the `(int)` cast (truncation toward zero), `Math.Round` (a tie goes
  to the even neighbour) and integer `/` (truncation).
- `Frames`: the `Frame` class and the `FrameComparerResults` record.
- `FrameDecoding`: the `FrameDecoder` class, a specification `Fed` of the bytes that
  `Write` copies, and the stride arithmetic.
- `VideoDecoding`: the `VideoDecoder` class (the playback clock and buffer access).
- `Comparison`: a pure specification of what `Compare` reports, with its properties.
  It states exactly which pixels are reported, in what order, with no repeats, that a
  frame compared with itself reports nothing, and that the result is monotone in the
  threshold.
- `FrameComparing`: the `FrameComparer` class. `Compare` is proved against
  `Comparison.ChangedPixels`. One pass of the buffer monitor's loop is `Step`.
- `MotionTracking`: the `MotionDetector` class.

The line-112 quirk of `FrameDecoder.Write` is modelled as written. After a pass that
completes an image, the next copy starts at the index equal to the length of the
copy just made; the code assigns that length to the offset instead of adding it.
`Write` is proved against the function `Fed`, which copies in that same way. The
model proves two facts about `Fed`:

- `FedContiguous`: when a chunk starts at offset 0 and completes at most one image
  beyond the one in flight, the bytes copied are exactly the chunk, in order.
- `FedRereadsAfterSecondImage`: a 12-byte chunk fed into 4-byte images copies bytes
  4..7 twice and never copies bytes 8..11.

The model follows the code in these places:

- The comparison loop does not skip a pair of frames of different sizes. The model
  requires instead that the previous frame has the geometry of the current decoder
  (`Feedable`), because otherwise the unchecked pixel reads leave the frames.
- `IsBufferReady` is latched by `OnFrameReady` and never reset, not even when the
  buffer is cleared.
- `SeekTo(double)` only records the seconds, even before a video is opened. Only
  `SeekTo(int)` fails in that case.
- `Start` sets the clock to `Math.Round(start * FPS)`.
- The changed pixels are reported in scan order, because the row loop is modelled
  sequentially.

## Model

| member | source | states |
|---|---|---|
| Numerics.DivTrunc | Source/SwarmSight.VideoPlayer/FrameDecoder.cs:50 | C# integer division by a positive divisor leaves a remainder with the dividend's sign, less than the divisor in magnitude |
| Numerics.Truncate | Source/SwarmVision.VideoPlayer/FrameComparer.cs:214-218 | the `(int)` cast of a double moves toward zero by less than 1 |
| Numerics.RoundHalfEven | Source/SwarmSight.VideoPlayer/VideoDecoder.cs:101 | `Math.Round` lies within 0.5 of its argument, and a tie goes to the even integer |
| FrameDecoding.RowBytes | Source/SwarmSight.VideoPlayer/FrameDecoder.cs:50 | `v` bits rounded up to whole 32-bit words give a multiple of 4 bytes that holds the bits and pads by less than 4 bytes |
| FrameDecoding.StrideBounds | Source/SwarmSight.VideoPlayer/FrameDecoder.cs:42-53 | the stride is a multiple of 4, is at least ceil(width*bpp/8) and is less than that plus 4 |
| FrameDecoding.Stride24 | Source/SwarmSight.VideoPlayer/FrameDecoder.cs:42-53 | for Format24bppRgb the bits per pixel are 24, the stride is ((24*width+31)/32)*4, and it holds 3 bytes per pixel |
| FrameDecoding.GetStride | Source/SwarmSight.VideoPlayer/FrameDecoder.cs:42-53 | the stride is bits 8..15 of the pixel format times the width, rounded up to whole 32-bit words, in bytes (its bounds are StrideBounds) |
| FrameDecoding.FrameDecoder.FramesInBufferMoreThanMinimum | Source/SwarmSight.VideoPlayer/FrameDecoder.cs:18-21 | true iff the buffer holds more than 5 frames |
| FrameDecoding.FrameDecoder.constructor | Source/SwarmSight.VideoPlayer/FrameDecoder.cs:34-40 | the decoder keeps its geometry with the stride of GetStride; nothing is in flight and the buffer is empty |
| FrameDecoding.FrameDecoder.BufferHoldsWholeImages | Source/SwarmSight.VideoPlayer/FrameDecoder.cs:65-99 | every buffered frame has the decoder's width, height and stride and exactly height*stride bytes; no partial frame is ever queued |
| FrameDecoding.BlockCopy | Source/SwarmSight.VideoPlayer/FrameDecoder.cs:76 | the copied range of the image buffer equals the source range and the rest of the image buffer is untouched |
| FrameDecoding.FrameDecoder.Accumulate | Source/SwarmSight.VideoPlayer/FrameDecoder.cs:62-80 | a new image buffer of height*stride bytes is made if none is in flight; then min(bytes left, room) bytes are copied from the offset; the bytes in flight grow by exactly them; room and bytes left shrink by that count |
| FrameDecoding.FrameDecoder.WaitForRoom | Source/SwarmSight.VideoPlayer/FrameDecoder.cs:91-94 | below capacity nothing changes; at capacity the consumer drains the buffer from the front to at most 5 frames |
| FrameDecoding.FrameDecoder.CompleteImage | Source/SwarmSight.VideoPlayer/FrameDecoder.cs:85-108 | a full image becomes a fresh, undecoded frame holding exactly the bytes in flight; it is appended at the tail after the backpressure wait, and announced once, after the append |
| FrameDecoding.FrameDecoder.Finish | Source/SwarmSight.VideoPlayer/FrameDecoder.cs:85-113 | completing an image keeps the byte accounting and the queue accounting of the call, and the next copy starts at the length of the copy just made |
| FrameDecoding.FrameDecoder.Pass | Source/SwarmSight.VideoPlayer/FrameDecoder.cs:60-114 | one pass of the loop keeps the decoder valid, consumes at least one byte, yields a frame exactly when the image filled, and keeps the byte and queue accounting |
| FrameDecoding.FrameDecoder.Write | Source/SwarmSight.VideoPlayer/FrameDecoder.cs:56-115 | between calls either nothing is in flight or offset + room == height*stride with room > 0; the completed frames' bytes followed by the bytes in flight equal the old bytes in flight followed by `Fed` of the chunk; each completed frame is announced once, in order; below capacity the buffer is the old buffer followed by the completed frames |
| FrameDecoding.FedContiguous | Source/SwarmSight.VideoPlayer/FrameDecoder.cs:74-113 | from offset 0, with at most one image completed beyond the one in flight, the bytes fed are exactly buffer[0..count) |
| FrameDecoding.FedRereadsAfterSecondImage | Source/SwarmSight.VideoPlayer/FrameDecoder.cs:110-113 | a chunk that completes two images after the first re-copies the bytes after the first image and drops the tail |
| FrameDecoding.Fed | Source/SwarmSight.VideoPlayer/FrameDecoder.cs:74-113 | the bytes Write copies, in copy order: each copy takes min(bytes left, room), and after a completed image the next copy starts at the index equal to the length of the previous copy |
| FrameDecoding.QueueDone | Source/SwarmSight.VideoPlayer/FrameDecoder.cs:96-101 | frames are appended at the tail in completion order |
| FrameDecoding.FrameDecoder.ClearBuffer | Source/SwarmSight.VideoPlayer/FrameDecoder.cs:117-125 | every held frame is disposed and the buffer is left empty |
| FrameDecoding.FrameDecoder.RemoveFirst | Source/SwarmSight.VideoPlayer/VideoDecoder.cs:186-188 | removing the head leaves exactly the frames after it |
| VideoDecoding.Percentage | Source/SwarmSight.VideoPlayer/VideoDecoder.cs:161 | the percentage reaches 1.0 exactly once the frame is the last one or beyond, and lies in [0, 1] for frames of the video |
| VideoDecoding.TimeOf | Source/SwarmSight.VideoPlayer/VideoDecoder.cs:160 | the frame time is the whole milliseconds of frame/FPS seconds, truncated |
| VideoDecoding.Advance | Source/SwarmSight.VideoPlayer/VideoDecoder.cs:174-175 | the clock moves on by at most one frame and never past the frame count |
| VideoDecoding.AdvanceSaturates | Source/SwarmSight.VideoPlayer/VideoDecoder.cs:174-175 | k frame-ready events move the clock to min(frame + k, frame count) |
| VideoDecoding.OutputFrameNotEmpty | Source/SwarmSight.VideoPlayer/VideoDecoder.cs:79-84 | a positive output size gives a decoder whose image holds at least 3*width bytes |
| VideoDecoding.StartFrame | Source/SwarmSight.VideoPlayer/VideoDecoder.cs:101 | a positive start time seeks to a frame not below 0, within half a frame of start*FPS |
| VideoDecoding.VideoDecoder.constructor | Source/SwarmSight.VideoPlayer/VideoDecoder.cs:17-33 | no video is open, the clock is at 0, nothing plays, and the output size is 1024x768 |
| VideoDecoding.VideoDecoder.FramesInBuffer | Source/SwarmSight.VideoPlayer/VideoDecoder.cs:38-46 | true iff there is a frame decoder and its buffer holds a frame |
| VideoDecoding.VideoDecoder.AtEndOfVideo | Source/SwarmSight.VideoPlayer/VideoDecoder.cs:53-56 | true iff CurrentPercentage >= 1.0; through Percentage (see OnFrameReady) iff the last stamped frame was the last one or beyond |
| VideoDecoding.VideoDecoder.Stop | Source/SwarmSight.VideoPlayer/VideoDecoder.cs:217-241 | afterwards nothing plays; only IsPlaying may change |
| VideoDecoding.VideoDecoder.Open | Source/SwarmSight.VideoPlayer/VideoDecoder.cs:58-69 | playback stops and the path is recorded; a missing file fails with FileNotFound and keeps the old video information, otherwise the video information is read |
| VideoDecoding.VideoDecoder.Start | Source/SwarmSight.VideoPlayer/VideoDecoder.cs:71-124 | opens when asked: then playback stops and the video information is read, or the call fails with FileNotFound keeping it; without opening, the video information and IsPlaying are kept; the path is kept; on failure the clock, decoder, seek and duration settings are kept; on success creates a fresh 24-bit decoder of the output size with an empty buffer, no image in flight and no announcements; a positive start time sets the clock to Round(start*FPS) and the seek; an end bound applies only when it lies after the start, as end minus start |
| VideoDecoding.VideoDecoder.DecodingStarted | Source/SwarmSight.VideoPlayer/VideoDecoder.cs:126-130 | the decode thread's entry sets IsPlaying |
| VideoDecoding.VideoDecoder.DecodingFinished | Source/SwarmSight.VideoPlayer/VideoDecoder.cs:151-154 | however the feed ends, IsPlaying is cleared |
| VideoDecoding.VideoDecoder.OnFrameReady | Source/SwarmSight.VideoPlayer/VideoDecoder.cs:158-176 | the frame is stamped with the clock before its increment, its time and percentage, and IsDecoded; IsBufferReady becomes true once the buffer holds more than 5 frames and is never cleared; the clock moves on by one only below the frame count; AtEndOfVideo holds iff the stamped frame was at least the last |
| VideoDecoding.VideoDecoder.PlayNextFrame | Source/SwarmSight.VideoPlayer/VideoDecoder.cs:182-194 | a non-empty buffer yields its head and loses only the head; an empty one yields null and is unchanged; the image in flight and the announcements are untouched |
| VideoDecoding.VideoDecoder.SeekToTime | Source/SwarmSight.VideoPlayer/VideoDecoder.cs:200-203 | only the start time is recorded |
| VideoDecoding.VideoDecoder.SeekToFrame | Source/SwarmSight.VideoPlayer/VideoDecoder.cs:209-215 | fails with nothing changed when no video is open; otherwise the start time is frame/FPS |
| VideoDecoding.VideoDecoder.ClearBuffer | Source/SwarmSight.VideoPlayer/VideoDecoder.cs:243-247 | with a frame decoder, every buffered frame is disposed and the buffer emptied |
| Comparison.AbsDiff | Source/SwarmVision.VideoPlayer/FrameComparer.cs:230-232 | `Math.Abs` of a difference: non-negative and equal to the difference or its negation |
| Comparison.ColorDifference | Source/SwarmVision.VideoPlayer/FrameComparer.cs:227-232 | the summed channel differences of a pixel are never negative |
| Comparison.RowChangesMembers | Source/SwarmVision.VideoPlayer/FrameComparer.cs:225-238 | a row reports a pixel iff it lies in [xMin, x) of that row and changed |
| Comparison.ChangesMembers | Source/SwarmVision.VideoPlayer/FrameComparer.cs:221-240 | the rows scanned so far report exactly their changed pixels |
| Comparison.ChangedPixelsExactly | Source/SwarmVision.VideoPlayer/FrameComparer.cs:207-238 | a pixel is reported iff xMin <= x < xMax, yMin <= y < yMax and the sum of its three byte differences at x*3 + stride*y exceeds Threshold*3 |
| Comparison.RowChangesInOrder | Source/SwarmVision.VideoPlayer/FrameComparer.cs:225-238 | a row's pixels are reported left to right |
| Comparison.ChangesInOrder | Source/SwarmVision.VideoPlayer/FrameComparer.cs:221-240 | the sequential scan reports rows top to bottom, each left to right |
| Comparison.ChangedPixelsDistinct | Source/SwarmVision.VideoPlayer/FrameComparer.cs:236-243 | no coordinate is reported twice |
| Comparison.SelfCompareUnchanged | Source/SwarmVision.VideoPlayer/FrameComparer.cs:229-234 | a frame compared with itself reports nothing for a threshold of at least 0, because the test is strict |
| Comparison.RowChangesAntitone | Source/SwarmVision.VideoPlayer/FrameComparer.cs:225-238 | a higher threshold reports no more pixels of a row |
| Comparison.ChangesAntitone | Source/SwarmVision.VideoPlayer/FrameComparer.cs:221-240 | a higher threshold reports no more pixels of the rows scanned |
| Comparison.ThresholdMonotone | Source/SwarmVision.VideoPlayer/FrameComparer.cs:207-234 | raising the threshold never increases ChangedPixelsCount, and every pixel still reported was reported before |
| Comparison.WholeFrameRoi | Source/SwarmVision.VideoPlayer/FrameComparer.cs:214-218 | bounds (0, 0, 1, 1) select [0, width) x [0, height) |
| Comparison.ZeroBoundsReportNothing | Source/SwarmVision.VideoPlayer/FrameComparer.cs:30-33 | bounds never set select an empty rectangle, so nothing is reported |
| Comparison.ScaledBound | Source/SwarmVision.VideoPlayer/FrameComparer.cs:214-218 | a size scaled by a fraction in [0, 1] and cast to int lies in [0, size] |
| Comparison.RoiOf | Source/SwarmVision.VideoPlayer/FrameComparer.cs:214-218 | the pixel rectangle [(int)(width*left), (int)(width*right)) x [(int)(height*top), (int)(height*bottom)) |
| Comparison.RoiInsideFrame | Source/SwarmVision.VideoPlayer/FrameComparer.cs:214-218 | fractional bounds in [0, 1] give a pixel rectangle inside the frame |
| Comparison.WholeImagesScannable | Source/SwarmVision.VideoPlayer/FrameComparer.cs:221-232 | in two images of height rows of stride >= 3*width bytes, every pixel of a rectangle inside the frame has its three bytes in both |
| FrameComparing.ScanInsideFrames | Source/SwarmVision.VideoPlayer/FrameComparer.cs:208-232 | two whole frames of a 24-bit decoder can be scanned over bounds in [0, 1] without a read outside either |
| FrameComparing.ScanRow | Source/SwarmVision.VideoPlayer/FrameComparer.cs:223-239 | one row's pass appends exactly that row's changed pixels, left to right, and counts each |
| FrameComparing.ScanRows | Source/SwarmVision.VideoPlayer/FrameComparer.cs:221-240 | scanning the rows one after another finds exactly the changed pixels of the rectangle, and the count equals the list's length |
| FrameComparing.FrameComparer.constructor | Source/SwarmVision.VideoPlayer/FrameComparer.cs:16-39 | defaults: ShowMotion, ShadeRadius 1, Threshold 50, MostRecentFrameIndex -1, no previous frame, bounds 0 |
| FrameComparing.FrameComparer.Compare | Source/SwarmVision.VideoPlayer/FrameComparer.cs:195-248 | the result holds the Threshold field, exactly the changed pixels of the bounded rectangle with their count, and the FrameIndex and FrameTime of the second argument |
| FrameComparing.FrameComparer.SetBounds | Source/SwarmVision.VideoPlayer/FrameComparer.cs:250-256 | each argument is stored in its matching field |
| FrameComparing.FrameComparer.SeekTo | Source/SwarmVision.VideoPlayer/FrameComparer.cs:72-77 | MostRecentFrameIndex becomes Round(TotalFrames*fraction) and the decoder's start time becomes Duration*fraction |
| FrameComparing.FrameComparer.Reset | Source/SwarmVision.VideoPlayer/FrameComparer.cs:99-109 | MostRecentFrameIndex is -1, nothing plays, and the previous frame is disposed and dropped |
| FrameComparing.FrameComparer.Pause | Source/SwarmVision.VideoPlayer/FrameComparer.cs:58-70 | the decoder stops, the monitor stops only when asked, the buffered frames are disposed and the buffer emptied, and nothing plays |
| FrameComparing.FrameComparer.Stop | Source/SwarmVision.VideoPlayer/FrameComparer.cs:79-86 | a pause that stops the monitor, then a reset: MostRecentFrameIndex is -1, nothing plays, and there is no previous frame |
| FrameComparing.FrameComparer.HeadReady | Source/SwarmVision.VideoPlayer/FrameComparer.cs:120-122 | the loop's guard: IsBufferReady, frames in the buffer, and a decoded head |
| FrameComparing.FrameComparer.Announce | Source/SwarmVision.VideoPlayer/FrameComparer.cs:129-157 | one FrameCompared result for (current, previous) is announced, on a fresh clone when ShowMotion is set and on the current frame otherwise; then the previous frame is disposed |
| FrameComparing.FrameComparer.TakeHead | Source/SwarmVision.VideoPlayer/FrameComparer.cs:120-163 | with a ready, decoded head, a comparison is announced only if there is a previous frame; the head becomes the previous frame and MostRecentFrameIndex its index; only the head leaves the buffer |
| FrameComparing.FrameComparer.StopAtEnd | Source/SwarmVision.VideoPlayer/FrameComparer.cs:165-176 | at the end of the video the decoder stops, the buffer is disposed and emptied, Stopped is raised once, the comparer resets, and the monitor ends |
| FrameComparing.FrameComparer.Step | Source/SwarmVision.VideoPlayer/FrameComparer.cs:118-181 | a pass takes the head iff the buffer is ready and its head is decoded: then, with a previous frame, exactly one FrameCompared result (head, previous) is appended with TakeHead's content and the previous frame is disposed, and the head becomes the previous frame and leaves the buffer; otherwise it stops iff the video is at its end, disposing the previous frame and every buffered frame, emptying the buffer, raising Stopped once and ending the monitor; otherwise nothing changes, including the disposed flags of the previous and buffered frames; when advancing, only the old previous frame is disposed |
| MotionTracking.RectOf | Source/SwarmSight.MotionTracking/MotionDetector.cs:43-47 | the rectangle of two corners has a non-negative size and spans both corners, in either order |
| MotionTracking.MotionDetector.constructor | Source/SwarmSight.MotionTracking/MotionDetector.cs:15-22 | the window is empty, Threshold is 30 and the bounds are 0 |
| MotionTracking.MotionDetector.SetBounds | Source/SwarmSight.MotionTracking/MotionDetector.cs:64-70 | each argument is stored in its matching field |
| MotionTracking.MotionDetector.Region | Source/SwarmSight.MotionTracking/MotionDetector.cs:43-47 | the rectangle spanned by the bounds scaled to the frame's width and height |
| MotionTracking.MotionDetector.OnProcessing | Source/SwarmSight.MotionTracking/MotionDetector.cs:24-62 | the window holds at most 2 frames and ends with a fresh clone of the input; when it overflows, only the oldest frame is disposed and dropped; the result is populated iff two frames of the same size are held, with Threshold, ChangedPixels and their count, and Frame, FrameIndex and FrameTime from the input; otherwise, as on the first call, it is the default result |

## Left out

- Threads are left out. This covers the decode thread, the buffer monitor thread, `Thread.Abort`, `ThreadAbortException` and the `Thread.Sleep` polling. The buffer monitor's loop is modelled one pass at a time (`Step`). The backpressure wait is an environment step (`WaitForRoom`) in which the consumer drains the buffer.
- `Parallel.For` in `Compare` runs its rows one after another in the model. The unsynchronised `changedPixelsCount++` and `List.Add` are a race in the code, so count equals length, and the scan order, hold only for that sequential reading.
- FFmpeg, the file system and the video file's metadata are parameters. `Open` and `Start` take whether the file exists and the `VideoInfo` the file would report. The decode feed's settings are kept as two fields, `seek` and `maxDuration`.
- C#'s 32-bit `int` arithmetic is idealised as unbounded integers. This covers `Threshold*3`, `height*stride` and the offset `x*3 + stride*y`.
- Comparison.ThresholdMonotone: holds for the unbounded `Threshold*3`. In the code, `Threshold*3` wraps. For Threshold in [715827883, 1431655765] the product is negative, and every pixel is reported. From 1431655766 on it wraps back to small positive values (1431655766*3 is 2 modulo 2^32), and at int.MaxValue it is 2147483645, so nothing is reported. The code is therefore monotone only for thresholds up to 715827882.
- FrameComparing.FrameComparer.Compare: computes `Threshold*3` and the byte offsets without 32-bit wrap-around. It agrees with the code for thresholds in [0, 715827882] and frames of fewer than 2^31 bytes.
- Doubles are idealised as Dafny reals: no rounding error and no overflow. The `(float)` casts of the seek, the duration and `SeekTo`'s time are not modelled.
- `Math.Round` is modelled with its default midpoint rule, to even.
- `PixelShader.Shade` is left out. With ShowMotion, the announced frame is a fresh clone of the current frame with its pixels unshaded.
- `Frame`, `FrameComparerResults`, `VideoInfo`, `FrameBuffer<Frame>`, `Frame.Clone`, `Frame.Dispose` and `Frame.SameSizeAs` are defined outside the core files. They are modelled from how the core uses them. `FrameBuffer<Frame>` is a list with AddLast, First, Remove and Count, so it becomes a `seq<Frame>`. A frame's pixels are a value copied when the frame is made, so a frame does not alias the decoder's image buffer.
- `Frame.ChangeExtentPoints` is not part of this model. `OnProcessing` takes it as a function parameter.
- The dispatch of `FrameReady` to `VideoDecoder.OnFrameReady` inside `Write` is not composed. `Write` records each announcement in `frameReadyEvents`, and `OnFrameReady` is a separate step.
- `FrameComparer.Start` is left out, along with the fields and members that only serve threads, I/O or diagnostics. This includes `VideoDecoder.Dispose`, the `Stream` members of `FrameDecoder`, `OnLogReceived`, `PerformanceHistory`, stopwatches and `MessageBox`.
- The `catch (Exception)` path of the buffer monitor's loop is left out, because the model raises no exceptions there.
- FrameDecoding.FrameDecoder.Write: the contract does not promise that the completed frames are fresh or undecoded. `CompleteImage` states that for each frame, but it is not carried through the loop.
- FrameDecoding.FrameDecoder.constructor: requires a non-empty image (height*stride > 0). With an empty image, `Write` in the code never ends: each pass copies 0 bytes and queues an empty frame.
- VideoDecoding.Percentage: requires at least two frames (`Playable`). With one frame the code's double division by zero gives infinity or NaN, which reals cannot hold.
- FrameComparing.FrameComparer.SeekTo: requires an opened video. In the code it dereferences `Decoder.VideoInfo` without a check.
- FrameComparing.FrameComparer.Step: requires bounds within [0, 1] and frames of the decoder's 24-bit geometry. Outside these the code's unchecked pointer reads leave the frames; the model does not give that case a meaning.
- FrameComparing.FrameComparer.Compare: requires that the frames hold every byte the scan reads, for the same reason.
- VideoDecoding.VideoDecoder.Open: accepts only a playable video, with FPS > 0 and at least two frames (`Playable`). The code opens any file. The clock divides by `VideoInfo.FPS` (`CurrentFrame/FPS`, `frame/FPS`) and by `TotalFrames - 1`, and these doubles would give infinity or NaN, which reals cannot hold.
- VideoDecoding.VideoDecoder.Start: accepts only a playable video, with FPS > 0 and at least two frames, for the same reason as Open.
- VideoDecoding.VideoDecoder.Start: requires an opened video when it does not open one and a start time is set. In the code, `VideoInfo.FPS` is then a null dereference, after the decoder has already been replaced.
- VideoDecoding.VideoDecoder.OnFrameReady: requires an opened video and a frame decoder. In the code these are null dereferences.
- MotionTracking.MotionDetector.OnProcessing: the `Rect` built from two corners is the normalised rectangle of `System.Windows.Rect`. Its use inside `ChangeExtentPoints` is not modelled.
