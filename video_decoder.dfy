/** The playback clock and buffer access of VideoDecoder: it opens a video, starts the
    decode feed into a FrameDecoder, stamps every frame the decoder announces with its
    position in the video, and hands buffered frames to the consumer. */
module VideoDecoding {
  import opened Wrappers
  import opened Frames
  import opened FrameDecoding
  import Numerics

  /** What the video file reports about itself: frames per second, frame count and
      length in seconds. */
  datatype VideoInfo = VideoInfo(fps: real, totalFrames: int, duration: real)

  /** A video the clock can run on: a positive frame rate and at least two frames, so
      that the percentage CurrentFrame / (TotalFrames - 1) is defined. */
  predicate Playable(info: VideoInfo) {
    info.fps > 0.0 && info.totalFrames > 1
  }

  /** How far into the video frame `currentFrame` lies: CurrentFrame * 1.0 / (TotalFrames - 1).
      It reaches 1.0 exactly at the last frame. */
  function Percentage(currentFrame: int, totalFrames: int): (p: real)
    requires totalFrames > 1
    ensures p >= 1.0 <==> currentFrame >= totalFrames - 1
    ensures 0 <= currentFrame <= totalFrames - 1 ==> 0.0 <= p <= 1.0
  {
    currentFrame as real / (totalFrames - 1) as real
  }

  /** The TimeSpan of frame `currentFrame`, in whole milliseconds: the (int) cast of
      CurrentFrame / FPS * 1000. */
  function TimeOf(currentFrame: int, fps: real): (ms: int)
    requires fps > 0.0
    ensures currentFrame >= 0 ==>
              0 <= ms && ms as real <= currentFrame as real / fps * 1000.0 < ms as real + 1.0
  {
    Numerics.Truncate(0.0 + currentFrame as real / fps * 1000.0)
  }

  /** The clock after one frame-ready event: one frame on while below the frame count. */
  function Advance(currentFrame: int, totalFrames: int): (n: int)
    ensures currentFrame <= n <= currentFrame + 1
    ensures currentFrame <= totalFrames ==> n <= totalFrames
  {
    if currentFrame < totalFrames then currentFrame + 1 else currentFrame
  }

  /** The clock after `k` frame-ready events. */
  function AdvanceTimes(currentFrame: int, totalFrames: int, k: nat): int {
    if k == 0 then currentFrame else Advance(AdvanceTimes(currentFrame, totalFrames, k - 1), totalFrames)
  }

  /** From a frame at or below the frame count, k frame-ready events move the clock
      k frames on, but never past the frame count. */
  lemma {:induction false} AdvanceSaturates(currentFrame: int, totalFrames: int, k: nat)
    requires currentFrame <= totalFrames
    ensures AdvanceTimes(currentFrame, totalFrames, k)
            == if currentFrame + k <= totalFrames then currentFrame + k else totalFrames
  {
    if k > 0 {
      AdvanceSaturates(currentFrame, totalFrames, k - 1);
    }
  }

  /** An output frame of positive width and height holds at least one byte. */
  lemma OutputFrameNotEmpty(width: int, height: int)
    requires width > 0 && height > 0
    ensures height * GetStride(width, Format24bppRgb) >= 3 * width
  {
    Stride24(width);
    AtLeastOnce(height, GetStride(width, Format24bppRgb));
  }

  lemma AtLeastOnce(k: int, s: int)
    requires k >= 1 && s >= 0
    ensures k * s >= s
  {
    assert k * s == (k - 1) * s + s;
    assert (k - 1) * s >= 0;
  }

  /** The frame a start time seeks to: Math.Round(start * FPS), a tie going to the even
      frame. A positive start time never seeks before frame 0. */
  function StartFrame(start: real, fps: real): (n: int)
    requires start > 0.0 && fps > 0.0
    ensures n >= 0
    ensures -0.5 <= n as real - start * fps <= 0.5
  {
    assert start * fps > 0.0;
    Numerics.RoundHalfEven(start * fps)
  }

  class VideoDecoder {
    /** Set by Open; None until a video has been opened. */
    var videoInfo: Option<VideoInfo>
    var currentFrame: int
    /** The TimeSpan CurrentTime, in whole milliseconds. */
    var currentTime: int
    var currentPercentage: real
    var isPlaying: bool
    var isBufferReady: bool

    var videoPath: string
    var playerOutputWidth: int
    var playerOutputHeight: int
    var playEndTimeInSec: Option<real>
    var playStartTimeInSec: real
    var frameDecoder: FrameDecoder?

    /** The decode feed's seek and maximum-duration settings, in seconds. */
    var seek: Option<real>
    var maxDuration: Option<real>

    /** An opened video is playable and the clock is not negative. */
    ghost predicate Valid()
      reads this`videoInfo, this`currentFrame
    {
      (videoInfo.Some? ==> Playable(videoInfo.value)) && currentFrame >= 0
    }

    constructor ()
      ensures Valid()
      ensures videoInfo == None && currentFrame == 0 && currentTime == 0 && currentPercentage == 0.0
      ensures !isPlaying && !isBufferReady
      ensures playerOutputWidth == 256 * 4 && playerOutputHeight == 192 * 4
      ensures playEndTimeInSec == None && playStartTimeInSec == 0.0
      ensures frameDecoder == null && seek == None && maxDuration == None
    {
      videoInfo := None;
      currentFrame := 0;
      currentTime := 0;
      currentPercentage := 0.0;
      isPlaying := false;
      isBufferReady := false;
      videoPath := "";
      playerOutputWidth := 256 * 4;
      playerOutputHeight := 192 * 4;
      playEndTimeInSec := None;
      playStartTimeInSec := 0.0;
      frameDecoder := null;
      seek := None;
      maxDuration := None;
    }

    /** The frame decoder, as a set that is empty when there is none; the consumer
        steps may change only its buffer and the count of frames taken from it. */
    function Decoders(): set<FrameDecoder>
      reads this`frameDecoder
    {
      if frameDecoder == null then {} else {frameDecoder}
    }

    /** There is a frame decoder and it holds at least one frame. */
    predicate FramesInBuffer()
      reads this`frameDecoder, frameDecoder
    {
      frameDecoder != null && |frameDecoder.frameBuffer| > 0
    }

    /** The clock has reached the last frame. */
    predicate AtEndOfVideo()
      reads this`currentPercentage
    {
      currentPercentage >= 1.0
    }

    /** Stops a playing decode feed; a no-op when nothing is playing. The thread
        aborts are outside the model. */
    method Stop()
      modifies this`isPlaying
      ensures !isPlaying
    {
      if isPlaying {
        isPlaying := false;
      }
    }

    /** Stops playback, records the path and, when a file is there, reads its video
        information (`info`, which stands for what the file reports). */
    method Open(path: string, fileExists: bool, info: VideoInfo) returns (o: Outcome)
      requires Valid() && Playable(info)
      modifies this`isPlaying, this`videoPath, this`videoInfo
      ensures Valid() && !isPlaying && videoPath == path
      ensures !fileExists ==> o == Fail(FileNotFound) && videoInfo == old(videoInfo)
      ensures fileExists ==> o == Pass && videoInfo == Some(info)
    {
      Stop();
      videoPath := path;
      if !fileExists {
        return Fail(FileNotFound);
      }
      videoInfo := Some(info);
      o := Pass;
    }

    /** Opens the video (when `open`), creates a fresh frame decoder of the output size
        in 24-bit RGB, and sets up the feed: a start time moves the clock to the frame
        at that time, and an end bound only counts when it lies after the start. */
    method Start(open: bool, fileExists: bool, info: VideoInfo) returns (o: Outcome)
      requires Valid() && Playable(info)
      requires playerOutputWidth > 0 && playerOutputHeight > 0
      requires !open && playStartTimeInSec > 0.0 ==> videoInfo.Some?
      modifies this`isPlaying, this`videoPath, this`videoInfo, this`frameDecoder, this`seek,
               this`maxDuration, this`currentFrame
      ensures Valid()
      ensures o.Fail? <==> open && !fileExists
      ensures o.Fail? ==> frameDecoder == old(frameDecoder) && currentFrame == old(currentFrame)
      ensures o.Fail? ==> o == Fail(FileNotFound) && seek == old(seek) && maxDuration == old(maxDuration)
      ensures videoPath == old(videoPath)
      ensures open ==> !isPlaying
      ensures open && fileExists ==> videoInfo == Some(info)
      ensures open && !fileExists ==> videoInfo == old(videoInfo)
      ensures !open ==> videoInfo == old(videoInfo) && isPlaying == old(isPlaying)
      ensures o.Pass? ==>
                && fresh(frameDecoder) && frameDecoder.Valid() && frameDecoder.frameBuffer == []
                && frameDecoder.width == playerOutputWidth && frameDecoder.height == playerOutputHeight
                && frameDecoder.IsRgb24()
                && frameDecoder.bmpBuffer == null && frameDecoder.frameReadyEvents == []
      ensures o.Pass? && playStartTimeInSec > 0.0 ==>
                && videoInfo.Some?
                && currentFrame == StartFrame(playStartTimeInSec, videoInfo.value.fps)
                && seek == Some(playStartTimeInSec)
      ensures o.Pass? && playStartTimeInSec <= 0.0 ==> currentFrame == old(currentFrame) && seek == None
      ensures o.Pass? ==>
                maxDuration == if playEndTimeInSec.Some? && playEndTimeInSec.value > playStartTimeInSec
                               then Some(playEndTimeInSec.value - playStartTimeInSec) else None
    {
      if open {
        o := Open(videoPath, fileExists, info);
        if o.Fail? {
          return;
        }
      }
      o := Pass;

      OutputFrameNotEmpty(playerOutputWidth, playerOutputHeight);
      frameDecoder := new FrameDecoder(playerOutputWidth, playerOutputHeight, Format24bppRgb);

      seek := None;
      maxDuration := None;

      // a positive start time seeks the feed and moves the clock
      if playStartTimeInSec > 0.0 {
        currentFrame := StartFrame(playStartTimeInSec, videoInfo.value.fps);
        seek := Some(playStartTimeInSec);
      }

      // an end bound counts only after the start
      if playEndTimeInSec.Some? && playEndTimeInSec.value > playStartTimeInSec {
        maxDuration := Some(playEndTimeInSec.value - playStartTimeInSec);
      }
    }

    /** The decode thread's entry: the feed is playing. */
    method DecodingStarted()
      modifies this`isPlaying
      ensures isPlaying
    {
      isPlaying := true;
    }

    /** The decode thread's exit, however the feed ended: nothing is playing. */
    method DecodingFinished()
      modifies this`isPlaying
      ensures !isPlaying
    {
      isPlaying := false;
    }

    /** The FrameReady handler: stamps the frame with the clock's frame index, time and
        percentage and marks it decoded, latches buffer readiness once the buffer holds
        more than the working minimum, and moves the clock one frame on unless it is
        already at the frame count. */
    method OnFrameReady(frame: Frame)
      requires Valid() && videoInfo.Some? && frameDecoder != null
      modifies this`currentTime, this`currentPercentage, this`isBufferReady, this`currentFrame
      modifies frame`framePercentage, frame`frameIndex, frame`frameTime, frame`isDecoded
      ensures Valid()
      ensures currentTime == TimeOf(old(currentFrame), videoInfo.value.fps)
      ensures currentPercentage == Percentage(old(currentFrame), videoInfo.value.totalFrames)
      ensures frame.frameIndex == old(currentFrame) && frame.framePercentage == currentPercentage
      ensures frame.frameTime == currentTime && frame.isDecoded
      ensures isBufferReady == (old(isBufferReady) || frameDecoder.FramesInBufferMoreThanMinimum())
      ensures old(isBufferReady) ==> isBufferReady
      ensures currentFrame == Advance(old(currentFrame), videoInfo.value.totalFrames)
      ensures old(currentFrame) <= videoInfo.value.totalFrames ==> currentFrame <= videoInfo.value.totalFrames
      ensures AtEndOfVideo() <==> old(currentFrame) >= videoInfo.value.totalFrames - 1
    {
      var info := videoInfo.value;
      currentTime := TimeOf(currentFrame, info.fps);
      currentPercentage := Percentage(currentFrame, info.totalFrames);

      // stamp the frame with the clock's reading
      frame.framePercentage := currentPercentage;
      frame.frameIndex := currentFrame;
      frame.frameTime := currentTime;
      frame.isDecoded := true;

      if frameDecoder.FramesInBufferMoreThanMinimum() {
        isBufferReady := true;
      }

      if currentFrame < info.totalFrames {
        currentFrame := currentFrame + 1;
      }
    }

    /** Takes the next frame from the front of the buffer, or returns null when there
        is none. */
    method PlayNextFrame() returns (f: Frame?)
      requires frameDecoder != null ==> frameDecoder.Valid()
      modifies Decoders()`frameBuffer, Decoders()`consumed
      ensures frameDecoder != null ==> frameDecoder.Valid()
      ensures old(FramesInBuffer()) ==>
                f == old(frameDecoder.frameBuffer[0]) && frameDecoder.frameBuffer == old(frameDecoder.frameBuffer[1..])
      ensures !old(FramesInBuffer()) ==>
                f == null && (frameDecoder != null ==> frameDecoder.frameBuffer == old(frameDecoder.frameBuffer))
    {
      if FramesInBuffer() {
        f := frameDecoder.frameBuffer[0];
        frameDecoder.RemoveFirst();
        return;
      }
      f := null;
    }

    /** Records the start time, in seconds, for the next Start. */
    method SeekToTime(seconds: real)
      modifies this`playStartTimeInSec
      ensures playStartTimeInSec == seconds
    {
      playStartTimeInSec := seconds;
    }

    /** Records the start time of frame `frame` for the next Start; fails when no video
        has been opened. */
    method SeekToFrame(frame: int) returns (o: Outcome)
      requires Valid()
      modifies this`playStartTimeInSec
      ensures videoInfo.None? ==> o == Fail(VideoNotOpened) && playStartTimeInSec == old(playStartTimeInSec)
      ensures videoInfo.Some? ==>
                o == Pass && playStartTimeInSec * videoInfo.value.fps == frame as real
    {
      if videoInfo.None? {
        return Fail(VideoNotOpened);
      }
      playStartTimeInSec := frame as real / videoInfo.value.fps;
      o := Pass;
    }

    /** Disposes and drops the buffered frames, if there is a frame decoder. */
    method ClearBuffer()
      requires frameDecoder != null ==> frameDecoder.Valid()
      modifies Decoders()`frameBuffer, Decoders()`consumed
      modifies (if frameDecoder != null then frameDecoder.frameBuffer else [])`disposed
      ensures frameDecoder != null ==>
                && frameDecoder.Valid() && frameDecoder.frameBuffer == []
                && forall f <- old(frameDecoder.frameBuffer) :: f.disposed
    {
      if frameDecoder != null {
        frameDecoder.ClearBuffer();
      }
    }
  }
}
