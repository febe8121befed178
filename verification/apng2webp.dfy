/**
 The converter in apng2png/apng2webp.c: `load_apng` decodes every frame into
 its own zero-filled, full-canvas RGBA buffer with the sub-frame's scanlines
 at their offset, `save_webp` hands the buffers to the encoder in order, and
 `main` chains the two.
 */
module Apng2Webp {
  import opened Canvas
  import opened Delay
  import opened Apng
  import opened Wrappers
  import opened Encoder
  import opened Timestamps

  /** `struct Frame`: a full-canvas RGBA buffer and a duration in milliseconds. */
  datatype Frame = Frame(rgba: seq<Byte>, width: int, height: int, durationMs: nat)

  /**
   The size `load_apng` gives each buffer, `width * height * 4` in
   png_uint_32 arithmetic, is the true canvas size. Beyond 2^32 bytes the
   product wraps and the row pointers reach past the buffer.
   */
  predicate SizeFits(img: Image)
  {
    CanvasBytes(img.width, img.height) < 0x1_0000_0000
  }

  /**
   The frame one iteration of `load_apng`'s loop builds: canvas-sized, all
   zero except the sub-rectangle, which holds the decoded scanlines; nothing
   is carried over from earlier frames.
   */
  function DecodeFrame(img: Image, f: SubFrame): (frame: Frame)
    requires Decodable(img.width, img.height, f) && SizeFits(img)
    ensures frame.width == img.width && frame.height == img.height
    ensures |frame.rgba| == CanvasBytesU32(img.width, img.height) == CanvasBytes(img.width, img.height)
    ensures Placed(frame.rgba, Zeros(CanvasBytes(img.width, img.height)),
                   img.width, f.xOffset, f.yOffset, f.subWidth, f.rows, |f.rows|)
    ensures frame.durationMs == FrameDurationMs(f.delayNum, f.delayDen)
  {
    var w, h := img.width, img.height;
    Frame(Place(Zeros(CanvasBytes(w, h)), w, h, f.xOffset, f.yOffset, f.subWidth, f.rows),
          w, h, FrameDurationMs(f.delayNum, f.delayDen))
  }

  /**
   Every byte of a decoded frame outside the sub-rectangle is zero, and
   every byte inside it is the matching scanline byte.
   */
  lemma DecodedFrameContents(img: Image, f: SubFrame, k: nat)
    requires Decodable(img.width, img.height, f) && SizeFits(img)
    requires k < CanvasBytes(img.width, img.height)
    ensures img.width > 0
    ensures !InRect(img.width, f.xOffset, f.yOffset, f.subWidth, f.subHeight, k) ==>
              DecodeFrame(img, f).rgba[k] == 0
    ensures InRect(img.width, f.xOffset, f.yOffset, f.subWidth, f.subHeight, k) ==>
              DecodeFrame(img, f).rgba[k] == f.rows[RowOf(img.width, k) - f.yOffset][ColOf(img.width, k) - f.xOffset * 4]
  {
  }

  /**
   The disposal and blend operators play no part in the frame that is
   built: any two valid operators give the same frame.
   */
  lemma DecodeIgnoresDisposeAndBlend(img: Image, f: SubFrame, disposeOp: Byte, blendOp: Byte)
    requires Decodable(img.width, img.height, f) && SizeFits(img)
    requires disposeOp <= 2 && blendOp <= 1
    ensures Decodable(img.width, img.height, f.(disposeOp := disposeOp, blendOp := blendOp))
    ensures DecodeFrame(img, f.(disposeOp := disposeOp, blendOp := blendOp)) == DecodeFrame(img, f)
  {
  }

  /**
   `load_apng`: one frame per declared frame, in file order, or failure as
   soon as the decoder rejects a frame. A canvas of 2^32 bytes or more,
   where the program's buffer size wraps, is also reported as failure.
   */
  method LoadApng(img: Image) returns (frames: Option<seq<Frame>>)
    ensures frames.None? <==> !AllDecodable(img) || (|img.frames| > 0 && !SizeFits(img))
    ensures frames.Some? ==> |frames.value| == |img.frames|
    ensures frames.Some? ==> forall i :: 0 <= i < |img.frames| ==>
              SizeFits(img) && frames.value[i] == DecodeFrame(img, img.frames[i])
  {
    var out: seq<Frame> := [];
    var i := 0;
    while i < |img.frames|
      invariant 0 <= i <= |img.frames|
      invariant i > 0 ==> SizeFits(img)
      invariant forall j :: 0 <= j < i ==> Decodable(img.width, img.height, img.frames[j])
      invariant |out| == i
      invariant forall j :: 0 <= j < i ==> out[j] == DecodeFrame(img, img.frames[j])
    {
      var f := img.frames[i];
      if !SizeFits(img) || !Decodable(img.width, img.height, f) {
        return None;
      }
      out := out + [DecodeFrame(img, f)];
      i := i + 1;
    }
    return Some(out);
  }

  /** The add calls of `save_webp`'s loop from frame `i` on: each frame with its own duration. */
  function DurationAdds(frames: seq<Frame>, i: nat): (adds: seq<Add>)
    requires i <= |frames|
    decreases |frames| - i
    ensures |adds| == |frames| - i
    ensures forall j :: 0 <= j < |adds| ==> adds[j] == Add(Some(i + j), frames[i + j].durationMs)
  {
    if i == |frames| then [] else [Add(Some(i), frames[i].durationMs)] + DurationAdds(frames, i + 1)
  }

  /**
   `save_webp`: no encoder for an empty frame list; otherwise an encoder
   the size of the first frame, looping forever, receiving every frame in
   order with the frame's own duration as the timestamp argument, and no
   closing call. These are the calls made while the encoder accepts them;
   `SaveWebpSucceeds` says when it does.
   */
  function SaveWebp(frames: seq<Frame>): (s: Option<Session>)
    ensures s.None? <==> |frames| == 0
    ensures s.Some? ==> s.value.width == frames[0].width && s.value.height == frames[0].height
    ensures s.Some? ==> s.value.loopCount == 0 && |s.value.adds| == |frames|
    ensures s.Some? ==> forall i :: 0 <= i < |frames| ==>
              s.value.adds[i] == Add(Some(i), frames[i].durationMs)
  {
    if |frames| == 0 then None
    else Some(Session(frames[0].width, frames[0].height, 0, DurationAdds(frames, 0)))
  }

  /**
   Whether `save_webp` returns true: the frame list is non-empty and the
   encoder accepts every add. Since each frame's duration is passed as its
   timestamp, that fails as soon as a frame is shorter than the one before.
   */
  function SaveWebpSucceeds(frames: seq<Frame>): (ok: bool)
    ensures ok <==> |frames| > 0 &&
                    forall i :: 0 < i < |frames| ==> frames[i - 1].durationMs <= frames[i].durationMs
  {
    var s := SaveWebp(frames);
    s.Some? && AcceptsAll(s.value.adds)
  }

  /** `main` after argument handling: load, then save; exit code 1 on either failure. */
  method Convert(img: Image) returns (run: Run)
    ensures run.exitCode == 0 <==>
              && AllDecodable(img) && SizeFits(img) && |img.frames| > 0
              && forall i :: 0 < i < |img.frames| ==>
                   FrameDurationMs(img.frames[i - 1].delayNum, img.frames[i - 1].delayDen)
                     <= FrameDurationMs(img.frames[i].delayNum, img.frames[i].delayDen)
    ensures run.exitCode != 0 ==> run == Run(1, None)
    ensures run.exitCode == 0 ==> run.session.Some?
    ensures run.session.Some? ==>
              var s := run.session.value;
              && s.width == img.width && s.height == img.height && s.loopCount == 0
              && |s.adds| == |img.frames|
              && forall i :: 0 <= i < |img.frames| ==>
                   s.adds[i] == Add(Some(i), FrameDurationMs(img.frames[i].delayNum, img.frames[i].delayDen))
  {
    var frames := LoadApng(img);
    if frames.None? {
      return Run(1, None);
    }
    if !SaveWebpSucceeds(frames.value) {
      return Run(1, None);
    }
    return Run(0, SaveWebp(frames.value));
  }

  /**
   What `save_webp` evidently means to do: hand frame `i` over at the sum
   of the durations before it, and close with a null picture at the total,
   so that every frame is shown for its own duration.
   */
  function SaveWebpCorrected(frames: seq<Frame>): (s: Option<Session>)
    ensures s.None? <==> |frames| == 0
    ensures s.Some? ==> s.value.width == frames[0].width && s.value.height == frames[0].height
    ensures s.Some? ==> s.value.loopCount == 0 && FramesThenClose(s.value.adds, |frames|)
    ensures s.Some? ==> AcceptsAll(s.value.adds)
    ensures s.Some? ==> NonDecreasing(s.value.adds) && s.value.adds[0].timestampMs == 0
    ensures s.Some? ==> forall i :: 0 <= i < |frames| ==>
              s.value.adds[i + 1].timestampMs - s.value.adds[i].timestampMs == frames[i].durationMs
  {
    if |frames| == 0 then None
    else
      var ds := seq(|frames|, i requires 0 <= i < |frames| => frames[i].durationMs);
      AccumulateGaps(ds);
      NonDecreasingAccepted(Accumulate(ds));
      Some(Session(frames[0].width, frames[0].height, 0, Accumulate(ds)))
  }

  /**
   The timestamp argument `save_webp` passes for frame `i` is the gap the
   intended timeline leaves after frame `i`: the program hands over display
   lengths where the encoder expects start times.
   */
  lemma SaveWebpPassesGaps(frames: seq<Frame>)
    requires |frames| > 0
    ensures forall i :: 0 <= i < |frames| ==>
              SaveWebp(frames).value.adds[i].timestampMs == Gaps(SaveWebpCorrected(frames).value.adds)[i]
  {
  }

  /** `main` with the corrected `save_webp`. */
  method ConvertCorrected(img: Image) returns (run: Run)
    ensures run.exitCode == 0 <==> AllDecodable(img) && SizeFits(img) && |img.frames| > 0
    ensures run.exitCode != 0 ==> run == Run(1, None)
    ensures run.exitCode == 0 ==>
              && run.session.Some?
              && run.session.value.width == img.width && run.session.value.height == img.height
              && run.session.value.loopCount == 0
              && AcceptsAll(run.session.value.adds)
              && FramesThenClose(run.session.value.adds, |img.frames|)
              && NonDecreasing(run.session.value.adds)
              && run.session.value.adds[0].timestampMs == 0
              && forall i :: 0 <= i < |img.frames| ==>
                   run.session.value.adds[i + 1].timestampMs - run.session.value.adds[i].timestampMs
                     == FrameDurationMs(img.frames[i].delayNum, img.frames[i].delayDen)
  {
    var frames := LoadApng(img);
    if frames.None? {
      return Run(1, None);
    }
    var session := SaveWebpCorrected(frames.value);
    if session.None? {
      return Run(1, None);
    }
    return Run(0, session);
  }

  /**
   Two frames of 100 ms each: `save_webp` passes 100 and then 100, so the
   second timestamp is not later than the first and there is no closing
   call; the corrected calls are at 0, 100 and 200.
   */
  lemma SaveWebpPassesDurations()
    ensures var frames := [Frame(Zeros(4), 1, 1, 100), Frame(Zeros(4), 1, 1, 100)];
            && SaveWebp(frames).Some?
            && !StrictlyIncreasing(SaveWebp(frames).value.adds)
            && (forall i :: 0 <= i < |SaveWebp(frames).value.adds| ==> SaveWebp(frames).value.adds[i].frame.Some?)
            && SaveWebpCorrected(frames).Some?
            && SaveWebpCorrected(frames).value.adds == [Add(Some(0), 0), Add(Some(1), 100), Add(None, 200)]
  {
  }

  /**
   Two frames of 200 ms and then 100 ms: `save_webp` passes 200 and then
   100, the encoder refuses the second add, and the conversion fails,
   whereas the corrected calls at 0, 200 and 300 are all accepted.
   */
  lemma SaveWebpRefusesShorterFrame()
    ensures var frames := [Frame(Zeros(4), 1, 1, 200), Frame(Zeros(4), 1, 1, 100)];
            && SaveWebp(frames).value.adds == [Add(Some(0), 200), Add(Some(1), 100)]
            && !SaveWebpSucceeds(frames)
            && SaveWebpCorrected(frames).value.adds == [Add(Some(0), 0), Add(Some(1), 200), Add(None, 300)]
            && AcceptsAll(SaveWebpCorrected(frames).value.adds)
  {
  }
}
