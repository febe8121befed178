/**
 The converter in apng2png/apng2webp_av.cpp. `apng2webp` refuses an image
 that declares at most one frame, lets `process_data` read every frame into
 a freshly allocated canvas-sized buffer (scanlines from the top-left
 corner, the sub-frame offsets unused, the rest of the buffer as it came
 from `malloc`), and then adds the frames to the encoder at a running
 timestamp. The increment is worked out from the delay fields of the last
 frame header read, since `process_data` overwrites them for every frame.
 */
module Apng2WebpAv {
  import opened Canvas
  import opened Delay
  import opened Apng
  import opened Wrappers
  import opened Encoder
  import opened Timestamps
  import opened Arith

  /**
   `process_data`: one buffer per frame, scanline `j` written at byte
   `j * width * 4`. `heap[i]` stands for the uninitialised contents of the
   buffer `malloc` returns for frame `i`. A frame the decoder rejects
   aborts the whole read.
   */
  function ProcessData(img: Image, heap: seq<seq<Byte>>): (bufs: Option<seq<seq<Byte>>>)
    requires |heap| == |img.frames|
    requires forall i :: 0 <= i < |heap| ==> |heap[i]| == CanvasBytes(img.width, img.height)
    ensures bufs.None? <==> !AllDecodable(img)
    ensures bufs.Some? ==> |bufs.value| == |img.frames|
    ensures bufs.Some? ==> forall i :: 0 <= i < |img.frames| ==>
              Placed(bufs.value[i], heap[i], img.width, 0, 0,
                     img.frames[i].subWidth, img.frames[i].rows, |img.frames[i].rows|)
  {
    if !AllDecodable(img) then
      None
    else
      Some(seq(|img.frames|, i requires 0 <= i < |img.frames| =>
        Place(heap[i], img.width, img.height, 0, 0, img.frames[i].subWidth, img.frames[i].rows)))
  }

  /**
   Frame buffer `i` holds `width * height * 4` bytes and its scanline `j`
   starts at byte `j * width * 4`, whatever the frame's offsets.
   */
  lemma ProcessDataIgnoresOffsets(img: Image, heap: seq<seq<Byte>>, i: nat, j: nat, c: nat)
    requires |heap| == |img.frames|
    requires forall i :: 0 <= i < |heap| ==> |heap[i]| == CanvasBytes(img.width, img.height)
    requires AllDecodable(img)
    requires i < |img.frames| && j < img.frames[i].subHeight && c < img.frames[i].subWidth * 4
    ensures ProcessData(img, heap).Some?
    ensures |ProcessData(img, heap).value[i]| == CanvasBytes(img.width, img.height)
    ensures At(img.width, j, c) < CanvasBytes(img.width, img.height)
    ensures ProcessData(img, heap).value[i][At(img.width, j, c)] == img.frames[i].rows[j][c]
  {
    var f := img.frames[i];
    assert Decodable(img.width, img.height, f);
    RowSpanInBounds(img.width, img.height, 0, 0, f.subWidth, f.subHeight, j);
    assert RowStart(img.width, 0, 0, j) == At(img.width, j, 0);
    Split(img.width, j, c);
  }

  /**
   The millisecond increment worked out from the delay fields left in
   `next_frame_delay_num` and `next_frame_delay_den`: those of the last frame
   header read. It is what `apng2webp.c` would give that frame.
   */
  function LastDelayMs(img: Image): (ms: nat)
    requires |img.frames| > 0
    ensures ms == FrameDurationMs(img.frames[|img.frames| - 1].delayNum, img.frames[|img.frames| - 1].delayDen)
  {
    var last := img.frames[|img.frames| - 1];
    DelayFormsAgree(last.delayNum, last.delayDen);
    NextFrameDelayMs(last.delayNum, last.delayDen)
  }

  /**
   Each frame header overwrites the delay slot, so the delay fields of every
   frame but the last have no effect on the increment.
   */
  lemma EarlierDelaysIgnored(img: Image, i: nat, num: U16, den: U16)
    requires i < |img.frames| - 1
    ensures var other := img.(frames := img.frames[i := img.frames[i].(delayNum := num, delayDen := den)]);
            LastDelayMs(other) == LastDelayMs(img)
  {
  }

  /**
   The add calls `apng2webp` makes for `n` frames and a fixed increment:
   frame `i` at `i * delayMs`, then the closing call at the last frame's
   timestamp `(n - 1) * delayMs`.
   */
  function Timeline(n: nat, delayMs: nat): (adds: seq<Add>)
    requires n > 0
    ensures FramesThenClose(adds, n)
    ensures adds[n].timestampMs == adds[n - 1].timestampMs
  {
    seq(n + 1, i requires 0 <= i <= n =>
      if i < n then Add(Some(i), i * delayMs) else Add(None, (n - 1) * delayMs))
  }

  /**
   Shape of the timeline: `n + 1` calls, only the last with a null picture,
   the first at 0, timestamps never going down, and the closing call at the
   same timestamp as the last frame.
   */
  lemma TimelineShape(n: nat, delayMs: nat)
    requires n > 0
    ensures FramesThenClose(Timeline(n, delayMs), n)
    ensures Timeline(n, delayMs)[0].timestampMs == 0
    ensures NonDecreasing(Timeline(n, delayMs))
    ensures Timeline(n, delayMs)[n].timestampMs == Timeline(n, delayMs)[n - 1].timestampMs
  {
    var adds := Timeline(n, delayMs);
    forall i, j | 0 <= i <= j < |adds|
      ensures adds[i].timestampMs <= adds[j].timestampMs
    {
      var a, b := if i < n then i else n - 1, if j < n then j else n - 1;
      MulMonotone(a, b, delayMs);
    }
  }

  /**
   The timestamp loop of `apng2webp`: add frame `i` at the running
   timestamp, advance it by the increment except after the last frame, then
   add a null picture at the final timestamp. Only reached with more than
   one frame.
   */
  method TimestampLoop(n: nat, num: U16, den: U16) returns (adds: seq<Add>)
    requires n > 1
    ensures adds == Timeline(n, NextFrameDelayMs(num, den))
  {
    ghost var d := NextFrameDelayMs(num, den);
    adds := [];
    var timestampMs := 0;
    var i := 0;
    while i < n
      invariant 0 <= i <= n
      invariant |adds| == i
      invariant forall j :: 0 <= j < i ==> adds[j] == Add(Some(j), j * d)
      invariant timestampMs == if i < n then i * d else (n - 1) * d
    {
      adds := adds + [Add(Some(i), timestampMs)];
      if i != n - 1 {
        var delay: int := num;
        if den > 0 {
          delay := delay * 1000 / den;
        }
        timestampMs := timestampMs + delay;
      }
      i := i + 1;
    }
    adds := adds + [Add(None, timestampMs)];
  }

  /**
   `apng2webp` after the file is open: exit code 1 and no encoder for an
   image declaring at most one frame or one the decoder rejects; otherwise
   an encoder of the canvas size, looping forever, fed the frames on the
   fixed-increment timeline. `bufs` are the frame buffers `process_data`
   filled.
   */
  method Apng2Webp(img: Image, heap: seq<seq<Byte>>) returns (run: Run, bufs: seq<seq<Byte>>)
    requires |heap| == |img.frames|
    requires forall i :: 0 <= i < |heap| ==> |heap[i]| == CanvasBytes(img.width, img.height)
    ensures |img.frames| <= 1 ==> run == Run(1, None) && bufs == []
    ensures run.exitCode == 0 <==> |img.frames| > 1 && AllDecodable(img)
    ensures run.exitCode != 0 ==> run == Run(1, None)
    ensures run.exitCode == 0 ==>
              && ProcessData(img, heap) == Some(bufs)
              && run.session == Some(Session(img.width, img.height, 0,
                                             Timeline(|img.frames|, LastDelayMs(img))))
              && AcceptsAll(run.session.value.adds)
  {
    var n := |img.frames|;
    if n <= 1 {
      return Run(1, None), [];
    }
    var read := ProcessData(img, heap);
    if read.None? {
      return Run(1, None), [];
    }
    bufs := read.value;
    var last := img.frames[n - 1];
    var adds := TimestampLoop(n, last.delayNum, last.delayDen);
    TimelineShape(n, LastDelayMs(img));
    NonDecreasingAccepted(adds);
    run := Run(0, Some(Session(img.width, img.height, 0, adds)));
  }

  /**
   With every frame of the same delay `d`, the frames land where the
   running sum puts them, but the closing call comes `d` too early: the last
   frame is given no display time.
   */
  lemma TimelineAgainstAccumulate(ds: seq<nat>, d: nat)
    requires |ds| > 0
    requires forall i :: 0 <= i < |ds| ==> ds[i] == d
    ensures Timeline(|ds|, d)[..|ds|] == Accumulate(ds)[..|ds|]
    ensures Timeline(|ds|, d)[|ds|].timestampMs + d == Accumulate(ds)[|ds|].timestampMs
  {
    var n := |ds|;
    forall i | 0 <= i <= n
      ensures SumRange(ds, 0, i) == i * d
    {
      UniformSum(ds, d, i);
    }
    assert Timeline(n, d)[..n] == Accumulate(ds)[..n];
  }

  lemma {:induction false} UniformSum(ds: seq<nat>, d: nat, i: nat)
    requires i <= |ds|
    requires forall k :: 0 <= k < |ds| ==> ds[k] == d
    ensures SumRange(ds, 0, i) == i * d
  {
    if i > 0 {
      UniformSum(ds, d, i - 1);
      SumRangeSplit(ds, 0, i - 1, i);
    }
  }

  /** The millisecond durations of the frames, each from its own delay fields. */
  function FrameDelays(img: Image): (ds: seq<nat>)
    ensures |ds| == |img.frames|
    ensures forall i :: 0 <= i < |ds| ==>
              ds[i] == NextFrameDelayMs(img.frames[i].delayNum, img.frames[i].delayDen)
  {
    seq(|img.frames|, i requires 0 <= i < |img.frames| =>
      NextFrameDelayMs(img.frames[i].delayNum, img.frames[i].delayDen))
  }

  /**
   What the timestamp loop evidently means to do: advance by each frame's
   own delay, including the last, so the closing call comes at the total.
   */
  function IntendedTimeline(img: Image): (adds: seq<Add>)
    ensures FramesThenClose(adds, |img.frames|)
    ensures NonDecreasing(adds) && adds[0].timestampMs == 0
    ensures forall i :: 0 <= i < |img.frames| ==>
              adds[i + 1].timestampMs - adds[i].timestampMs
                == NextFrameDelayMs(img.frames[i].delayNum, img.frames[i].delayDen)
  {
    AccumulateGaps(FrameDelays(img));
    Accumulate(FrameDelays(img))
  }

  /** The driver with the intended timeline in place of the fixed-increment one. */
  method Apng2WebpCorrected(img: Image, heap: seq<seq<Byte>>) returns (run: Run, bufs: seq<seq<Byte>>)
    requires |heap| == |img.frames|
    requires forall i :: 0 <= i < |heap| ==> |heap[i]| == CanvasBytes(img.width, img.height)
    ensures run.exitCode == 0 <==> |img.frames| > 1 && AllDecodable(img)
    ensures run.exitCode != 0 ==> run == Run(1, None)
    ensures run.exitCode == 0 ==>
              && ProcessData(img, heap) == Some(bufs)
              && run.session == Some(Session(img.width, img.height, 0, IntendedTimeline(img)))
              && AcceptsAll(run.session.value.adds)
              && run.session.value.adds[|img.frames|].timestampMs == Total(FrameDelays(img))
  {
    var n := |img.frames|;
    if n <= 1 {
      return Run(1, None), [];
    }
    var read := ProcessData(img, heap);
    if read.None? {
      return Run(1, None), [];
    }
    bufs := read.value;
    NonDecreasingAccepted(IntendedTimeline(img));
    run := Run(0, Some(Session(img.width, img.height, 0, IntendedTimeline(img))));
  }

  /**
   Two frames of 100 ms and 200 ms (delay fields 1/10 and 2/10 s): the
   program adds them at 0 and 200 and closes at 200; the intended calls are
   at 0 and 100, closing at 300.
   */
  lemma TimelineUsesLastDelay()
    ensures var f0 := SubFrame(1, 1, 0, 0, 1, 10, 0, 0, [[0, 0, 0, 255]]);
            var f1 := SubFrame(1, 1, 0, 0, 2, 10, 0, 0, [[0, 0, 0, 255]]);
            var img := Image(1, 1, 0, [f0, f1]);
            && Timeline(2, LastDelayMs(img)) == [Add(Some(0), 0), Add(Some(1), 200), Add(None, 200)]
            && IntendedTimeline(img) == [Add(Some(0), 0), Add(Some(1), 100), Add(None, 300)]
  {
  }
}
