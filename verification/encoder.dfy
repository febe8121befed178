/**
 The animation encoder (libwebp's WebPAnimEncoder) seen from outside: an
 encoder is created for a canvas size and loop count, then receives a
 sequence of `WebPAnimEncoderAdd` calls, each with a picture (or none, for
 the closing call) and an integer timestamp argument. The encoded bytes are
 not modelled; a conversion is described by the calls it makes.
 */
module Encoder {
  import opened Wrappers

  /**
   One `WebPAnimEncoderAdd` call: the index of the frame whose picture is
   handed over, `None` for a call with a null picture, and the timestamp
   argument in milliseconds.
   */
  datatype Add = Add(frame: Option<nat>, timestampMs: int)

  /** An encoder created by `WebPAnimEncoderNew(width, height, ...)` and the adds it received, in order. */
  datatype Session = Session(width: int, height: int, loopCount: nat, adds: seq<Add>)

  /**
   The outcome of one run of a program: its exit code, and the encoder
   session whose animation was assembled and written, if any.
   */
  datatype Run = Run(exitCode: int, session: Option<Session>)

  /** Frames `0 .. n` are handed over in index order, then one closing call with no picture. */
  predicate FramesThenClose(adds: seq<Add>, n: nat)
  {
    && |adds| == n + 1
    && (forall i :: 0 <= i < n ==> adds[i].frame == Some(i))
    && adds[n].frame.None?
  }

  /** Timestamp arguments never go down. */
  predicate NonDecreasing(adds: seq<Add>)
  {
    forall i, j :: 0 <= i <= j < |adds| ==> adds[i].timestampMs <= adds[j].timestampMs
  }

  /** Timestamp arguments strictly increase. */
  predicate StrictlyIncreasing(adds: seq<Add>)
  {
    forall i, j :: 0 <= i < j < |adds| ==> adds[i].timestampMs < adds[j].timestampMs
  }

  /**
   `WebPAnimEncoderAdd` refuses a picture whose timestamp is earlier than
   the previous call's, since timestamps have to come in non-decreasing
   order. The encoder accepts every call of `adds` when no picture is
   earlier than the call before it. libwebp's further refusal of a gap of
   2^24 ms or more between calls is not modelled.
   */
  predicate AcceptsAll(adds: seq<Add>)
  {
    forall i :: 0 < i < |adds| && adds[i].frame.Some? ==> adds[i - 1].timestampMs <= adds[i].timestampMs
  }

  /** A timeline that never goes down is accepted call by call. */
  lemma NonDecreasingAccepted(adds: seq<Add>)
    requires NonDecreasing(adds)
    ensures AcceptsAll(adds)
  {
  }
}
