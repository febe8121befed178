/**
 A timestamp accumulator: the encoder's timestamp argument means "this
 frame starts here", and a frame is shown until the next call's timestamp,
 so per-frame durations have to be turned into running sums, with one
 closing call at the total. This is the reference the two programs'
 timestamp handling is compared with.
 */
module Timestamps {
  import opened Wrappers
  import opened Encoder

  /** Sum of `ds[lo .. hi]`. */
  function SumRange(ds: seq<nat>, lo: nat, hi: nat): nat
    requires lo <= hi <= |ds|
    decreases hi - lo
  {
    if lo == hi then 0 else ds[lo] + SumRange(ds, lo + 1, hi)
  }

  /** Sum of all durations. */
  function Total(ds: seq<nat>): nat
  {
    SumRange(ds, 0, |ds|)
  }

  /**
   The calls for frames `i ..` when frame `i` starts at `start`: each frame
   at `start` plus the durations of the frames before it, then a closing
   call at `start` plus all of them.
   */
  function AccumulateFrom(ds: seq<nat>, i: nat, start: int): (adds: seq<Add>)
    requires i <= |ds|
    decreases |ds| - i
    ensures |adds| == |ds| - i + 1
    ensures forall j :: 0 <= j < |adds| - 1 ==> adds[j] == Add(Some(i + j), start + SumRange(ds, i, i + j))
    ensures adds[|ds| - i] == Add(None, start + SumRange(ds, i, |ds|))
  {
    if i == |ds| then
      [Add(None, start)]
    else
      [Add(Some(i), start)] + AccumulateFrom(ds, i + 1, start + ds[i])
  }

  /**
   The encoder calls for frames with durations `ds`: frame `i` at the sum of
   the durations before it, then a closing call at the sum of all.
   */
  function Accumulate(ds: seq<nat>): (adds: seq<Add>)
    ensures FramesThenClose(adds, |ds|)
    ensures adds[0].timestampMs == 0
    ensures forall i :: 0 <= i < |ds| ==> adds[i].timestampMs == SumRange(ds, 0, i)
    ensures adds[|ds|].timestampMs == Total(ds)
  {
    AccumulateFrom(ds, 0, 0)
  }

  /** Splitting a range splits its sum. */
  lemma {:induction false} SumRangeSplit(ds: seq<nat>, lo: nat, mid: nat, hi: nat)
    requires lo <= mid <= hi <= |ds|
    ensures SumRange(ds, lo, hi) == SumRange(ds, lo, mid) + SumRange(ds, mid, hi)
    decreases mid - lo
  {
    if lo < mid {
      SumRangeSplit(ds, lo + 1, mid, hi);
    }
  }

  /**
   The running timestamps never go down, and the gap between two
   consecutive calls is the duration of the frame they enclose: the encoder
   recovers exactly the durations it was meant to show.
   */
  lemma AccumulateGaps(ds: seq<nat>)
    ensures NonDecreasing(Accumulate(ds))
    ensures forall i :: 0 <= i < |ds| ==>
              Accumulate(ds)[i + 1].timestampMs - Accumulate(ds)[i].timestampMs == ds[i]
  {
    var adds := Accumulate(ds);
    forall i | 0 <= i < |ds|
      ensures adds[i + 1].timestampMs - adds[i].timestampMs == ds[i]
    {
      SumRangeSplit(ds, 0, i, i + 1);
    }
    forall i, j | 0 <= i <= j < |adds|
      ensures adds[i].timestampMs <= adds[j].timestampMs
    {
      SumRangeSplit(ds, 0, i, j);
    }
  }

  /** When every duration is positive, every call's timestamp is later than the one before. */
  lemma AccumulateStrict(ds: seq<nat>)
    requires forall i :: 0 <= i < |ds| ==> ds[i] > 0
    ensures StrictlyIncreasing(Accumulate(ds))
  {
    var adds := Accumulate(ds);
    AccumulateGaps(ds);
    forall i, j | 0 <= i < j < |adds|
      ensures adds[i].timestampMs < adds[j].timestampMs
    {
      assert adds[i + 1].timestampMs - adds[i].timestampMs == ds[i];
      assert adds[i + 1].timestampMs <= adds[j].timestampMs;
    }
  }

  /** Durations are recovered from any accumulated timeline: the inverse of `Accumulate`. */
  function Gaps(adds: seq<Add>): (ds: seq<int>)
    requires |adds| > 0
    ensures |ds| == |adds| - 1
    ensures forall i :: 0 <= i < |ds| ==> adds[i + 1].timestampMs == adds[i].timestampMs + ds[i]
  {
    seq(|adds| - 1, i requires 0 <= i < |adds| - 1 => adds[i + 1].timestampMs - adds[i].timestampMs)
  }

  /** Round trip: the gaps of the accumulated timeline are the durations it was built from. */
  lemma GapsOfAccumulate(ds: seq<nat>)
    ensures Gaps(Accumulate(ds)) == ds
  {
    var adds := Accumulate(ds);
    var g := Gaps(adds);
    AccumulateGaps(ds);
    forall i | 0 <= i < |ds|
      ensures g[i] == ds[i]
    {
      assert adds[i + 1].timestampMs == adds[i].timestampMs + g[i];
    }
  }
}
