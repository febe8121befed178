/**
 Frame delays. An fcTL header stores a frame's display time as the fraction
 `delayNum / delayDen` seconds, both 16-bit unsigned. The two programs turn
 that fraction into whole milliseconds with slightly different expressions
 that agree on every input; both read a zero denominator as "the numerator
 is already milliseconds", which is not what the APNG specification says.
 */
module Delay {
  import opened Arith

  /** A png_uint_16 field of an fcTL chunk. */
  type U16 = x: int | 0 <= x < 0x1_0000

  /**
   The duration `load_apng` stores in `Frame::duration`:
   `delay_num * 1000 / (delay_den ? delay_den : 1000)`, written here with
   the choice of divisor lifted out. Both operands are non-negative, so
   C++'s truncating division and Dafny's division agree.
   */
  function FrameDurationMs(num: U16, den: U16): (ms: nat)
    ensures den != 0 ==> ms * den <= num * 1000 < ms * den + den
    ensures den == 0 ==> ms == num
  {
    if den != 0 then
      DivBounds(num * 1000, den);
      num * 1000 / den
    else
      DivExact(num, 1000);
      num * 1000 / 1000
  }

  /**
   The increment `apng2webp` adds to its running timestamp:
   `num * 1000 / den` when `den > 0`, otherwise `num` unchanged.
   */
  function NextFrameDelayMs(num: U16, den: U16): (ms: nat)
    ensures den > 0 ==> ms * den <= num * 1000 < ms * den + den
    ensures den == 0 ==> ms == num
  {
    if den > 0 then
      DivBounds(num * 1000, den);
      num * 1000 / den
    else
      num
  }

  /**
   The frame delay section 4.2 of the APNG specification defines for an
   fcTL chunk (the frame control chunk): a zero denominator is to be read
   as 100, so the delay is in hundredths of a second. Truncated to whole
   milliseconds.
   */
  function ApngDelayMs(num: U16, den: U16): (ms: nat)
    ensures den == 0 ==> ms == num * 10
    ensures den != 0 ==> ms * den <= num * 1000 < ms * den + den
  {
    if den == 0 then
      DivExact(num * 10, 100);
      assert num * 10 * 100 == num * 1000;
      num * 1000 / 100
    else
      DivBounds(num * 1000, den);
      num * 1000 / den
  }

  /** The two programs compute the same millisecond delay from every fcTL fraction. */
  lemma DelayFormsAgree(num: U16, den: U16)
    ensures FrameDurationMs(num, den) == NextFrameDelayMs(num, den)
  {
    if den != 0 {
      var a, b := FrameDurationMs(num, den), NextFrameDelayMs(num, den);
      QuotientUnique(num * 1000, den, a, b);
    }
  }

  /**
   Both programs agree with the APNG specification whenever the
   denominator is non-zero, and differ from it by a factor of ten on a zero
   denominator with a non-zero numerator.
   */
  lemma ZeroDenominatorDeviation(num: U16, den: U16)
    ensures den != 0 ==> FrameDurationMs(num, den) == ApngDelayMs(num, den)
    ensures den == 0 ==> ApngDelayMs(num, den) == 10 * FrameDurationMs(num, den)
    ensures den == 0 && num > 0 <==> FrameDurationMs(num, den) != ApngDelayMs(num, den)
  {
    if den != 0 {
      QuotientUnique(num * 1000, den, FrameDurationMs(num, den), ApngDelayMs(num, den));
    }
  }
}
