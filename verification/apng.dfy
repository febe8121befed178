/**
 An animated PNG as the decoder (libpng with the APNG extension) presents it
 to both programs: the canvas size from IHDR, the play count from acTL, and
 one entry per declared frame holding the frame's fcTL fields and the RGBA
 scanlines decoded for it. Colour conversion has already happened: every
 scanline has four bytes per pixel.
 */
module Apng {
  import opened Canvas
  import opened Delay

  /**
   One frame: its fcTL header and decoded scanlines. `apng2webp.c` reads
   `disposeOp` and `blendOp` and never uses them; `apng2webp_av.cpp` does
   not read them at all.
   */
  datatype SubFrame = SubFrame(
    subWidth: nat, subHeight: nat, xOffset: nat, yOffset: nat,
    delayNum: U16, delayDen: U16, disposeOp: Byte, blendOp: Byte,
    rows: seq<seq<Byte>>)

  /**
   An IHDR width or height. libpng never accepts a value above
   PNG_UINT_31_MAX; its lower default user limits are not modelled.
   */
  type Dim = x: nat | x <= 0x7FFF_FFFF

  datatype Image = Image(width: Dim, height: Dim, numPlays: nat, frames: seq<SubFrame>)

  /**
   The decoder delivers the frame without error. libpng's fcTL check
   refuses a zero width or height, a rectangle reaching outside the canvas,
   a dispose operator above 2 (APNG_DISPOSE_OP_PREVIOUS) and a blend
   operator above 1 (APNG_BLEND_OP_OVER); an accepted frame is decoded into
   `subHeight` scanlines of `subWidth` pixels. Any refusal is reported
   through libpng's error longjmp. For an accepted frame every scanline fits
   in the canvas at its row pointer.
   */
  predicate Decodable(width: nat, height: nat, f: SubFrame): (ok: bool)
    ensures ok ==> 0 < f.subWidth && 0 < f.subHeight
    ensures ok ==> forall y :: 0 <= y < f.subHeight ==>
              RowStart(width, f.xOffset, f.yOffset, y) + f.subWidth * 4 <= CanvasBytes(width, height)
  {
    RowsInBounds(width, height, f.xOffset, f.yOffset, f.subWidth, f.subHeight);
    && 0 < f.subWidth && 0 < f.subHeight
    && f.xOffset + f.subWidth <= width
    && f.yOffset + f.subHeight <= height
    && f.disposeOp <= 2 && f.blendOp <= 1
    && |f.rows| == f.subHeight
    && RowsShape(f.rows, f.subWidth)
  }

  predicate AllDecodable(img: Image)
  {
    forall i :: 0 <= i < |img.frames| ==> Decodable(img.width, img.height, img.frames[i])
  }
}
