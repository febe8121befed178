/**
 The flat RGBA frame buffers both programs hand to the encoder: a canvas
 `width` pixels wide is stored row after row, four bytes per pixel, so
 canvas row `row` occupies the bytes `row * width * 4 .. (row + 1) * width * 4`.
 A decoded sub-frame is written into such a buffer one scanline at a time,
 each scanline going to the byte offset its row pointer names.
 */
module Canvas {
  import opened Arith

  type Byte = x: int | 0 <= x < 256

  /** Byte offset of byte `col` (0 <= col < width * 4) of canvas row `row`. */
  function At(width: nat, row: nat, col: nat): nat
  {
    row * width * 4 + col
  }

  /** The canvas row holding byte offset `k`. */
  function RowOf(width: nat, k: nat): nat
    requires width > 0
  {
    DivNonneg(k, width * 4);
    k / (width * 4)
  }

  /** The position of byte offset `k` inside its canvas row. */
  function ColOf(width: nat, k: nat): (col: nat)
    requires width > 0
    ensures col < width * 4
  {
    k % (width * 4)
  }

  /**
   The row pointer `load_apng` gives sub-frame scanline `y`:
   `(y + y_offset) * width * 4 + x_offset * 4`.
   */
  function RowStart(width: nat, xOffset: nat, yOffset: nat, y: nat): nat
  {
    (y + yOffset) * width * 4 + xOffset * 4
  }

  /** Size in bytes of a `width` x `height` RGBA canvas, computed without wrap-around. */
  function CanvasBytes(width: nat, height: nat): (n: nat)
    ensures width > 0 && height > 0 ==> n >= width * 4
  {
    if height > 0 then
      MulMonotone(1, height, width * 4);
      width * height * 4
    else
      0
  }

  /**
   The same size as `load_apng` computes it: `width * height * 4` with
   `width` and `height` of type png_uint_32, so the product is taken
   modulo 2^32 before it reaches `std::vector::resize`.
   */
  function CanvasBytesU32(width: nat, height: nat): (n: nat)
    requires width < 0x1_0000_0000 && height < 0x1_0000_0000
    ensures n < 0x1_0000_0000
    ensures CanvasBytes(width, height) < 0x1_0000_0000 ==> n == CanvasBytes(width, height)
  {
    (width * height * 4) % 0x1_0000_0000
  }

  /** A zero-filled buffer of `n` bytes, as `resize(n, 0)` produces. */
  function Zeros(n: nat): (z: seq<Byte>)
    ensures |z| == n
    ensures forall k :: 0 <= k < n ==> z[k] == 0
  {
    seq(n, _ => 0)
  }

  /** Every scanline of a decoded sub-frame `subWidth` pixels wide holds `subWidth * 4` bytes. */
  predicate RowsShape(rows: seq<seq<Byte>>, subWidth: nat)
  {
    forall y :: 0 <= y < |rows| ==> |rows[y]| == subWidth * 4
  }

  /** Byte offset `k` lies in the first `n` scanlines of the sub-rectangle at (xOffset, yOffset). */
  predicate InRect(width: nat, xOffset: nat, yOffset: nat, subWidth: nat, n: nat, k: nat)
    requires width > 0
  {
    && yOffset <= RowOf(width, k) < yOffset + n
    && xOffset * 4 <= ColOf(width, k) < xOffset * 4 + subWidth * 4
  }

  /**
   `r` is `base` with the first `n` scanlines of `rows` written into the
   sub-rectangle whose top-left pixel is (xOffset, yOffset): every byte in
   that rectangle comes from the matching scanline byte, every other byte is
   `base`'s.
   */
  predicate Placed(r: seq<Byte>, base: seq<Byte>, width: nat, xOffset: nat, yOffset: nat,
                   subWidth: nat, rows: seq<seq<Byte>>, n: nat)
    requires RowsShape(rows, subWidth) && n <= |rows|
  {
    && |r| == |base|
    && forall k :: 0 <= k < |r| ==>
         r[k] == (if width > 0 && InRect(width, xOffset, yOffset, subWidth, n, k)
                  then rows[RowOf(width, k) - yOffset][ColOf(width, k) - xOffset * 4]
                  else base[k])
  }

  /** Copies `row` into `buf` starting at byte offset `at`, as libpng fills one row pointer. */
  function WriteRow(buf: seq<Byte>, at: nat, row: seq<Byte>): (r: seq<Byte>)
    requires at + |row| <= |buf|
    ensures |r| == |buf|
    ensures forall k :: 0 <= k < |r| ==>
              r[k] == (if at <= k < at + |row| then row[k - at] else buf[k])
  {
    buf[..at] + row + buf[at + |row|..]
  }

  /**
   Writes scanlines `0 .. n` of a sub-frame into a canvas buffer, scanline
   `y` at `RowStart(width, xOffset, yOffset, y)`. The rectangle must lie
   inside the canvas.
   */
  function PlaceRows(buf: seq<Byte>, width: nat, height: nat, xOffset: nat, yOffset: nat,
                     subWidth: nat, rows: seq<seq<Byte>>, n: nat): (r: seq<Byte>)
    requires |buf| == CanvasBytes(width, height)
    requires xOffset + subWidth <= width && yOffset + |rows| <= height
    requires RowsShape(rows, subWidth) && n <= |rows|
    ensures Placed(r, buf, width, xOffset, yOffset, subWidth, rows, n)
  {
    if n == 0 then
      buf
    else
      var prev := PlaceRows(buf, width, height, xOffset, yOffset, subWidth, rows, n - 1);
      var at := RowStart(width, xOffset, yOffset, n - 1);
      RowSpanInBounds(width, height, xOffset, yOffset, subWidth, |rows|, n - 1);
      var r := WriteRow(prev, at, rows[n - 1]);
      PlaceStep(r, prev, buf, width, xOffset, yOffset, subWidth, rows, n);
      r
  }

  /** The whole sub-frame written into `buf`. */
  function Place(buf: seq<Byte>, width: nat, height: nat, xOffset: nat, yOffset: nat,
                 subWidth: nat, rows: seq<seq<Byte>>): (r: seq<Byte>)
    requires |buf| == CanvasBytes(width, height)
    requires xOffset + subWidth <= width && yOffset + |rows| <= height
    requires RowsShape(rows, subWidth)
    ensures Placed(r, buf, width, xOffset, yOffset, subWidth, rows, |rows|)
  {
    PlaceRows(buf, width, height, xOffset, yOffset, subWidth, rows, |rows|)
  }

  /** One more scanline written on top of the first `n - 1` gives the first `n`. */
  lemma PlaceStep(r: seq<Byte>, prev: seq<Byte>, buf: seq<Byte>, width: nat,
                  xOffset: nat, yOffset: nat, subWidth: nat, rows: seq<seq<Byte>>, n: nat)
    requires xOffset + subWidth <= width
    requires RowsShape(rows, subWidth) && 0 < n <= |rows|
    requires Placed(prev, buf, width, xOffset, yOffset, subWidth, rows, n - 1)
    requires RowStart(width, xOffset, yOffset, n - 1) + subWidth * 4 <= |prev|
    requires r == WriteRow(prev, RowStart(width, xOffset, yOffset, n - 1), rows[n - 1])
    ensures Placed(r, buf, width, xOffset, yOffset, subWidth, rows, n)
  {
    if width > 0 {
      var at := RowStart(width, xOffset, yOffset, n - 1);
      forall k | 0 <= k < |r|
        ensures r[k] == (if InRect(width, xOffset, yOffset, subWidth, n, k)
                         then rows[RowOf(width, k) - yOffset][ColOf(width, k) - xOffset * 4]
                         else buf[k])
      {
        var row, col := RowOf(width, k), ColOf(width, k);
        Decompose(width, k);
        AtWithinRow(width, row, col, n - 1 + yOffset, xOffset * 4, xOffset * 4 + subWidth * 4);
      }
    }
  }

  /** Scanline `y < subHeight` fits in the canvas when the rectangle does. */
  lemma RowSpanInBounds(width: nat, height: nat, xOffset: nat, yOffset: nat,
                        subWidth: nat, subHeight: nat, y: nat)
    requires xOffset + subWidth <= width && yOffset + subHeight <= height
    requires y < subHeight
    ensures RowStart(width, xOffset, yOffset, y) + subWidth * 4 <= CanvasBytes(width, height)
  {
    var w4 := width * 4;
    var r := y + yOffset;
    assert RowStart(width, xOffset, yOffset, y) == r * w4 + xOffset * 4;
    assert xOffset * 4 + subWidth * 4 <= w4;
    MulMonotone(r + 1, height, w4);
    assert (r + 1) * w4 == r * w4 + w4;
    assert height * w4 == CanvasBytes(width, height);
  }

  /** Every scanline of a rectangle inside the canvas fits in the buffer. */
  lemma RowsInBounds(width: nat, height: nat, xOffset: nat, yOffset: nat, subWidth: nat, subHeight: nat)
    ensures xOffset + subWidth <= width && yOffset + subHeight <= height ==>
              forall y :: 0 <= y < subHeight ==>
                RowStart(width, xOffset, yOffset, y) + subWidth * 4 <= CanvasBytes(width, height)
  {
    if xOffset + subWidth <= width && yOffset + subHeight <= height {
      forall y | 0 <= y < subHeight
        ensures RowStart(width, xOffset, yOffset, y) + subWidth * 4 <= CanvasBytes(width, height)
      {
        RowSpanInBounds(width, height, xOffset, yOffset, subWidth, subHeight, y);
      }
    }
  }

  /**
   Sub-frame scanline `y` lands at byte offset
   `(y + yOffset) * width * 4 + xOffset * 4` of the placed buffer: its
   `i`-th byte is found there, on canvas row `y + yOffset`.
   */
  lemma RowLandsAtOffset(buf: seq<Byte>, width: nat, height: nat, xOffset: nat, yOffset: nat,
                         subWidth: nat, rows: seq<seq<Byte>>, y: nat, i: nat)
    requires |buf| == CanvasBytes(width, height)
    requires xOffset + subWidth <= width && yOffset + |rows| <= height
    requires RowsShape(rows, subWidth)
    requires y < |rows| && i < subWidth * 4
    ensures RowStart(width, xOffset, yOffset, y) + i < |buf|
    ensures Place(buf, width, height, xOffset, yOffset, subWidth, rows)[RowStart(width, xOffset, yOffset, y) + i]
            == rows[y][i]
  {
    RowSpanInBounds(width, height, xOffset, yOffset, subWidth, |rows|, y);
    var k := RowStart(width, xOffset, yOffset, y) + i;
    assert k == At(width, y + yOffset, xOffset * 4 + i);
    Split(width, y + yOffset, xOffset * 4 + i);
  }

  // Arithmetic about the row-major layout.

  /** Every byte offset is the offset of its own row and column. */
  lemma Decompose(width: nat, k: nat)
    requires width > 0
    ensures k == At(width, RowOf(width, k), ColOf(width, k))
  {
    var w4 := width * 4;
    assert k == w4 * (k / w4) + k % w4;
    assert (k / w4) * width * 4 == w4 * (k / w4);
  }

  /** Row and column of a byte offset are unique. */
  lemma Split(width: nat, row: nat, col: nat)
    requires col < width * 4
    ensures RowOf(width, At(width, row, col)) == row
    ensures ColOf(width, At(width, row, col)) == col
  {
    var k := At(width, row, col);
    Decompose(width, k);
    var r, c := RowOf(width, k), ColOf(width, k);
    if r < row {
      AtWithinRow(width, r, c, row, col, col + 1);
    } else if row < r {
      AtWithinRow(width, row, col, r, c, c + 1);
    }
  }

  /**
   Offsets of a byte range `lo .. hi` of canvas row `r0` are exactly the
   offsets of the bytes of row `r0` with column in `lo .. hi`.
   */
  lemma AtWithinRow(width: nat, r: nat, c: nat, r0: nat, lo: nat, hi: nat)
    requires c < width * 4 && lo <= hi <= width * 4
    ensures (At(width, r0, lo) <= At(width, r, c) < At(width, r0, lo) + (hi - lo))
            <==> (r == r0 && lo <= c < hi)
  {
    var w4 := width * 4;
    assert At(width, r, c) == r * w4 + c;
    assert At(width, r0, lo) == r0 * w4 + lo;
    if r < r0 {
      MulMonotone(r + 1, r0, w4);
      assert (r + 1) * w4 == r * w4 + w4;
    } else if r0 < r {
      MulMonotone(r0 + 1, r, w4);
      assert (r0 + 1) * w4 == r0 * w4 + w4;
    }
  }

  /**
   The size `load_apng` allocates wraps to zero for a 32768 x 32768 canvas
   (a size libpng accepts), while the first scanline is still written at
   offset 0 with at least four bytes: the write lands outside the buffer.
   */
  lemma CanvasBytesU32Wraps()
    ensures CanvasBytesU32(32768, 32768) == 0
    ensures CanvasBytes(32768, 32768) == 0x1_0000_0000
    ensures RowStart(32768, 0, 0, 0) + 4 > CanvasBytesU32(32768, 32768)
  {
  }
}
