# apng2webp in Dafny

A model of the two APNG-to-WebP converters in `apng2png/`:

- `apng2webp.c`: `load_apng` turns every APNG frame into a canvas-sized
  RGBA buffer. Each buffer starts zero-filled, and the frame's decoded
  scanlines are written into its sub-rectangle. `save_webp` then hands the
  buffers to libwebp's animation encoder.
- `apng2webp_av.cpp`: `apng2webp` refuses images that declare at most one
  frame. `process_data` then reads every frame into its own buffer. The
  frames are added to the encoder at a running timestamp, followed by a
  closing add with no picture.

Neither program composites frames. `apng2webp.c` reads the fcTL
`dispose_op` and `blend_op` fields and never uses them; `apng2webp_av.cpp`
reads only the delay fields. So the model has no disposal or blend state
machine: each frame is a pure function of its own header and scanlines.

The model has these modules:

- `Delay` (delay.dfy): fcTL delay fraction to milliseconds, in both
  programs' forms and in the APNG specification's form.
- `Canvas` (canvas.dfy): the row-major, four-bytes-per-pixel buffer layout,
  and the row-by-row writing of a sub-frame's scanlines at the row-pointer
  offsets.
- `Apng` (apng.dfy): the decoder's output. This is the canvas size, the
  play count, and each frame's fcTL fields with its RGBA scanlines.
- `Encoder` (encoder.dfy): the encoder as a trace. A `Session` is the
  canvas size and loop count the encoder was created with, plus the
  `WebPAnimEncoderAdd` calls it received, in order. Each call names a frame
  index (or none) and a timestamp argument. `AcceptsAll` is the one refusal
  modelled: a picture timestamped earlier than the previous call.
- `Timestamps` (timestamps.dfy): a running-sum timestamp accumulator. It
  is the reference the programs' timestamp handling is compared against.
- `Apng2Webp` (apng2webp.dfy): `load_apng`, `save_webp` and `main` of
  `apng2webp.c`.
- `Apng2WebpAv` (apng2webp_av.dfy): `process_data` and `apng2webp` of
  `apng2webp_av.cpp`.
- `Arith` (arith.dfy): multiplication and division facts that the other
  proofs use.
- `Wrappers` (wrappers.dfy): the `Option` type for steps that may fail.

Decoder errors are modelled as a failure path. A frame counts as rejected
when libpng's fcTL check refuses it: a zero width or height, a rectangle
that leaves the canvas, a dispose operator above 2 or a blend operator
above 1. A frame whose scanlines do not have the declared shape is also
rejected. libpng reports these failures through the `setjmp` handlers
(`apng2webp.c:37-42`, `apng2webp_av.cpp:108-113`). Other libpng errors are
not modelled; see "## Left out". In `apng2webp_av.cpp` the buffers come from
`malloc` and are never cleared, so their initial contents are a parameter
(`heap`).

Where the programs depart from the APNG specification or from the
encoder's timestamp convention, the model follows the code:

- The APNG specification defines disposal and blend operators for building
  each frame on top of the previous canvas. Neither program does this:
  every frame is decoded onto a fresh buffer.
- `apng2webp_av.cpp` refuses an image declaring at most one frame
  (`apng2webp_av.cpp:126-131`). `apng2webp.c` converts a single frame and
  refuses only an empty frame list (`apng2webp.c:109-112`).
- The timestamp argument of `WebPAnimEncoderAdd` is the start time of the
  frame being added, and a closing add with no picture ends the last frame.
  The `Timestamps` module builds that timeline from per-frame durations.
  Neither program produces it; see "## Findings".
- Both programs read a zero delay denominator as "the numerator is already
  milliseconds". Section 4.2 of the APNG specification says a zero
  denominator means 100. `Delay.ZeroDenominatorDeviation` states the
  difference.

## Model

| member | source | states |
|---|---|---|
| `Delay.FrameDurationMs` | apng2png/apng2webp.c:90 | For a non-zero denominator, the duration is the truncated quotient of `num * 1000` by `den`. For a zero denominator, the duration is exactly `num`. |
| `Delay.NextFrameDelayMs` | apng2png/apng2webp_av.cpp:158-161 | For `den > 0`, the increment is the truncated quotient of `num * 1000` by `den`. Otherwise it is exactly `num`. |
| `Delay.DelayFormsAgree` | apng2png/apng2webp_av.cpp:158-161 | The two programs' delay expressions give the same milliseconds on every pair of 16-bit fields. |
| `Delay.ApngDelayMs` | apng2png/apng2webp.c:84-85 | The APNG specification's reading of the fcTL delay fields: a zero denominator gives `num * 10` ms. |
| `Delay.ZeroDenominatorDeviation` | apng2png/apng2webp.c:90 | The programs agree with the APNG specification exactly when the denominator is non-zero or the numerator is zero. Otherwise they are a factor of ten short. |
| `Apng.Decodable` | apng2png/apng2webp.c:78-99 | A frame libpng accepts has a non-zero width and height, a rectangle inside the canvas, a dispose operator of at most 2 and a blend operator of at most 1. Every one of its scanlines then fits in the canvas buffer at its row pointer. |
| `Canvas.CanvasBytes` | apng2png/apng2webp.c:91 | The exact size `width * height * 4`, with no wrap-around. It is at least one row of bytes when the canvas is non-empty. |
| `Canvas.CanvasBytesU32` | apng2png/apng2webp.c:91 | The size as computed in 32-bit unsigned arithmetic. It is below 2^32, and it equals the exact size whenever the exact size is below 2^32. |
| `Canvas.CanvasBytesU32Wraps` | apng2png/apng2webp.c:91 | For a 32768 x 32768 canvas, the 32-bit size is 0 while the exact size is 2^32. The first scanline's write then falls outside the buffer. |
| `Canvas.RowSpanInBounds` | apng2png/apng2webp.c:93-97 | Scanline `y` of a sub-frame starts at row pointer `(y + y_offset) * width * 4 + x_offset * 4` and spans `sub_width * 4` bytes. This span lies inside the canvas whenever `x_offset + sub_width <= width` and `y_offset + sub_height <= height`. |
| `Canvas.WriteRow` | apng2png/apng2webp.c:99 | Filling one row pointer replaces exactly the bytes `at .. at + len` with the scanline and leaves every other byte unchanged. |
| `Canvas.PlaceRows` | apng2png/apng2webp.c:93-99 | After the first `n` scanlines are written: every byte in those rows of the sub-rectangle is the matching scanline byte (row `RowOf - y_offset`, column `ColOf - x_offset * 4`), and every other byte is the original buffer's. |
| `Canvas.Place` | apng2png/apng2webp.c:93-99 | The same statement for the whole sub-frame. |
| `Canvas.RowLandsAtOffset` | apng2png/apng2webp.c:96 | Byte `i` of scanline `y` is found at offset `(y + y_offset) * width * 4 + x_offset * 4 + i` of the placed buffer. |
| `Timestamps.AccumulateFrom` | apng2png/apng2webp_av.cpp:151-165 | Starting from frame `i` at time `start`: each later frame is added at `start` plus the durations before it, and the closing add comes at `start` plus all remaining durations. |
| `Timestamps.Accumulate` | apng2png/apng2webp_av.cpp:151-165 | Frames are added in index order, then one closing add with no picture. Frame `i` is at the sum of the durations before it, starting at 0. The closing add is at the total. |
| `Timestamps.AccumulateGaps` | apng2png/apng2webp_av.cpp:151-165 | The accumulated timestamps never go down. The gap between consecutive adds is the duration of the frame between them. |
| `Timestamps.AccumulateStrict` | apng2png/apng2webp_av.cpp:151-165 | With all durations positive, the accumulated timestamps strictly increase. |
| `Timestamps.GapsOfAccumulate` | apng2png/apng2webp_av.cpp:151-165 | Round trip: taking the gaps of the accumulated timeline gives back the durations it was built from. |
| `Apng2Webp.DecodeFrame` | apng2png/apng2webp.c:87-100 | For a canvas under 2^32 bytes, a frame holds the `width * height * 4` bytes computed in 32-bit arithmetic, which is then the exact size. It has the full canvas width and height (not the sub-frame's). Its bytes are a zero buffer with the scanlines placed at the offsets. Its duration is the converted fcTL delay. |
| `Apng2Webp.DecodedFrameContents` | apng2png/apng2webp.c:91-99 | Bytes outside the sub-rectangle are 0. Bytes inside it are the matching scanline bytes. Nothing carries over from earlier frames. |
| `Apng2Webp.DecodeIgnoresDisposeAndBlend` | apng2png/apng2webp.c:82-85 | Replacing `dispose_op` and `blend_op` by any other valid operators leaves the frame accepted and does not change the frame produced. |
| `Apng2Webp.LoadApng` | apng2png/apng2webp.c:77-101 | Fails exactly when some frame is rejected by the decoder, or when there is a frame and the canvas needs 2^32 bytes or more. Otherwise it yields one frame per declared frame, in file order, frame `i` built from header `i`. |
| `Apng2Webp.DurationAdds` | apng2png/apng2webp.c:124-155 | From frame `i` on, one add per frame in index order, each carrying the frame's own duration. |
| `Apng2Webp.SaveWebp` | apng2png/apng2webp.c:108-155 | An empty list creates no encoder. Otherwise the encoder is created with the first frame's size and loop count 0. It receives one add per frame, in index order, each with `frames[i].duration` as the timestamp argument, and no closing add. These are the calls made while the encoder accepts them. |
| `Apng2Webp.SaveWebpSucceeds` | apng2png/apng2webp.c:146-151 | `save_webp` returns true exactly when the list is non-empty and no frame's duration is below the previous frame's. A shorter frame makes the encoder refuse its add, because its timestamp argument is earlier than the previous one. |
| `Apng2Webp.Convert` | apng2png/apng2webp.c:191-203 | Exit code 0 exactly when every frame decodes, the canvas is under 2^32 bytes, there is at least one frame, and no frame's converted delay is below the previous frame's. Otherwise exit code 1 with no encoder output. On success, add `i` carries the converted delay of frame `i`. |
| `Apng2Webp.SaveWebpCorrected` | apng2png/apng2webp.c:146 | Frames are added in order, then a closing add, to an encoder of the first frame's size with loop count 0. Timestamps start at 0 and never go down, so the encoder accepts every add. The gap after frame `i` is its duration. |
| `Apng2Webp.ConvertCorrected` | apng2png/apng2webp.c:191-203 | Exit code 0 exactly when every frame decodes, the canvas is under 2^32 bytes and there is at least one frame; frame durations no longer matter. On success, the encoder has the canvas size and loop count 0 and accepts every add. Frames are shown for their own durations on a timeline that starts at 0, never goes down and ends with a closing add. |
| `Apng2Webp.SaveWebpPassesGaps` | apng2png/apng2webp.c:146 | For every non-empty frame list, the timestamp argument `save_webp` passes for frame `i` equals the gap after frame `i` in the intended timeline. |
| `Apng2Webp.SaveWebpPassesDurations` | apng2png/apng2webp.c:146 | For two 100 ms frames, the program's timestamp arguments are not increasing and there is no closing add. The corrected adds are at 0, 100 and 200. |
| `Apng2Webp.SaveWebpRefusesShorterFrame` | apng2png/apng2webp.c:146-151 | For frames of 200 ms then 100 ms, `save_webp` passes 200 then 100, the second add is refused and saving fails. The corrected adds at 0, 200 and 300 are all accepted. |
| `Apng2WebpAv.ProcessData` | apng2png/apng2webp_av.cpp:45-66 | Fails exactly when a frame is rejected by the decoder. Otherwise it yields one canvas-sized buffer per frame. Each buffer is its uninitialised block with the scanlines placed from the top-left corner (offsets 0, 0). |
| `Apng2WebpAv.ProcessDataIgnoresOffsets` | apng2png/apng2webp_av.cpp:53-62 | Buffer `i` holds `width * height * 4` bytes. Byte `c` of scanline `j` is at `j * width * 4 + c`, whatever the frame's x and y offsets. |
| `Apng2WebpAv.LastDelayMs` | apng2png/apng2webp_av.cpp:49-50 | The increment is the millisecond delay that `apng2webp.c` would give the last frame header read. |
| `Apng2WebpAv.EarlierDelaysIgnored` | apng2png/apng2webp_av.cpp:49-50 | Changing the delay fields of any frame but the last does not change the increment, because each header overwrites the same slot. |
| `Apng2WebpAv.Timeline` | apng2png/apng2webp_av.cpp:151-165 | For `n` frames, the adds are frames `0 .. n - 1` in order and then one null picture. The closing add has the same timestamp as the last frame. |
| `Apng2WebpAv.TimelineShape` | apng2png/apng2webp_av.cpp:151-165 | The program's timeline has `num_frames + 1` adds, and only the last has a null picture. The first add is at 0 and timestamps never go down. The closing add repeats the last frame's timestamp. |
| `Apng2WebpAv.TimestampLoop` | apng2png/apng2webp_av.cpp:151-165 | The loop adds frame `i` at `i * delay` and the null picture at `(num_frames - 1) * delay`. The delay is the one computed from the last header's fields. |
| `Apng2WebpAv.Apng2Webp` | apng2png/apng2webp_av.cpp:125-165 | For `num_frames <= 1`: exit code 1, no encoder, no buffers. Exit code 0 exactly when there are two or more frames and all decode. Then the encoder has the canvas size and loop count 0, and receives the fixed-increment timeline, whose every add it accepts. |
| `Apng2WebpAv.TimelineAgainstAccumulate` | apng2png/apng2webp_av.cpp:157-165 | When every frame has the same delay `d`, the frame adds match the running-sum timeline. The closing add comes `d` early. |
| `Apng2WebpAv.IntendedTimeline` | apng2png/apng2webp_av.cpp:151-165 | Frames are added in order, then a closing add. Timestamps start at 0 and never go down. The gap after frame `i` is frame `i`'s own delay. |
| `Apng2WebpAv.Apng2WebpCorrected` | apng2png/apng2webp_av.cpp:125-165 | The same acceptance and buffers as `Apng2Webp`. On success, the encoder has the canvas size and loop count 0 and receives exactly the intended timeline (frame `i` at the sum of the earlier frames' delays), accepting every add. The closing add is at the sum of all frames' delays. |
| `Apng2WebpAv.TimelineUsesLastDelay` | apng2png/apng2webp_av.cpp:157-162 | For delays of 100 ms then 200 ms, the program adds at 0 and 200 and closes at 200. The intended adds are at 0 and 100, closing at 300. |

## Left out

- libpng decoding and colour conversion (palette, grey, tRNS, 16-bit strip, filler, BGR, interlace handling). This is foreign library behaviour, so the scanlines are given as RGBA bytes. The BGR byte order `apng2webp_av.cpp` asks for is not distinguished.
- libwebp encoding: `WebPPictureImportRGBA`, `WebPAnimEncoderAssemble` and the bytes written. The encoder is a trace of the calls it receives. Failures of `WebPAnimEncoderNew`, `WebPPictureInit`, `WebPPictureImportRGBA`, `WebPAnimEncoderAdd` and `WebPAnimEncoderAssemble` are not modelled, except that `WebPAnimEncoderAdd` refuses a picture timestamped earlier than the previous call (`Encoder.AcceptsAll`).
- The cast of a raw frame buffer to `WebPPicture*` in `apng2webp_av.cpp`, `WebPPictureFree` on it, and the partial `free` of the frame array. These are undefined behaviour and memory management; the trace records only which frame is added.
- File I/O, `fopen` failures, console messages and `main`'s argument-count check. They are I/O.
- Disposal and blend compositing. Neither program implements it.
- The `delays` array in `apng2webp_av.cpp`. It is allocated and never used.
- `num_plays`. `apng2webp_av.cpp` only prints it (line 134), and `apng2webp.c` never reads it. Both programs create the encoder with loop count 0.
- `int` overflow of the running timestamp in `apng2webp_av.cpp`, and of the signed `width * height * 4` in `process_data`. The model uses unbounded integers there. For the 32-bit wrap of the buffer size in `apng2webp.c`, see the `Apng2Webp.LoadApng` line below and "## Findings".
- Apng2Webp.LoadApng: when the canvas needs 2^32 bytes or more, the program allocates the wrapped size and writes scanlines past the buffer. This is undefined behaviour. The model reports a failed load there instead of following the writes. `Canvas.CanvasBytesU32Wraps` shows the wrap. Below 2^32 bytes the model allocates exactly what the program does.
- Apng2Webp.Convert: exit code 1 on a canvas of 2^32 bytes or more, for the reason given for `LoadApng`.
- Apng2Webp.Convert: an add at the same timestamp as the previous one counts as accepted. If the libwebp in use demands a strictly positive gap between pictures, equal consecutive durations also make the conversion exit 1. A jump of 2^24 ms or more between consecutive timestamp arguments, which libwebp also refuses, counts as accepted too.
- Apng2Webp.ConvertCorrected: exit code 1 on a canvas of 2^32 bytes or more, for the same reason.
- Apng.Decodable: this only approximates libpng's acceptance. It covers the fcTL checks listed above and the scanline shape. Other libpng errors are not modelled and such a file counts as decoding: corrupt or truncated data, chunk order and sequence numbers, rules for the first frame's header, the IHDR width and height limits (1,000,000 by default), and an error raised by `png_read_end` after the last frame (`apng2webp_av.cpp:69`).
- A mismatch between acTL's declared frame count and the frames present. The image's frame list is taken to be the declared frames.

## Findings

| source | as written | input that shows it | evidently intended | confidence | as-written member | corrected member |
|---|---|---|---|---|---|---|
| apng2png/apng2webp.c:146 | Each frame's own duration is passed as the encoder's timestamp argument, and there is no closing add with a null picture. | Two frames of 200 ms and then 100 ms: the arguments are 200 and 100, the encoder refuses the second add, and the conversion exits 1. With two frames of 100 ms the arguments are 100 and 100, so the second frame does not start after the first. | Frame `i` at the sum of the earlier durations, then a closing add at the total, as `apng2webp_av.cpp` does with its running timestamp. | medium, not executed | `Apng2Webp.SaveWebpRefusesShorterFrame` | `Apng2Webp.SaveWebpCorrected` |
| apng2png/apng2webp_av.cpp:157-162 | Every increment uses the delay of the last frame header read, and the timestamp is not advanced after the last frame. | Two frames of 100 ms and 200 ms: adds at 0 and 200, closing at 200, so the last frame gets no display time. | Each frame advances the timestamp by its own delay, so the adds are at 0 and 100, closing at 300. | medium, not executed | `Apng2WebpAv.TimelineUsesLastDelay` | `Apng2WebpAv.IntendedTimeline` |
| apng2png/apng2webp.c:91 | `width * height * 4` is computed in 32-bit unsigned arithmetic. | A 32768 x 32768 canvas: the buffer gets 0 bytes, and the scanlines are still written at offsets up to 2^32. | The exact size, so that every row pointer lies inside the buffer. | medium, not executed | `Canvas.CanvasBytesU32Wraps` | `Canvas.CanvasBytes` |
