# PixelFudger and ColorStripper: pixel channel operators and their band loops

This project models the arithmetic core of two small Android apps.

- **Pixels** (`pixels.dfy`). A packed ARGB pixel is a 32-bit word with alpha, red, green and blue at bit offsets 24, 16, 8 and 0.
  - The colour component a user selects is RED, GREEN or BLUE, at shift 16, 8 or 0.
  - PixelFudger has four strategies: DISCARD_CHANNEL, DISCARD_CHANNEL_AND_ALPHA, LEVEL and INVERT. Each is total on every pixel for the shifts 16, 8 and 0 that COLOR_COMPONENT supplies.
  - Each strategy is a Dafny function on `bv32`. Lemmas state what each one does to the selected byte, to alpha and to the other bytes.
- **Frames** (`frames.dfy`). Both apps cut their animation into `FRAMES = ceil(STRIP_TIME / FRAME_TIME)` frames.
  - This gives 63 frames in both apps.
  - The rows per frame are `rpf = ceil(height / FRAMES)`.
  - `Bands(height, rpf)` lists the bands of rows that PixelFudger's `fudge` copies back into the bitmap, one band per frame.
- **Fudger** (`fudger.dfy`). `fudge` is a method over the bitmap's pixel buffer.
  - It copies the buffer and transforms the copy row by row.
  - Whenever a row closes a band, it copies that band back into the bitmap and records it in a ghost sequence.
  - Proved:
    - Every pixel of the bitmap ends up transformed exactly once.
    - The recorded bands are exactly `Bands(height, rpf)`: in order, contiguous, non-empty, at most `rpf` rows each, covering every row.
- **Stripper** (`stripper.dfy`). ColorStripper's `strip` is a method that clears the selected byte in place.
  - It works in FRAMES iterations, each over a fixed range of buffer indices that is cut off at the end of the buffer.
  - Proved: every pixel ends with its selected byte cleared and nothing else changed.
  - Proved: the iterations write disjoint index ranges, in order.
  - On Java's 32-bit ints an iteration's start index can wrap negative (see Findings).
- **Sampling** (`sampling.dfy`). `LoadBitmap` doubles the down-sampling factor until the image fits the display.
  - On unbounded integers the loop ends with the least power of two that fits.
  - On Java's 32-bit ints the loop can run forever (see Findings).
- **Arith** (`arith.dfy`) holds one-step facts about products and quotients that the other modules share, and `Wrap32`, Java's 32-bit `int` wrap-around.

Java `int` pixels are modelled as `bv32`. On the pixel word itself the operators use only `&`, `|`, `^`, `~`, `<<`, and `>>` followed by `& 255`, and these give the same bits on signed and unsigned words. DISCARD_CHANNEL_AND_ALPHA's `+`, `-`, `*`, `/` and LEVEL's `< 127` work on the extracted bytes, as non-negative integers. The integer division in DISCARD_CHANNEL_AND_ALPHA has non-negative operands, so Java's truncating division and Dafny's Euclidean division agree there. `Color.argb` is modelled as the packing `(a << 24) | (r << 16) | (g << 8) | b`.

## Model

| member | source | states |
|---|---|---|
| Pixels.Shift | PixelFudger/src/com/hulzenga/pixelfudger/PixelFudger.java:59-71 | COLOR_COMPONENT.getShift: RED, GREEN and BLUE sit at shifts 16, 8 and 0 |
| Pixels.ByteAt | PixelFudger/src/com/hulzenga/pixelfudger/PixelFudger.java:91 | `(pixel >> shift) & 255` for a shift of at most 24, the byte at that bit offset (also the test at :113) |
| Pixels.Alpha | PixelFudger/src/com/hulzenga/pixelfudger/PixelFudger.java:93 | `(pixel >> 24) & 255`, the alpha byte |
| Pixels.Channel | PixelFudger/src/com/hulzenga/pixelfudger/PixelFudger.java:91-96 | `(pixel >> shift) & 255`, the byte of the selected component |
| Pixels.ChannelMask | PixelFudger/src/com/hulzenga/pixelfudger/PixelFudger.java:82 | `255 << shift`, the bits of the selected component |
| Pixels.Argb | PixelFudger/src/com/hulzenga/pixelfudger/PixelFudger.java:105 | `Color.argb(a, r, g, b)`, the packing `(a << 24) \| (r << 16) \| (g << 8) \| b` |
| Pixels.Operate | PixelFudger/src/com/hulzenga/pixelfudger/PixelFudger.java:77-126 | STRATEGY.operate: dispatches on the strategy to one of the four operators below |
| Pixels.Discard | PixelFudger/src/com/hulzenga/pixelfudger/PixelFudger.java:81-83 | DISCARD_CHANNEL, `pixel & ~(255 << shift)`; its properties are Pixels.DiscardSpec |
| Pixels.DiscardWithAlpha | PixelFudger/src/com/hulzenga/pixelfudger/PixelFudger.java:89-106 | DISCARD_CHANNEL_AND_ALPHA: the bytes are unpacked, alpha is rescaled (0 when `sum == s`, else `a - (a * s) / sum`), the bytes are repacked with `Color.argb` and the selected byte is cleared; its properties are Pixels.DiscardWithAlphaSpec |
| Pixels.LevelChannel | PixelFudger/src/com/hulzenga/pixelfudger/PixelFudger.java:111-119 | LEVEL: clears the selected byte when it is below 127 and sets all its bits otherwise; its properties are Pixels.LevelSpec and Pixels.LevelIdempotent |
| Pixels.InvertChannel | PixelFudger/src/com/hulzenga/pixelfudger/PixelFudger.java:123-125 | INVERT, `pixel ^ (255 << shift)`; its properties are Pixels.InvertSpec |
| Pixels.ChannelIsShifted | PixelFudger/src/com/hulzenga/pixelfudger/PixelFudger.java:59-71 | the byte read for RED/GREEN/BLUE is `(pixel >> shift) & 255` with shifts 16/8/0, and the component's mask is `255 << shift` |
| Pixels.ArgbUnpacks | PixelFudger/src/com/hulzenga/pixelfudger/PixelFudger.java:93-105 | unpacking a `Color.argb` packing with the shifts 24/16/8/0 gives back the four bytes |
| Pixels.ArgbPacks | PixelFudger/src/com/hulzenga/pixelfudger/PixelFudger.java:93-105 | repacking the four unpacked bytes of a pixel gives back the pixel |
| Pixels.DiscardSpec | PixelFudger/src/com/hulzenga/pixelfudger/PixelFudger.java:81-83 | DISCARD_CHANNEL makes the selected byte 0, leaves every other bit unchanged, and is idempotent |
| Pixels.InvertSpec | PixelFudger/src/com/hulzenga/pixelfudger/PixelFudger.java:123-125 | INVERT maps the selected byte `v` to `255 - v`, leaves every other bit unchanged, and applying it twice gives back the pixel |
| Pixels.InvertRedExample | PixelFudger/src/com/hulzenga/pixelfudger/PixelFudger.java:123-125 | INVERT on RED turns 0xFFFF0000 into 0xFF000000 and 0xFFFFFFFF into 0xFF00FFFF |
| Pixels.LevelValue | PixelFudger/src/com/hulzenga/pixelfudger/PixelFudger.java:113-117 | LEVEL makes the selected byte 0 when it was below 127 and 255 when it was 127 or more |
| Pixels.LevelOutside | PixelFudger/src/com/hulzenga/pixelfudger/PixelFudger.java:113-117 | LEVEL leaves every bit outside the selected byte unchanged, in both branches |
| Pixels.LevelSpec | PixelFudger/src/com/hulzenga/pixelfudger/PixelFudger.java:111-119 | LEVEL thresholds the selected byte at 127 (0 or 255) and leaves the rest of the pixel unchanged |
| Pixels.LevelIdempotent | PixelFudger/src/com/hulzenga/pixelfudger/PixelFudger.java:111-119 | applying LEVEL twice gives the same pixel as applying it once |
| Pixels.ColourSum | PixelFudger/src/com/hulzenga/pixelfudger/PixelFudger.java:98 | `sum = r + g + b` of a pixel's colour bytes |
| Pixels.ChannelAtMostSum | PixelFudger/src/com/hulzenga/pixelfudger/PixelFudger.java:91-98 | the selected byte `s` is one of r, g, b, so `s <= r + g + b` |
| Pixels.DiscardWithAlphaNeverDividesByZero | PixelFudger/src/com/hulzenga/pixelfudger/PixelFudger.java:98-103 | `r + g + b = 0` forces `sum == s`, the branch without a division, so the division by `sum` only ever runs with `sum > 0` |
| Pixels.ScaledAlpha | PixelFudger/src/com/hulzenga/pixelfudger/PixelFudger.java:99-103 | the new alpha is at most the old alpha, and is 0 when the selected byte is the whole of `r + g + b` |
| Pixels.QuotientAtMost | PixelFudger/src/com/hulzenga/pixelfudger/PixelFudger.java:102 | `(a * s) / sum` never exceeds `a`, so `a - (a * s) / sum` is never negative |
| Pixels.ScaledAlphaIsShare | PixelFudger/src/com/hulzenga/pixelfudger/PixelFudger.java:98-103 | the new alpha is the old alpha scaled by the share `(sum - s) / sum` of the other two colours, rounded up |
| Pixels.KeptAlpha | PixelFudger/src/com/hulzenga/pixelfudger/PixelFudger.java:91-103 | the alpha DISCARD_CHANNEL_AND_ALPHA writes never exceeds the pixel's alpha |
| Pixels.DiscardWithAlphaClears | PixelFudger/src/com/hulzenga/pixelfudger/PixelFudger.java:105 | DISCARD_CHANNEL_AND_ALPHA leaves the selected byte 0 |
| Pixels.DiscardWithAlphaAlpha | PixelFudger/src/com/hulzenga/pixelfudger/PixelFudger.java:99-105 | the alpha byte of the result is the rescaled alpha |
| Pixels.DiscardWithAlphaOutside | PixelFudger/src/com/hulzenga/pixelfudger/PixelFudger.java:94-105 | DISCARD_CHANNEL_AND_ALPHA leaves the other two colour bytes unchanged |
| Pixels.DiscardWithAlphaSpec | PixelFudger/src/com/hulzenga/pixelfudger/PixelFudger.java:89-106 | DISCARD_CHANNEL_AND_ALPHA clears the selected byte and keeps the other two colour bytes. Alpha never grows, is 0 when the other two colours are 0, and otherwise is the old alpha times the other colours' share of `r + g + b`, rounded up |
| Pixels.OperateKeepsOutsideChannel | PixelFudger/src/com/hulzenga/pixelfudger/PixelFudger.java:77-126 | DISCARD_CHANNEL, LEVEL and INVERT change no bit outside the selected byte |
| Pixels.OperateTouchesOnlySelected | PixelFudger/src/com/hulzenga/pixelfudger/PixelFudger.java:77-126 | every strategy changes only the selected byte and, for DISCARD_CHANNEL_AND_ALPHA only, the alpha byte |
| Frames.CeilDiv | PixelFudger/src/com/hulzenga/pixelfudger/PixelFudger.java:46 | `(int) Math.ceil(x / (double) y)` on non-negative ints, as `(x + y - 1) / y`; its properties are Frames.CeilDivBounds and Frames.CeilDivUnique |
| Frames.RowsPerFrame | PixelFudger/src/com/hulzenga/pixelfudger/PixelFudger.java:333 | `rpf = ceil(height / FRAMES)`, the same computation as ColorStripper/src/com/hulzenga/colorstripper/ColorStripperActivity.java:87; its properties are Frames.RowsPerFrameSpec |
| Frames.Bands | PixelFudger/src/com/hulzenga/pixelfudger/PixelFudger.java:352-358 | the closed form of the bands `fudge` copies back: band `k` is rows `[k * rpf, min((k + 1) * rpf, height))`, for `ceil(height / rpf)` bands |
| Frames.BandsOf | PixelFudger/src/com/hulzenga/pixelfudger/PixelFudger.java:352-358 | the first `n` bands of `rpf` rows each, cut off at `height`, built band by band as the loop appends them; there are exactly `n` of them |
| Frames.BandsOfAt | PixelFudger/src/com/hulzenga/pixelfudger/PixelFudger.java:352-358 | band `k` of the first `n` is rows `[k * rpf, min((k + 1) * rpf, height))` |
| Frames.BandAt | PixelFudger/src/com/hulzenga/pixelfudger/PixelFudger.java:352-358 | the same closed form for every band of Bands |
| Frames.CeilDivBounds | PixelFudger/src/com/hulzenga/pixelfudger/PixelFudger.java:46 | `ceil(x / y)` is the least `n` with `n * y >= x`, and is 0 exactly when `x` is 0 |
| Frames.CeilDivUnique | PixelFudger/src/com/hulzenga/pixelfudger/PixelFudger.java:46 | any `n` with `(n - 1) * y < x <= n * y` is `ceil(x / y)` |
| Frames.CeilDivAtMost | PixelFudger/src/com/hulzenga/pixelfudger/PixelFudger.java:46 | if `n` multiples of `y` reach `x`, then `ceil(x / y) <= n` |
| Frames.FramesValues | PixelFudger/src/com/hulzenga/pixelfudger/PixelFudger.java:44-46 | PixelFudger's FRAMES, `ceil(2000 / 32)`, is 63, and so is ColorStripper's FRAMES, `ceil(1000 / 16)` |
| Frames.RowsPerFrameSpec | PixelFudger/src/com/hulzenga/pixelfudger/PixelFudger.java:333 | `rpf = ceil(height / FRAMES)` is at least 1 once there is a row, so `% rpf` is defined. FRAMES frames of `rpf` rows reach the last row, and one row fewer per frame would not |
| Frames.BandShape | PixelFudger/src/com/hulzenga/pixelfudger/PixelFudger.java:352-358 | every band is non-empty, inside the bitmap and at most `rpf` rows tall |
| Frames.BandsTile | PixelFudger/src/com/hulzenga/pixelfudger/PixelFudger.java:352-358 | there are no bands exactly when the bitmap has no rows. The first band starts at row 0, each band starts where the previous one ended, and the last ends at `height` |
| Frames.BandOfRow | PixelFudger/src/com/hulzenga/pixelfudger/PixelFudger.java:346-358 | every row lies in a band, namely band `row / rpf` |
| Frames.BandsDisjoint | PixelFudger/src/com/hulzenga/pixelfudger/PixelFudger.java:352-358 | a band ends no later than any later band starts, so bands are disjoint and in increasing order |
| Frames.BandsFitFrames | PixelFudger/src/com/hulzenga/pixelfudger/PixelFudger.java:333 | with `rpf = ceil(height / FRAMES)` there are at most FRAMES bands, one per frame |
| Fudger.LastRowAfter | PixelFudger/src/com/hulzenga/pixelfudger/PixelFudger.java:344-358 | the value of `lastRow` after rows `[0, row)`: the row after the last row that closed a band, or 0 |
| Fudger.PublishedAfter | PixelFudger/src/com/hulzenga/pixelfudger/PixelFudger.java:344-369 | the bands copied back by `setPixels` after rows `[0, row)`, in order |
| Fudger.ClosesBand | PixelFudger/src/com/hulzenga/pixelfudger/PixelFudger.java:352 | the publishing test `(row + 1) % rpf == 0 \|\| (row + 1) == height` |
| Fudger.RowsInBuffer | PixelFudger/src/com/hulzenga/pixelfudger/PixelFudger.java:348 | the index range of rows `[0, rows)` ends inside the buffer of `width * height` pixels |
| Fudger.PublishTest | PixelFudger/src/com/hulzenga/pixelfudger/PixelFudger.java:352 | the test `(row + 1) % rpf == 0 \|\| row + 1 == height` holds exactly when row `row` is the last row of the open band |
| Fudger.BandStep | PixelFudger/src/com/hulzenga/pixelfudger/PixelFudger.java:352-358 | one turn of the row loop publishes exactly the next band `[lastRow, row + 1)` when the test holds, and otherwise keeps the open band below `rpf` rows |
| Fudger.BandStateDone | PixelFudger/src/com/hulzenga/pixelfudger/PixelFudger.java:346-369 | when the row loop ends, the bands published are all the bands of the bitmap |
| Fudger.AfterRowsState | PixelFudger/src/com/hulzenga/pixelfudger/PixelFudger.java:344-369 | after any number of rows, `lastRow` and the published bands are in the state the loop maintains |
| Fudger.LastRowAtMost | PixelFudger/src/com/hulzenga/pixelfudger/PixelFudger.java:357-358 | `lastRow` never passes the current row, so every band copied back is non-empty |
| Fudger.PublishedAllBands | PixelFudger/src/com/hulzenga/pixelfudger/PixelFudger.java:344-369 | over the whole bitmap the loop publishes exactly `Bands(height, rpf)` and ends with `lastRow == height` |
| Fudger.ApplyRange | PixelFudger/src/com/hulzenga/pixelfudger/PixelFudger.java:348-350 | the inner loop transforms the pixels of one row, extending the transformed prefix of the buffer by that row |
| Fudger.CopyRange | PixelFudger/src/com/hulzenga/pixelfudger/PixelFudger.java:357 | `setPixels` of a band copies exactly the band's indices from the working buffer into the bitmap and changes no other index |
| Fudger.FudgeRow | PixelFudger/src/com/hulzenga/pixelfudger/PixelFudger.java:348-358 | one turn of the row loop: the buffer is transformed through row `row`, and the bitmap through the last published band |
| Fudger.FudgeRows | PixelFudger/src/com/hulzenga/pixelfudger/PixelFudger.java:346-369 | the row loop leaves the bitmap transformed through `lastRow` and the published bands are those of all rows |
| Fudger.Fudge | PixelFudger/src/com/hulzenga/pixelfudger/PixelFudger.java:327-380 | every bitmap pixel becomes `operate(old pixel, shift)`, which means each pixel is transformed exactly once. The bands copied back are `Bands(height, ceil(height / 63))` |
| Stripper.FrameStart | ColorStripper/src/com/hulzenga/colorstripper/ColorStripperActivity.java:97 | `i * rpf * width`, the first index iteration `i` visits, on exact arithmetic |
| Stripper.FrameStartStep | ColorStripper/src/com/hulzenga/colorstripper/ColorStripperActivity.java:97 | iteration `i` starts at `i * rpf * width` and ends where iteration `i + 1` starts, never before it starts |
| Stripper.FramesInOrder | ColorStripper/src/com/hulzenga/colorstripper/ColorStripperActivity.java:96-97 | a later iteration starts no earlier than an earlier one ends, so the iterations' index ranges are disjoint and in increasing order |
| Stripper.FrameBeyondBuffer | ColorStripper/src/com/hulzenga/colorstripper/ColorStripperActivity.java:96-97 | an iteration with `i * rpf >= height` starts at or past the end of the buffer, so it writes nothing |
| Stripper.StripFrame | ColorStripper/src/com/hulzenga/colorstripper/ColorStripperActivity.java:97-98 | iteration `i` clears the selected byte at every index of `[i * rpf * width, (i + 1) * rpf * width)` inside the buffer and changes no index outside that range |
| Stripper.Strip | ColorStripper/src/com/hulzenga/colorstripper/ColorStripperActivity.java:77-112 | after the FRAMES iterations every pixel is its old value with the selected byte cleared, and no other bit has changed |
| Stripper.StartAsWritten | ColorStripper/src/com/hulzenga/colorstripper/ColorStripperActivity.java:97 | `i * rpf * width` as Java evaluates it, each product wrapped to an `int` |
| Stripper.StripGuardAsWritten | ColorStripper/src/com/hulzenga/colorstripper/ColorStripperActivity.java:97 | the inner loop's guard as Java evaluates it: `j` below the wrapped `(i + 1) * rpf * width` and below the wrapped `width * height` |
| Stripper.StripIndexWrapsAsWritten | ColorStripper/src/com/hulzenga/colorstripper/ColorStripperActivity.java:87-98 | for a one-row bitmap 34636834 pixels wide, `rpf` is 1, iteration 62 starts at the wrapped index -2147483588, and the guard as written admits it, while the exact start lies past the buffer |
| Sampling.PowerBelowDouble | PixelFudger/src/com/hulzenga/pixelfudger/PixelFudger.java:279 | a power of two below twice another power of two is at most that one, so doubling skips no power of two |
| Sampling.DoubledIsPowerOfTwo | PixelFudger/src/com/hulzenga/pixelfudger/PixelFudger.java:279 | doubling keeps `sample` a power of two |
| Sampling.SampleSize | PixelFudger/src/com/hulzenga/pixelfudger/PixelFudger.java:277-280 | with unbounded integers and positive display bounds the loop ends. The result is a power of two with `w <= displayW * sample` and `h <= displayH * sample`, and no smaller power of two meets both bounds |
| Arith.Wrap32 | PixelFudger/src/com/hulzenga/pixelfudger/PixelFudger.java:278-279 | a Java `int` product is the exact product reduced to 32 bits: it lies in `[-2^31, 2^31)`, differs from the exact value by a multiple of 2^32, and equals it when the exact value fits |
| Sampling.WrapKeepsEven | PixelFudger/src/com/hulzenga/pixelfudger/PixelFudger.java:278 | an even product stays even after 32-bit wrap-around |
| Sampling.GuardAsWritten | PixelFudger/src/com/hulzenga/pixelfudger/PixelFudger.java:278 | the sample loop's guard as Java evaluates it, with `displayW * sample` and `displayH * sample` wrapped to an `int` |
| Sampling.SampleLoopHangsAsWritten | PixelFudger/src/com/hulzenga/pixelfudger/PixelFudger.java:277-280 | in 32-bit arithmetic, with `w = 2147483647` and an even `displayW`, the loop guard holds for every value `sample` can take, so the loop never ends |

## Left out

- The Android activity and UI wiring are not modelled: the lifecycle, listeners, the strategy spinner, `lockControlls`/`releaseControlls`, and `STRATEGY.toString` labels.
- The worker threads, `runOnUiThread`, `SystemClock.sleep`/`elapsedRealtime` and the frame pacing are not modelled. Concurrency and wall-clock time have no state in the model. Each band `fudge` copies back is recorded in a ghost sequence instead.
- `fudge` reads the `mStrategy` field once per pixel, and another thread could change it mid-run. The model takes the strategy as fixed for the whole run.
- Bitmap I/O (`getPixels`, `setPixels`, `createBitmap`, stream decoding, `Canvas` copies, `recycle`) is not modelled. It is library code. The bitmap is its row-major pixel buffer, and `setPixels` is modelled as copying the band's indices into that buffer.
- Image saving is not modelled. It is file I/O and a system broadcast.
- `Math.ceil(x / (double) y)` is modelled as integer ceiling division `(x + y - 1) / y`. Floating point is not modelled. For non-negative ints the two agree.
- Pixels.Operate: takes a colour component, so only the shifts 16, 8 and 0 are modelled. `STRATEGY.operate` accepts any int shift, but the app only ever passes `COLOR_COMPONENT.getShift()`. At a shift that reads alpha bits, DISCARD_CHANNEL_AND_ALPHA can divide by zero: at shift 24 the opaque black pixel 0xFF000000 has `s = 255` and `sum = 0`, so `(a * s) / sum` at PixelFudger/src/com/hulzenga/pixelfudger/PixelFudger.java:102 throws. The proofs that the division is safe (Pixels.ChannelAtMostSum, Pixels.DiscardWithAlphaNeverDividesByZero) rely on the shift being one of the three component shifts.
- Fudger.Fudge: does not model 32-bit overflow of `width * height`, `row * width` or `lastRow * width`. Buffer indices are unbounded naturals. Once `width * height` fits in an `int` (the `int[]` buffer is allocated with that size), `lastRow * width <= row * width < (row + 1) * width <= width * height` fit as well (Fudger.RowsInBuffer).
- Stripper.Strip: computes the index bounds on unbounded naturals, as the loop would with `long` arithmetic. In `int`, the start `i * rpf * width` and the end `(i + 1) * rpf * width` of an iteration wrap once `i * rpf * width` passes 2^31 - 1, for example from a width of about 2^31 / 62 with a single row. A wrapped start is a negative index that the guard admits, and `pixels[j]` then throws an index-out-of-bounds exception on the worker thread. The wrap is shown by Stripper.StripIndexWrapsAsWritten (see Findings). The bitmap is the ImageView's own drawable (ColorStripper/src/com/hulzenga/colorstripper/ColorStripperActivity.java:69-75, :83), so such a width is not an input the app normally sees.
- Sampling.SampleSize: requires positive display bounds. The display metrics are positive on a real device. With a zero bound and a larger image, the loop would not end even on unbounded integers.
- The ColorStripper `getBitmapFromImageView` drawable-to-bitmap copy is not modelled. It is library glue.

## Findings

| source | as written | input that shows it | evidently intended | confidence | as-written member | corrected member |
|---|---|---|---|---|---|---|
| PixelFudger/src/com/hulzenga/pixelfudger/PixelFudger.java:277-280 | the guard computes `displayW * sample` and `displayH * sample`, and the step computes `sample * 2`, all in 32-bit `int`, so the products wrap around | bounds `w = 2147483647` (any `h`), display width 1080 (any even width): `displayW * sample` wraps to an even int, never 2147483647, so `w > displayW * sample` always holds and the loop never ends (`sample` itself wraps to 0 after 32 doublings) | the loop ends with the least power of two by which the image fits the display, as it does with `long` arithmetic | not executed; a decoder has to report such a width from an image header | Sampling.SampleLoopHangsAsWritten | Sampling.SampleSize |
| ColorStripper/src/com/hulzenga/colorstripper/ColorStripperActivity.java:97-98 | the bounds `i * rpf * width` and `(i + 1) * rpf * width` are 32-bit `int` products, so both wrap once they pass 2^31 - 1 | a bitmap one row high and 34636834 pixels wide: `rpf = 1`, and iteration 62 starts at 62 * 34636834 = 2147483708, which wraps to -2147483588. Its end wraps to -2112846754, the guard admits `j = -2147483588`, and `pixels[j]` throws an index-out-of-bounds exception | iterations whose start lies past the buffer write nothing, and every pixel has its selected byte cleared, as with `long` arithmetic | not executed; needs a drawable about 34.6 million pixels wide | Stripper.StripIndexWrapsAsWritten | Stripper.Strip |
