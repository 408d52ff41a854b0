# BoxBlur in Dafny

A Dafny model of the core of BoxBlur (`BoxBlur.h`). BoxBlur is a
128-pixel horizontal box filter over a row-major RGBA image of 8-bit
channels. Output pixel (i, j) holds, in each channel, the sum of the 128
input pixels i·width + j … i·width + j + 127 shifted right by 7. An output
row is width − 128 pixels wide, one less than the number of 128-pixel
windows in an input row; the model keeps that width. The header has
several filters that must all produce the same buffer, plus a dispatcher
that splits the rows among worker threads:

- `_boxBlurref`, the brute-force reference: four `uint32` totals are
  recomputed for every output pixel.
- `_boxBlurScalar`: sliding `uint32` totals. Each later column adds the
  entering pixel (byte offset +508) and subtracts the leaving one (−4).
- `processCols` / `processRow` / `_boxBlur`, the SSE filter: one register
  of eight 16-bit lanes carries the window sums of two adjacent output
  pixels. Each `processCols` makes two register steps and stores 4 or 8
  packed bytes. A non-last row of odd width stores one pixel too many, into
  the first output pixel of the next row. The next row overwrites it, and
  the final row of a call (`processRow<true>`) stores only 4 bytes.
- `_boxBlurTransposable`: the same register, one step and one 4-byte store
  per column.
- `boxBlur<multithread>`: hw_concur = min(height >> 4, hardware
  concurrency), thread_stride = (height − 1) / hw_concur + 1, and one
  `_boxBlur` call per range of rows.

Modules:

- `Window` is the specification: `Win` (window sum), `Mean` (the reference
  byte), `OutIndex` (output layout), `RowsBlurred` (rows start …
  start+rows−1 hold their reference bytes and every other byte is
  unchanged), and `Blurred` (the whole expected buffer).
- `Simd` models the register as a datatype of eight `Lane`s, with
  wrap-around `Add16`/`Sub16`, `LoadWiden` and `Pack`.
- `Filters` holds the two scalar filters.
- `Pairs` holds the SSE filters.
- `Dispatch` holds the row partition and the dispatcher.

Every filter is an imperative method that writes into an `array<Byte>` in
place. Each is proved to establish `RowsBlurred` for its rows. For the
16-bit lanes and the `uint32` totals, the proofs show that no wrap-around
ever changes a window sum: a sum is at most 128·255 = 32640. `BlurredUnique`
shows that any full buffer in which every row is blurred equals `Blurred`.
`Dispatch.FiltersAgree` runs the reference, the scalar and the
transposable filters and the dispatcher into four buffers and proves that
all four hold the same bytes, which is the comparison the demo program
makes.

## Model

| member | source | states |
|---|---|---|
| Window.ChanSum | BoxBlur.h:49-54 | a channel sum over n pixels is at most 255·n |
| Window.Win | BoxBlur.h:49-54 | a 128-pixel window sum is at most 32640, so it fits a 16-bit lane, and a signed one too |
| Window.Mean | BoxBlur.h:55-58 | the reference byte r is the window sum shifted right by 7: r·128 ≤ sum < r·128 + 128 |
| Window.ChanSumSlide | BoxBlur.h:79-83 | moving a sum one pixel right adds the entering sample and drops the leaving one |
| Window.WinSlide | BoxBlur.h:80-83 | the sliding-window recurrence: the window at p + 1 is the window at p plus pixel p + 128 minus pixel p |
| Window.ChanSumConstant | BoxBlur.h:49-54 | a sum of n equal samples v is n·v |
| Window.ChanSumImpulse | BoxBlur.h:49-54 | a sum over samples that are all 0 except one pixel holding 255 is 255 when that pixel is covered and 0 otherwise |
| Window.MeanImpulse | BoxBlur.h:55-58 | single-impulse law: with one pixel at 255 in an otherwise zero window, the output byte is 1 when the window covers that pixel and 0 otherwise |
| Window.MeanConstant | BoxBlur.h:55-58 | constant-image law: a window of equal samples v yields v |
| Window.ChanSumLocal | BoxBlur.h:49-54 | a sum depends only on the samples it covers |
| Window.MeanRowLocal | BoxBlur.h:42-61 | row independence: an output byte of row i depends only on input row i, which is why rows can be split among workers |
| Window.Position | BoxBlur.h:55-58 | every byte q of the output buffer is `OutIndex` (4·(i·(width − 128) + j) + c) of some row i < height, column j < width − 128 and channel c < 4, whose window lies inside the image |
| Window.PositionOfOutIndex | BoxBlur.h:55-58 | `Position` inverts `OutIndex`: distinct output channels of distinct pixels land on distinct bytes, all below the end of the buffer |
| Window.OutNextRow | BoxBlur.h:101 | the byte after the last output pixel of row i is the first byte of row i + 1, where the spilled store of an odd-width row lands |
| Window.RowsBlurredCompose | BoxBlur.h:152-156 | blurring rows a … a+n−1 and then a+n … a+n+m−1 blurs a … a+n+m−1: consecutive calls over adjacent ranges compose |
| Window.BlurredUnique | main.cpp:66-71 | a full-size buffer in which every row is blurred is exactly `Blurred`, whatever it held before and whichever filter wrote it |
| Simd.Wrap16IsMod | BoxBlur.h:94-95 | the lane arithmetic of `_mm_add_epi16` / `_mm_sub_epi16` is reduction modulo 2^16 |
| Simd.Add16Lanes | BoxBlur.h:94 | `_mm_add_epi16`: every lane is the sum of the two lanes modulo 2^16 |
| Simd.Sub16Lanes | BoxBlur.h:94 | `_mm_sub_epi16`: every lane is the difference of the two lanes modulo 2^16 |
| Simd.AddSubCancel | BoxBlur.h:94 | subtracting a register after adding it restores every lane, whatever wrapped in between |
| Simd.LoadWidenPixels | BoxBlur.h:94 | `_mm_cvtepu8_epi16(_mm_loadu_si128(img + 4p))` reads two whole pixels: lanes 0-3 are the channels of pixel p, lanes 4-7 those of pixel p + 1 |
| Simd.ShiftPackBytes | BoxBlur.h:96 | `_mm_packus_epi16(_mm_srli_epi16(t, 7), zero)` yields 8 bytes, byte k being lane k divided by 128 for every lane that holds a window sum |
| Simd.Pack | BoxBlur.h:96 | shift by 7, signed read and unsigned saturation of `_mm_packus_epi16` equal division by 128 for every lane that holds a window sum |
| Simd.Accumulate4 | BoxBlur.h:108-110 | adding the four samples of the next pixel extends four partial channel sums by one term, without wrapping |
| Simd.AccumulatePair | BoxBlur.h:108-110 | one step of the opening loop extends the partial sums of both window positions in the register |
| Simd.Slide4 | BoxBlur.h:94 | adding the entering and subtracting the leaving samples moves four window sums one pixel right, and neither 16-bit wrap takes effect |
| Simd.StepPair | BoxBlur.h:94 | one register step with byte offsets +508 and −4 moves both window sums of the register one pixel right |
| Simd.Advance | BoxBlur.h:94-95 | the register update of line 94 (and of line 137): a register holding the windows of columns j − 1, j holds those of columns j, j + 1 afterwards |
| Simd.PackedPixels | BoxBlur.h:96-101 | 4 stored packed bytes are the reference bytes of one output pixel, 8 of two |
| Simd.Stream | BoxBlur.h:98-101 | `_mm_stream_si32` / `_mm_stream_si64` place exactly the given bytes and change nothing else |
| Simd.StorePacked | BoxBlur.h:111-112 | packing and streaming a register completes output pixel j, and pixel j + 1 with an 8-byte store; only those bytes change |
| Filters.WrapU32IsMod | BoxBlur.h:80-83 | the `uint32` update is reduction modulo 2^32 |
| Filters.WrapU32 | BoxBlur.h:80-83 | the `uint32` `+=` stays below 2^32 and changes nothing when the true result fits |
| Filters.NarrowShift | BoxBlur.h:84-87 | `static_cast<uint8_t>(total >> 7)` keeps the whole quotient total / 128 for any total below 2^15 |
| Filters.SlideTotal | BoxBlur.h:80-83 | adding the signed difference of the bytes at +508 and −4 to a `uint32` total holding the window sum at q − 1 gives the window sum at q |
| Filters.NarrowMean | BoxBlur.h:84-87 | `static_cast<uint8_t>(total >> 7)` of a window total is the reference byte: the narrowing cast never cuts anything |
| Filters.WindowTotals | BoxBlur.h:65-74 | the 128-pixel loop leaves each of the four totals equal to its window sum; no total wraps |
| Filters.StorePixel | BoxBlur.h:55-58 | the four narrowing stores of one output pixel, and no other byte changes |
| Filters.StoreColumn | BoxBlur.h:84-87 | storing the totals of column j completes output pixel j and changes nothing outside it |
| Filters.RefRow | BoxBlur.h:44-59 | one row of the reference filter blurs that row and writes nothing outside it |
| Filters.RefBlur | BoxBlur.h:42-61 | the reference filter blurs rows startRow … startRow+rows−1 and leaves every other byte unchanged; an image narrower than 128 pixels is left untouched |
| Filters.ScalarRow | BoxBlur.h:64-88 | one row of the scalar sliding filter blurs that row and writes nothing outside it |
| Filters.ScalarBlur | BoxBlur.h:63-90 | the scalar sliding filter produces the reference bytes of its rows and changes nothing else |
| Pairs.RowEndBounds | BoxBlur.h:97-102 | a row sweep writes from the row's first output byte to at most the next row's first byte, plus 4 bytes for a non-last row |
| Pairs.PairTotals | BoxBlur.h:107-110 | the opening loop leaves lanes 0-3 holding the window sums of output column 0 and lanes 4-7 those of column 1 |
| Pairs.ProcessCols | BoxBlur.h:92-103 | `processCols` moves the register from columns j − 1, j to columns j + 1, j + 2, completes pixel j + 1 (and j + 2 with the 8-byte store) and writes nothing else |
| Pairs.ProcessRow | BoxBlur.h:105-118 | `processRow` completes every output pixel of row i. It writes only inside that row, except for a non-last row of odd width, whose one extra pixel at column width − 128 is the first pixel of row i + 1 and holds that window's reference byte |
| Pairs.PairStep | BoxBlur.h:114-116 | one pass of the pair loop: `processCols<false>` at column j extends the finished prefix of row i from j + 1 to j + 3 columns, keeps the register on the window pair, and changes only those two pixels |
| Pairs.FinishRow | BoxBlur.h:113-117 | the tail completes the row: it writes the one remaining column width − 129, which happens exactly when width is odd, and for a non-last row its 8-byte store also fills the next row's first pixel, exactly when `Spills` holds; nothing else changes |
| Pairs.RowsWritten | BoxBlur.h:120-126 | `_boxBlur` writes at least one row, and exactly rows rows when rows ≥ 1 |
| Pairs.BoxBlurRows | BoxBlur.h:120-126 | `_boxBlur` blurs rows start … start+RowsWritten(rows)−1 and leaves every other byte unchanged: each spill is overwritten, and the last row does not spill |
| Pairs.TransposableRow | BoxBlur.h:129-141 | one row of the transposable filter blurs that row with 4-byte stores that stay inside it |
| Pairs.TransposableBlur | BoxBlur.h:128-142 | the transposable filter blurs its rows and changes nothing else |
| Dispatch.Degree | BoxBlur.h:147 | hw_concur is the smaller of height >> 4 and the hardware concurrency |
| Dispatch.Stride | BoxBlur.h:150 | thread_stride is the least s with s·n ≥ height, i.e. ⌈height / n⌉ |
| Dispatch.TilesInside | BoxBlur.h:152-155 | the ranges of a tiling are pairwise disjoint and lie inside rows 0 … height−1 |
| Dispatch.Ranges | BoxBlur.h:150-155 | the ranges as written start at row 0, each starts where the previous one ends, the last ends at row height, and there are at most n of them |
| Dispatch.RangesTileIff | BoxBlur.h:147-155 | for 2 ≤ n ≤ height >> 4 the written ranges tile the rows iff (n − 1)·thread_stride < height |
| Dispatch.RangesOverrun | BoxBlur.h:150-155 | height 321 and 20 workers give stride 17, a range over rows 306 … 322 and a last call at row 323 with −2 rows; the ranges do not tile the image |
| Dispatch.FixedRanges | BoxBlur.h:150-155 | the corrected partition tiles rows 0 … height−1 with at most n ranges of at most thread_stride rows each |
| Dispatch.FewerRanges | BoxBlur.h:150-155 | (height − 1) / thread_stride + 1 ranges never exceed the worker count |
| Dispatch.StrideBack | BoxBlur.h:147-150 | where the written ranges tile the image, the stride of thread_stride-row ranges, (height − 1) / thread_stride + 1, is the worker count again |
| Dispatch.FixedRangesAgree | BoxBlur.h:150-155 | whenever the written ranges tile the image, the corrected ranges are the same ranges |
| Dispatch.BoxBlur | BoxBlur.h:144-165 | `boxBlur` leaves the whole output buffer equal to `Blurred`, with one worker or with many |
| Dispatch.FiltersAgree | main.cpp:66-71 | the reference, scalar and transposable filters and `boxBlur`, run into four separate buffers, leave the same bytes, namely `Blurred` |

## Left out

- `makeTestfile` (file output and `rand()`) and all of `main.cpp` (file
  loading, timing, checksums) are not modelled. `BlurredUnique` states the
  agreement that the comparison loop of `main.cpp` looks for.
- Dispatch.BoxBlur: the `std::async` workers run one after the other
  rather than concurrently, so no interleaving is modelled. Each call's
  `RowsBlurred` contract confines its net effect to its own rows. It
  compares the buffer only before and after the call, so it does not show
  that concurrent calls never write the same byte in between. The one
  store that leaves a row, the spill of a non-last row, stays inside the
  call's range, because the last row of a call does not spill
  (`Pairs.ProcessRow`, `Pairs.RowEndBounds`).
- Dispatch.BoxBlur: `std::thread::hardware_concurrency()` is a parameter
  `hw`. Its cast to `int32_t` is not modelled, since a count of 2^31 or
  more would be needed before the cast changes anything.
- Offsets are unbounded integers. The source computes byte offsets such
  as `4 * (i*width + j) + 511` and `4 * (i*(width - 128) + j)` in signed
  32-bit `int`. These overflow, which is undefined behaviour, once
  4·width·height comes near 2^31 − 1. The model accepts such images and
  gives them the intended offsets, so it does not capture this size limit.
- Dispatch.BoxBlur runs the corrected partition (`FixedRanges`), not the
  written one (see Findings).
- Simd.LoadWiden: the 16-byte `_mm_loadu_si128` is modelled by the 8 bytes
  that `_mm_cvtepu8_epi16` keeps, and the model requires only those 8 bytes
  to lie in the image. At the last columns of the last row the source's
  16-byte loads reach up to 8 bytes past the end of the image.
- Simd.Stream: the non-temporal hint of `_mm_stream_si32` /
  `_mm_stream_si64` (cache bypass and the need for a store fence) is not
  modelled; a stream is an ordinary store.
- Pairs.BoxBlurRows, Pairs.ProcessRow: require width ≥ 130. For width 129
  the source's opening 8-byte store and its tail call both write past the
  single output column of the row, and past the buffer on the last row.
  Filters.ScalarBlur and Pairs.TransposableBlur require width > 128,
  because for width 128 the source stores column 0 into a zero-length
  output.
- Filters.WrapU32, Simd.Wrap16: wrap-around is written as one correction
  by 2^32 or 2^16. It is defined only on the range that a total plus a
  byte, or a byte difference, can reach. `WrapU32IsMod` and `Wrap16IsMod`
  show that on that range it equals the modulo.
- Pairs.FinishRow, Pairs.PairStep and Filters.RefRow, ScalarRow, StoreColumn,
  Filters.StorePixel, Filters.WindowTotals and Simd.StorePacked are parts of
  the source's loop bodies, factored into methods of their own. The
  statements and their order are those of the source.

## Findings

| source | as written | input that shows it | evidently intended | confidence | as-written member | corrected member |
|---|---|---|---|---|---|---|
| BoxBlur.h:150-155 | min(height − 1, hw_concur − 1) ranges of thread_stride rows, then one of height − start rows, even when (hw_concur − 1)·thread_stride ≥ height | height 321 with 20 or more hardware threads: hw_concur 20, stride 17. Range 19 is rows 306 … 322 (rows 321 and 322 lie past the image), and the last call gets start 323 with −2 rows. That `_boxBlur` still processes row 323, so it reads and writes past both buffers | split the rows into consecutive ranges of at most thread_stride rows that end exactly at row height, one worker each | not executed | Dispatch.RangesOverrun | Dispatch.FixedRanges |
