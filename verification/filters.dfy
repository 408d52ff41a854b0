/** The two scalar row filters: the brute-force reference and the sliding
    sum with one running uint32 total per channel. The body of each row
    loop is a method of its own (RefRow, ScalarRow). */
module Filters {
  import opened Window

  /** The exact result of a uint32 total plus a byte or plus the difference
      of two bytes, wrapped modulo 2^32. Such a result is always within one
      period of the uint32 range, so one correction by 2^32 is the whole
      wrap. */
  function WrapU32(x: int): (r: nat)
    requires -0x1_0000_0000 <= x < 0x2_0000_0000
    ensures r < 0x1_0000_0000
    ensures 0 <= x < 0x1_0000_0000 ==> r == x
  {
    if x < 0 then x + 0x1_0000_0000 else if x < 0x1_0000_0000 then x else x - 0x1_0000_0000
  }

  /** WrapU32 is reduction modulo 2^32 on its whole domain. */
  lemma WrapU32IsMod(x: int)
    requires -0x1_0000_0000 <= x < 0x2_0000_0000
    ensures WrapU32(x) == x % 0x1_0000_0000
  {
  }

  /** static_cast<uint8_t>(total >> 7) of a uint32 total. */
  function NarrowShift(total: nat): (r: Byte)
    ensures total < 0x8000 ==> r * 128 <= total < r * 128 + 128
  {
    (total / 128) % 256
  }

  /** Adding the signed difference of the entering and leaving samples to a
      uint32 total that holds the window sum at pixel q - 1 gives the window
      sum at q: the wrap-around of the unsigned addition never changes the
      true value. */
  lemma SlideTotal(img: seq<Byte>, q: nat, c: nat, total: nat)
    requires 1 <= q && c < 4 && 4 * (q + K) <= |img|
    requires total == Win(img, q - 1, c)
    ensures WrapU32(total + (img[4 * q + 508 + c] as int - img[4 * q - 4 + c] as int)) == Win(img, q, c)
  {
    WinSlide(img, q - 1, c);
  }

  /** The narrowing store of a window total is the reference byte. */
  lemma NarrowMean(img: seq<Byte>, width: nat, i: nat, j: nat, c: nat, total: nat)
    requires c < 4 && 4 * (i * width + j + K) <= |img|
    requires total == Win(img, i * width + j, c)
    ensures NarrowShift(total) == Mean(img, width, i, j, c)
  {
  }

  /** The 128-pixel accumulation loop: the four uint32 channel totals of the
      window starting at flat pixel p. No total ever wraps. */
  method WindowTotals(img: seq<Byte>, p: nat) returns (totalR: nat, totalG: nat, totalB: nat, totalA: nat)
    requires 4 * (p + K) <= |img|
    ensures totalR == Win(img, p, 0) && totalG == Win(img, p, 1)
    ensures totalB == Win(img, p, 2) && totalA == Win(img, p, 3)
  {
    totalR, totalG, totalB, totalA := 0, 0, 0, 0;
    for k := 0 to K
      invariant totalR == ChanSum(img, p, 0, k) && totalG == ChanSum(img, p, 1, k)
      invariant totalB == ChanSum(img, p, 2, k) && totalA == ChanSum(img, p, 3, k)
    {
      totalR := WrapU32(totalR + img[4 * (p + k)]);
      totalG := WrapU32(totalG + img[4 * (p + k) + 1]);
      totalB := WrapU32(totalB + img[4 * (p + k) + 2]);
      totalA := WrapU32(totalA + img[4 * (p + k) + 3]);
    }
  }

  /** The four narrowing byte stores of one output pixel at byte offset at. */
  method StorePixel(result: array<Byte>, at: nat, totalR: nat, totalG: nat, totalB: nat, totalA: nat)
    requires at + 4 <= result.Length
    modifies result
    ensures Unchanged(old(result[..]), result[..], at, at + 4)
    ensures result[at] == NarrowShift(totalR) && result[at + 1] == NarrowShift(totalG)
    ensures result[at + 2] == NarrowShift(totalB) && result[at + 3] == NarrowShift(totalA)
  {
    result[at] := NarrowShift(totalR);
    result[at + 1] := NarrowShift(totalG);
    result[at + 2] := NarrowShift(totalB);
    result[at + 3] := NarrowShift(totalA);
  }

  /** The reference filter: for every output pixel of rows
      startRow .. startRow+rows-1 the four channel totals are recomputed
      from the 128 window pixels. An image narrower than the window has no
      output columns, and then nothing is stored. */
  method RefBlur(img: seq<Byte>, width: nat, startRow: nat, rows: nat, result: array<Byte>)
    requires 4 * ((startRow + rows) * width) <= |img|
    requires OutIndex(width, startRow + rows, 0, 0) <= result.Length
    modifies result
    ensures width >= K ==> RowsBlurred(img, width, startRow, rows, old(result[..]), result[..])
    ensures width < K ==> result[..] == old(result[..])
  {
    for i := startRow to startRow + rows
      invariant width >= K ==> RowsBlurred(img, width, startRow, i - startRow, old(result[..]), result[..])
      invariant width < K ==> result[..] == old(result[..])
    {
      if width >= K {
        RowInImage(width, i, startRow + rows, |img|);
        RowFits(width - K, i, startRow + rows);
        ghost var before := result[..];
        RefRow(img, width, i, result);
        RowsBlurredCompose(img, width, startRow, i - startRow, 1, old(result[..]), before, result[..]);
      }
    }
  }

  /** One row of the reference filter. */
  method RefRow(img: seq<Byte>, width: nat, i: nat, result: array<Byte>)
    requires width >= K
    requires 4 * (i * width + width) <= |img|
    requires OutIndex(width, i, width - K, 0) <= result.Length
    modifies result
    ensures RowsBlurred(img, width, i, 1, old(result[..]), result[..])
  {
    RowStart(width, i);
    for j := 0 to width - K
      invariant ColsDone(img, width, i, j, result[..])
      invariant Unchanged(old(result[..]), result[..], OutIndex(width, i, 0, 0), OutIndex(width, i, j, 0))
    {
      var totalR, totalG, totalB, totalA := WindowTotals(img, i * width + j);
      ghost var before := result[..];
      StoreColumn(img, width, i, j, result, totalR, totalG, totalB, totalA);
      UnchangedGrow(old(result[..]), before, result[..], OutIndex(width, i, 0, 0), OutIndex(width, i, j, 0), OutIndex(width, i, j + 1, 0));
    }
    OneRowBlurred(img, width, i, old(result[..]), result[..]);
  }

  /** The scalar sliding filter over rows startRow .. startRow+rows-1. */
  method ScalarBlur(img: seq<Byte>, width: nat, startRow: nat, rows: nat, result: array<Byte>)
    requires width > K
    requires 4 * ((startRow + rows) * width) <= |img|
    requires OutIndex(width, startRow + rows, 0, 0) <= result.Length
    modifies result
    ensures RowsBlurred(img, width, startRow, rows, old(result[..]), result[..])
  {
    for i := startRow to startRow + rows
      invariant RowsBlurred(img, width, startRow, i - startRow, old(result[..]), result[..])
    {
      RowInImage(width, i, startRow + rows, |img|);
      RowFits(width - K, i, startRow + rows);
      ghost var before := result[..];
      ScalarRow(img, width, i, result);
      RowsBlurredCompose(img, width, startRow, i - startRow, 1, old(result[..]), before, result[..]);
    }
  }

  /** One row of the scalar sliding filter: the totals of column 0 are
      summed once; each later column j adds pixel j + 127 (byte offset +508)
      and subtracts pixel j - 1 (byte offset -4). The signed difference wraps
      the uint32 total, but the total always equals the window sum. */
  method ScalarRow(img: seq<Byte>, width: nat, i: nat, result: array<Byte>)
    requires width > K
    requires 4 * (i * width + width) <= |img|
    requires OutIndex(width, i, width - K, 0) <= result.Length
    modifies result
    ensures RowsBlurred(img, width, i, 1, old(result[..]), result[..])
  {
    RowStart(width, i);
    var totalR, totalG, totalB, totalA := WindowTotals(img, i * width);
    StoreColumn(img, width, i, 0, result, totalR, totalG, totalB, totalA);
    for j := 1 to width - K
      invariant totalR == Win(img, i * width + j - 1, 0) && totalG == Win(img, i * width + j - 1, 1)
      invariant totalB == Win(img, i * width + j - 1, 2) && totalA == Win(img, i * width + j - 1, 3)
      invariant ColsDone(img, width, i, j, result[..])
      invariant Unchanged(old(result[..]), result[..], OutIndex(width, i, 0, 0), OutIndex(width, i, j, 0))
    {
      SlideTotal(img, i * width + j, 0, totalR);
      SlideTotal(img, i * width + j, 1, totalG);
      SlideTotal(img, i * width + j, 2, totalB);
      SlideTotal(img, i * width + j, 3, totalA);
      totalR := WrapU32(totalR + (img[4 * (i * width + j) + 508] as int - img[4 * (i * width + j) - 4] as int));
      totalG := WrapU32(totalG + (img[4 * (i * width + j) + 509] as int - img[4 * (i * width + j) - 3] as int));
      totalB := WrapU32(totalB + (img[4 * (i * width + j) + 510] as int - img[4 * (i * width + j) - 2] as int));
      totalA := WrapU32(totalA + (img[4 * (i * width + j) + 511] as int - img[4 * (i * width + j) - 1] as int));
      ghost var before := result[..];
      StoreColumn(img, width, i, j, result, totalR, totalG, totalB, totalA);
      UnchangedGrow(old(result[..]), before, result[..], OutIndex(width, i, 0, 0), OutIndex(width, i, j, 0), OutIndex(width, i, j + 1, 0));
    }
    OneRowBlurred(img, width, i, old(result[..]), result[..]);
  }

  /** Stores output pixel j of row i from window totals that hold the
      window sums of input pixel i * width + j: column j becomes done and
      the write stays inside that pixel. */
  method StoreColumn(img: seq<Byte>, width: nat, i: nat, j: nat, result: array<Byte>,
                     totalR: nat, totalG: nat, totalB: nat, totalA: nat)
    requires j < width - K && 4 * (i * width + width) <= |img|
    requires OutIndex(width, i, width - K, 0) <= result.Length
    requires totalR == Win(img, i * width + j, 0) && totalG == Win(img, i * width + j, 1)
    requires totalB == Win(img, i * width + j, 2) && totalA == Win(img, i * width + j, 3)
    requires ColsDone(img, width, i, j, result[..])
    modifies result
    ensures ColsDone(img, width, i, j + 1, result[..])
    ensures Unchanged(old(result[..]), result[..], OutIndex(width, i, j, 0), OutIndex(width, i, j + 1, 0))
  {
    RowStart(width, i);
    NarrowMean(img, width, i, j, 0, totalR);
    NarrowMean(img, width, i, j, 1, totalG);
    NarrowMean(img, width, i, j, 2, totalB);
    NarrowMean(img, width, i, j, 3, totalA);
    StorePixel(result, OutIndex(width, i, j, 0), totalR, totalG, totalB, totalA);
    ColsExtend(img, width, i, j, 1, OutIndex(width, i, j + 1, 0), old(result[..]), result[..]);
  }
}
