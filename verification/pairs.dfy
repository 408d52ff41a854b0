/** The SSE filters. One register carries the window sums of two adjacent
    output pixels; each step adds the two entering pixels and subtracts the
    two leaving ones. ProcessCols advances two columns, ProcessRow sweeps
    one row, BoxBlurRows is the row loop of _boxBlur, and
    TransposableBlur advances one column per step and stores one pixel at
    a time. */
module Pairs {
  import opened Window
  import opened Simd

  /** The image is wide enough for the pair filter: the register always
      carries two output columns. */
  const MinWidth: nat := K + 2

  /** Whether sweeping row i as a non-last row writes the window of output
      column width - 128 into the first pixel of the next output row. The
      sweep advances two columns per step, so an odd output width leaves
      one column over, and the final step then stores one pixel too many
      unless it runs as a last row. */
  predicate Spills(lastRow: bool, width: nat) {
    !lastRow && width % 2 == 1
  }

  /** One past the last output byte a sweep of row i may write. */
  function RowEnd(width: nat, i: nat, lastRow: bool): int {
    OutIndex(width, i, width - K, 0) + (if Spills(lastRow, width) then 4 else 0)
  }

  /** A sweep of row i writes from the row's first output byte up to at
      most the first byte of row i + 1, plus the one spilled pixel. */
  lemma RowEndBounds(width: nat, i: nat, lastRow: bool)
    requires width >= MinWidth
    ensures OutIndex(width, i, 0, 0) <= RowEnd(width, i, lastRow)
    ensures RowEnd(width, i, lastRow) <= OutIndex(width, i + 1, 0, 0) + (if lastRow then 0 else 4)
  {
    OutNextRow(width, i, 0);
    RowStart(width, i);
  }

  /** The 128-pixel accumulation that opens every row: lanes 0-3 end up
      holding the window sums of the row's pixel 0, lanes 4-7 those of its
      pixel 1. */
  method PairTotals(img: seq<Byte>, p: nat) returns (totals: Reg)
    requires 4 * (p + 1 + K) <= |img|
    ensures HoldsPair(img, p, totals)
  {
    totals := Zero();
    for k := 0 to K
      invariant PartialPair(img, p, k, totals)
    {
      AccumulatePair(img, p, k, totals);
      totals := Add16(totals, LoadWiden(img, 4 * (p + k)));
    }
  }

  /** processCols: two register steps move the window pair from columns
      j - 1, j to columns j + 1, j + 2; then either output pixel j + 1
      (a 4-byte store) or output pixels j + 1 and j + 2 (an 8-byte store)
      are written. Output pixel j + 2 may be the first pixel of the next
      output row. */
  method ProcessCols(img: seq<Byte>, width: nat, i: nat, j: nat, singleLastColumn: bool,
                     result: array<Byte>, totals: Reg) returns (next: Reg)
    requires 1 <= j && j + 2 <= width - K && 4 * (i * width + width) <= |img|
    requires HoldsAt(img, width, i, j - 1, totals)
    requires OutIndex(width, i, j + 1, 0) + (if singleLastColumn then 4 else 8) <= result.Length
    modifies result
    ensures HoldsAt(img, width, i, j + 1, next)
    ensures PixelDone(img, width, i, j + 1, result[..])
    ensures !singleLastColumn ==> PixelDone(img, width, i, j + 2, result[..])
    ensures Unchanged(old(result[..]), result[..], OutIndex(width, i, j + 1, 0),
                      OutIndex(width, i, j + 1 + (if singleLastColumn then 1 else 2), 0))
  {
    RowStart(width, i);
    next := Advance(img, width, i, j, totals);
    next := Advance(img, width, i, j + 1, next);
    StorePacked(img, width, i, j + 1, next, if singleLastColumn then 4 else 8, result);
  }

  /** processRow<lastRow>: the whole output row i is written, and nothing
      outside it except, for a non-last row of odd width, the first output
      pixel of row i + 1, which receives the window of column width - 128. */
  method ProcessRow(img: seq<Byte>, width: nat, i: nat, lastRow: bool, result: array<Byte>)
    requires width >= MinWidth && 4 * (i * width + width) <= |img|
    requires RowEnd(width, i, lastRow) <= result.Length
    modifies result
    ensures ColsDone(img, width, i, width - K, result[..])
    ensures Unchanged(old(result[..]), result[..], OutIndex(width, i, 0, 0), RowEnd(width, i, lastRow))
    ensures Spills(lastRow, width) ==> PixelDone(img, width, i, width - K, result[..])
  {
    RowStart(width, i);
    var totals := PairTotals(img, i * width);
    StorePacked(img, width, i, 0, totals, 8, result);
    ColsExtend(img, width, i, 0, 2, OutIndex(width, i, 2, 0), old(result[..]), result[..]);
    var j := 1;
    ghost var steps := 0;
    while j < width - 130
      invariant 1 <= j <= width - 129 && j == 2 * steps + 1
      invariant HoldsAt(img, width, i, j - 1, totals)
      invariant ColsDone(img, width, i, j + 1, result[..])
      invariant Unchanged(old(result[..]), result[..], OutIndex(width, i, 0, 0), OutIndex(width, i, j + 1, 0))
      decreases width - j
    {
      ghost var before := result[..];
      totals := PairStep(img, width, i, j, result, totals);
      UnchangedGrow(old(result[..]), before, result[..], OutIndex(width, i, 0, 0), OutIndex(width, i, j + 1, 0), OutIndex(width, i, j + 3, 0));
      j := j + 2;
      steps := steps + 1;
    }
    ghost var before := result[..];
    FinishRow(img, width, i, j, steps, lastRow, result, totals);
    UnchangedGrow(old(result[..]), before, result[..], OutIndex(width, i, 0, 0), OutIndex(width, i, j + 1, 0), RowEnd(width, i, lastRow));
  }

  /** One pass of the pair loop of processRow: processCols<false> at
      column j extends the done prefix of row i from j + 1 to j + 3
      columns. */
  method PairStep(img: seq<Byte>, width: nat, i: nat, j: nat, result: array<Byte>, totals: Reg) returns (next: Reg)
    requires 1 <= j && j + 3 <= width - K && 4 * (i * width + width) <= |img|
    requires OutIndex(width, i, width - K, 0) <= result.Length
    requires HoldsAt(img, width, i, j - 1, totals)
    requires ColsDone(img, width, i, j + 1, result[..])
    modifies result
    ensures HoldsAt(img, width, i, j + 1, next)
    ensures ColsDone(img, width, i, j + 3, result[..])
    ensures Unchanged(old(result[..]), result[..], OutIndex(width, i, j + 1, 0), OutIndex(width, i, j + 3, 0))
  {
    next := ProcessCols(img, width, i, j, false, result, totals);
    ColsExtend(img, width, i, j + 1, 2, OutIndex(width, i, j + 3, 0), old(result[..]), result[..]);
  }

  /** The end of processRow<lastRow>, after the pair loop has stopped at
      column j. When width is odd the loop stops at j == width - 130 with
      one column of the row, width - 129, still to write, and one more
      processCols<lastRow> writes it; for a non-last row its 8-byte store
      also fills the first pixel of row i + 1 (Spills). When width is even
      the loop stops at j == width - 129 and the row is already complete. */
  method FinishRow(img: seq<Byte>, width: nat, i: nat, j: nat, ghost steps: nat, lastRow: bool, result: array<Byte>, totals: Reg)
    requires width >= MinWidth && 4 * (i * width + width) <= |img|
    requires RowEnd(width, i, lastRow) <= result.Length
    requires width - 130 <= j <= width - 129 && j == 2 * steps + 1
    requires HoldsAt(img, width, i, j - 1, totals)
    requires ColsDone(img, width, i, j + 1, result[..])
    modifies result
    ensures ColsDone(img, width, i, width - K, result[..])
    ensures Unchanged(old(result[..]), result[..], OutIndex(width, i, j + 1, 0), RowEnd(width, i, lastRow))
    ensures Spills(lastRow, width) ==> PixelDone(img, width, i, width - K, result[..])
  {
    RowStart(width, i);
    if j != width - 129 {
      assert Spills(lastRow, width) == !lastRow by {
        assert width == 2 * steps + 131;
      }
      OutNextRow(width, i, 0);
      assert OutIndex(width, i, j + 1 + (if lastRow then 1 else 2), 0) == RowEnd(width, i, lastRow);
      var next := ProcessCols(img, width, i, j, lastRow, result, totals);
      ColsExtend(img, width, i, j + 1, 1, RowEnd(width, i, lastRow), old(result[..]), result[..]);
    } else {
      assert !Spills(lastRow, width) by {
        assert width == 2 * steps + 130;
      }
    }
  }

  /** The number of rows _boxBlur writes for a requested row count: the
      last row is swept after the loop, so at least one row is written even
      when rows is 0 or negative. */
  function RowsWritten(rows: int): (r: nat)
    ensures r >= 1 && (rows >= 1 ==> r == rows)
  {
    if rows <= 0 then 1 else rows
  }

  /** _boxBlur: rows start .. start+rows-2 are swept as non-last rows, whose
      spill into the next row is overwritten when that row is swept; the
      final row is swept as a last row, so no store leaves the range. */
  method BoxBlurRows(img: seq<Byte>, width: nat, start: nat, rows: int, result: array<Byte>)
    requires width >= MinWidth
    requires 4 * ((start + RowsWritten(rows)) * width) <= |img|
    requires OutIndex(width, start + RowsWritten(rows), 0, 0) <= result.Length
    modifies result
    ensures RowsBlurred(img, width, start, RowsWritten(rows), old(result[..]), result[..])
  {
    var i := start;
    while i < start + rows - 1
      invariant start <= i < start + RowsWritten(rows)
      invariant RowsDone(img, width, start, i, result[..])
      invariant Unchanged(old(result[..]), result[..], OutIndex(width, start, 0, 0), OutIndex(width, i, 0, 0) + 4)
      decreases start + rows - i
    {
      RowInImage(width, i, start + RowsWritten(rows), |img|);
      RowFits(width - K, i + 1, start + RowsWritten(rows));
      OutNextRow(width, i, 0);
      OutNextRow(width, i + 1, 0);
      ghost var before := result[..];
      ProcessRow(img, width, i, false, result);
      RowsKept(img, width, start, i, before, result[..], OutIndex(width, i, 0, 0), RowEnd(width, i, false));
      RowsDoneExtend(img, width, start, i, result[..]);
      OutAbove(width, i, 0, 0, start);
      RowEndBounds(width, i, false);
      UnchangedJoin(old(result[..]), before, result[..], OutIndex(width, start, 0, 0), OutIndex(width, i, 0, 0) + 4,
                    OutIndex(width, i, 0, 0), RowEnd(width, i, false), OutIndex(width, start, 0, 0), OutIndex(width, i + 1, 0, 0) + 4);
      i := i + 1;
    }
    RowInImage(width, i, start + RowsWritten(rows), |img|);
    RowFits(width - K, i, start + RowsWritten(rows));
    OutNextRow(width, i, 0);
    ghost var before := result[..];
    ProcessRow(img, width, i, true, result);
    RowsKept(img, width, start, i, before, result[..], OutIndex(width, i, 0, 0), RowEnd(width, i, true));
    RowsDoneExtend(img, width, start, i, result[..]);
    OutAbove(width, i, 0, 0, start);
    RowEndBounds(width, i, true);
    UnchangedJoin(old(result[..]), before, result[..], OutIndex(width, start, 0, 0), OutIndex(width, i, 0, 0) + 4,
                  OutIndex(width, i, 0, 0), RowEnd(width, i, true), OutIndex(width, start, 0, 0), OutIndex(width, i + 1, 0, 0));
  }

  /** _boxBlurTransposable over rows start .. start+rows-1. */
  method TransposableBlur(img: seq<Byte>, width: nat, start: nat, rows: nat, result: array<Byte>)
    requires width > K
    requires 4 * ((start + rows) * width) <= |img|
    requires OutIndex(width, start + rows, 0, 0) <= result.Length
    modifies result
    ensures RowsBlurred(img, width, start, rows, old(result[..]), result[..])
  {
    for i := start to start + rows
      invariant RowsBlurred(img, width, start, i - start, old(result[..]), result[..])
    {
      RowInImage(width, i, start + rows, |img|);
      RowFits(width - K, i, start + rows);
      ghost var before := result[..];
      TransposableRow(img, width, i, result);
      RowsBlurredCompose(img, width, start, i - start, 1, old(result[..]), before, result[..]);
    }
  }

  /** One row of _boxBlurTransposable: one register step and one 4-byte
      store per output column, so every store stays inside the row. */
  method TransposableRow(img: seq<Byte>, width: nat, i: nat, result: array<Byte>)
    requires width > K
    requires 4 * (i * width + width) <= |img|
    requires OutIndex(width, i, width - K, 0) <= result.Length
    modifies result
    ensures RowsBlurred(img, width, i, 1, old(result[..]), result[..])
  {
    RowStart(width, i);
    var totals := PairTotals(img, i * width);
    StorePacked(img, width, i, 0, totals, 4, result);
    ColsExtend(img, width, i, 0, 1, OutIndex(width, i, 1, 0), old(result[..]), result[..]);
    for j := 1 to width - K
      invariant HoldsAt(img, width, i, j - 1, totals)
      invariant ColsDone(img, width, i, j, result[..])
      invariant Unchanged(old(result[..]), result[..], OutIndex(width, i, 0, 0), OutIndex(width, i, j, 0))
    {
      totals := Advance(img, width, i, j, totals);
      ghost var before := result[..];
      StorePacked(img, width, i, j, totals, 4, result);
      ColsExtend(img, width, i, j, 1, OutIndex(width, i, j + 1, 0), before, result[..]);
      UnchangedGrow(old(result[..]), before, result[..], OutIndex(width, i, 0, 0), OutIndex(width, i, j, 0), OutIndex(width, i, j + 1, 0));
    }
    OneRowBlurred(img, width, i, old(result[..]), result[..]);
  }
}
