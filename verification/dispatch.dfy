/** boxBlur<multithread>: the split of the image rows into one range per
    worker and the dispatch of _boxBlur over those ranges. The workers of
    the source run concurrently; here they run one after the other, which
    gives the same buffer because each call writes only its own rows. */
module Dispatch {
  import opened Window
  import opened Pairs
  import opened Filters

  /** hw_concur: the smaller of height >> 4 and the hardware concurrency. */
  function Degree(height: nat, hw: nat): (n: nat)
    ensures n <= height / 16 && n <= hw
    ensures n == height / 16 || n == hw
  {
    if height / 16 < hw then height / 16 else hw
  }

  /** thread_stride = (height - 1) / n + 1, the rows per worker: the least
      s with s * n >= height. */
  function Stride(height: nat, n: nat): (s: nat)
    requires height >= 1 && n >= 1
    ensures s >= 1 && (s - 1) * n < height <= s * n
  {
    var q := (height - 1) / n;
    assert height - 1 == q * n + (height - 1) % n;
    q + 1
  }

  /** The rows start .. start+rows-1 handed to one _boxBlur call. */
  datatype Range = Range(start: nat, rows: int)

  /** count ranges: count - 1 of s rows each starting at row 0, then one
      from (count - 1) * s up to row height. */
  function Split(height: nat, s: nat, count: nat): (r: seq<Range>)
    requires count >= 1
    ensures |r| == count
    ensures forall k | 0 <= k < count - 1 :: r[k] == Range(k * s, s)
    ensures r[count - 1] == Range((count - 1) * s, height - (count - 1) * s)
  {
    seq(count - 1, k requires 0 <= k < count - 1 => Range(k * s, s)) + [Range((count - 1) * s, height - (count - 1) * s)]
  }

  /** The ranges start at row 0, each starts where the previous one ends,
      each holds at least one row, and the last ends at row height. */
  predicate Tiles(r: seq<Range>, height: nat) {
    |r| >= 1 && r[0].start == 0 && r[|r| - 1].start + r[|r| - 1].rows == height
    && (forall k | 0 <= k < |r| - 1 :: r[k].start + r[k].rows == r[k + 1].start)
    && (forall k | 0 <= k < |r| :: r[k].rows >= 1)
  }

  /** In a tiling, range k ends no later than any later range starts. */
  lemma {:induction false} EndsBefore(r: seq<Range>, height: nat, k: nat, l: nat)
    requires Tiles(r, height) && k < l < |r|
    ensures r[k].start + r[k].rows <= r[l].start
    decreases l - k
  {
    if k + 1 < l {
      EndsBefore(r, height, k + 1, l);
    }
  }

  /** The ranges of a tiling are pairwise disjoint and lie inside rows
      0 .. height-1. */
  lemma TilesInside(r: seq<Range>, height: nat)
    requires Tiles(r, height)
    ensures forall k, l | 0 <= k < l < |r| :: r[k].start + r[k].rows <= r[l].start
    ensures forall k | 0 <= k < |r| :: r[k].start + r[k].rows <= height
  {
    forall k, l | 0 <= k < l < |r|
      ensures r[k].start + r[k].rows <= r[l].start
    {
      EndsBefore(r, height, k, l);
    }
    forall k | 0 <= k < |r| - 1
      ensures r[k].start + r[k].rows <= height
    {
      EndsBefore(r, height, k, |r| - 1);
    }
  }

  /** The ranges of boxBlur<true> as written: min(height - 1, n - 1)
      launches of thread_stride rows, start advancing by thread_stride,
      then one launch with height - start rows. */
  function Ranges(height: nat, n: nat): (r: seq<Range>)
    requires height >= 1 && n >= 2
    ensures 1 <= |r| <= n && r[0].start == 0
    ensures forall k | 0 <= k < |r| - 1 :: r[k].start + r[k].rows == r[k + 1].start
    ensures r[|r| - 1].start + r[|r| - 1].rows == height
  {
    var s := Stride(height, n);
    var launched := if height - 1 < n - 1 then height - 1 else n - 1;
    var r := Split(height, s, launched + 1);
    assert forall k | 0 <= k < |r| - 1 :: r[k].start + r[k].rows == r[k + 1].start by {
      forall k | 0 <= k < |r| - 1
        ensures r[k].start + r[k].rows == r[k + 1].start
      {
        assert (k + 1) * s == k * s + s;
      }
    }
    r
  }

  /** For every worker count boxBlur<true> can reach, the written ranges
      tile the image exactly when the last start (n - 1) * thread_stride
      lies inside it. */
  lemma RangesTileIff(height: nat, n: nat)
    requires 2 <= n <= height / 16
    ensures Tiles(Ranges(height, n), height) <==> (n - 1) * Stride(height, n) < height
  {
    var r := Ranges(height, n);
    var s := Stride(height, n);
    assert |r| == n;
    assert r[n - 1].start == (n - 1) * s;
  }

  /** With height 321 and 20 workers the stride is 17: the nineteenth
      range covers rows 306 .. 322, past the last row 320, and the last
      call starts at row 323 with -2 rows. */
  lemma RangesOverrun()
    ensures Degree(321, 20) == 20 && Stride(321, 20) == 17
    ensures Ranges(321, 20)[18] == Range(306, 17)
    ensures Ranges(321, 20)[19] == Range(323, -2)
    ensures !Tiles(Ranges(321, 20), 321)
  {
    var r := Ranges(321, 20);
    assert r == Split(321, 17, 20);
    assert r[19].rows < 1;
  }

  /** The corrected partition: thread_stride rows per range, and only as
      many ranges, (height - 1) / thread_stride + 1, as it takes to reach
      row height. */
  function FixedRanges(height: nat, n: nat): (r: seq<Range>)
    requires height >= 1 && n >= 1
    ensures Tiles(r, height) && |r| <= n
    ensures forall k | 0 <= k < |r| :: r[k].rows <= Stride(height, n)
  {
    var s := Stride(height, n);
    var m := Stride(height, s);
    var r := Split(height, s, m);
    assert forall k | 0 <= k < |r| - 1 :: r[k].start + r[k].rows == r[k + 1].start by {
      forall k | 0 <= k < |r| - 1
        ensures r[k].start + r[k].rows == r[k + 1].start
      {
        assert (k + 1) * s == k * s + s;
      }
    }
    FewerRanges(height, n);
    r
  }

  /** The corrected partition never needs more ranges than workers. */
  lemma FewerRanges(height: nat, n: nat)
    requires height >= 1 && n >= 1
    ensures Stride(height, Stride(height, n)) <= n
  {
    var s := Stride(height, n);
    var m := Stride(height, s);
    if m > n {
      RowMono(s, n, m - 1);
      assert false;
    }
  }

  /** Where the written ranges tile the image, the stride of the
      corrected partition recovers the worker count, and there are at least
      as many rows as workers. */
  lemma StrideBack(height: nat, n: nat)
    requires height >= 1 && n >= 2
    requires (n - 1) * Stride(height, n) < height
    ensures Stride(height, Stride(height, n)) == n && height - 1 >= n - 1
  {
    var s := Stride(height, n);
    DivModUnique(height - 1, s, n - 1, height - 1 - (n - 1) * s);
    if height - 1 < n - 1 {
      RowMono(s, 1, n - 1);
      assert false;
    }
  }

  /** Where the written ranges do tile the image, the corrected ranges are
      exactly the written ones. */
  lemma FixedRangesAgree(height: nat, n: nat)
    requires height >= 1 && n >= 2
    requires (n - 1) * Stride(height, n) < height
    ensures FixedRanges(height, n) == Ranges(height, n)
  {
    StrideBack(height, n);
    var s := Stride(height, n);
    assert Ranges(height, n) == Split(height, s, n);
    assert FixedRanges(height, n) == Split(height, s, n);
  }

  /** boxBlur<multithread>: with more than one worker, one _boxBlur call
      per range of the corrected partition; otherwise one call over all
      rows. Either way the whole buffer becomes the blurred image. */
  method BoxBlur(img: seq<Byte>, width: nat, height: nat, multithread: bool, hw: nat, result: array<Byte>)
    requires width >= MinWidth && height >= 1
    requires |img| == 4 * (height * width)
    requires result.Length == OutIndex(width, height, 0, 0)
    modifies result
    ensures RowsBlurred(img, width, 0, height, old(result[..]), result[..])
    ensures result[..] == Blurred(img, width, height)
  {
    var n := Degree(height, hw);
    if multithread && n > 1 {
      var ranges := FixedRanges(height, n);
      TilesInside(ranges, height);
      var done: nat := 0;
      for k := 0 to |ranges|
        invariant done == (if k < |ranges| then ranges[k].start else height)
        invariant RowsBlurred(img, width, 0, done, old(result[..]), result[..])
      {
        var range := ranges[k];
        RowMono(width, range.start + range.rows, height);
        RowMono(width - K, range.start + range.rows, height);
        ghost var before := result[..];
        BoxBlurRows(img, width, range.start, range.rows, result);
        RowsBlurredCompose(img, width, 0, done, range.rows, old(result[..]), before, result[..]);
        done := range.start + range.rows;
      }
    } else {
      BoxBlurRows(img, width, 0, height, result);
    }
    BlurredUnique(img, width, height, old(result[..]), result[..]);
  }

  /** The four filters over all rows, each into a buffer of its own, leave
      the same bytes: the reference, the scalar, the transposable filter and
      boxBlur all produce `Blurred`. */
  method FiltersAgree(img: seq<Byte>, width: nat, height: nat, multithread: bool, hw: nat,
                      reference: array<Byte>, scalar: array<Byte>, transposable: array<Byte>, out: array<Byte>)
    requires width >= MinWidth && height >= 1
    requires |img| == 4 * (height * width)
    requires reference.Length == scalar.Length == transposable.Length == out.Length == OutIndex(width, height, 0, 0)
    requires reference != scalar && reference != transposable && reference != out
    requires scalar != transposable && scalar != out && transposable != out
    modifies reference, scalar, transposable, out
    ensures reference[..] == scalar[..] == transposable[..] == out[..] == Blurred(img, width, height)
  {
    RefBlur(img, width, 0, height, reference);
    BlurredUnique(img, width, height, old(reference[..]), reference[..]);
    ScalarBlur(img, width, 0, height, scalar);
    BlurredUnique(img, width, height, old(scalar[..]), scalar[..]);
    TransposableBlur(img, width, 0, height, transposable);
    BlurredUnique(img, width, height, old(transposable[..]), transposable[..]);
    BoxBlur(img, width, height, multithread, hw, out);
  }
}
