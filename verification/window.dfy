/** The box-filter specification shared by every filter: window sums over
    one channel of a row-major 4-channel byte image, the reference output
    byte, the layout of the output buffer, and what "rows start..start+rows
    have been blurred" means for a whole buffer. */
module Window {

  /** One unsigned 8-bit channel sample. */
  type Byte = x: int | 0 <= x < 256

  /** The fixed window width; an output row keeps width - K pixels. */
  const K: nat := 128

  /** The largest window sum, 128 * 255. */
  const MaxWin: nat := 32640

  /** Channel c of the pixel at flat index p (pixel p occupies bytes
      4p .. 4p+3). */
  function Sample(img: seq<Byte>, p: nat, c: nat): Byte
    requires c < 4 && 4 * (p + 1) <= |img|
  {
    img[4 * p + c]
  }

  /** Sum of channel c over the n pixels starting at flat pixel index p. */
  function ChanSum(img: seq<Byte>, p: nat, c: nat, n: nat): (r: nat)
    requires c < 4 && 4 * (p + n) <= |img|
    ensures r <= 255 * n
  {
    if n == 0 then 0 else ChanSum(img, p, c, n - 1) + Sample(img, p + n - 1, c)
  }

  /** The 128-pixel window sum of channel c starting at pixel p. */
  function Win(img: seq<Byte>, p: nat, c: nat): (r: nat)
    requires c < 4 && 4 * (p + K) <= |img|
    ensures r <= MaxWin
  {
    ChanSum(img, p, c, K)
  }

  /** The reference output byte of row i, column j, channel c: the window
      sum shifted right by 7. It always fits a byte, so the narrowing cast
      of the source never changes it. */
  function Mean(img: seq<Byte>, width: nat, i: nat, j: nat, c: nat): (r: Byte)
    requires c < 4 && 4 * (i * width + j + K) <= |img|
    ensures r * 128 <= Win(img, i * width + j, c) < r * 128 + 128
  {
    Win(img, i * width + j, c) / 128
  }

  /** Byte offset of channel c of output pixel (i, j); output rows are
      width - K pixels wide. */
  function OutIndex(width: nat, i: nat, j: int, c: int): int {
    4 * (i * (width - K) + j) + c
  }

  /** Sliding the window one pixel right adds the entering pixel p + n and
      drops the leaving pixel p. */
  lemma {:induction false} ChanSumSlide(img: seq<Byte>, p: nat, c: nat, n: nat)
    requires c < 4 && 4 * (p + 1 + n) <= |img|
    ensures ChanSum(img, p + 1, c, n) == ChanSum(img, p, c, n) + Sample(img, p + n, c) - Sample(img, p, c)
  {
    if n > 0 {
      ChanSumSlide(img, p, c, n - 1);
    }
  }

  /** Win(p + 1) = Win(p) + pixel p + 128 - pixel p, the recurrence every
      incremental filter relies on. */
  lemma WinSlide(img: seq<Byte>, p: nat, c: nat)
    requires c < 4 && 4 * (p + 1 + K) <= |img|
    ensures Win(img, p + 1, c) == Win(img, p, c) + Sample(img, p + K, c) - Sample(img, p, c)
  {
    ChanSumSlide(img, p, c, K);
  }

  /** A window whose samples of channel c all equal v sums to n * v. */
  lemma {:induction false} ChanSumConstant(img: seq<Byte>, p: nat, c: nat, n: nat, v: Byte)
    requires c < 4 && 4 * (p + n) <= |img|
    requires forall x :: p <= x < p + n ==> Sample(img, x, c) == v
    ensures ChanSum(img, p, c, n) == n * v
  {
    if n > 0 {
      ChanSumConstant(img, p, c, n - 1, v);
    }
  }

  /** Constant-image law: a window of equal samples averages to that sample. */
  lemma MeanConstant(img: seq<Byte>, width: nat, i: nat, j: nat, c: nat, v: Byte)
    requires c < 4 && 4 * (i * width + j + K) <= |img|
    requires forall x :: i * width + j <= x < i * width + j + K ==> Sample(img, x, c) == v
    ensures Mean(img, width, i, j, c) == v
  {
    ChanSumConstant(img, i * width + j, c, K, v);
  }

  /** A sum over samples that are all 0 except pixel x, which holds 255, is
      255 when x is among the n pixels and 0 otherwise. */
  lemma {:induction false} ChanSumImpulse(img: seq<Byte>, p: nat, c: nat, n: nat, x: nat)
    requires c < 4 && 4 * (p + n) <= |img|
    requires forall y | p <= y < p + n && y != x :: Sample(img, y, c) == 0
    requires p <= x < p + n ==> Sample(img, x, c) == 255
    ensures ChanSum(img, p, c, n) == (if p <= x < p + n then 255 else 0)
  {
    if n > 0 {
      ChanSumImpulse(img, p, c, n - 1, x);
    }
  }

  /** Single-impulse law: in a window whose samples are all 0 except pixel
      x, which holds 255, the output byte is 1 when the window covers x and
      0 otherwise. */
  lemma MeanImpulse(img: seq<Byte>, width: nat, i: nat, j: nat, c: nat, x: nat)
    requires c < 4 && 4 * (i * width + j + K) <= |img|
    requires forall y | i * width + j <= y < i * width + j + K && y != x :: Sample(img, y, c) == 0
    requires i * width + j <= x < i * width + j + K ==> Sample(img, x, c) == 255
    ensures Mean(img, width, i, j, c) == (if i * width + j <= x < i * width + j + K then 1 else 0)
  {
    ChanSumImpulse(img, i * width + j, c, K, x);
  }

  /** A window sum depends only on the samples inside the window. */
  lemma {:induction false} ChanSumLocal(a: seq<Byte>, b: seq<Byte>, p: nat, c: nat, n: nat)
    requires c < 4 && 4 * (p + n) <= |a| && 4 * (p + n) <= |b|
    requires forall x :: p <= x < p + n ==> Sample(a, x, c) == Sample(b, x, c)
    ensures ChanSum(a, p, c, n) == ChanSum(b, p, c, n)
  {
    if n > 0 {
      ChanSumLocal(a, b, p, c, n - 1);
    }
  }

  /** Row independence: two images that agree on row i give the same output
      bytes for row i, whatever the other rows hold. */
  lemma MeanRowLocal(a: seq<Byte>, b: seq<Byte>, width: nat, i: nat, j: nat, c: nat)
    requires c < 4 && j + K <= width
    requires 4 * (i * width + width) <= |a| && 4 * (i * width + width) <= |b|
    requires forall x :: 4 * (i * width) <= x < 4 * (i * width + width) ==> a[x] == b[x]
    ensures Mean(a, width, i, j, c) == Mean(b, width, i, j, c)
  {
    forall x | i * width + j <= x < i * width + j + K
      ensures Sample(a, x, c) == Sample(b, x, c)
    {
      assert 4 * (i * width) <= 4 * x + c < 4 * (i * width + width);
    }
    ChanSumLocal(a, b, i * width + j, c, K);
  }

  // ---------------------------------------------------------------------
  // Row arithmetic of the row-major layouts.

  /** Row i of an image w pixels wide starts at a non-negative offset, both
      in the input and in the output. */
  lemma RowStart(w: nat, i: nat)
    ensures 0 <= i * w
    ensures w >= K ==> 0 <= i * (w - K)
  {
  }

  /** Rows before row n end no later than row n starts. */
  lemma RowFits(w: nat, i: nat, n: nat)
    requires i < n
    ensures i * w + w <= n * w
  {
    var d := n - i - 1;
    assert n * w == (i + 1 + d) * w == i * w + w + d * w;
    assert 0 <= d * w;
  }

  /** Row starts grow with the row number. */
  lemma RowMono(w: nat, i: nat, n: nat)
    requires i <= n
    ensures i * w <= n * w
  {
    var d := n - i;
    assert n * w == (i + d) * w == i * w + d * w;
    assert 0 <= d * w;
  }

  /** Every output byte of a row before row n lies below row n's first byte. */
  lemma OutBelow(width: nat, i: nat, j: int, c: int, n: nat)
    requires width >= K && i < n && 0 <= j < width - K && 0 <= c < 4
    ensures 0 <= OutIndex(width, i, j, c) < OutIndex(width, n, 0, 0)
  {
    RowFits(width - K, i, n);
  }

  /** Every output byte of a row from row n on lies at or above row n's first byte. */
  lemma OutAbove(width: nat, i: nat, j: int, c: int, n: nat)
    requires width >= K && n <= i && 0 <= j && 0 <= c
    ensures OutIndex(width, n, 0, 0) <= OutIndex(width, i, j, c)
  {
    RowMono(width - K, n, i);
  }

  /** The byte after the last output pixel of row i is the first byte of row i + 1. */
  lemma OutNextRow(width: nat, i: nat, c: int)
    ensures OutIndex(width, i, width - K, c) == OutIndex(width, i + 1, 0, c)
  {
    assert (i + 1) * (width - K) == i * (width - K) + (width - K);
  }

  /** Row i lies inside an image of at least n rows. */
  lemma RowInImage(width: nat, i: nat, n: nat, len: nat)
    requires i < n && 4 * (n * width) <= len
    ensures 4 * (i * width + width) <= len
  {
    RowFits(width, i, n);
  }

  // ---------------------------------------------------------------------
  // What a filter call over rows start .. start+rows-1 promises.

  /** Row i lies in the image and every channel of the first n output
      pixels of row i in `out` holds its reference byte. */
  ghost predicate ColsDone(img: seq<Byte>, width: nat, i: nat, n: nat, out: seq<Byte>) {
    4 * (i * width + width) <= |img| && n <= width - K
    && forall j, c | 0 <= j < n && 0 <= c < 4 ::
         0 <= OutIndex(width, i, j, c) < |out| && out[OutIndex(width, i, j, c)] == Mean(img, width, i, j, c)
  }

  /** Every channel of output pixel (i, j) in `out` holds the reference
      byte of the window starting at input pixel i * width + j. Output pixel
      (i, width - 128) is the first pixel of output row i + 1. */
  ghost predicate PixelDone(img: seq<Byte>, width: nat, i: nat, j: nat, out: seq<Byte>) {
    4 * (i * width + j + K) <= |img|
    && forall c | 0 <= c < 4 :: 0 <= OutIndex(width, i, j, c) < |out| && out[OutIndex(width, i, j, c)] == Mean(img, width, i, j, c)
  }

  /** Every output pixel of row i is done in `out`. */
  ghost predicate RowDone(img: seq<Byte>, width: nat, i: nat, out: seq<Byte>) {
    width >= K && ColsDone(img, width, i, width - K, out)
  }

  /** Every row a .. b-1 is done in `out`. */
  ghost predicate RowsDone(img: seq<Byte>, width: nat, a: nat, b: nat, out: seq<Byte>) {
    forall i | a <= i < b :: RowDone(img, width, i, out)
  }

  /** `after` differs from `before` at most in the bytes lo .. hi-1. */
  ghost predicate Unchanged(before: seq<Byte>, after: seq<Byte>, lo: int, hi: int) {
    |after| == |before|
    && forall q | 0 <= q < |after| && !(lo <= q < hi) :: after[q] == before[q]
  }

  /** The output buffer `after` holds the reference byte at every channel of
      every output pixel of rows start .. start+rows-1, and agrees with
      `before` on every other byte. */
  ghost predicate RowsBlurred(img: seq<Byte>, width: nat, start: nat, rows: nat, before: seq<Byte>, after: seq<Byte>) {
    RowsDone(img, width, start, start + rows, after)
    && Unchanged(before, after, OutIndex(width, start, 0, 0), OutIndex(width, start + rows, 0, 0))
  }

  /** Writes at or above row b's first output byte keep rows a .. b-1 done. */
  lemma RowsKept(img: seq<Byte>, width: nat, a: nat, b: nat, s: seq<Byte>, t: seq<Byte>, lo: int, hi: int)
    requires width >= K && RowsDone(img, width, a, b, s)
    requires Unchanged(s, t, lo, hi) && OutIndex(width, b, 0, 0) <= lo
    ensures RowsDone(img, width, a, b, t)
  {
    forall i | a <= i < b
      ensures RowDone(img, width, i, t)
    {
      assert RowDone(img, width, i, s);
      forall j, c | 0 <= j < width - K && 0 <= c < 4
        ensures t[OutIndex(width, i, j, c)] == s[OutIndex(width, i, j, c)]
      {
        OutBelow(width, i, j, c, b);
      }
    }
  }


  /** Storing the reference bytes of pixels n .. n+m-1 of row i, with
      every change at or above pixel n's first byte, extends the done prefix
      of the row by m pixels. */
  lemma ColsExtend(img: seq<Byte>, width: nat, i: nat, n: nat, m: nat, hi: int, s: seq<Byte>, t: seq<Byte>)
    requires ColsDone(img, width, i, n, s) && n + m <= width - K
    requires Unchanged(s, t, OutIndex(width, i, n, 0), hi)
    requires forall j | n <= j < n + m :: PixelDone(img, width, i, j, t)
    ensures ColsDone(img, width, i, n + m, t)
  {
    RowStart(width, i);
    forall j, c | 0 <= j < n + m && 0 <= c < 4
      ensures 0 <= OutIndex(width, i, j, c) < |t| && t[OutIndex(width, i, j, c)] == Mean(img, width, i, j, c)
    {
      if j < n {
        assert s[OutIndex(width, i, j, c)] == Mean(img, width, i, j, c);
      } else {
        assert PixelDone(img, width, i, j, t);
      }
    }
  }

  /** Frames compose: changes confined to lo .. mid-1 followed by changes
      confined to mid .. hi-1 are confined to lo .. hi-1. */
  lemma UnchangedGrow(a: seq<Byte>, b: seq<Byte>, c: seq<Byte>, lo: int, mid: int, hi: int)
    requires lo <= mid <= hi && Unchanged(a, b, lo, mid) && Unchanged(b, c, mid, hi)
    ensures Unchanged(a, c, lo, hi)
  {
  }

  /** Frames compose whatever the overlap: changes confined to
      lo1 .. hi1-1 followed by changes confined to lo2 .. hi2-1 are confined
      to any range lo .. hi-1 that contains both. */
  lemma UnchangedJoin(a: seq<Byte>, b: seq<Byte>, c: seq<Byte>, lo1: int, hi1: int, lo2: int, hi2: int, lo: int, hi: int)
    requires lo <= lo1 && hi1 <= hi && lo <= lo2 && hi2 <= hi
    requires Unchanged(a, b, lo1, hi1) && Unchanged(b, c, lo2, hi2)
    ensures Unchanged(a, c, lo, hi)
  {
  }

  /** A done row right after a done range of rows extends the range. */
  lemma RowsDoneExtend(img: seq<Byte>, width: nat, a: nat, b: nat, out: seq<Byte>)
    requires RowsDone(img, width, a, b, out) && RowDone(img, width, b, out)
    ensures RowsDone(img, width, a, b + 1, out)
  {
  }

  /** A row whose every output byte is in place, written by stores confined
      to that row, is one blurred row. */
  lemma OneRowBlurred(img: seq<Byte>, width: nat, i: nat, before: seq<Byte>, after: seq<Byte>)
    requires width >= K && 4 * (i * width + width) <= |img|
    requires ColsDone(img, width, i, width - K, after)
    requires Unchanged(before, after, OutIndex(width, i, 0, 0), OutIndex(width, i, width - K, 0))
    ensures RowsBlurred(img, width, i, 1, before, after)
  {
    OutNextRow(width, i, 0);
    assert RowDone(img, width, i, after);
  }

  /** Blurring rows a .. a+n-1 and then rows a+n .. a+n+m-1 blurs rows
      a .. a+n+m-1: the row ranges of consecutive calls compose. */
  lemma RowsBlurredCompose(img: seq<Byte>, width: nat, a: nat, n: nat, m: nat, s0: seq<Byte>, s1: seq<Byte>, s2: seq<Byte>)
    requires width >= K
    requires RowsBlurred(img, width, a, n, s0, s1) && RowsBlurred(img, width, a + n, m, s1, s2)
    ensures RowsBlurred(img, width, a, n + m, s0, s2)
  {
    RowsKept(img, width, a, a + n, s1, s2, OutIndex(width, a + n, 0, 0), OutIndex(width, a + n + m, 0, 0));
    RowMono(width - K, a, a + n);
    RowMono(width - K, a + n, a + n + m);
  }

  // ---------------------------------------------------------------------
  // The whole output buffer.

  /** Byte q of an output buffer of `height` rows of w pixels lies in
      output row q / 4 / w, column (q / 4) % w, channel q % 4. */
  lemma Decompose(w: nat, height: nat, q: nat)
    requires w >= 1 && q < 4 * (height * w)
    ensures q / 4 / w < height && (q / 4) % w < w
    ensures q == 4 * ((q / 4 / w) * w + (q / 4) % w) + q % 4
  {
    var p := q / 4;
    assert p < height * w;
    assert p == (p / w) * w + p % w;
    if p / w >= height {
      RowMono(w, height, p / w);
      assert false;
    }
  }

  /** The window of output pixel (i, j) of a row i < height lies inside an
      image of `height` rows. */
  lemma PixelInImage(width: nat, height: nat, i: nat, j: nat)
    requires width > K && i < height && j < width - K
    ensures 4 * (i * width + j + K) <= 4 * (height * width)
  {
    RowFits(width, i, height);
  }

  /** The output pixel (row, column, channel) that flat output offset q of
      an image of `height` rows belongs to. */
  function Position(width: nat, height: nat, q: nat): (p: (nat, nat, nat))
    requires width > K && q < OutIndex(width, height, 0, 0)
    ensures p.0 < height && p.1 < width - K && p.2 < 4
    ensures 4 * (p.0 * width + p.1 + K) <= 4 * (height * width)
    ensures q == OutIndex(width, p.0, p.1, p.2)
  {
    var i, j, c := q / 4 / (width - K), (q / 4) % (width - K), q % 4;
    PositionFacts(width, height, q, i, j, c);
    (i, j, c)
  }

  /** The row, column and channel that Position computes are in range, the
      pixel's window lies in the image, and OutIndex maps them back to q. */
  lemma PositionFacts(width: nat, height: nat, q: nat, i: int, j: int, c: int)
    requires width > K && q < OutIndex(width, height, 0, 0)
    requires i == q / 4 / (width - K) && j == (q / 4) % (width - K) && c == q % 4
    ensures 0 <= i < height && 0 <= j < width - K && 0 <= c < 4
    ensures 4 * (i * width + j + K) <= 4 * (height * width)
    ensures q == OutIndex(width, i, j, c)
  {
    Decompose(width - K, height, q);
    PixelInImage(width, height, i, j);
  }

  /** x = a * d + b with 0 <= b < d determines the quotient and remainder. */
  lemma DivModUnique(x: nat, d: nat, a: nat, b: nat)
    requires d >= 1 && b < d && x == a * d + b
    ensures x / d == a && x % d == b
  {
    var q := x / d;
    assert x == q * d + x % d;
    if q < a {
      RowFits(d, q, a);
      assert false;
    } else if q > a {
      RowFits(d, a, q);
      assert false;
    }
  }

  /** Position inverts OutIndex: the byte of channel c of output pixel
      (i, j) is decoded back to (i, j, c). Together with the ensures of
      Position, OutIndex is a one-to-one map of the output pixels onto the
      buffer. */
  lemma PositionOfOutIndex(width: nat, height: nat, i: nat, j: nat, c: nat)
    requires width > K && i < height && j < width - K && c < 4
    ensures OutIndex(width, i, j, c) < OutIndex(width, height, 0, 0)
    ensures Position(width, height, OutIndex(width, i, j, c)) == (i, j, c)
  {
    OutBelow(width, i, j, c, height);
    var w := width - K;
    var q := OutIndex(width, i, j, c);
    RowStart(width, i);
    DivModUnique(q, 4, i * w + j, c);
    DivModUnique(i * w + j, w, i, j);
  }

  /** The reference byte at flat output offset q of an image of `height`
      rows. */
  ghost function OutByte(img: seq<Byte>, width: nat, height: nat, q: nat): Byte
    requires width > K && 4 * (height * width) <= |img| && q < OutIndex(width, height, 0, 0)
  {
    var p := Position(width, height, q);
    Mean(img, width, p.0, p.1, p.2)
  }

  /** The complete blurred output of an image of `height` rows. */
  ghost function Blurred(img: seq<Byte>, width: nat, height: nat): (r: seq<Byte>)
    requires width > K && 4 * (height * width) <= |img|
    ensures |r| == OutIndex(width, height, 0, 0)
  {
    seq(OutIndex(width, height, 0, 0), q requires 0 <= q < OutIndex(width, height, 0, 0) => OutByte(img, width, height, q))
  }

  /** Byte q of a buffer in which every row 0 .. height-1 is done holds
      the reference byte at offset q. */
  lemma DoneByte(img: seq<Byte>, width: nat, height: nat, after: seq<Byte>, q: nat)
    requires width > K && 4 * (height * width) <= |img|
    requires |after| == OutIndex(width, height, 0, 0) && q < |after|
    requires RowsDone(img, width, 0, height, after)
    ensures after[q] == OutByte(img, width, height, q)
  {
    var p := Position(width, height, q);
    assert RowDone(img, width, p.0, after);
    assert ColsDone(img, width, p.0, width - K, after);
  }

  /** Uniqueness of the result: an output buffer of the right size in which
      every row 0 .. height-1 is blurred is the blurred image, whatever it
      held before and whichever filter wrote it. */
  lemma BlurredUnique(img: seq<Byte>, width: nat, height: nat, before: seq<Byte>, after: seq<Byte>)
    requires width > K && 4 * (height * width) <= |img|
    requires |after| == OutIndex(width, height, 0, 0)
    requires RowsBlurred(img, width, 0, height, before, after)
    ensures after == Blurred(img, width, height)
  {
    var b := Blurred(img, width, height);
    forall q | 0 <= q < |after|
      ensures after[q] == b[q]
    {
      DoneByte(img, width, height, after, q);
    }
  }
}
