/** The SSE operations the vectorised filters use, on a register of eight
    unsigned 16-bit lanes. Lanes 0-3 hold the four channels of one window
    position and lanes 4-7 those of the next. */
module Simd {
  import opened Window

  /** One unsigned 16-bit lane. */
  type Lane = x: int | 0 <= x < 0x1_0000

  /** A 128-bit register as eight 16-bit lanes, lane l0 lowest. */
  datatype Reg = Reg(l0: Lane, l1: Lane, l2: Lane, l3: Lane, l4: Lane, l5: Lane, l6: Lane, l7: Lane)

  /** _mm_setzero_si128. */
  function Zero(): Reg {
    Reg(0, 0, 0, 0, 0, 0, 0, 0)
  }

  /** The exact result of adding or subtracting two 16-bit lanes, wrapped
      modulo 2^16 into a lane. Such a result is always within one period
      of the lane range, so one correction by 2^16 is the whole wrap. */
  function Wrap16(x: int): Lane
    requires -0x1_0000 <= x < 0x2_0000
  {
    if x < 0 then x + 0x1_0000 else if x < 0x1_0000 then x else x - 0x1_0000
  }

  /** Wrap16 is reduction modulo 2^16 on its whole domain. */
  lemma Wrap16IsMod(x: int)
    requires -0x1_0000 <= x < 0x2_0000
    ensures Wrap16(x) == x % 0x1_0000
  {
  }

  /** The eight lanes of a register as a sequence, lane l0 first. */
  function Lanes(t: Reg): (r: seq<Lane>)
    ensures |r| == 8
  {
    [t.l0, t.l1, t.l2, t.l3, t.l4, t.l5, t.l6, t.l7]
  }

  /** _mm_add_epi16: lane-wise addition that wraps modulo 2^16. */
  function Add16(a: Reg, b: Reg): Reg {
    Reg(Wrap16(a.l0 as int + b.l0), Wrap16(a.l1 as int + b.l1), Wrap16(a.l2 as int + b.l2), Wrap16(a.l3 as int + b.l3),
        Wrap16(a.l4 as int + b.l4), Wrap16(a.l5 as int + b.l5), Wrap16(a.l6 as int + b.l6), Wrap16(a.l7 as int + b.l7))
  }

  /** _mm_sub_epi16: lane-wise subtraction that wraps modulo 2^16. */
  function Sub16(a: Reg, b: Reg): Reg {
    Reg(Wrap16(a.l0 as int - b.l0), Wrap16(a.l1 as int - b.l1), Wrap16(a.l2 as int - b.l2), Wrap16(a.l3 as int - b.l3),
        Wrap16(a.l4 as int - b.l4), Wrap16(a.l5 as int - b.l5), Wrap16(a.l6 as int - b.l6), Wrap16(a.l7 as int - b.l7))
  }

  /** Every lane of Add16 is the sum of the two lanes modulo 2^16. */
  lemma Add16Lanes(a: Reg, b: Reg)
    ensures forall k | 0 <= k < 8 :: Lanes(Add16(a, b))[k] == (Lanes(a)[k] as int + Lanes(b)[k]) % 0x1_0000
  {
    forall k | 0 <= k < 8
      ensures Lanes(Add16(a, b))[k] == (Lanes(a)[k] as int + Lanes(b)[k]) % 0x1_0000
    {
      Wrap16IsMod(Lanes(a)[k] as int + Lanes(b)[k]);
    }
  }

  /** Every lane of Sub16 is the difference of the two lanes modulo 2^16. */
  lemma Sub16Lanes(a: Reg, b: Reg)
    ensures forall k | 0 <= k < 8 :: Lanes(Sub16(a, b))[k] == (Lanes(a)[k] as int - Lanes(b)[k]) % 0x1_0000
  {
    forall k | 0 <= k < 8
      ensures Lanes(Sub16(a, b))[k] == (Lanes(a)[k] as int - Lanes(b)[k]) % 0x1_0000
    {
      Wrap16IsMod(Lanes(a)[k] as int - Lanes(b)[k]);
    }
  }

  /** One lane: subtracting y after adding it gives x back. */
  lemma WrapCancel(x: Lane, y: Lane)
    ensures Wrap16(Wrap16(x as int + y) as int - y) == x
  {
  }

  /** Subtracting what was added restores every lane, whatever wrapped in
      between. */
  lemma AddSubCancel(a: Reg, b: Reg)
    ensures Sub16(Add16(a, b), b) == a
  {
    WrapCancel(a.l0, b.l0); WrapCancel(a.l1, b.l1); WrapCancel(a.l2, b.l2); WrapCancel(a.l3, b.l3);
    WrapCancel(a.l4, b.l4); WrapCancel(a.l5, b.l5); WrapCancel(a.l6, b.l6); WrapCancel(a.l7, b.l7);
  }

  /** _mm_cvtepu8_epi16(_mm_loadu_si128(img + at)): the low eight bytes at
      `at` (two whole pixels when `at` is a multiple of 4), zero-extended
      to lanes. The upper eight loaded bytes are discarded. */
  function LoadWiden(img: seq<Byte>, at: nat): Reg
    requires at + 8 <= |img|
  {
    Reg(img[at], img[at + 1], img[at + 2], img[at + 3], img[at + 4], img[at + 5], img[at + 6], img[at + 7])
  }

  /** A widening load at the first byte of pixel p reads two whole
      pixels: lanes 0-3 are the channels of pixel p, lanes 4-7 those of
      pixel p + 1. */
  lemma LoadWidenPixels(img: seq<Byte>, p: nat)
    requires 4 * (p + 2) <= |img|
    ensures var t := LoadWiden(img, 4 * p);
      t.l0 == Sample(img, p, 0) && t.l1 == Sample(img, p, 1) && t.l2 == Sample(img, p, 2) && t.l3 == Sample(img, p, 3)
      && t.l4 == Sample(img, p + 1, 0) && t.l5 == Sample(img, p + 1, 1) && t.l6 == Sample(img, p + 1, 2) && t.l7 == Sample(img, p + 1, 3)
  {
  }

  /** A 16-bit lane read as a signed value, as _mm_packus_epi16 reads it. */
  function Signed16(x: Lane): int {
    if x >= 0x8000 then x - 0x1_0000 else x
  }

  /** Unsigned saturation of a signed value to 0 .. 255. */
  function SatU8(x: int): Byte {
    if x < 0 then 0 else if x > 255 then 255 else x
  }

  /** One lane of _mm_packus_epi16(_mm_srli_epi16(a, 7), zero): shifted
      right by 7, read as signed, saturated to a byte. A lane that holds a
      window sum passes through exactly: shift and saturation agree with
      division by 128. */
  function Pack(x: Lane): (r: Byte)
    ensures x <= MaxWin ==> r == x / 128
  {
    SatU8(Signed16(x / 128))
  }

  /** The low eight bytes of _mm_packus_epi16(_mm_srli_epi16(a, 7), zero). */
  function ShiftPack(a: Reg): seq<Byte> {
    [Pack(a.l0), Pack(a.l1), Pack(a.l2), Pack(a.l3), Pack(a.l4), Pack(a.l5), Pack(a.l6), Pack(a.l7)]
  }

  /** The packed bytes of a register: byte k is lane k divided by 128 for
      every lane that holds a window sum. */
  lemma ShiftPackBytes(a: Reg)
    ensures |ShiftPack(a)| == 8
    ensures forall k | 0 <= k < 8 && Lanes(a)[k] <= MaxWin :: ShiftPack(a)[k] == Lanes(a)[k] / 128
  {
  }

  /** The four lanes a, b, c, d hold the first n terms of the four channel
      sums of the window at pixel p. */
  ghost predicate Partial4(img: seq<Byte>, p: nat, n: nat, a: Lane, b: Lane, c: Lane, d: Lane)
    requires 4 * (p + n) <= |img|
  {
    a == ChanSum(img, p, 0, n) && b == ChanSum(img, p, 1, n)
    && c == ChanSum(img, p, 2, n) && d == ChanSum(img, p, 3, n)
  }

  /** Lanes 0-3 hold the first n terms of the channel sums of the window at
      pixel p, lanes 4-7 those of the window at p + 1. */
  ghost predicate PartialPair(img: seq<Byte>, p: nat, n: nat, t: Reg)
    requires 4 * (p + 1 + n) <= |img|
  {
    Partial4(img, p, n, t.l0, t.l1, t.l2, t.l3) && Partial4(img, p + 1, n, t.l4, t.l5, t.l6, t.l7)
  }

  /** The four lanes a, b, c, d hold the window sums at pixel p. */
  ghost predicate Holds4(img: seq<Byte>, p: nat, a: Lane, b: Lane, c: Lane, d: Lane)
    requires 4 * (p + K) <= |img|
  {
    a == Win(img, p, 0) && b == Win(img, p, 1) && c == Win(img, p, 2) && d == Win(img, p, 3)
  }

  /** Lanes 0-3 hold the window sums at pixel p, lanes 4-7 those at p + 1. */
  ghost predicate HoldsPair(img: seq<Byte>, p: nat, t: Reg)
    requires 4 * (p + 1 + K) <= |img|
  {
    Holds4(img, p, t.l0, t.l1, t.l2, t.l3) && Holds4(img, p + 1, t.l4, t.l5, t.l6, t.l7)
  }

  /** Adding the four samples of pixel p + n, loaded from byte at, to four
      partial channel sums extends each by one term without wrapping. */
  lemma Accumulate4(img: seq<Byte>, p: nat, n: nat, a: Lane, b: Lane, c: Lane, d: Lane, at: nat)
    requires n < K && 4 * (p + n + 1) <= |img| && at == 4 * (p + n)
    requires Partial4(img, p, n, a, b, c, d)
    ensures Partial4(img, p, n + 1, Wrap16(a as int + img[at]), Wrap16(b as int + img[at + 1]),
                     Wrap16(c as int + img[at + 2]), Wrap16(d as int + img[at + 3]))
  {
  }

  /** One step of the initial accumulation: adding the two pixels p + n and
      p + n + 1 extends both partial sums by one term without wrapping. */
  lemma AccumulatePair(img: seq<Byte>, p: nat, n: nat, t: Reg)
    requires n < K && 4 * (p + 2 + n) <= |img|
    requires PartialPair(img, p, n, t)
    ensures PartialPair(img, p, n + 1, Add16(t, LoadWiden(img, 4 * (p + n))))
  {
    Accumulate4(img, p, n, t.l0, t.l1, t.l2, t.l3, 4 * (p + n));
    Accumulate4(img, p + 1, n, t.l4, t.l5, t.l6, t.l7, 4 * (p + n) + 4);
  }

  /** Adding the four entering samples loaded from byte e (pixel x + 127)
      and subtracting the four leaving ones loaded from byte l (pixel x - 1)
      moves four window sums from x - 1 to x; the 16-bit wrap-around never
      takes effect. */
  lemma Slide4(img: seq<Byte>, x: nat, a: Lane, b: Lane, c: Lane, d: Lane, e: nat, l: nat)
    requires 1 <= x && 4 * (x + K) <= |img|
    requires e == 4 * (x - 1 + K) && l == 4 * (x - 1)
    requires Holds4(img, x - 1, a, b, c, d)
    ensures Holds4(img, x, Wrap16(Wrap16(a as int + img[e]) as int - img[l]),
                   Wrap16(Wrap16(b as int + img[e + 1]) as int - img[l + 1]),
                   Wrap16(Wrap16(c as int + img[e + 2]) as int - img[l + 2]),
                   Wrap16(Wrap16(d as int + img[e + 3]) as int - img[l + 3]))
  {
    WinSlide(img, x - 1, 0);
    WinSlide(img, x - 1, 1);
    WinSlide(img, x - 1, 2);
    WinSlide(img, x - 1, 3);
  }

  /** The register recurrence at flat pixel q: adding the two pixels loaded
      at byte offset +508 (pixels q + 127 and q + 128) and subtracting the
      two loaded at -4 (pixels q - 1 and q) moves both windows one pixel
      right. No lane wraps, since every window sum is at most 32640. */
  lemma StepPair(img: seq<Byte>, q: nat, t: Reg)
    requires 1 <= q && 4 * (q + 1 + K) <= |img|
    requires HoldsPair(img, q - 1, t)
    ensures HoldsPair(img, q, Sub16(Add16(t, LoadWiden(img, 4 * q + 508)), LoadWiden(img, 4 * q - 4)))
  {
    Slide4(img, q, t.l0, t.l1, t.l2, t.l3, 4 * q + 508, 4 * q - 4);
    Slide4(img, q + 1, t.l4, t.l5, t.l6, t.l7, 4 * q + 508 + 4, 4 * q - 4 + 4);
  }

  /** The register holds the window pair of output columns j and j + 1 of
      row i (input pixels i * width + j and i * width + j + 1). */
  ghost predicate HoldsAt(img: seq<Byte>, width: nat, i: nat, j: nat, t: Reg)
    requires 4 * (i * width + j + 1 + K) <= |img|
  {
    HoldsPair(img, i * width + j, t)
  }

  /** One register update of the source, at output column j of row i: the
      eight 16-bit lanes add the two pixels loaded at byte offset +508 and
      subtract the two loaded at -4. It moves the window pair from column
      j - 1 to column j. */
  method Advance(img: seq<Byte>, width: nat, i: nat, j: nat, totals: Reg) returns (next: Reg)
    requires 1 <= j && 4 * (i * width + j + 1 + K) <= |img|
    requires HoldsAt(img, width, i, j - 1, totals)
    ensures HoldsAt(img, width, i, j, next)
  {
    StepPair(img, i * width + j, totals);
    next := Sub16(Add16(totals, LoadWiden(img, 4 * (i * width + j) + 508)), LoadWiden(img, 4 * (i * width + j) - 4));
  }

  /** Storing the low 4 (n == 4) or 8 (n == 8) packed bytes of a register
      that holds the window pair at input pixel i * width + j at the first
      byte of output pixel (i, j) completes that pixel, and with 8 bytes
      the next one too. */
  lemma PackedPixels(img: seq<Byte>, width: nat, i: nat, j: nat, t: Reg, n: nat, u: seq<Byte>)
    requires n == 4 || n == 8
    requires 4 * (i * width + j + 1 + K) <= |img| && HoldsAt(img, width, i, j, t)
    requires 0 <= OutIndex(width, i, j, 0) && OutIndex(width, i, j, 0) + n <= |u|
    requires u[OutIndex(width, i, j, 0) .. OutIndex(width, i, j, 0) + n] == ShiftPack(t)[..n]
    ensures PixelDone(img, width, i, j, u)
    ensures n == 8 ==> PixelDone(img, width, i, j + 1, u)
  {
    var at := OutIndex(width, i, j, 0);
    var packed := ShiftPack(t);
    assert u[at] == packed[0] && u[at + 1] == packed[1] && u[at + 2] == packed[2] && u[at + 3] == packed[3] by {
      assert u[at .. at + n][..4] == packed[..4];
    }
    if n == 8 {
      assert u[at + 4] == packed[4] && u[at + 5] == packed[5] && u[at + 6] == packed[6] && u[at + 7] == packed[7] by {
        assert u[at .. at + n][4..] == packed[4..8];
      }
    }
  }

  /** _mm_stream_si32 / _mm_stream_si64 of the low 4 or 8 bytes of a
      register: an ordinary store of `bytes` at offset `at`. */
  method Stream(result: array<Byte>, at: nat, bytes: seq<Byte>)
    requires at + |bytes| <= result.Length
    modifies result
    ensures result[at .. at + |bytes|] == bytes
    ensures Unchanged(old(result[..]), result[..], at, at + |bytes|)
  {
    for k := 0 to |bytes|
      invariant result[at .. at + k] == bytes[..k]
      invariant Unchanged(old(result[..]), result[..], at, at + k)
    {
      result[at + k] := bytes[k];
    }
  }

  /** Packs a register whose lanes hold the window sums of output pixels j
      and j + 1 of row i and streams its low n bytes to output pixel j:
      pixel j (and pixel j + 1 when n is 8) is done, and nothing outside
      those n bytes changes. */
  method StorePacked(img: seq<Byte>, width: nat, i: nat, j: nat, t: Reg, n: nat, result: array<Byte>)
    requires n == 4 || n == 8
    requires 4 * (i * width + j + 1 + K) <= |img| && HoldsAt(img, width, i, j, t)
    requires 0 <= OutIndex(width, i, j, 0) && OutIndex(width, i, j, 0) + n <= result.Length
    modifies result
    ensures PixelDone(img, width, i, j, result[..])
    ensures n == 8 ==> PixelDone(img, width, i, j + 1, result[..])
    ensures Unchanged(old(result[..]), result[..], OutIndex(width, i, j, 0), OutIndex(width, i, j, 0) + n)
  {
    var shft := ShiftPack(t);
    Stream(result, OutIndex(width, i, j, 0), shft[..n]);
    PackedPixels(img, width, i, j, t, n, result[..]);
  }
}
