/**
 * The integer helpers and the blocked buffer layout of the small-prime FFT
 * (fft_small.h): rounding helpers on 64-bit words, bit-length helpers, the
 * map from a logical coefficient index to its physical slot in the blocked
 * buffer, and the in-block permutation used to read transform output.
 *
 * A C `ulong` is a `Word`, an integer in [0, 2^64); where the C expression
 * can wrap around, the model reduces modulo WORD_MODULUS explicitly. The
 * shift-and-OR smear of `n_next_pow2m1` is written on 64-bit bit-vectors, as
 * the C code computes it; the masks and shifts of the in-block FFT position
 * are written as the equivalent divisions and remainders by powers of two.
 */
module FftSmall {
  import opened Ints

  const FLINT_BITS: nat := 64
  const WORD_MODULUS: int := 0x1_0000_0000_0000_0000

  /** A 64-bit unsigned machine word (C `ulong`). */
  type Word = x: int | 0 <= x < WORD_MODULUS

  const LG_BLK_SZ: nat := 8
  const BLK_SZ: nat := 256
  const BLK_SHIFT: nat := 10

  /** Largest block index whose offset is computed without wrap-around (2^55). */
  const MAX_EXACT_BLOCK: nat := 0x80_0000_0000_0000

  // ---------------------------------------------------------------------
  // Powers of two (the mathematical reference for shifts)
  // ---------------------------------------------------------------------

  function Pow2(k: nat): (r: nat)
    ensures r >= 1
  {
    if k == 0 then 1 else 2 * Pow2(k - 1)
  }

  lemma {:induction false} Pow2Add(a: nat, b: nat)
    ensures Pow2(a + b) == Pow2(a) * Pow2(b)
    decreases a
  {
    if a > 0 {
      Pow2Add(a - 1, b);
    }
  }

  lemma {:induction false} Pow2Monotone(j: nat, k: nat)
    requires j <= k
    ensures Pow2(j) <= Pow2(k)
    decreases k
  {
    if j < k {
      Pow2Monotone(j, k - 1);
    }
  }

  lemma Pow2Values()
    ensures Pow2(8) == 256 && Pow2(12) == 4096
    ensures Pow2(55) == MAX_EXACT_BLOCK
    ensures Pow2(63) == WORD_MODULUS / 2
    ensures Pow2(64) == WORD_MODULUS
  {
    assert Pow2(4) == 16;
    Pow2Add(4, 4);
    Pow2Add(8, 4);
    Pow2Add(8, 8);
    Pow2Add(16, 16);
    Pow2Add(32, 16);
    Pow2Add(48, 4);
    Pow2Add(52, 3);
    Pow2Add(55, 8);
    Pow2Add(63, 1);
  }

  // ---------------------------------------------------------------------
  // n_pow2, n_min, n_max, n_cdiv, n_round_up
  // ---------------------------------------------------------------------

  /** `UWORD(1) << k`; the shift is only defined for k < 64. */
  function NPow2(k: nat): (r: Word)
    requires k < FLINT_BITS
    ensures r == Pow2(k) && r <= WORD_MODULUS / 2
  {
    Pow2Values();
    Pow2Monotone(k, 63);
    Pow2(k)
  }

  /** `n_min(a, b)`: FLINT_MIN on words. */
  function NMin(a: Word, b: Word): (r: Word)
    ensures r <= a && r <= b && (r == a || r == b)
  {
    Min(a, b)
  }

  /** `n_max(a, b)`: FLINT_MAX on words. */
  function NMax(a: Word, b: Word): (r: Word)
    ensures r >= a && r >= b && (r == a || r == b)
  {
    Max(a, b)
  }

  /** `(a + b - 1) / b`, with the sum wrapping modulo 2^64 as in C. */
  function NCdiv(a: Word, b: Word): (r: Word)
    requires b > 0
  {
    ((a + b - 1) % WORD_MODULUS) / b
  }

  /** When `a + b - 1` does not wrap, n_cdiv is the ceiling of a / b. */
  lemma CdivIsCeiling(a: Word, b: Word)
    requires b > 0 && a + b - 1 < WORD_MODULUS
    ensures NCdiv(a, b) * b >= a
    ensures (NCdiv(a, b) - 1) * b < a
  {
    var s := a + b - 1;
    var q, t := s / b, s % b;
    assert s == q * b + t && 0 <= t < b;
    assert NCdiv(a, b) == q;
    assert q * b == a + (b - 1 - t);
    assert (q - 1) * b == q * b - b;
  }

  /** `n_cdiv(a, b) * b`, the product wrapping modulo 2^64 as in C. */
  function NRoundUp(a: Word, b: Word): (r: Word)
    requires b > 0
  {
    (NCdiv(a, b) * b) % WORD_MODULUS
  }

  /** Without wrap-around, n_round_up is n_cdiv(a, b) * b exactly. */
  lemma RoundUpExact(a: Word, b: Word)
    requires b > 0 && a + b - 1 < WORD_MODULUS
    ensures NRoundUp(a, b) == NCdiv(a, b) * b
    ensures a <= NRoundUp(a, b) < a + b
  {
    CdivIsCeiling(a, b);
    var q := NCdiv(a, b);
    assert q * b - b < a;
    assert 0 <= q * b < WORD_MODULUS;
  }

  /**
   * When `a + b - 1` does not wrap, n_round_up is the least multiple of b
   * that is at least a.
   */
  lemma RoundUpIsLeastMultiple(a: Word, b: Word, m: int)
    requires b > 0 && a + b - 1 < WORD_MODULUS
    ensures NRoundUp(a, b) % b == 0
    ensures a <= NRoundUp(a, b)
    ensures m >= a && m % b == 0 ==> m >= NRoundUp(a, b)
  {
    RoundUpExact(a, b);
    CdivIsCeiling(a, b);
    var q := NCdiv(a, b);
    DivModUnique(q * b, b, q, 0);
    if m >= a && m % b == 0 {
      DivModUnique(m, b, m / b, 0);
      MultipleAbove(b, q, m / b, a);
    }
  }

  /** If (q-1)*b < a <= k*b then k*b >= q*b. */
  lemma MultipleAbove(b: int, q: int, k: int, a: int)
    requires b > 0 && (q - 1) * b < a <= k * b
    ensures k * b >= q * b
  {
    if k < q {
      MulMonotone(k, q - 1, b);
    }
    MulMonotone(q, k, b);
  }

  // ---------------------------------------------------------------------
  // n_next_pow2m1 (bit smearing)
  // ---------------------------------------------------------------------

  /** `a |= a >> 1; ... a |= a >> 32;` on a 64-bit word. */
  function NNextPow2m1(a: bv64): (r: bv64)
  {
    var a1 := a | (a >> 1);
    var a2 := a1 | (a1 >> 2);
    var a4 := a2 | (a2 >> 4);
    var a8 := a4 | (a4 >> 8);
    var a16 := a8 | (a8 >> 16);
    a16 | (a16 >> 32)
  }

  /** A word of the form 2^k - 1: every bit below its top bit is set. */
  predicate AllOnesBelowTop(r: bv64)
  {
    r & (r + 1) == 0
  }

  /** Smearing only sets bits: the result is at least a. */
  lemma NextPow2m1IsAtLeast(a: bv64)
    ensures a <= NNextPow2m1(a)
  {
  }

  /** Every bit below the top set bit ends up set. */
  lemma NextPow2m1IsAllOnes(a: bv64)
    ensures AllOnesBelowTop(NNextPow2m1(a))
  {
  }

  /** No bit above the top bit of a is set: the result is below 2a. */
  lemma NextPow2m1HasSameTopBit(a: bv64)
    ensures a != 0 ==> NNextPow2m1(a) >> 1 < a
    ensures a == 0 ==> NNextPow2m1(a) == 0
  {
  }

  /**
   * n_next_pow2m1(a) is the least word of the form 2^k - 1 that is at least
   * a, i.e. 2^nbits(a) - 1.
   */
  lemma NextPow2m1IsLeast(a: bv64, r: bv64)
    requires AllOnesBelowTop(r) && a <= r
    ensures NNextPow2m1(a) <= r
  {
  }

  /** The table in the comment above n_next_pow2m1. */
  lemma NextPow2m1Table(a: bv64)
    ensures a == 0 ==> NNextPow2m1(a) == 0
    ensures a == 1 ==> NNextPow2m1(a) == 1
    ensures 2 <= a <= 3 ==> NNextPow2m1(a) == 3
    ensures 4 <= a <= 7 ==> NNextPow2m1(a) == 7
    ensures 8 <= a <= 15 ==> NNextPow2m1(a) == 15
  {
  }

  // ---------------------------------------------------------------------
  // n_leading_zeros, n_nbits, n_clog2
  // ---------------------------------------------------------------------

  /** Scans bits b, b-1, ..., 0 of x for the first set bit. */
  function LeadingZerosFrom(x: Word, b: nat): (z: nat)
    requires x >= 1 && b < FLINT_BITS
    ensures z < FLINT_BITS
    decreases b
  {
    if x >= Pow2(b) then 63 - b else LeadingZerosFrom(x, b - 1)
  }

  /**
   * `__builtin_clzll(x)`: the number of zero bits above the highest set bit
   * of the 64-bit word x; the builtin is undefined for x == 0.
   */
  function NLeadingZeros(x: Word): (z: nat)
    requires x != 0
    ensures z < FLINT_BITS
  {
    LeadingZerosFrom(x, 63)
  }

  /** `64 - n_leading_zeros(x)`; undefined for x == 0 like the builtin. */
  function NNbits(x: Word): (n: nat)
    requires x != 0
    ensures 1 <= n <= FLINT_BITS
  {
    FLINT_BITS - NLeadingZeros(x)
  }

  lemma {:induction false} LeadingZerosFromBounds(x: Word, b: nat)
    requires x >= 1 && b < FLINT_BITS && x < Pow2(b + 1)
    ensures var n := 64 - LeadingZerosFrom(x, b); 1 <= n && Pow2(n - 1) <= x < Pow2(n)
    decreases b
  {
    if x < Pow2(b) {
      LeadingZerosFromBounds(x, b - 1);
    }
  }

  /** The bit length n of a nonzero word satisfies 2^(n-1) <= x < 2^n. */
  lemma NbitsBounds(x: Word)
    requires x != 0
    ensures Pow2(NNbits(x) - 1) <= x < Pow2(NNbits(x))
  {
    Pow2Values();
    LeadingZerosFromBounds(x, 63);
  }

  /** `x <= 2 ? x == 2 : 64 - clz(x - 1)`: the ceiling of log2(x). */
  function NClog2(x: Word): (r: nat)
    ensures x <= 2 ==> r == (if x == 2 then 1 else 0)
  {
    if x <= 2 then (if x == 2 then 1 else 0) else FLINT_BITS - NLeadingZeros(x - 1)
  }

  /** For x >= 1, n_clog2(x) is the least r with x <= 2^r. */
  lemma Clog2IsCeilingLog(x: Word)
    requires x >= 1
    ensures x <= Pow2(NClog2(x))
    ensures NClog2(x) > 0 ==> Pow2(NClog2(x) - 1) < x
  {
    if x > 2 {
      NbitsBounds(x - 1);
      assert NClog2(x) == NNbits(x - 1);
    } else if x == 2 {
      assert Pow2(1) == 2;
    }
  }

  // ---------------------------------------------------------------------
  // Blocked layout: sd_fft_ctx_blk_offset, data_size, set/get_index
  // ---------------------------------------------------------------------

  /**
   * `(I << LG_BLK_SZ) + 4*(I >> (BLK_SHIFT + 2))`: block I starts 256 doubles
   * after block I-1, plus a gap of 4 doubles after every 4096 blocks.
   * Both the shift and the sum wrap modulo 2^64 as in C.
   */
  function BlkOffset(I: Word): (r: Word)
  {
    ((I * BLK_SZ) % WORD_MODULUS + 4 * (I / 4096)) % WORD_MODULUS
  }

  lemma BlkOffsetExact(I: Word)
    requires I <= MAX_EXACT_BLOCK
    ensures BlkOffset(I) == BLK_SZ * I + 4 * (I / 4096)
  {
  }

  /**
   * Consecutive blocks are 256 doubles apart, or 260 exactly when the next
   * block index is a multiple of 4096.
   */
  lemma BlkOffsetStep(I: Word)
    requires I < MAX_EXACT_BLOCK
    ensures BlkOffset(I + 1) - BlkOffset(I) == if (I + 1) % 4096 == 0 then 260 else 256
  {
    BlkOffsetExact(I);
    BlkOffsetExact(I + 1);
    if (I + 1) % 4096 == 0 {
      assert (I + 1) / 4096 == I / 4096 + 1;
    } else {
      assert (I + 1) / 4096 == I / 4096;
    }
  }

  /** Blocks never overlap: a later block starts at least 256 past an earlier one. */
  lemma {:induction false} BlkOffsetGap(I: Word, J: Word)
    requires I < J <= MAX_EXACT_BLOCK
    ensures BlkOffset(I) + BLK_SZ <= BlkOffset(J)
    decreases J - I
  {
    BlkOffsetStep(J - 1);
    if I < J - 1 {
      BlkOffsetGap(I, J - 1);
    }
  }

  /** The depths a context may have: at least one block, and 2^depth fits a word. */
  predicate ValidDepth(depth: nat)
  {
    LG_BLK_SZ <= depth < FLINT_BITS
  }

  /** `blk_offset(n_pow2(depth - LG_BLK_SZ))`: doubles needed for 2^depth coefficients. */
  function DataSize(depth: nat): (r: Word)
    requires LG_BLK_SZ <= depth < FLINT_BITS + LG_BLK_SZ
  {
    BlkOffset(NPow2(depth - LG_BLK_SZ))
  }

  /** The physical position `blk_offset(i / BLK_SZ) + i % BLK_SZ` of logical index i. */
  function IndexPos(i: Word): nat
  {
    BlkOffset(i / BLK_SZ) + i % BLK_SZ
  }

  lemma BlocksOfDepth(depth: nat, i: Word)
    requires ValidDepth(depth) && i < Pow2(depth)
    ensures i / BLK_SZ < Pow2(depth - LG_BLK_SZ) <= MAX_EXACT_BLOCK
  {
    Pow2Values();
    Pow2Add(depth - LG_BLK_SZ, LG_BLK_SZ);
    Pow2Monotone(depth - LG_BLK_SZ, 55);
  }

  /** Every logical index below 2^depth lands inside a buffer of DataSize(depth). */
  lemma IndexPosInBuffer(depth: nat, i: Word)
    requires ValidDepth(depth) && i < Pow2(depth)
    ensures IndexPos(i) < DataSize(depth)
  {
    BlocksOfDepth(depth, i);
    BlkOffsetGap(i / BLK_SZ, Pow2(depth - LG_BLK_SZ));
  }

  /** Distinct logical indices occupy distinct physical positions. */
  lemma IndexPosInjective(depth: nat, i: Word, j: Word)
    requires ValidDepth(depth) && i < Pow2(depth) && j < Pow2(depth) && i != j
    ensures IndexPos(i) != IndexPos(j)
  {
    BlocksOfDepth(depth, i);
    BlocksOfDepth(depth, j);
    var I, J := i / BLK_SZ, j / BLK_SZ;
    if I < J {
      BlkOffsetGap(I, J);
    } else if J < I {
      BlkOffsetGap(J, I);
    } else {
      assert i % BLK_SZ != j % BLK_SZ;
    }
  }

  /** The buffer of a context with the given depth. */
  predicate IsDataBuffer<T>(depth: nat, d: array<T>)
  {
    ValidDepth(depth) && d.Length >= DataSize(depth)
  }

  /** `sd_fft_ctx_get_index`: reads logical index i of the blocked buffer d. */
  function GetIndex<T>(depth: nat, d: array<T>, i: Word): T
    requires IsDataBuffer(depth, d) && i < Pow2(depth)
    reads d
  {
    IndexPosInBuffer(depth, i);
    d[IndexPos(i)]
  }

  /**
   * `sd_fft_ctx_set_index`: writes x at logical index i of d; only that one
   * physical slot changes, so every other logical index reads as before.
   */
  method SetIndex<T>(depth: nat, d: array<T>, i: Word, x: T)
    requires IsDataBuffer(depth, d) && i < Pow2(depth)
    modifies d
    ensures GetIndex(depth, d, i) == x
    ensures forall j: Word :: j < Pow2(depth) && j != i ==> GetIndex(depth, d, j) == old(GetIndex(depth, d, j))
    ensures forall k :: 0 <= k < d.Length && k != IndexPos(i) ==> d[k] == old(d[k])
  {
    IndexPosInBuffer(depth, i);
    d[IndexPos(i)] := x;
    forall j: Word | j < Pow2(depth) && j != i
      ensures GetIndex(depth, d, j) == old(GetIndex(depth, d, j))
    {
      IndexPosInjective(depth, i, j);
      IndexPosInBuffer(depth, j);
    }
  }

  // ---------------------------------------------------------------------
  // sd_fft_ctx_get_fft_index: the "slightly-worse-than-bit-reversed" order
  // ---------------------------------------------------------------------

  /**
   * `j = (i & (BLK_SZ-16)) | ((i&3)<<2) | ((i>>2)&3)`. The three masks pick
   * disjoint bit fields of the low byte of i, so the OR is their sum:
   * bits 4..7 of i stay in place, bits 0..1 move to bits 2..3 and bits 2..3
   * move to bits 0..1.
   */
  function FftSlot(i: Word): (j: nat)
    ensures j < BLK_SZ
    ensures j / 16 == (i / 16) % 16
    ensures j % 4 == (i / 4) % 4
    ensures (j / 4) % 4 == i % 4
  {
    var high := (i / 16) % 16;   // i & 240, shifted down by 4
    var low := i % 4;            // i & 3
    var mid := (i / 4) % 4;      // (i >> 2) & 3
    high * 16 + low * 4 + mid
  }

  /** The bit fields of i that FftSlot reads, as fields of its low byte. */
  lemma LowByteFields(i: int)
    requires i >= 0
    ensures i % BLK_SZ == ((i / 16) % 16) * 16 + ((i / 4) % 4) * 4 + i % 4
    ensures (i / 16) % 16 == (i % BLK_SZ) / 16
    ensures (i / 4) % 4 == ((i % BLK_SZ) / 4) % 4
    ensures i % 4 == (i % BLK_SZ) % 4
  {
    var h, m, l := (i / 16) % 16, (i / 4) % 4, i % 4;
    var q16, q4 := i / 16, i / 4;
    DivModUnique(q16, 16, q16 / 16, h);
    DivModUnique(q4, 4, q4 / 4, m);
    DivModUnique(i, 16, q4 / 4, m * 4 + l);
    DivModUnique(i, BLK_SZ, q16 / 16, h * 16 + m * 4 + l);
    var lo := i % BLK_SZ;
    DivModUnique(lo, 16, h, m * 4 + l);
    DivModUnique(lo, 4, h * 4 + m, l);
    DivModUnique(lo / 4, 4, h, m);
  }

  /** The in-block position depends on i % 256 only, and swapping twice restores it. */
  lemma FftSlotInvolution(i: Word, k: Word)
    requires k % BLK_SZ == FftSlot(i)
    ensures FftSlot(k) == i % BLK_SZ
  {
    LowByteFields(i);
    LowByteFields(k);
  }

  /**
   * The logical index whose natural position get_fft_index(i) reads: same
   * block as i, position FftSlot(i) inside it.
   */
  function FftPerm(i: Word): nat
  {
    i / BLK_SZ * BLK_SZ + FftSlot(i)
  }

  /**
   * get_fft_index stays inside block i / 256, reads logical index FftPerm(i)
   * of the natural order, and FftPerm is an involution on [0, 2^depth).
   */
  lemma FftPermIsInvolution(depth: nat, i: Word)
    requires ValidDepth(depth) && i < Pow2(depth)
    ensures FftPerm(i) < Pow2(depth)
    ensures FftPerm(i) / BLK_SZ == i / BLK_SZ && FftPerm(i) % BLK_SZ == FftSlot(i)
    ensures FftPerm(FftPerm(i)) == i
  {
    BlocksOfDepth(depth, i);
    Pow2Add(depth - LG_BLK_SZ, LG_BLK_SZ);
    Pow2Values();
    var I := i / BLK_SZ;
    var k := FftPerm(i);
    assert k == I * BLK_SZ + FftSlot(i);
    MulMonotone(I + 1, Pow2(depth - LG_BLK_SZ), BLK_SZ);
    assert k / BLK_SZ == I && k % BLK_SZ == FftSlot(i);
    FftSlotInvolution(i, k);
  }

  /** FftPerm is a bijection on [0, 2^depth): distinct indices read distinct slots. */
  lemma FftPermInjective(depth: nat, i: Word, j: Word)
    requires ValidDepth(depth) && i < Pow2(depth) && j < Pow2(depth) && i != j
    ensures FftPerm(i) != FftPerm(j)
  {
    FftPermIsInvolution(depth, i);
    FftPermIsInvolution(depth, j);
  }

  /** `sd_fft_ctx_get_fft_index`: reads `blk_index(d, i/BLK_SZ)[j]`. */
  function GetFftIndex<T>(depth: nat, d: array<T>, i: Word): (x: T)
    requires IsDataBuffer(depth, d) && i < Pow2(depth)
    reads d
    ensures FftPerm(i) < Pow2(depth) && x == GetIndex(depth, d, FftPerm(i))
  {
    FftPermIsInvolution(depth, i);
    IndexPosInBuffer(depth, FftPerm(i));
    d[BlkOffset(i / BLK_SZ) + FftSlot(i)]
  }

  // ---------------------------------------------------------------------
  // sd_fft_ctx_fft_trunc / sd_fft_ctx_ifft_trunc: block-granular arguments
  // ---------------------------------------------------------------------

  /** The arguments the inline wrappers pass to the (unmodelled) transforms. */
  datatype TruncCall = TruncCall(I: nat, S: nat, k: nat, j: nat, itrunc: nat, otrunc: nat)

  /**
   * `sd_fft_trunc(Q, d, 0, 1, depth - LG_BLK_SZ, 0, itrunc/BLK_SZ, otrunc/BLK_SZ)`:
   * truncation lengths must be whole blocks, and are passed as block counts
   * over the 2^(depth-8) blocks of the whole buffer.
   */
  function FftTruncCall(depth: nat, itrunc: Word, otrunc: Word): (c: TruncCall)
    requires ValidDepth(depth) && itrunc % BLK_SZ == 0 && otrunc % BLK_SZ == 0
    ensures c.itrunc * BLK_SZ == itrunc && c.otrunc * BLK_SZ == otrunc
    ensures Pow2(c.k) * BLK_SZ == Pow2(depth) && c.I == 0 && c.S == 1 && c.j == 0
  {
    Pow2Values();
    Pow2Add(depth - LG_BLK_SZ, LG_BLK_SZ);
    TruncCall(0, 1, depth - LG_BLK_SZ, 0, itrunc / BLK_SZ, otrunc / BLK_SZ)
  }

  /** `sd_ifft_trunc(Q, d, 0, 1, depth - LG_BLK_SZ, 0, trunc/BLK_SZ, trunc/BLK_SZ, 0)`. */
  function IfftTruncCall(depth: nat, trunc: Word): (c: TruncCall)
    requires ValidDepth(depth) && trunc % BLK_SZ == 0
    ensures c.itrunc * BLK_SZ == trunc && c.otrunc == c.itrunc
    ensures Pow2(c.k) * BLK_SZ == Pow2(depth) && c.I == 0 && c.S == 1 && c.j == 0
  {
    Pow2Values();
    Pow2Add(depth - LG_BLK_SZ, LG_BLK_SZ);
    TruncCall(0, 1, depth - LG_BLK_SZ, 0, trunc / BLK_SZ, trunc / BLK_SZ)
  }
}
