/**
 * The integer value of `n_next_pow2m1` (fft_small.h). The smear is computed
 * on 64-bit bit-vectors in module FftSmall; this module relates a 64-bit
 * word to its value as an integer, one low bit at a time, and shows that
 * the smeared word is 2^nbits(a) - 1.
 */
module WordBits {
  import opened FftSmall

  // ---------------------------------------------------------------------
  // The value of a word, bit by bit
  // ---------------------------------------------------------------------

  lemma HalfBelowTopBit(x: bv64)
    ensures x >> 1 < 0x8000_0000_0000_0000
  {
  }

  lemma DoubleValue(y: bv64)
    requires y < 0x8000_0000_0000_0000
    ensures (y << 1) as int == 2 * (y as int)
  {
  }

  lemma DoublePlusOneValue(y: bv64)
    requires y < 0x8000_0000_0000_0000
    ensures ((y << 1) | 1) as int == 2 * (y as int) + 1
  {
  }

  lemma SplitLowBit(x: bv64)
    ensures x & 1 == 0 || x & 1 == 1
    ensures x & 1 == 0 ==> x == (x >> 1) << 1
    ensures x & 1 == 1 ==> x == ((x >> 1) << 1) | 1
  {
  }

  lemma EvenValue(x: bv64)
    requires x & 1 == 0
    ensures x as int == 2 * ((x >> 1) as int)
  {
    HalfBelowTopBit(x);
    SplitLowBit(x);
    DoubleValue(x >> 1);
  }

  lemma OddValue(x: bv64)
    requires x & 1 == 1
    ensures x as int == 2 * ((x >> 1) as int) + 1
  {
    HalfBelowTopBit(x);
    SplitLowBit(x);
    DoublePlusOneValue(x >> 1);
  }

  /** A word is worth twice its upper 63 bits plus its low bit. */
  lemma LowBitValue(x: bv64)
    ensures x as int == 2 * ((x >> 1) as int) + (if x & 1 == 0 then 0 else 1)
  {
    SplitLowBit(x);
    if x & 1 == 0 {
      EvenValue(x);
    } else {
      OddValue(x);
    }
  }

  lemma ZeroValue(x: bv64)
    ensures x == 0 <==> x as int == 0
  {
    assert (x as int) as bv64 == x;
  }

  /** Halving a nonzero word halves its value. */
  lemma HalfValue(x: bv64)
    requires x != 0
    ensures x as int / 2 == (x >> 1) as int && x as int >= 1
  {
    LowBitValue(x);
    ZeroValue(x);
  }

  /** A nonzero word with nothing above its low bit is 1. */
  lemma LastBitValue(x: bv64)
    requires x != 0 && x >> 1 == 0
    ensures x as int == 1
  {
    LowBitValue(x);
    ZeroValue(x >> 1);
  }

  // ---------------------------------------------------------------------
  // Bit length
  // ---------------------------------------------------------------------

  /** The number of bits of x up to and including its highest set bit. */
  ghost function BitLength(x: bv64): nat
    decreases x
  {
    if x == 0 then 0 else 1 + BitLength(x >> 1)
  }

  lemma BitLengthStep(x: bv64)
    requires x != 0
    ensures BitLength(x) == 1 + BitLength(x >> 1)
  {
  }

  lemma BoundsStep(v: int, h: int, n: nat)
    requires n >= 1 && v >= 1 && v / 2 == h && Pow2(n - 1) <= h < Pow2(n)
    ensures Pow2(n) <= v < Pow2(n + 1)
  {
  }

  /** The bounds for x follow from the bounds for x >> 1. */
  lemma BoundsFromHalf(x: bv64)
    requires x != 0 && x >> 1 != 0
    requires Pow2(BitLength(x >> 1) - 1) <= (x >> 1) as int < Pow2(BitLength(x >> 1))
    ensures Pow2(BitLength(x) - 1) <= x as int < Pow2(BitLength(x))
  {
    BitLengthStep(x);
    HalfValue(x);
    BoundsStep(x as int, (x >> 1) as int, BitLength(x >> 1));
  }

  /** A nonzero word of bit length n lies in [2^(n-1), 2^n). */
  lemma {:induction false} BitLengthBounds(x: bv64)
    requires x != 0
    ensures Pow2(BitLength(x) - 1) <= x as int < Pow2(BitLength(x))
    decreases BitLength(x)
  {
    BitLengthStep(x);
    if x >> 1 != 0 {
      BitLengthBounds(x >> 1);
      BoundsFromHalf(x);
    } else {
      LastBitValue(x);
    }
  }

  // ---------------------------------------------------------------------
  // Words of the form 2^k - 1
  // ---------------------------------------------------------------------

  lemma AllOnesShift(r: bv64)
    requires r != 0 && AllOnesBelowTop(r)
    ensures r & 1 == 1 && AllOnesBelowTop(r >> 1)
  {
  }

  /** The value of an all-ones word follows from that of its upper bits. */
  lemma AllOnesFromHalf(r: bv64)
    requires r != 0 && AllOnesBelowTop(r)
    requires (r >> 1) as int + 1 == Pow2(BitLength(r >> 1))
    ensures r as int + 1 == Pow2(BitLength(r))
  {
    AllOnesShift(r);
    LowBitValue(r);
    BitLengthStep(r);
  }

  /** A word of the form 2^k - 1 is worth 2^k - 1, where k is its bit length. */
  lemma {:induction false} AllOnesValue(r: bv64)
    requires AllOnesBelowTop(r)
    ensures r as int + 1 == Pow2(BitLength(r))
    decreases BitLength(r)
  {
    if r != 0 {
      BitLengthStep(r);
      AllOnesShift(r);
      AllOnesValue(r >> 1);
      AllOnesFromHalf(r);
    } else {
      ZeroValue(r);
    }
  }

  lemma HalvesLt(x: bv64, z: bv64)
    requires z >> 1 < x >> 1
    ensures z < x
  {
  }

  /** A word with more bits than an all-ones word z is above z. */
  lemma {:induction false} AboveAllOnes(x: bv64, z: bv64)
    requires AllOnesBelowTop(z) && BitLength(z) < BitLength(x)
    ensures z < x
    decreases BitLength(x)
  {
    BitLengthStep(x);
    if z != 0 {
      BitLengthStep(z);
      AllOnesShift(z);
      AboveAllOnes(x >> 1, z >> 1);
      HalvesLt(x, z);
    }
  }

  lemma BelowAllOnesStep(x: bv64, z: bv64)
    requires z & 1 == 1 && x >> 1 <= z >> 1
    ensures x <= z
  {
  }

  /** A word with no more bits than an all-ones word z is at most z. */
  lemma {:induction false} BelowAllOnes(x: bv64, z: bv64)
    requires AllOnesBelowTop(z) && BitLength(x) <= BitLength(z)
    ensures x <= z
    decreases BitLength(z)
  {
    if x != 0 {
      BitLengthStep(x);
      BitLengthStep(z);
      AllOnesShift(z);
      BelowAllOnes(x >> 1, z >> 1);
      BelowAllOnesStep(x, z);
    }
  }

  // ---------------------------------------------------------------------
  // n_next_pow2m1 as an integer
  // ---------------------------------------------------------------------

  /** Smearing keeps the bit length. */
  lemma NextPow2m1BitLength(a: bv64)
    ensures BitLength(NNextPow2m1(a)) == BitLength(a)
  {
    var r := NNextPow2m1(a);
    NextPow2m1IsAllOnes(a);
    NextPow2m1IsAtLeast(a);
    NextPow2m1HasSameTopBit(a);
    if BitLength(r) < BitLength(a) {
      AboveAllOnes(a, r);
      assert false;
    }
    if a != 0 {
      BitLengthStep(r);
      AllOnesShift(r);
      if BitLength(a) <= BitLength(r >> 1) {
        BelowAllOnes(a, r >> 1);
        assert false;
      }
    }
  }

  /** The exponent of the power of two just above v is unique. */
  lemma Pow2Unique(v: int, m: nat, n: nat)
    requires m >= 1 && Pow2(m - 1) <= v < Pow2(m)
    requires n >= 1 && Pow2(n - 1) <= v < Pow2(n)
    ensures m == n
  {
    if m < n {
      Pow2Monotone(m, n - 1);
    } else if m > n {
      Pow2Monotone(n, m - 1);
    }
  }

  /** n_nbits(v) is the only n with 2^(n-1) <= v < 2^n. */
  lemma NbitsUnique(v: Word, m: nat)
    requires v != 0 && m >= 1 && Pow2(m - 1) <= v < Pow2(m)
    ensures NNbits(v) == m
  {
    NbitsBounds(v);
    Pow2Unique(v, m, NNbits(v));
  }

  /** The bit length of a nonzero word is n_nbits of its value. */
  lemma BitLengthIsNbits(a: bv64)
    requires a != 0
    ensures a as int != 0 && BitLength(a) == NNbits(a as int)
  {
    ZeroValue(a);
    BitLengthStep(a);
    BitLengthBounds(a);
    NbitsUnique(a as int, BitLength(a));
  }

  /** An all-ones word as long as a nonzero a is worth 2^nbits(a) - 1. */
  lemma AllOnesAsLongAs(r: bv64, a: bv64)
    requires a != 0 && AllOnesBelowTop(r) && BitLength(r) == BitLength(a)
    ensures r as int == Pow2(NNbits(a as int)) - 1
  {
    AllOnesValue(r);
    BitLengthIsNbits(a);
  }

  /** For a != 0, n_next_pow2m1(a) is 2^nbits(a) - 1. */
  lemma NextPow2m1Value(a: bv64)
    requires a != 0
    ensures NNextPow2m1(a) as int == Pow2(NNbits(a as int)) - 1
  {
    NextPow2m1IsAllOnes(a);
    NextPow2m1BitLength(a);
    AllOnesAsLongAs(NNextPow2m1(a), a);
  }
}
