# FLINT core helpers in Dafny

This project models, and proves properties of, a handful of self-contained
pieces of FLINT (Fast Library for Number Theory):

- **fft_small.h** (module `FftSmall`, file `fft_small.dfy`). The 64-bit word helpers
  `n_pow2`, `n_min`, `n_max`, `n_cdiv`, `n_round_up`, `n_next_pow2m1`,
  `n_leading_zeros`, `n_nbits` and `n_clog2`. It also covers the blocked buffer
  layout of the small-prime FFT context:
  - `sd_fft_ctx_blk_offset`: blocks of 256 doubles, with a gap of 4 doubles
    after every 4096 blocks;
  - `sd_fft_ctx_data_size`;
  - the `set_index`/`get_index` accessors;
  - the "slightly-worse-than-bit-reversed" read order of
    `sd_fft_ctx_get_fft_index`;
  - the whole-block arguments that `sd_fft_ctx_fft_trunc`/`ifft_trunc` pass on.
- **gr.h** (module `Gr`). The three-valued logic `truth_and`, `truth_or` and
  `truth_not`. The element addresses `GR_ENTRY`, and the layout that
  `GR_TMP_INIT1..5` give to temporaries. The status flags `GR_SUCCESS`,
  `GR_DOMAIN`, `GR_UNABLE` and `GR_WRONG`, and the idiom of OR-ing the
  statuses of a sequence of steps.
- **fmpz_factor/fit_length.c** (module `FmpzFactor`). A class `Factor` with the
  parallel arrays `p` and `exp`, and the grow-only resize
  `_fmpz_factor_fit_length`.
- **fmpz_mod_poly/add.c** (module `FmpzModPoly`).
  - The in-place coefficient loop `_fmpz_mod_poly_add`: it adds, then
    subtracts p once when the sum is at least p.
  - The class `ModPoly` and its `fmpz_mod_poly_add`: fit length, add,
    set length, normalise.
- **fq_poly/powmod_ui_binexp.c** (module `FqPoly`).
  - The loop of `_fq_poly_powmod_ui_binexp`: left-to-right binary
    exponentiation modulo f, scanning the exponent's bits from the top.
  - The case dispatch of `fq_poly_powmod_ui_binexp`: divide-by-zero abort,
    pre-reduction, the small exponents, a constant f or a zero poly, and
    zero-padding.
- **acb_theta/get_d.c** (module `AcbTheta`). `fmpz_mat_get_d`: nested loops
  that copy the lower-right g x g block of a 2g x 2g matrix.

Shared modules:
- `Polys` (`polys.dfy`): the coefficient-sequence helpers of the two
  polynomial modules. These are zero-padded reads, normalisation (dropping
  zero top coefficients) and zero-padding.
- `Ints` (`ints.dfy`): `FLINT_MIN`/`FLINT_MAX` on integers and two facts
  about Euclidean division.
- `Memory` (`memory.dfy`): the growth policy of the `fit_length` functions,
  `flint_realloc` on arrays, and zeroing the tail of an array.
- `WordBits` (`word_bits.dfy`): the integer value of a 64-bit bit-vector,
  one low bit at a time, used to give `n_next_pow2m1` its value.

Modelling conventions:
- A C `ulong` is a `Word`, an integer in [0, 2^64). Where C wraps around,
  the model reduces modulo 2^64 explicitly.
- The shift-and-OR smear of `n_next_pow2m1` is written on `bv64`.
- Big integers (`fmpz`) and finite-field elements are Dafny `int`s.
- Things the source changes in place are classes and arrays with `modifies`
  frames: the factor record, the polynomial's coefficient array, the FFT
  buffer for `set_index`, and the matrix `d`.
- The field and polynomial primitives that powmod calls are not visible.
  They are abstracted as function values in a datatype `Arith`. The
  predicate `Lawful` names what the algorithm relies on:
  - reductions modulo f are normalised and shorter than f;
  - multiplication modulo f is associative and absorbs zero;
  - for a linear f, field exponentiation agrees with repeated multiplication.

## Model

| member | source | states |
|---|---|---|
| `FftSmall.NPow2` | fft_small.h:36-39 | `1 << k` for k < 64 is 2^k and at most 2^63 |
| `FftSmall.NMin` | fft_small.h:41-44 | the result is one of the arguments and at most both |
| `FftSmall.NMax` | fft_small.h:46-49 | the result is one of the arguments and at least both |
| `Ints.Min` | fft_small.h:41-44 | FLINT_MIN: the result is one of the arguments and at most both |
| `Ints.Max` | fmpz_mod_poly/add.c:22 | FLINT_MAX: the result is one of the arguments and at least both |
| `FftSmall.NCdiv` | fft_small.h:51-54 | `(a + b - 1) / b`, the sum wrapping modulo 2^64; `CdivIsCeiling` states that it is the ceiling of a / b |
| `FftSmall.CdivIsCeiling` | fft_small.h:51-54 | when `a + b - 1` does not wrap, n_cdiv(a, b) * b >= a > (n_cdiv(a, b) - 1) * b, i.e. it is the ceiling of a / b |
| `FftSmall.NRoundUp` | fft_small.h:56-59 | `n_cdiv(a, b) * b` with 64-bit wrap-around; `RoundUpExact` and `RoundUpIsLeastMultiple` state what it is |
| `FftSmall.RoundUpExact` | fft_small.h:56-59 | without wrap-around n_round_up(a, b) = n_cdiv(a, b) * b and lies in [a, a + b) |
| `FftSmall.RoundUpIsLeastMultiple` | fft_small.h:56-59 | n_round_up(a, b) is a multiple of b, at least a, and no larger than any multiple of b that is at least a |
| `FftSmall.NNextPow2m1` | fft_small.h:61-73 | the shift-and-OR smear on a 64-bit word; the five lemmas below and `WordBits.NextPow2m1Value` state what it computes |
| `FftSmall.NextPow2m1IsAtLeast` | fft_small.h:61-73 | n_next_pow2m1(a) >= a |
| `FftSmall.NextPow2m1IsAllOnes` | fft_small.h:61-73 | the result has the form 2^k - 1: every bit below its top bit is set |
| `FftSmall.NextPow2m1HasSameTopBit` | fft_small.h:61-73 | no bit above the top bit of a is set (result >> 1 < a), and 0 maps to 0 |
| `FftSmall.NextPow2m1IsLeast` | fft_small.h:61-73 | the result is at most every word of the form 2^k - 1 that is at least a |
| `WordBits.NextPow2m1Value` | fft_small.h:61-73 | for a != 0 the value of the result is 2^nbits(a) - 1 |
| `WordBits.BitLengthIsNbits` | fft_small.h:95-97 | the bit length of a nonzero word, counted bit by bit, is n_nbits of its value |
| `FftSmall.NextPow2m1Table` | fft_small.h:61-73 | the table in the comment: 0 -> 0, 1 -> 1, [2,3] -> 3, [4,7] -> 7, [8,15] -> 15 |
| `FftSmall.NLeadingZeros` | fft_small.h:87-89 | defined only for x != 0, like `__builtin_clzll`, and below 64 |
| `FftSmall.NNbits` | fft_small.h:95-97 | for x != 0 the bit length lies in [1, 64] |
| `FftSmall.NbitsBounds` | fft_small.h:95-97 | for x != 0 and n = n_nbits(x): 2^(n-1) <= x < 2^n |
| `FftSmall.NClog2` | fft_small.h:99-101 | 0 -> 0, 1 -> 0, 2 -> 1 |
| `FftSmall.Clog2IsCeilingLog` | fft_small.h:99-101 | for x >= 1 and r = n_clog2(x): x <= 2^r, and 2^(r-1) < x when r > 0 |
| `FftSmall.BlkOffset` | fft_small.h:121-124 | `(I << 8) + 4 * (I >> 12)` with 64-bit wrap-around; the three lemmas below state its value and its gaps |
| `FftSmall.BlkOffsetExact` | fft_small.h:121-124 | for block indices up to 2^55 nothing wraps: offset = 256 I + 4 (I / 4096) |
| `FftSmall.BlkOffsetStep` | fft_small.h:121-124 | consecutive offsets differ by 256, or by 260 exactly when I + 1 is a multiple of 4096 |
| `FftSmall.BlkOffsetGap` | fft_small.h:121-124 | the offset is strictly increasing and blocks never overlap: offset(I) + 256 <= offset(J) for I < J |
| `FftSmall.DataSize` | fft_small.h:126-129 | the offset of block 2^(depth-8), one past the last block; `IndexPosInBuffer` states that it bounds every position |
| `FftSmall.IndexPos` | fft_small.h:131-144 | the physical position `blk_offset(i / 256) + i % 256`; `IndexPosInBuffer` and `IndexPosInjective` state that it is in range and one-to-one |
| `FftSmall.GetIndex` | fft_small.h:141-144 | reads the physical position of logical index i; requires the index below 2^depth, which `IndexPosInBuffer` shows to be in the buffer |
| `FftSmall.IndexPosInBuffer` | fft_small.h:126-144 | for 8 <= depth < 64 every logical index below 2^depth has a physical position below data_size |
| `FftSmall.IndexPosInjective` | fft_small.h:131-144 | distinct logical indices have distinct physical positions |
| `FftSmall.SetIndex` | fft_small.h:136-144 | after set_index(i, x), get_index(i) is x, every other logical index reads as before, and only one physical slot changed |
| `FftSmall.FftSlot` | fft_small.h:149-152 | the in-block position keeps bits 4-7 of i and swaps the bit pairs 0-1 and 2-3, and stays below 256 |
| `FftSmall.FftSlotInvolution` | fft_small.h:149-152 | the in-block position depends only on i mod 256 and applying it twice gives i mod 256 back |
| `FftSmall.FftPerm` | fft_small.h:146-154 | the logical index that get_fft_index(i) reads: the block of i with the in-block position `FftSlot(i)`; the two lemmas below state that it is an involution and a bijection |
| `FftSmall.FftPermIsInvolution` | fft_small.h:146-154 | get_fft_index(i) reads an index of the same block below 2^depth, and the read order is its own inverse |
| `FftSmall.FftPermInjective` | fft_small.h:146-154 | the read order is a bijection on [0, 2^depth) |
| `FftSmall.GetFftIndex` | fft_small.h:146-154 | get_fft_index(i) returns get_index of the permuted index |
| `FftSmall.FftTruncCall` | fft_small.h:176-181 | itrunc and otrunc must be multiples of 256; the transform gets them as block counts over 2^(depth-8) blocks starting at block 0 |
| `FftSmall.IfftTruncCall` | fft_small.h:183-187 | trunc must be a multiple of 256; the inverse transform gets it as a block count for both truncation points |
| `Gr.TruthNot` | gr.h:44-51 | swaps T_TRUE and T_FALSE, keeps T_UNKNOWN, and negates what its argument describes |
| `Gr.TruthNotInvolution` | gr.h:44-51 | truth_not is an involution |
| `Gr.TruthAnd` | gr.h:26-33 | as written: T_FALSE iff x is T_FALSE, T_TRUE iff both are T_TRUE |
| `Gr.TruthOr` | gr.h:35-42 | as written: T_TRUE iff x is T_TRUE, T_FALSE iff both are T_FALSE |
| `Gr.TruthAndOrSound` | gr.h:26-42 | a definite answer of truth_and/truth_or as written is never wrong |
| `Gr.TruthAndOrAsWritten` | gr.h:28-39 | truth_and(T_TRUE, T_FALSE), truth_and(T_UNKNOWN, T_FALSE), truth_or(T_FALSE, T_TRUE) and truth_or(T_UNKNOWN, T_TRUE) give T_UNKNOWN, so the operators do not commute |
| `Gr.KleeneAnd` | gr.h:26-33 | the corrected conjunction: T_FALSE iff either operand is T_FALSE, T_TRUE iff both are T_TRUE |
| `Gr.KleeneOr` | gr.h:35-42 | the corrected disjunction: T_TRUE iff either operand is T_TRUE, T_FALSE iff both are T_FALSE |
| `Gr.KleeneIsMostPrecise` | gr.h:26-42 | the corrected operators are sound, and every other sound answer is the same or T_UNKNOWN |
| `Gr.KleeneDeMorgan` | gr.h:26-51 | De Morgan's laws with truth_not, and commutativity, for the corrected operators |
| `Gr.Entry` | gr.h:87 | `GR_ENTRY(vec, i, size)` as the address vec + i * size; `EntriesDisjoint` and `TmpInitIsEntries` state what it gives |
| `Gr.EntriesDisjoint` | gr.h:87 | for size > 0, distinct indices give disjoint byte ranges of width size |
| `Gr.TmpInitLayout` | gr.h:469-527 | GR_TMP_INITn gives n temporaries, the first at the allocation |
| `Gr.TmpInitIsEntries` | gr.h:477-527 | temporary k is GR_ENTRY(x1, k, sizeof_elem) and lies inside the allocation of n elements |
| `Gr.StatusFlagsAreDistinctBits` | gr.h:76-79 | the constants GR_SUCCESS = 0, GR_DOMAIN = 1, GR_UNABLE = 2, GR_WRONG = 4: the failure codes are distinct single bits and success is 0 |
| `Gr.AccumulateStatus` | gr.h:429-436 | the OR of the step statuses is their least upper bound; it is GR_SUCCESS iff every step succeeded, and each flag is set iff some step raised it |
| `Gr.UnionIsSuccess` | gr.h:429-436 | any least upper bound of the steps is GR_SUCCESS iff every step is |
| `Gr.UnionHasFlag` | gr.h:429-436 | a flag is set in the least upper bound iff some step set it |
| `Memory.GrownAlloc` | fmpz_factor/fit_length.c:36-39 | the new capacity, max(len, 2 alloc) when len exceeds alloc, else alloc; `Memory.GrownAllocProperties` states its properties |
| `Memory.GrownAllocProperties` | fmpz_factor/fit_length.c:36-50 | the capacity never shrinks and covers len; it is unchanged when len fits, max(len, 2 alloc) when growing, exactly len from 0; a repeated len changes nothing |
| `FmpzFactor.FittedContents` | fmpz_factor/fit_length.c:41-48 | the old entries followed by zeros up to the grown capacity; `FittedContentsProperties` states what it keeps |
| `FmpzFactor.FittedContentsProperties` | fmpz_factor/fit_length.c:41-48 | the resized array has the new capacity, keeps every old entry, has zeros in the new slots, and is unchanged when len fits |
| `FmpzFactor.FittedContentsIdempotent` | fmpz_factor/fit_length.c:33-52 | fitting the same length twice is the same as once |
| `FmpzFactor.Factor.FitLength` | fmpz_factor/fit_length.c:33-52 | alloc, p and exp become the grown capacity and the fitted contents; new arrays only when growing; sign and num unchanged |
| `Memory.Realloc` | fmpz_factor/fit_length.c:41-42 | a fresh block of the new size that starts with the old entries |
| `Memory.ZeroFrom` | fmpz_factor/fit_length.c:44-48 | zeros every slot from the old capacity on and keeps the ones before |
| `Polys.Normalise` | fmpz_mod_poly/add.c:50 | the result is normalised, is a prefix of the input, and only zeros were dropped |
| `Polys.NormaliseKeepsPoly` | fmpz_mod_poly/add.c:50 | normalising keeps every coefficient |
| `Polys.PadKeepsPoly` | fq_poly/powmod_ui_binexp.c:126-133 | zero-padding keeps every coefficient and the normal form |
| `FmpzModPoly.SubOnce` | fmpz_mod_poly/add.c:31-33 | c - p when that is non-negative, else c; `ModAddChangesIffOverflow` and `ModAddReduced` state its effect |
| `FmpzModPoly.ModAdd` | fmpz_mod_poly/add.c:22 | the raw result has length max(len1, len2) |
| `FmpzModPoly.ModAddCongruent` | fmpz_mod_poly/add.c:25-34 | each coefficient is congruent to poly1[i] + poly2[i] modulo p, missing coefficients reading as 0 |
| `FmpzModPoly.ModAddReduced` | fmpz_mod_poly/add.c:29-34 | on inputs in [0, p) one subtraction suffices: each coefficient is (poly1[i] + poly2[i]) mod p, in [0, p) |
| `FmpzModPoly.ModAddChangesIffOverflow` | fmpz_mod_poly/add.c:31-33 | a coefficient is changed by the loop iff its raw sum is at least p |
| `FmpzModPoly.ModAddCommutes` | fmpz_mod_poly/add.c:19-37 | swapping poly1 and poly2 gives the same result |
| `FmpzModPoly.NormalisedModAddIsSum` | fmpz_mod_poly/add.c:39-51 | the normalised result is normalised and its coefficient i is (poly1[i] + poly2[i]) mod p for every i |
| `FmpzModPoly.AddInto` | fmpz_mod_poly/add.c:19-37 | the loop leaves the first max(len1, len2) entries of res equal to the specification and every later entry untouched |
| `FmpzModPoly.ModPoly.FitLength` | fmpz_mod_poly/add.c:44 | the capacity becomes `GrownAlloc(alloc, max)`, so at least max, and the polynomial held is unchanged; a new array only when growing |
| `FmpzModPoly.ModPoly.Normalise` | fmpz_mod_poly/add.c:50 | the length drops to the normal form of the coefficients held |
| `FmpzModPoly.ModPoly.Add` | fmpz_mod_poly/add.c:39-51 | res becomes the normalised sum of the operands as they were on entry (so res may alias an operand), and stays reduced and normalised |
| `FqPoly.PolyPow` | fq_poly/powmod_ui_binexp.c:58-68 | x^n modulo f for n >= 1: x multiplied in n - 1 times with `mulmod`; `PolyPowAdd` and `PolyPowReduced` state its laws |
| `FqPoly.PolyPowAdd` | fq_poly/powmod_ui_binexp.c:58-68 | x^(m+n) = x^m x^n modulo f, from associativity |
| `FqPoly.PolyPowReduced` | fq_poly/powmod_ui_binexp.c:154-155 | every power of a reduced polynomial is normalised and shorter than f |
| `FqPoly.PolyPowOfZero` | fq_poly/powmod_ui_binexp.c:120-124 | every power of the zero polynomial is zero |
| `FqPoly.ShrIsDiv` | fq_poly/powmod_ui_binexp.c:63 | e >> s is e / 2^s |
| `FqPoly.TopBit` | fq_poly/powmod_ui_binexp.c:58 | e >> (bitcount(e) - 1) is 1, so the loop starts from poly^1 |
| `FqPoly.PowmodBinexpInner` | fq_poly/powmod_ui_binexp.c:33-72 | on lenf - 1 padded coefficients, the result has lenf - 1 coefficients and normalises to poly^e mod f; the loop keeps res = poly^(e >> (i+1)) |
| `FqPoly.LinearModulusPower` | fq_poly/powmod_ui_binexp.c:41-45 | for a linear f, raising the single coefficient in the field gives poly^e mod f; this is the assumed law of fq_pow_ui (`FieldPowAgrees`) read at poly[0] |
| `FqPoly.SquareAndMultiply` | fq_poly/powmod_ui_binexp.c:60-67 | one iteration turns res = x^k into x^(2k) or x^(2k+1) as bit i is clear or set, keeping lenf - 1 coefficients |
| `FqPoly.SquareStep` | fq_poly/powmod_ui_binexp.c:60-61 | squaring x^k modulo f and padding gives x^(2k) |
| `FqPoly.MultiplyStep` | fq_poly/powmod_ui_binexp.c:65-66 | multiplying x^k by x modulo f and padding gives x^(k+1) |
| `FqPoly.PowModIsPower` | fq_poly/powmod_ui_binexp.c:75-156 | the abort happens iff f is zero, and for e >= 1 every branch gives (poly mod f)^e mod f |
| `FqPoly.PowMod` | fq_poly/powmod_ui_binexp.c:75-156 | the dispatch on values; a poly not shorter than f gives, by definition, the result of its remainder; `PowModIsPower` and `PowModResultShape` state its results |
| `FqPoly.PowModResultShape` | fq_poly/powmod_ui_binexp.c:103-110 | e = 0 gives the constant 1 even for a constant f; every e >= 1 gives a normalised result of length at most lenf - 1 |
| `FqPoly.PowmodUiBinexp` | fq_poly/powmod_ui_binexp.c:75-156 | the dispatch with zero-padding, the powering loop and the final normalisation computes the value-level dispatch `PowMod` |
| `AcbTheta.HalfRows` | acb_theta/get_d.c:6 | g is the number of rows of m halved and rounded down |
| `AcbTheta.GetD` | acb_theta/get_d.c:4-16 | d[j, k] = m[j+g, k+g] for j, k < g; the rest of d is unchanged, and so is m when it is a different matrix |

## Left out

- The transforms, the CRT, multiplication and profile selection declared in
  fft_small.h:162-172 and 199-243. Their bodies are not part of this model,
  and they rest on double-precision fused multiply-add reduction.
- `flint_aligned_alloc`/`flint_aligned_free` and `sd_fft_ctx_clear`
  (fft_small.h:104-106, 156-159): raw memory management.
- `n_trailing_zeros` (fft_small.h:91-93): no modelled code uses it.
- `sd_fft_ctx_blk_index` (fft_small.h:131-134) is pointer arithmetic. It appears
  only as the offset `BlkOffset` that the accessors add to the buffer index.
- gr.h method dispatch (gr.h:53, 91-418): function pointers into ring
  implementations that are not part of this model.
- gr.h stream I/O (gr.h:57-74) and printing (gr.h:441-446).
- `_gr_vec_randtest` (gr.h:421-439) draws random numbers. Only its status
  accumulation is modelled, with the statuses of the steps given as a
  sequence.
- `GR_TMP_ALLOC` and the `init` calls inside `GR_TMP_INIT1..5`. Only the
  address arithmetic is modelled, with addresses as integers.
- `FmpzFactor.Factor.constructor` builds the empty record that
  `fmpz_factor_init` creates (sign 1, no factors, capacity 0). fmpz_factor/init.c
  is not part of this model.
- `FmpzFactor.Factor.FitLength` uses unbounded integers, so the overflow of
  `2 * alloc` or `len * sizeof(fmpz)` for huge lengths is not modelled. A failed
  `flint_realloc` (an abort) is not modelled either. A reallocated block is a
  fresh array, so old pointers into it are not tracked.
- `FmpzModPoly.ModPoly.FitLength` models `fmpz_mod_poly_fit_length`. Its source is
  not part of this model. It is given the growth policy `Memory.GrownAlloc`
  of the factor record, and keeps the held coefficients; whether the new
  slots are zeroed is not stated, since `fmpz_mod_poly_add` overwrites them.
- `_fmpz_mod_poly_set_length` (fmpz_mod_poly/add.c:49) is modelled as setting
  `length`. Its zeroing of coefficients above a shorter new length is not part
  of this model; it does not affect the polynomial held.
- `FmpzModPoly.ModPoly.Add` requires all three polynomials to share the
  modulus p. The source adds with `res->p` and assumes the caller passes equal
  moduli.
- The finite-field and polynomial primitives that powmod calls (`fq_pow_ui`,
  `fq_inv`, `_fq_poly_sqr`, `_fq_poly_mul`, `_fq_poly_divrem`, `fq_poly_divrem`,
  `fq_poly_mulmod`) are abstracted by `Arith` and the `Lawful` assumptions.
  The precomputed inverse of f's leading coefficient is therefore not
  modelled.
- `FqPoly.PowmodBinexpInner` requires e >= 1. The only caller passes e >= 3.
  With e = 0 and lenf >= 3 the source loop does not run and returns poly; with
  lenf == 2 it returns fq_pow_ui(poly[0], 0) = 1.
- The aliasing and temporary-swap handling of fq_poly/powmod_ui_binexp.c:135-149.
  The model works on values, so the result does not depend on whether
  res aliases poly or f. Temporary allocation and clearing are not modelled.
- The divide-by-zero abort (fq_poly/powmod_ui_binexp.c:85-89) is the
  `DivideByZero` outcome; the message printed is not modelled.
- `fmpz_set` on big integers in acb_theta/get_d.c is an `int` assignment.
- fq_poly/test/t-mullow.c and acb_theta/test/t-arb_eld_interval.c: randomised
  tests of functions that are not part of this model.

## Findings

| source | as written | input that shows it | evidently intended | confidence | as-written member | corrected member |
|---|---|---|---|---|---|---|
| gr.h:28 | `truth_and` tests `x == T_FALSE` twice and never tests y for T_FALSE | truth_and(T_TRUE, T_FALSE) gives T_UNKNOWN, while truth_and(T_FALSE, T_TRUE) gives T_FALSE | the second test reads `y == T_FALSE`: strong Kleene conjunction, T_FALSE whenever either side is T_FALSE | not executed; high | `Gr.TruthAndOrAsWritten` | `Gr.KleeneAnd` |
| gr.h:37 | `truth_or` tests `x == T_TRUE` twice and never tests y for T_TRUE | truth_or(T_FALSE, T_TRUE) gives T_UNKNOWN, while truth_or(T_TRUE, T_FALSE) gives T_TRUE | the second test reads `y == T_TRUE`: strong Kleene disjunction, T_TRUE whenever either side is T_TRUE | not executed; high | `Gr.TruthAndOrAsWritten` | `Gr.KleeneOr` |

The as-written operators are `Gr.TruthAnd` and `Gr.TruthOr`. Both are sound,
but less precise than the corrected ones (`Gr.TruthAndOrSound`).
`Gr.KleeneIsMostPrecise` proves that the corrected operators give the most
precise sound answer.
