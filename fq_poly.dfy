/**
 * Modular exponentiation of polynomials over a finite field by left-to-right
 * binary powering (fq_poly/powmod_ui_binexp.c).
 *
 * The field and polynomial primitives the source calls (`fq_pow_ui`,
 * `_fq_poly_sqr`, `_fq_poly_mul`, `_fq_poly_divrem`, `fq_poly_divrem`,
 * `fq_poly_mulmod`) are not part of this model. They are abstracted as an
 * `Arith` value: `mulmod` is a product followed by reduction modulo the
 * modulus f, `rem` is reduction modulo f, and `fqPow` is exponentiation in
 * the field. `Lawful` states what the algorithm relies on about them.
 * Field elements are `int`s, with 1 the unit; polynomials are normalised
 * coefficient sequences.
 */
module FqPoly {
  import opened Polys
  import opened Ints
  import opened FftSmall

  datatype Arith = Arith(
    mulmod: (seq<int>, seq<int>) -> seq<int>,
    rem: seq<int> -> seq<int>,
    fqPow: (int, nat) -> int)

  /**
   * What the algorithm relies on, for a modulus f of length lenf >= 1:
   * reductions are normalised and shorter than f, the product modulo f is
   * associative and absorbs zero, and when f is linear (so that the
   * quotient ring is the field itself) field exponentiation of a constant
   * agrees with repeated multiplication modulo f.
   */
  ghost predicate Lawful(A: Arith, lenf: nat)
  {
    Closed(A, lenf) && Associative(A) && ZeroAbsorbs(A) && (lenf == 2 ==> FieldPowAgrees(A))
  }

  /** Products and remainders modulo f are normalised and shorter than f. */
  ghost predicate Closed(A: Arith, lenf: nat)
  {
    && (forall a, b :: lenf >= 1 ==> IsNormalised(A.mulmod(a, b)) && |A.mulmod(a, b)| < lenf)
    && (forall a :: lenf >= 1 ==> IsNormalised(A.rem(a)) && |A.rem(a)| < lenf)
  }

  ghost predicate Associative(A: Arith)
  {
    forall a, b, c :: A.mulmod(A.mulmod(a, b), c) == A.mulmod(a, A.mulmod(b, c))
  }

  ghost predicate ZeroAbsorbs(A: Arith)
  {
    forall a :: A.mulmod(a, []) == [] && A.mulmod([], a) == []
  }

  /** For a linear f: the field power of c is the power of the constant c modulo f. */
  ghost predicate FieldPowAgrees(A: Arith)
  {
    forall c, n: nat :: n >= 1 ==> Polys.Normalise([A.fqPow(c, n)]) == PolyPow(A, Polys.Normalise([c]), n)
  }

  /** x^n modulo f, for n >= 1: x times itself n - 1 times, reducing each product. */
  function PolyPow(A: Arith, x: seq<int>, n: nat): seq<int>
    requires n >= 1
  {
    if n == 1 then x else A.mulmod(PolyPow(A, x, n - 1), x)
  }

  /** Powers add: x^(m+n) = x^m * x^n modulo f. */
  lemma {:induction false} PolyPowAdd(A: Arith, x: seq<int>, m: nat, n: nat)
    requires Associative(A) && m >= 1 && n >= 1
    ensures PolyPow(A, x, m + n) == A.mulmod(PolyPow(A, x, m), PolyPow(A, x, n))
    decreases n
  {
    if n > 1 {
      PolyPowAdd(A, x, m, n - 1);
      calc {
        PolyPow(A, x, m + n);
        A.mulmod(PolyPow(A, x, m + n - 1), x);
        A.mulmod(A.mulmod(PolyPow(A, x, m), PolyPow(A, x, n - 1)), x);
        A.mulmod(PolyPow(A, x, m), A.mulmod(PolyPow(A, x, n - 1), x));
      }
    }
  }

  /** Every power of a reduced polynomial is reduced: normalised and shorter than f. */
  lemma PolyPowReduced(A: Arith, lenf: nat, x: seq<int>, n: nat)
    requires Closed(A, lenf) && lenf >= 1 && n >= 1
    requires IsNormalised(x) && |x| < lenf
    ensures IsNormalised(PolyPow(A, x, n)) && |PolyPow(A, x, n)| < lenf
  {
  }

  /** Every power of the zero polynomial is zero. */
  lemma {:induction false} PolyPowOfZero(A: Arith, n: nat)
    requires ZeroAbsorbs(A) && n >= 1
    ensures PolyPow(A, [], n) == []
    decreases n
  {
    if n > 1 {
      PolyPowOfZero(A, n - 1);
    }
  }

  // ---------------------------------------------------------------------
  // Bits of the exponent
  // ---------------------------------------------------------------------

  /** `e >> s`: the exponent with its s low bits dropped. */
  function Shr(e: nat, s: nat): nat
    decreases s
  {
    if s == 0 then e else Shr(e, s - 1) / 2
  }

  /** The shift drops bits: e >> s is e / 2^s. */
  lemma {:induction false} ShrIsDiv(e: nat, s: nat)
    ensures Shr(e, s) == e / Pow2(s)
    decreases s
  {
    if s > 0 {
      ShrIsDiv(e, s - 1);
      assert Pow2(s) == 2 * Pow2(s - 1);
      HalfOfQuotient(e, Pow2(s - 1));
    }
  }

  /** Halving e / d is dividing e by 2d. */
  lemma HalfOfQuotient(e: nat, d: nat)
    requires d > 0
    ensures (e / d) / 2 == e / (2 * d)
  {
    var q, r := e / d, e % d;
    var h, b := q / 2, q % 2;
    assert e == q * d + r;
    assert q * d == h * (2 * d) + b * d by {
      assert q == 2 * h + b;
    }
    assert b * d <= d by {
      if b == 1 {
        assert b * d == d;
      } else {
        assert b * d == 0;
      }
    }
    DivModUnique(e, 2 * d, h, b * d + r);
  }

  /** The top bit: e >> (nbits(e) - 1) == 1. */
  lemma TopBit(e: Word)
    requires e >= 1
    ensures Shr(e, NNbits(e) - 1) == 1
  {
    var n := NNbits(e);
    ShrIsDiv(e, n - 1);
    NbitsBounds(e);
    Pow2Add(n - 1, 1);
    Pow2Values();
    DivModUnique(e, Pow2(n - 1), 1, e - Pow2(n - 1));
  }

  // ---------------------------------------------------------------------
  // _fq_poly_powmod_ui_binexp
  // ---------------------------------------------------------------------

  /**
   * `_fq_poly_powmod_ui_binexp(res, poly, e, f, lenf)`: poly is given as
   * lenf - 1 coefficients (zero-padded), and so is res. For a linear f the
   * single coefficient is raised in the field. Otherwise res starts as
   * poly, and for each bit i of e below the top bit, from high to low, res
   * is squared modulo f and, when bit i is set, multiplied by poly modulo f.
   */
  method PowmodBinexpInner(A: Arith, poly: seq<int>, e: Word, lenf: nat) returns (res: seq<int>)
    requires Lawful(A, lenf) && lenf >= 2 && |poly| == lenf - 1 && e >= 1
    ensures |res| == lenf - 1
    ensures Polys.Normalise(res) == PolyPow(A, Polys.Normalise(poly), e)
  {
    if lenf == 2 {
      res := [A.fqPow(poly[0], e)];
      LinearModulusPower(A, poly, e);
      return;
    }
    var x := Polys.Normalise(poly);
    res := poly;
    TopBit(e);
    var i: int := NNbits(e) - 2;
    while i >= 0
      invariant -1 <= i <= NNbits(e) - 2
      invariant |res| == lenf - 1
      invariant IsPowerOf(A, x, res, Shr(e, i + 1))
      decreases i
    {
      res := SquareAndMultiply(A, lenf, x, res, Shr(e, i + 1), Shr(e, i) % 2 == 1);
      i := i - 1;
    }
  }

  /** res holds x^k modulo f, for some k >= 1. */
  ghost predicate IsPowerOf(A: Arith, x: seq<int>, res: seq<int>, k: nat)
  {
    k >= 1 && Polys.Normalise(res) == PolyPow(A, x, k)
  }

  /**
   * One iteration of the powering loop on res = x^k: square modulo f, then
   * multiply by x modulo f when the current bit is set, keeping lenf - 1
   * coefficients each time.
   */
  method SquareAndMultiply(A: Arith, lenf: nat, x: seq<int>, res: seq<int>, k: nat, bitSet: bool)
    returns (next: seq<int>)
    requires Closed(A, lenf) && Associative(A) && lenf >= 2
    requires IsPowerOf(A, x, res, k)
    ensures |next| == lenf - 1
    ensures IsPowerOf(A, x, next, 2 * k + (if bitSet then 1 else 0))
  {
    SquareStep(A, lenf, x, res, k);
    next := Pad(A.mulmod(Polys.Normalise(res), Polys.Normalise(res)), lenf - 1);
    if bitSet {
      MultiplyStep(A, lenf, x, next, 2 * k);
      next := Pad(A.mulmod(Polys.Normalise(next), x), lenf - 1);
    }
  }

  /**
   * For a linear f, the branch that calls `fq_pow_ui` on poly[0]: this is the
   * assumed law of `fq_pow_ui` (`FieldPowAgrees`) read at the one
   * coefficient, so the field power is the power modulo f.
   */
  lemma LinearModulusPower(A: Arith, poly: seq<int>, e: nat)
    requires FieldPowAgrees(A) && |poly| == 1 && e >= 1
    ensures Polys.Normalise([A.fqPow(poly[0], e)]) == PolyPow(A, Polys.Normalise(poly), e)
  {
    assert poly == [poly[0]];
  }

  /** Squaring res = x^k modulo f, kept as lenf - 1 coefficients, gives x^(2k). */
  lemma SquareStep(A: Arith, lenf: nat, x: seq<int>, res: seq<int>, k: nat)
    requires Closed(A, lenf) && Associative(A) && lenf >= 2 && k >= 1
    requires Polys.Normalise(res) == PolyPow(A, x, k)
    ensures var sq := A.mulmod(Polys.Normalise(res), Polys.Normalise(res));
      |sq| <= lenf - 1 && Polys.Normalise(Pad(sq, lenf - 1)) == PolyPow(A, x, 2 * k)
  {
    var sq := A.mulmod(Polys.Normalise(res), Polys.Normalise(res));
    PolyPowAdd(A, x, k, k);
    PadKeepsPoly(sq, lenf - 1);
    NormaliseOfNormalised(sq);
  }

  /** Multiplying res = x^k by x modulo f, kept as lenf - 1 coefficients, gives x^(k+1). */
  lemma MultiplyStep(A: Arith, lenf: nat, x: seq<int>, res: seq<int>, k: nat)
    requires Closed(A, lenf) && lenf >= 2 && k >= 1
    requires Polys.Normalise(res) == PolyPow(A, x, k)
    ensures var prod := A.mulmod(Polys.Normalise(res), x);
      |prod| <= lenf - 1 && Polys.Normalise(Pad(prod, lenf - 1)) == PolyPow(A, x, k + 1)
  {
    var prod := A.mulmod(Polys.Normalise(res), x);
    PadKeepsPoly(prod, lenf - 1);
    NormaliseOfNormalised(prod);
  }

  // ---------------------------------------------------------------------
  // fq_poly_powmod_ui_binexp
  // ---------------------------------------------------------------------

  /** The outcome of powmod: a polynomial, or the divide-by-zero abort for f == 0. */
  datatype Outcome = Ok(value: seq<int>) | DivideByZero

  /**
   * `fq_poly_powmod_ui_binexp(res, poly, e, f)` on values, branch by branch:
   * abort when f is zero; reduce poly modulo f first when it is not shorter
   * than f; then e == 0 gives 1, e == 1 gives poly, e == 2 gives poly^2 mod
   * f; a constant f or a zero poly gives 0; otherwise the binary powering
   * loop computes poly^e mod f.
   */
  function PowMod(A: Arith, poly: seq<int>, e: Word, lenf: nat): (r: Outcome)
    requires Lawful(A, lenf) && IsNormalised(poly)
    decreases if |poly| >= lenf then 1 else 0
  {
    if lenf == 0 then DivideByZero
    else if |poly| >= lenf then PowMod(A, A.rem(poly), e, lenf)
    else if e == 0 then Ok([1])
    else if e == 1 then Ok(poly)
    else if e == 2 then Ok(A.mulmod(poly, poly))
    else if lenf == 1 || |poly| == 0 then Ok([])
    else Ok(PolyPow(A, poly, e))
  }

  /** The poly that the powering works on: poly itself, or its remainder modulo f. */
  function Reduce(A: Arith, poly: seq<int>, lenf: nat): seq<int>
  {
    if |poly| >= lenf then A.rem(poly) else poly
  }

  /**
   * Every branch of the dispatch agrees with the power: for e >= 1 the
   * result is (poly mod f)^e mod f. It aborts exactly when f is zero.
   * That a poly not shorter than f gives the same result as its remainder
   * holds by definition: it is the first branch of `PowMod`.
   */
  lemma PowModIsPower(A: Arith, poly: seq<int>, e: Word, lenf: nat)
    requires Lawful(A, lenf) && IsNormalised(poly)
    ensures PowMod(A, poly, e, lenf) == DivideByZero <==> lenf == 0
    ensures lenf >= 1 && e >= 1 ==> PowMod(A, poly, e, lenf) == Ok(PolyPow(A, Reduce(A, poly, lenf), e))
  {
    if lenf >= 1 && e >= 1 {
      var x := Reduce(A, poly, lenf);
      if e >= 3 && (lenf == 1 || |x| == 0) {
        assert x == [];
        PolyPowOfZero(A, e);
      } else if e == 2 {
        assert PolyPow(A, x, 2) == A.mulmod(x, x);
      }
    }
  }

  /**
   * The exponent 0 gives the constant 1 even when f is a nonzero constant,
   * for which 1 is not reduced; every other exponent gives a reduced
   * result: normalised and shorter than f.
   */
  lemma PowModResultShape(A: Arith, poly: seq<int>, e: Word, lenf: nat)
    requires Lawful(A, lenf) && IsNormalised(poly) && lenf >= 1
    ensures e == 0 ==> PowMod(A, poly, e, lenf) == Ok([1])
    ensures e >= 1 ==> PowMod(A, poly, e, lenf).Ok? && IsNormalised(PowMod(A, poly, e, lenf).value)
    ensures e >= 1 ==> |PowMod(A, poly, e, lenf).value| <= lenf - 1
  {
    if e >= 1 {
      PowModIsPower(A, poly, e, lenf);
      PolyPowReduced(A, lenf, Reduce(A, poly, lenf), e);
    }
  }

  /**
   * `fq_poly_powmod_ui_binexp` as the source runs it: the dispatch of
   * `PowMod`, with the general case zero-padding poly to lenf - 1
   * coefficients, running the powering loop, and normalising the
   * lenf - 1 coefficients it leaves.
   */
  method PowmodUiBinexp(A: Arith, poly: seq<int>, e: Word, lenf: nat) returns (r: Outcome)
    requires Lawful(A, lenf) && IsNormalised(poly)
    ensures r == PowMod(A, poly, e, lenf)
    decreases if |poly| >= lenf then 1 else 0
  {
    if lenf == 0 {
      return DivideByZero;
    }
    if |poly| >= lenf {
      r := PowmodUiBinexp(A, A.rem(poly), e, lenf);
      return;
    }
    if e <= 2 {
      if e == 0 {
        r := Ok([1]);
      } else if e == 1 {
        r := Ok(poly);
      } else {
        r := Ok(A.mulmod(poly, poly));
      }
      return;
    }
    if lenf == 1 || |poly| == 0 {
      return Ok([]);
    }
    var q := Pad(poly, lenf - 1);
    PadKeepsPoly(poly, lenf - 1);
    NormaliseOfNormalised(poly);
    var res := PowmodBinexpInner(A, q, e, lenf);
    r := Ok(Polys.Normalise(res));
  }
}
