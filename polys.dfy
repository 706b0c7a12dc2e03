/**
 * Dense polynomials as coefficient sequences, constant term first, shared by
 * the fmpz_mod_poly and fq_poly models. A polynomial object in the library
 * keeps its length normalised: the top stored coefficient is nonzero, and
 * the zero polynomial has length 0.
 */
module Polys {

  /** Coefficient i of a, reading past the stored length as zero. */
  function Coeff(a: seq<int>, i: nat): int
  {
    if i < |a| then a[i] else 0
  }

  /** Two coefficient sequences denote the same polynomial. */
  ghost predicate SamePoly(a: seq<int>, b: seq<int>)
  {
    forall i: nat :: Coeff(a, i) == Coeff(b, i)
  }

  /** The length is 0 or the top stored coefficient is nonzero. */
  predicate IsNormalised(a: seq<int>)
  {
    |a| == 0 || a[|a| - 1] != 0
  }

  /**
   * `_normalise`: drop zero coefficients from the top. The result denotes
   * the same polynomial, is normalised, and is a prefix of the input.
   */
  function Normalise(a: seq<int>): (r: seq<int>)
    ensures IsNormalised(r)
    ensures |r| <= |a| && r == a[..|r|]
    ensures forall i :: |r| <= i < |a| ==> a[i] == 0
    decreases |a|
  {
    if |a| == 0 || a[|a| - 1] != 0 then a else Normalise(a[..|a| - 1])
  }

  /** Normalising keeps every coefficient. */
  lemma NormaliseKeepsPoly(a: seq<int>)
    ensures SamePoly(Normalise(a), a)
  {
    var r := Normalise(a);
    forall i: nat ensures Coeff(r, i) == Coeff(a, i) {
      if i < |r| {
        assert r[i] == a[..|r|][i];
      }
    }
  }

  /** A normalised sequence is its own normal form. */
  lemma NormaliseOfNormalised(a: seq<int>)
    requires IsNormalised(a)
    ensures Normalise(a) == a
  {
  }

  /** Two normalised sequences that denote the same polynomial are equal. */
  lemma NormalisedUnique(a: seq<int>, b: seq<int>)
    requires IsNormalised(a) && IsNormalised(b) && SamePoly(a, b)
    ensures a == b
  {
    TopCoefficientsAgree(a, b);
    forall i | 0 <= i < |a| ensures a[i] == b[i] {
      assert Coeff(a, i) == Coeff(b, i);
    }
  }

  /** Normalised sequences that agree on every coefficient have the same length. */
  lemma TopCoefficientsAgree(a: seq<int>, b: seq<int>)
    requires IsNormalised(a) && IsNormalised(b) && SamePoly(a, b)
    ensures |a| == |b|
  {
    var top: nat := if |a| < |b| then |b| - 1 else if |a| > 0 then |a| - 1 else 0;
    var same := Coeff(a, top) == Coeff(b, top);
  }

  /** Sequences that denote the same polynomial have the same normal form. */
  lemma SamePolySameNormalForm(a: seq<int>, b: seq<int>)
    requires SamePoly(a, b)
    ensures Normalise(a) == Normalise(b)
  {
    NormaliseKeepsPoly(a);
    NormaliseKeepsPoly(b);
    NormalisedUnique(Normalise(a), Normalise(b));
  }

  /** The coefficients of a followed by zeros up to length n. */
  function Pad(a: seq<int>, n: nat): (r: seq<int>)
    requires |a| <= n
    ensures |r| == n && r[..|a|] == a
    ensures forall i :: |a| <= i < n ==> r[i] == 0
  {
    a + seq(n - |a|, _ => 0)
  }

  /** Zero-padding does not change the polynomial or its normal form. */
  lemma PadKeepsPoly(a: seq<int>, n: nat)
    requires |a| <= n
    ensures SamePoly(Pad(a, n), a)
    ensures Normalise(Pad(a, n)) == Normalise(a)
  {
    var r := Pad(a, n);
    forall i: nat ensures Coeff(r, i) == Coeff(a, i) {
      if i < |a| {
        assert r[i] == r[..|a|][i];
      }
    }
    SamePolySameNormalForm(r, a);
  }
}
