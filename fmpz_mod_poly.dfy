/**
 * Addition of polynomials over Z/pZ (fmpz_mod_poly/add.c). Coefficients are
 * Dafny `int`s kept in [0, p); a sum of two such coefficients lies in
 * [0, 2p), so one conditional subtraction of p reduces it.
 */
module FmpzModPoly {
  import opened Polys
  import opened Ints
  import opened Memory

  /** `fmpz_sub(diff, c, p); if (fmpz_sgn(diff) >= 0) swap`: subtract p once if that stays non-negative. */
  function SubOnce(c: int, p: int): int
  {
    if c - p >= 0 then c - p else c
  }

  /**
   * `_fmpz_mod_poly_add` on values: the zero-padded coefficient-wise sum of
   * a and b, of length max(|a|, |b|), each coefficient reduced by one
   * conditional subtraction of p.
   */
  function ModAdd(a: seq<int>, b: seq<int>, p: int): (r: seq<int>)
    ensures |r| == Max(|a|, |b|)
  {
    seq(Max(|a|, |b|), i requires 0 <= i => SubOnce(Coeff(a, i) + Coeff(b, i), p))
  }

  /** Coefficients in [0, p): the representation of an element of Z/pZ. */
  predicate Reduced(a: seq<int>, p: int)
  {
    forall i :: 0 <= i < |a| ==> 0 <= a[i] < p
  }

  /** Each output coefficient is congruent to the sum of the inputs modulo p. */
  lemma ModAddCongruent(a: seq<int>, b: seq<int>, p: int, i: nat)
    requires p > 0 && i < Max(|a|, |b|)
    ensures (ModAdd(a, b, p)[i] - (Coeff(a, i) + Coeff(b, i))) % p == 0
  {
    var s := Coeff(a, i) + Coeff(b, i);
    if s - p >= 0 {
      assert ModAdd(a, b, p)[i] - s == -1 * p;
    } else {
      assert ModAdd(a, b, p)[i] - s == 0;
    }
  }

  /**
   * On reduced inputs one subtraction suffices: every output coefficient is
   * the sum modulo p, so the output is reduced too.
   */
  lemma ModAddReduced(a: seq<int>, b: seq<int>, p: int)
    requires p > 0 && Reduced(a, p) && Reduced(b, p)
    ensures Reduced(ModAdd(a, b, p), p)
    ensures forall i :: 0 <= i < Max(|a|, |b|) ==> ModAdd(a, b, p)[i] == (Coeff(a, i) + Coeff(b, i)) % p
  {
    var r := ModAdd(a, b, p);
    forall i | 0 <= i < |r|
      ensures 0 <= r[i] < p && r[i] == (Coeff(a, i) + Coeff(b, i)) % p
    {
      var s := Coeff(a, i) + Coeff(b, i);
      assert 0 <= s < 2 * p;
      if s >= p {
        assert r[i] == s - p;
        DivModUnique(s, p, 1, s - p);
      } else {
        DivModUnique(s, p, 0, s);
      }
    }
  }

  /**
   * What `fmpz_mod_poly_add` computes: after normalisation, coefficient i
   * of the result is (poly1[i] + poly2[i]) mod p for every i.
   */
  lemma NormalisedModAddIsSum(a: seq<int>, b: seq<int>, p: int)
    requires p > 0 && Reduced(a, p) && Reduced(b, p)
    ensures IsNormalised(Polys.Normalise(ModAdd(a, b, p)))
    ensures forall i: nat :: Coeff(Polys.Normalise(ModAdd(a, b, p)), i) == (Coeff(a, i) + Coeff(b, i)) % p
  {
    var r := ModAdd(a, b, p);
    ModAddReduced(a, b, p);
    NormaliseKeepsPoly(r);
    forall i: nat ensures Coeff(Polys.Normalise(r), i) == (Coeff(a, i) + Coeff(b, i)) % p {
      assert Coeff(Polys.Normalise(r), i) == Coeff(r, i);
      if i >= |r| {
        assert Coeff(a, i) == 0 && Coeff(b, i) == 0;
        assert Coeff(r, i) == 0 == 0 % p;
      } else {
        assert Coeff(r, i) == r[i];
      }
    }
  }

  /** The loop changes coefficient i exactly when the raw sum is at least p. */
  lemma ModAddChangesIffOverflow(a: seq<int>, b: seq<int>, p: int, i: nat)
    requires p > 0 && i < Max(|a|, |b|)
    ensures ModAdd(a, b, p)[i] != Coeff(a, i) + Coeff(b, i) <==> Coeff(a, i) + Coeff(b, i) >= p
  {
  }

  /** Swapping the operands gives the same result. */
  lemma ModAddCommutes(a: seq<int>, b: seq<int>, p: int)
    ensures ModAdd(a, b, p) == ModAdd(b, a, p)
  {
    var r := ModAdd(a, b, p);
    var r' := ModAdd(b, a, p);
    forall i | 0 <= i < |r| ensures r[i] == r'[i] {
      assert Coeff(a, i) + Coeff(b, i) == Coeff(b, i) + Coeff(a, i);
    }
  }

  /**
   * `_fmpz_mod_poly_add(res, poly1, len1, poly2, len2, p)`: write the raw
   * sums into res[0, len) with len = max(len1, len2), then reduce each entry
   * in place. Entries of res from len on are not touched.
   */
  method AddInto(res: array<int>, poly1: seq<int>, poly2: seq<int>, p: int)
    requires res.Length >= Max(|poly1|, |poly2|)
    modifies res
    ensures res[..Max(|poly1|, |poly2|)] == ModAdd(poly1, poly2, p)
    ensures res[Max(|poly1|, |poly2|)..] == old(res[Max(|poly1|, |poly2|)..])
  {
    var len := Max(|poly1|, |poly2|);
    forall i | 0 <= i < len {
      res[i] := Coeff(poly1, i) + Coeff(poly2, i);
    }
    var i := 0;
    while i < len
      invariant 0 <= i <= len
      invariant forall k :: 0 <= k < i ==> res[k] == SubOnce(Coeff(poly1, k) + Coeff(poly2, k), p)
      invariant forall k :: i <= k < len ==> res[k] == Coeff(poly1, k) + Coeff(poly2, k)
      invariant res[len..] == old(res[len..])
    {
      var diff := res[i] - p;
      if diff >= 0 {
        res[i] := diff;
      }
      i := i + 1;
    }
    assert res[..len] == ModAdd(poly1, poly2, p);
  }

  /**
   * `fmpz_mod_poly_struct`: a coefficient array of capacity `alloc`, the
   * number `length` of coefficients in use, and the modulus `p`.
   */
  class ModPoly {
    var coeffs: array<int>
    var alloc: nat
    var length: nat
    var p: int

    /** The polynomial held: the first `length` coefficients. */
    function Coeffs(): seq<int>
      reads this, coeffs
      requires length <= coeffs.Length
    {
      coeffs[..length]
    }

    /**
     * The capacity matches the array, the modulus is positive, and the
     * coefficients are reduced modulo p and normalised.
     */
    predicate Valid()
      reads this, coeffs
    {
      && coeffs.Length == alloc
      && length <= alloc
      && p > 0
      && Reduced(Coeffs(), p)
      && IsNormalised(Coeffs())
    }

    /** The zero polynomial modulo p. */
    constructor (p: int)
      requires p > 0
      ensures Valid() && fresh(coeffs)
      ensures this.p == p && Coeffs() == []
    {
      coeffs := new int[0];
      alloc := 0;
      length := 0;
      this.p := p;
    }

    /**
     * `fmpz_mod_poly_fit_length(res, len)`: make room for len coefficients,
     * keeping the stored ones, with the growth policy of `GrownAlloc`.
     */
    method FitLength(len: nat)
      requires coeffs.Length == alloc && length <= alloc
      modifies this
      ensures coeffs.Length == alloc && alloc == GrownAlloc(old(alloc), len)
      ensures length == old(length) && p == old(p)
      ensures Coeffs() == old(Coeffs())
      ensures len <= old(alloc) ==> coeffs == old(coeffs)
      ensures len > old(alloc) ==> fresh(coeffs)
    {
      if len > alloc {
        var n := GrownAlloc(alloc, len);
        var grown := Realloc(coeffs, n);
        assert grown[..length] == grown[..coeffs.Length][..length];
        coeffs := grown;
        alloc := n;
      }
    }

    /**
     * `_fmpz_mod_poly_normalise`: lower the length past zero top
     * coefficients.
     */
    method Normalise()
      requires length <= coeffs.Length
      modifies this
      ensures coeffs == old(coeffs) && alloc == old(alloc) && p == old(p)
      ensures length <= coeffs.Length
      ensures Coeffs() == Polys.Normalise(old(Coeffs()))
    {
      var c := coeffs;
      var n := length;
      while n > 0 && c[n - 1] == 0
        invariant 0 <= n <= old(length) <= c.Length
        invariant Polys.Normalise(c[..n]) == Polys.Normalise(c[..old(length)])
      {
        assert c[..n - 1] == c[..n][..n - 1];
        n := n - 1;
      }
      length := n;
    }

    /**
     * `fmpz_mod_poly_add(res, poly1, poly2)` with this object as res: make
     * room for max(len1, len2) coefficients, add with the modulus of res,
     * set the length and normalise. The result is the normalised sum of the
     * operands as they were on entry, so res may be one of the operands.
     */
    method Add(poly1: ModPoly, poly2: ModPoly)
      requires Valid() && poly1.Valid() && poly2.Valid()
      requires poly1.p == p && poly2.p == p
      modifies this, coeffs
      ensures Valid() && p == old(p)
      ensures Coeffs() == Polys.Normalise(ModAdd(old(poly1.Coeffs()), old(poly2.Coeffs()), p))
    {
      var a := poly1.Coeffs();
      var b := poly2.Coeffs();
      var len := Max(|a|, |b|);
      FitLength(len);
      AddInto(coeffs, a, b, p);
      length := len;
      ModAddReduced(a, b, p);
      Normalise();
      assert Reduced(Coeffs(), p) by {
        assert Coeffs() == ModAdd(a, b, p)[..length];
      }
    }
  }
}
