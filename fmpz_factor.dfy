/**
 * The factorisation record of fmpz_factor and its grow-only resize
 * `_fmpz_factor_fit_length`. A record holds a sign and two parallel arrays,
 * the primes `p` and their exponents `exp`, of capacity `alloc`, of which
 * the first `num` entries are in use. Big integers (`fmpz`) are Dafny `int`s.
 */
module FmpzFactor {
  import opened Memory

  /**
   * The contents of one array after fit_length(len): the old entries
   * followed by zeros up to the new capacity.
   */
  function FittedContents(old_entries: seq<int>, len: int): (r: seq<int>)
  {
    old_entries + seq(GrownAlloc(|old_entries|, len) - |old_entries|, _ => 0)
  }

  /**
   * The fitted array has the grown capacity, keeps every old entry, has
   * only zeros in the new slots, and is unchanged when len fits already.
   */
  lemma FittedContentsProperties(old_entries: seq<int>, len: int)
    ensures |FittedContents(old_entries, len)| == GrownAlloc(|old_entries|, len)
    ensures FittedContents(old_entries, len)[..|old_entries|] == old_entries
    ensures forall i :: |old_entries| <= i < |FittedContents(old_entries, len)| ==> FittedContents(old_entries, len)[i] == 0
    ensures len <= |old_entries| ==> FittedContents(old_entries, len) == old_entries
  {
    var r := FittedContents(old_entries, len);
    assert r[..|old_entries|] == old_entries;
  }

  /** Fitting the same length twice is the same as fitting it once. */
  lemma FittedContentsIdempotent(old_entries: seq<int>, len: int)
    ensures FittedContents(FittedContents(old_entries, len), len) == FittedContents(old_entries, len)
  {
    var r := FittedContents(old_entries, len);
    assert |r| == GrownAlloc(|old_entries|, len);
    assert len <= |r|;
    assert |seq(GrownAlloc(|r|, len) - |r|, _ => 0)| == 0;
  }

  /**
   * `fmpz_factor_struct`: sign, the arrays `p` and `exp`, their capacity
   * `alloc`, and the number `num` of factors stored.
   */
  class Factor {
    var sign: int
    var p: array<int>
    var exp: array<int>
    var alloc: nat
    var num: nat

    /** Both arrays have capacity alloc and are distinct blocks of memory. */
    predicate Valid()
      reads this
    {
      p.Length == alloc && exp.Length == alloc && p != exp
    }

    /** An empty record: sign 1, no factors, capacity 0. */
    constructor ()
      ensures Valid() && fresh(p) && fresh(exp)
      ensures sign == 1 && alloc == 0 && num == 0
    {
      sign := 1;
      p := new int[0];
      exp := new int[0];
      alloc := 0;
      num := 0;
    }

    /**
     * `_fmpz_factor_fit_length(factor, len)`: when len exceeds the capacity,
     * reallocate both arrays to max(len, 2 * alloc) entries, zero the new
     * slots and record the new capacity; otherwise do nothing. The sign and
     * the number of factors are never written.
     */
    method FitLength(len: int)
      requires Valid()
      modifies this
      ensures Valid()
      ensures alloc == GrownAlloc(old(alloc), len)
      ensures p[..] == FittedContents(old(p[..]), len)
      ensures exp[..] == FittedContents(old(exp[..]), len)
      ensures sign == old(sign) && num == old(num)
      ensures len <= old(alloc) ==> p == old(p) && exp == old(exp)
      ensures len > old(alloc) ==> fresh(p) && fresh(exp)
    {
      if len > alloc {
        var n := len;
        if n < 2 * alloc {
          n := 2 * alloc;
        }
        var newP := Realloc(p, n);
        var newExp := Realloc(exp, n);
        ZeroFrom(newP, alloc);
        ZeroFrom(newExp, alloc);
        p := newP;
        exp := newExp;
        alloc := n;
      }
    }
  }
}
