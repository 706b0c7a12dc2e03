/**
 * The memory primitives the resize functions use, on Dafny arrays: the
 * growth policy of FLINT's `fit_length` functions, `flint_realloc` and
 * `flint_mpn_zero`.
 */
module Memory {

  /**
   * The capacity after fit_length(len) on capacity alloc: unchanged when it
   * already suffices, otherwise the larger of len and twice the old capacity.
   */
  function GrownAlloc(alloc: nat, len: int): (n: nat)
  {
    if len > alloc then (if len < 2 * alloc then 2 * alloc else len) else alloc
  }

  /**
   * The capacity never shrinks, then covers len, is max(len, 2 * alloc)
   * when it grows and exactly len when the old capacity was 0; and fitting
   * the same length again changes nothing.
   */
  lemma GrownAllocProperties(alloc: nat, len: int)
    ensures GrownAlloc(alloc, len) >= alloc && GrownAlloc(alloc, len) >= len
    ensures len <= alloc ==> GrownAlloc(alloc, len) == alloc
    ensures len > alloc ==> GrownAlloc(alloc, len) == (if len > 2 * alloc then len else 2 * alloc)
    ensures alloc == 0 && len > 0 ==> GrownAlloc(alloc, len) == len
    ensures GrownAlloc(GrownAlloc(alloc, len), len) == GrownAlloc(alloc, len)
  {
  }

  /**
   * `flint_realloc`: a fresh block of n entries whose first a.Length
   * entries are those of a; the rest are left unspecified.
   */
  method Realloc(a: array<int>, n: nat) returns (b: array<int>)
    requires a.Length <= n
    ensures fresh(b) && b.Length == n
    ensures b[..a.Length] == a[..]
  {
    b := new int[n];
    var i := 0;
    while i < a.Length
      invariant 0 <= i <= a.Length
      invariant forall k :: 0 <= k < i ==> b[k] == a[k]
    {
      b[i] := a[i];
      i := i + 1;
    }
  }

  /** `flint_mpn_zero(a + from, a.Length - from)`: zero the tail of a. */
  method ZeroFrom(a: array<int>, from: nat)
    requires from <= a.Length
    modifies a
    ensures a[..from] == old(a[..from])
    ensures forall k :: from <= k < a.Length ==> a[k] == 0
  {
    var i := from;
    while i < a.Length
      invariant from <= i <= a.Length
      invariant a[..from] == old(a[..from])
      invariant forall k :: from <= k < i ==> a[k] == 0
    {
      a[i] := 0;
      i := i + 1;
    }
  }
}
