/**
 * `fmpz_mat_get_d` from acb_theta (acb_theta/get_d.c): copy the lower-right
 * g x g block of a 2g x 2g integer matrix m into the top-left corner of d,
 * where g is half the number of rows of m, rounded down. Matrices are
 * two-dimensional arrays of Dafny `int`s indexed [row, column].
 */
module AcbTheta {

  /** The half-size g of m: its number of rows divided by 2, rounded down. */
  function HalfRows(m: array2<int>): (g: nat)
    ensures 2 * g <= m.Length0 < 2 * g + 2
  {
    m.Length0 / 2
  }

  /**
   * d[j, k] := m[j + g, k + g] for 0 <= j, k < g. Entries of d outside the
   * top-left g x g corner, and m when it is a different matrix, are not
   * changed. The source reads m[j + g, k + g] without a bounds check, so
   * the caller must give m at least 2g columns and d at least g rows and
   * g columns.
   */
  method GetD(d: array2<int>, m: array2<int>)
    requires d.Length0 >= HalfRows(m) && d.Length1 >= HalfRows(m)
    requires m.Length1 >= 2 * HalfRows(m)
    modifies d
    ensures forall j, k :: 0 <= j < HalfRows(m) && 0 <= k < HalfRows(m) ==> d[j, k] == old(m[j + HalfRows(m), k + HalfRows(m)])
    ensures forall j, k :: 0 <= j < d.Length0 && 0 <= k < d.Length1 && (j >= HalfRows(m) || k >= HalfRows(m)) ==> d[j, k] == old(d[j, k])
    ensures d != m ==> unchanged(m)
  {
    var g := HalfRows(m);
    var j := 0;
    while j < g
      invariant 0 <= j <= g
      invariant forall r, c :: 0 <= r < j && 0 <= c < g ==> d[r, c] == old(m[r + g, c + g])
      invariant forall r, c :: 0 <= r < d.Length0 && 0 <= c < d.Length1 && (r >= j || c >= g) ==> d[r, c] == old(d[r, c])
      invariant d != m ==> unchanged(m)
    {
      var k := 0;
      while k < g
        invariant 0 <= k <= g
        invariant forall r, c :: 0 <= r < j && 0 <= c < g ==> d[r, c] == old(m[r + g, c + g])
        invariant forall c :: 0 <= c < k ==> d[j, c] == old(m[j + g, c + g])
        invariant forall r, c :: 0 <= r < d.Length0 && 0 <= c < d.Length1 && (r > j || c >= g || (r == j && c >= k)) ==> d[r, c] == old(d[r, c])
        invariant d != m ==> unchanged(m)
      {
        d[j, k] := m[j + g, k + g];
        k := k + 1;
      }
      j := j + 1;
    }
  }
}
