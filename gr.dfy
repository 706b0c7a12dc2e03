/**
 * The self-contained parts of the generic-ring header (gr.h): three-valued
 * truth logic, the element-address arithmetic GR_ENTRY and the layout that
 * GR_TMP_INIT1..5 give to temporaries, and the bit-flag status codes that
 * ring operations return and callers OR together.
 *
 * Addresses are modelled as integers (byte offsets); `sizeof_elem` is the
 * element size of the ring context.
 */
module Gr {

  // ---------------------------------------------------------------------
  // Three-valued logic (truth_t)
  // ---------------------------------------------------------------------

  datatype Truth = TTrue | TFalse | TUnknown

  /** The truth value t is a sound description of the boolean b. */
  predicate Describes(t: Truth, b: bool)
  {
    t == TUnknown || (t == TTrue) == b
  }

  /** `truth_not`: swaps T_TRUE and T_FALSE and keeps T_UNKNOWN. */
  function TruthNot(x: Truth): (r: Truth)
    ensures r == TTrue <==> x == TFalse
    ensures r == TFalse <==> x == TTrue
    ensures forall b: bool :: Describes(x, b) ==> Describes(r, !b)
  {
    if x == TTrue then TFalse
    else if x == TFalse then TTrue
    else TUnknown
  }

  lemma TruthNotInvolution(x: Truth)
    ensures TruthNot(TruthNot(x)) == x
  {
  }

  /**
   * `truth_and` as written: its first test reads `x == T_FALSE || x == T_FALSE`,
   * so a false right operand is never noticed. It answers T_FALSE exactly
   * when x is T_FALSE and T_TRUE exactly when both are T_TRUE.
   */
  function TruthAnd(x: Truth, y: Truth): (r: Truth)
    ensures r == TFalse <==> x == TFalse
    ensures r == TTrue <==> x == TTrue && y == TTrue
  {
    if x == TFalse || x == TFalse then TFalse
    else if x == TTrue && y == TTrue then TTrue
    else TUnknown
  }

  /**
   * `truth_or` as written: its first test reads `x == T_TRUE || x == T_TRUE`.
   * It answers T_TRUE exactly when x is T_TRUE and T_FALSE exactly when both
   * are T_FALSE.
   */
  function TruthOr(x: Truth, y: Truth): (r: Truth)
    ensures r == TTrue <==> x == TTrue
    ensures r == TFalse <==> x == TFalse && y == TFalse
  {
    if x == TTrue || x == TTrue then TTrue
    else if x == TFalse && y == TFalse then TFalse
    else TUnknown
  }

  /** Both operators as written are still sound: a definite answer is never wrong. */
  lemma TruthAndOrSound(x: Truth, y: Truth, a: bool, b: bool)
    requires Describes(x, a) && Describes(y, b)
    ensures Describes(TruthAnd(x, y), a && b)
    ensures Describes(TruthOr(x, y), a || b)
  {
  }

  /**
   * The duplicated test loses information: a false (true) right operand
   * does not decide the conjunction (disjunction), so the operators are
   * not commutative.
   */
  lemma TruthAndOrAsWritten()
    ensures TruthAnd(TTrue, TFalse) == TUnknown && TruthAnd(TUnknown, TFalse) == TUnknown
    ensures TruthAnd(TFalse, TTrue) == TFalse
    ensures TruthOr(TFalse, TTrue) == TUnknown && TruthOr(TUnknown, TTrue) == TUnknown
    ensures TruthOr(TTrue, TFalse) == TTrue
    ensures KleeneAnd(TTrue, TFalse) == TFalse && KleeneOr(TFalse, TTrue) == TTrue
  {
  }

  /** Strong Kleene conjunction: `truth_and` with the second test on y. */
  function KleeneAnd(x: Truth, y: Truth): (r: Truth)
    ensures r == TFalse <==> x == TFalse || y == TFalse
    ensures r == TTrue <==> x == TTrue && y == TTrue
  {
    if x == TFalse || y == TFalse then TFalse
    else if x == TTrue && y == TTrue then TTrue
    else TUnknown
  }

  /** Strong Kleene disjunction: `truth_or` with the second test on y. */
  function KleeneOr(x: Truth, y: Truth): (r: Truth)
    ensures r == TTrue <==> x == TTrue || y == TTrue
    ensures r == TFalse <==> x == TFalse && y == TFalse
  {
    if x == TTrue || y == TTrue then TTrue
    else if x == TFalse && y == TFalse then TFalse
    else TUnknown
  }

  /** A truth value that soundly describes every outcome of a binary operation. */
  predicate SoundFor(t: Truth, x: Truth, y: Truth, op: (bool, bool) -> bool)
  {
    forall a: bool, b: bool :: Describes(x, a) && Describes(y, b) ==> Describes(t, op(a, b))
  }

  /**
   * The corrected operators are sound and the most precise sound answers:
   * any other sound answer is either the same or T_UNKNOWN.
   */
  lemma KleeneIsMostPrecise(x: Truth, y: Truth, t: Truth)
    ensures SoundFor(KleeneAnd(x, y), x, y, (a, b) => a && b)
    ensures SoundFor(KleeneOr(x, y), x, y, (a, b) => a || b)
    ensures SoundFor(t, x, y, (a, b) => a && b) ==> t == KleeneAnd(x, y) || t == TUnknown
    ensures SoundFor(t, x, y, (a, b) => a || b) ==> t == KleeneOr(x, y) || t == TUnknown
  {
    var and := (a: bool, b: bool) => a && b;
    var or := (a: bool, b: bool) => a || b;
    if SoundFor(t, x, y, and) {
      OutcomesOf(t, x, y, and);
    }
    if SoundFor(t, x, y, or) {
      OutcomesOf(t, x, y, or);
    }
  }

  /** A sound answer describes the outcome of each of the four boolean cases. */
  lemma OutcomesOf(t: Truth, x: Truth, y: Truth, op: (bool, bool) -> bool)
    requires SoundFor(t, x, y, op)
    ensures Describes(x, true) && Describes(y, true) ==> Describes(t, op(true, true))
    ensures Describes(x, true) && Describes(y, false) ==> Describes(t, op(true, false))
    ensures Describes(x, false) && Describes(y, true) ==> Describes(t, op(false, true))
    ensures Describes(x, false) && Describes(y, false) ==> Describes(t, op(false, false))
  {
  }

  /** De Morgan's laws and commutativity hold for the corrected operators. */
  lemma KleeneDeMorgan(x: Truth, y: Truth)
    ensures TruthNot(KleeneAnd(x, y)) == KleeneOr(TruthNot(x), TruthNot(y))
    ensures TruthNot(KleeneOr(x, y)) == KleeneAnd(TruthNot(x), TruthNot(y))
    ensures KleeneAnd(x, y) == KleeneAnd(y, x) && KleeneOr(x, y) == KleeneOr(y, x)
  {
  }

  // ---------------------------------------------------------------------
  // GR_ENTRY and the GR_TMP_INIT layout
  // ---------------------------------------------------------------------

  /** `GR_ENTRY(vec, i, size)`: the address of element i of a vector. */
  function Entry(vec: int, i: int, size: int): int
  {
    vec + i * size
  }

  /** Distinct indices give disjoint byte ranges [Entry, Entry + size). */
  lemma EntriesDisjoint(vec: int, i: int, j: int, size: int)
    requires size > 0 && i != j
    ensures Entry(vec, i, size) + size <= Entry(vec, j, size) || Entry(vec, j, size) + size <= Entry(vec, i, size)
  {
    if i < j {
      EntriesApart(vec, i, j, size);
    } else {
      EntriesApart(vec, j, i, size);
    }
  }

  /** A later entry starts at least one element after an earlier one. */
  lemma EntriesApart(vec: int, i: int, j: int, size: int)
    requires size > 0 && i < j
    ensures Entry(vec, i, size) + size <= Entry(vec, j, size)
  {
    var gap := j - i - 1;
    assert j * size == i * size + gap * size + size;
    assert gap * size >= 0;
  }

  /**
   * `GR_TMP_INIT1..5`: n temporaries carved from one allocation of
   * `n * sizeof_elem` bytes at `base`; x1 is the allocation and each next
   * one lies `sizeof_elem` bytes after the previous.
   */
  function TmpInitLayout(base: int, n: nat, size: int): (xs: seq<int>)
    requires 1 <= n <= 5
    ensures |xs| == n && xs[0] == base
    decreases n
  {
    if n == 1 then [base]
    else
      var prev := TmpInitLayout(base, n - 1, size);
      prev + [prev[n - 2] + size]
  }

  /**
   * The k-th temporary is `GR_ENTRY(x1, k, sizeof_elem)`, and its element
   * lies inside the allocation of n elements.
   */
  lemma {:induction false} TmpInitIsEntries(base: int, n: nat, size: int, k: nat)
    requires 1 <= n <= 5 && k < n && size >= 0
    ensures TmpInitLayout(base, n, size)[k] == Entry(base, k, size)
    ensures base <= TmpInitLayout(base, n, size)[k] && TmpInitLayout(base, n, size)[k] + size <= base + n * size
    decreases n
  {
    if n > 1 {
      if k < n - 1 {
        TmpInitIsEntries(base, n - 1, size, k);
      } else {
        TmpInitIsEntries(base, n - 1, size, n - 2);
      }
    }
    assert Entry(base, k, size) - base == k * size;
    assert k * size >= 0;
    assert base + n * size - Entry(base, k, size) == (n - k) * size;
    assert (n - k) * size == (n - k - 1) * size + size;
    assert (n - k - 1) * size >= 0;
  }

  // ---------------------------------------------------------------------
  // Status codes
  // ---------------------------------------------------------------------

  /** The status returned by a gr operation: an OR of the flags below. */
  type Status = bv32

  const GR_SUCCESS: Status := 0
  const GR_DOMAIN: Status := 1
  const GR_UNABLE: Status := 2
  const GR_WRONG: Status := 4

  /** The three failure codes are distinct single bits, and success is no bit. */
  lemma StatusFlagsAreDistinctBits()
    ensures GR_DOMAIN & GR_UNABLE == 0 && GR_DOMAIN & GR_WRONG == 0 && GR_UNABLE & GR_WRONG == 0
    ensures GR_DOMAIN != 0 && GR_UNABLE != 0 && GR_WRONG != 0
    ensures GR_DOMAIN & (GR_DOMAIN - 1) == 0 && GR_UNABLE & (GR_UNABLE - 1) == 0 && GR_WRONG & (GR_WRONG - 1) == 0
  {
  }

  /** Every flag of s is also set in status. */
  predicate Includes(status: Status, s: Status)
  {
    s | status == status
  }

  /** Some step reported the given flag. */
  predicate SomeStepRaised(steps: seq<Status>, flag: Status)
  {
    exists k :: 0 <= k < |steps| && steps[k] & flag != 0
  }

  /**
   * status is the bitwise OR of the steps: it includes every step, and any
   * word that includes every step includes it.
   */
  ghost predicate IsUnionOf(status: Status, steps: seq<Status>)
  {
    && (forall k :: 0 <= k < |steps| ==> Includes(status, steps[k]))
    && (forall m: Status :: (forall k :: 0 <= k < |steps| ==> Includes(m, steps[k])) ==> Includes(m, status))
  }

  /**
   * The status-accumulation loop of gr.h (`status = GR_SUCCESS;` then
   * `status |= <step>` for each step): the result is GR_SUCCESS iff every
   * step succeeded, and carries exactly the flags some step raised.
   */
  method AccumulateStatus(steps: seq<Status>) returns (status: Status)
    ensures IsUnionOf(status, steps)
    ensures status == GR_SUCCESS <==> forall k :: 0 <= k < |steps| ==> steps[k] == GR_SUCCESS
    ensures status & GR_DOMAIN != 0 <==> SomeStepRaised(steps, GR_DOMAIN)
    ensures status & GR_UNABLE != 0 <==> SomeStepRaised(steps, GR_UNABLE)
    ensures status & GR_WRONG != 0 <==> SomeStepRaised(steps, GR_WRONG)
  {
    status := GR_SUCCESS;
    var i := 0;
    while i < |steps|
      invariant 0 <= i <= |steps|
      invariant IsUnionOf(status, steps[..i])
    {
      UnionStep(status, steps[..i], steps[i]);
      assert steps[..i + 1] == steps[..i] + [steps[i]];
      status := status | steps[i];
      i := i + 1;
    }
    assert steps[..i] == steps;
    UnionSummary(status, steps);
  }

  lemma UnionSummary(status: Status, steps: seq<Status>)
    requires IsUnionOf(status, steps)
    ensures status == GR_SUCCESS <==> forall k :: 0 <= k < |steps| ==> steps[k] == GR_SUCCESS
    ensures status & GR_DOMAIN != 0 <==> SomeStepRaised(steps, GR_DOMAIN)
    ensures status & GR_UNABLE != 0 <==> SomeStepRaised(steps, GR_UNABLE)
    ensures status & GR_WRONG != 0 <==> SomeStepRaised(steps, GR_WRONG)
  {
    UnionIsSuccess(status, steps);
    UnionHasFlag(status, steps, GR_DOMAIN);
    UnionHasFlag(status, steps, GR_UNABLE);
    UnionHasFlag(status, steps, GR_WRONG);
  }

  lemma UnionStep(status: Status, prefix: seq<Status>, s: Status)
    requires IsUnionOf(status, prefix)
    ensures IsUnionOf(status | s, prefix + [s])
  {
    var next := status | s;
    var p := prefix + [s];
    forall k | 0 <= k < |p| ensures Includes(next, p[k]) {
      if k < |prefix| {
        assert Includes(status, prefix[k]);
        WidenedStillIncludes(status, prefix[k], s);
      }
    }
    forall m: Status | forall k :: 0 <= k < |p| ==> Includes(m, p[k])
      ensures Includes(m, next)
    {
      assert Includes(m, p[|prefix|]);
      forall k | 0 <= k < |prefix| ensures Includes(m, prefix[k]) {
        assert p[k] == prefix[k];
      }
      assert Includes(m, status);
      JoinIncluded(m, status, s);
    }
  }

  lemma WidenedStillIncludes(status: Status, x: Status, s: Status)
    requires Includes(status, x)
    ensures Includes(status | s, x)
  {
  }

  lemma JoinIncluded(m: Status, a: Status, b: Status)
    requires Includes(m, a) && Includes(m, b)
    ensures Includes(m, a | b)
  {
  }

  /** The OR of the steps is GR_SUCCESS iff every step is. */
  lemma UnionIsSuccess(status: Status, steps: seq<Status>)
    requires IsUnionOf(status, steps)
    ensures status == GR_SUCCESS <==> forall k :: 0 <= k < |steps| ==> steps[k] == GR_SUCCESS
  {
    if forall k :: 0 <= k < |steps| ==> steps[k] == GR_SUCCESS {
      assert forall k :: 0 <= k < |steps| ==> Includes(GR_SUCCESS, steps[k]);
      assert Includes(GR_SUCCESS, status);
    } else {
      var k :| 0 <= k < |steps| && steps[k] != GR_SUCCESS;
      assert Includes(status, steps[k]);
    }
  }

  /** A flag is set in the OR of the steps iff some step set it. */
  lemma UnionHasFlag(status: Status, steps: seq<Status>, flag: Status)
    requires IsUnionOf(status, steps)
    ensures status & flag != 0 <==> SomeStepRaised(steps, flag)
  {
    if SomeStepRaised(steps, flag) {
      var k :| 0 <= k < |steps| && steps[k] & flag != 0;
      assert Includes(status, steps[k]);
      FlagSurvives(status, steps[k], flag);
    } else {
      UnraisedFlagIsClear(status, steps, flag);
    }
  }

  lemma UnraisedFlagIsClear(status: Status, steps: seq<Status>, flag: Status)
    requires IsUnionOf(status, steps)
    requires !SomeStepRaised(steps, flag)
    ensures status & flag == 0
  {
    var m := status & !flag;
    forall k | 0 <= k < |steps| ensures Includes(m, steps[k]) {
      assert Includes(status, steps[k]) && steps[k] & flag == 0;
      ClearedFlagStillIncludes(status, steps[k], flag);
    }
    assert Includes(m, status);
    ClearedFlagStillIncludes(status, status, flag);
  }

  lemma ClearedFlagStillIncludes(status: Status, s: Status, flag: Status)
    ensures Includes(status, s) && s & flag == 0 ==> Includes(status & !flag, s)
    ensures Includes(status & !flag, status) ==> status & flag == 0
  {
  }

  lemma FlagSurvives(status: Status, s: Status, flag: Status)
    requires Includes(status, s) && s & flag != 0
    ensures status & flag != 0
  {
  }
}
