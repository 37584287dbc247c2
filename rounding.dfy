/**
 * Python's built-in `round` applied to a quotient, as used for the average
 * dwell time (main.py:211). Python rounds to the nearest integer and breaks
 * ties towards the even neighbour ("banker's rounding"). With integer ticks
 * the quotient `a / b` is rational, so the rounding is stated exactly on
 * integers instead of on a float.
 */
module Rounding {

  function Abs(x: int): nat { if x < 0 then -x else x }

  /** round(a / b) for b > 0: the nearest integer to a / b, ties to even. */
  function RoundDiv(a: int, b: int): (r: int)
    requires b > 0
    // r is at distance at most one half from a / b ...
    ensures 2 * Abs(a - r * b) <= b
    // ... and when a / b lies exactly half-way, r is the even neighbour
    ensures 2 * Abs(a - r * b) == b ==> r % 2 == 0
  {
    var q, m := a / b, a % b;
    assert a == q * b + m;
    assert a - (q + 1) * b == m - b;
    if 2 * m < b then q
    else if 2 * m > b then q + 1
    else if q % 2 == 0 then q else q + 1
  }

  /** The two properties of RoundDiv determine it: no other integer has them. */
  lemma RoundDivUnique(a: int, b: int, r: int)
    requires b > 0
    requires 2 * Abs(a - r * b) <= b
    requires 2 * Abs(a - r * b) == b ==> r % 2 == 0
    ensures r == RoundDiv(a, b)
  {
    var r0 := RoundDiv(a, b);
    var d, d0 := a - r * b, a - r0 * b;
    assert (r0 - r) * b == d - d0;
    if r0 != r {
      MultipleAtLeast(r0 - r, b);
      // |d - d0| <= |d| + |d0| <= b, and it is at least b: both are exactly b / 2
      assert 2 * Abs(d) == b && 2 * Abs(d0) == b;
      assert Abs(r0 - r) == 1 by {
        if Abs(r0 - r) >= 2 {
          MultipleAtLeast2(r0 - r, b);
        }
      }
      assert false;
    }
  }

  lemma MultipleAtLeast(n: int, b: int)
    requires b > 0 && n != 0
    ensures Abs(n * b) >= b
  {
  }

  lemma MultipleAtLeast2(n: int, b: int)
    requires b > 0 && Abs(n) >= 2
    ensures Abs(n * b) >= 2 * b
  {
  }
}
