/** Arithmetic the source borrows from Python: `abs`, `int()` on a float, and
    the `max(lo, min(hi, v))` clamp. */
module Numeric {

  function Abs(x: real): (r: real)
    ensures r >= 0.0
    ensures r == x || r == -x
  {
    if x < 0.0 then -x else x
  }

  /** Python's `int(x)` for a float `x`: truncation toward zero, which differs
      from Dafny's `Floor` on negative inputs. */
  function Trunc(x: real): (r: int)
    ensures x >= 0.0 ==> r >= 0 && r as real <= x < r as real + 1.0
    ensures x < 0.0 ==> r <= 0 && r as real - 1.0 < x <= r as real
  {
    if x >= 0.0 then x.Floor else -((-x).Floor)
  }

  /** `int()` is odd: truncating a negated value negates the truncation. */
  lemma TruncOdd(x: real)
    ensures Trunc(-x) == -Trunc(x)
  {
    if x > 0.0 {
      assert -x < 0.0;
      assert Trunc(-x) == -((x).Floor);
    }
  }

  /** `int()` of a value lying between two integers lies between them too. */
  lemma TruncBetween(a: int, b: int, x: real)
    requires a <= b
    requires a as real <= x <= b as real
    ensures a <= Trunc(x) <= b
  {
  }

  /** Python's `max(lo, min(hi, v))`. */
  function Clamp(lo: real, hi: real, v: real): (r: real)
    requires lo <= hi
    ensures lo <= r <= hi
    ensures lo <= v <= hi ==> r == v
    ensures v < lo ==> r == lo
    ensures v > hi ==> r == hi
  {
    if v < lo then lo else if v > hi then hi else v
  }
}
