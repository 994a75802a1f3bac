/**
 * numpy's `round(0)`: round to the nearest integer, ties to the even one
 * ("banker's rounding"), as used before the cast to pandas' nullable `Int64`.
 */
module Rounding {

  /** `k` is what round-half-to-even gives for `x`. */
  predicate IsRoundedHalfEven(x: real, k: int) {
    && -0.5 <= x - k as real <= 0.5
    && ((x - k as real == 0.5 || k as real - x == 0.5) ==> k % 2 == 0)
  }

  function RoundHalfEven(x: real): (r: int)
    ensures IsRoundedHalfEven(x, r)
  {
    var f := x.Floor;
    var d := x - f as real;
    if d < 0.5 then f
    else if d > 0.5 then f + 1
    else if f % 2 == 0 then f
    else f + 1
  }

  /** Exactly one integer satisfies the rounding rule, so the rule defines the result. */
  lemma RoundHalfEvenUnique(x: real, k: int)
    requires IsRoundedHalfEven(x, k)
    ensures RoundHalfEven(x) == k
  {
  }

  /** A value that is already whole survives the rounding unchanged. */
  lemma RoundWholeUnchanged(k: int)
    ensures RoundHalfEven(k as real) == k
  {
    RoundHalfEvenUnique(k as real, k);
  }
}
