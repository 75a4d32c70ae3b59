/** Python 3's built-in `round` on a single number: nearest integer, ties to even. */
module Rounding {

  /** `n` is a nearest integer to `x`, and an exact tie is broken towards the even neighbour. */
  predicate NearestTiesEven(x: real, n: int) {
    && -0.5 <= x - n as real <= 0.5
    && ((x - n as real == 0.5 || x - n as real == -0.5) ==> n % 2 == 0)
  }

  /** Round half to even, computed from the floor of `x`. */
  function RoundHalfEven(x: real): (r: int)
    ensures NearestTiesEven(x, r)
  {
    var f := x.Floor;
    var frac := x - f as real;
    if frac < 0.5 then f
    else if frac > 0.5 then f + 1
    else if f % 2 == 0 then f
    else f + 1
  }

  /** At most one integer is nearest-with-ties-to-even, so `RoundHalfEven` is the only
      function meeting its contract. */
  lemma NearestTiesEvenUnique(x: real, n: int, m: int)
    requires NearestTiesEven(x, n) && NearestTiesEven(x, m)
    ensures n == m
  {
  }

  /** Rounding never leaves an integer interval that contains its argument. */
  lemma RoundWithin(x: real, lo: int, hi: int)
    requires lo as real <= x <= hi as real
    ensures lo <= RoundHalfEven(x) <= hi
  {
  }
}
