/** The two roundings the status text uses. Swift's `Double.rounded()` defaults to
    "to nearest, or away from zero" and is modelled exactly on reals. The rounding inside
    `String(format: "%.0f", x)` is delegated to the C library's printf; it is kept abstract
    as any function that picks a nearest integer, the direction of ties left open. */
module Rounding {

  function Abs(x: real): (a: real)
    ensures a >= 0.0
    ensures a == x || a == -x
  {
    if x >= 0.0 then x else -x
  }

  /** `x.rounded()` with Swift's default rule `.toNearestOrAwayFromZero`. */
  function RoundToNearestOrAwayFromZero(x: real): (r: int)
    ensures x - 0.5 <= r as real <= x + 0.5
    ensures x >= 0.0 ==> r >= 0
    ensures x <= 0.0 ==> r <= 0
    // a tie goes to the integer of larger magnitude
    ensures x > 0.0 ==> r as real != x - 0.5
    ensures x < 0.0 ==> r as real != x + 0.5
  {
    if x >= 0.0 then (x + 0.5).Floor else -((-x + 0.5).Floor)
  }

  /** A rounding of reals to integers that printf's "%.0f" may perform on [0, 100]:
      it returns an integer nearest to its argument. */
  ghost predicate IsPrintfRounding(round: real -> int) {
    forall x: real :: 0.0 <= x <= 100.0 ==> x - 0.5 <= round(x) as real <= x + 0.5
  }

  /** On [0, 100] a printf rounding stays within [0, 100] and fixes the integers. */
  lemma PrintfRoundingBounds(round: real -> int, x: real)
    requires IsPrintfRounding(round)
    requires 0.0 <= x <= 100.0
    ensures 0 <= round(x) <= 100
    ensures x == x.Floor as real ==> round(x) == x.Floor
  {
  }

  /** Round to nearest, ties to even: what printf does with an exactly representable
      value under the default IEEE 754 rounding mode. */
  function RoundHalfToEven(x: real): (r: int)
    ensures x - 0.5 <= r as real <= x + 0.5
    ensures r as real == x - 0.5 || r as real == x + 0.5 ==> r % 2 == 0
  {
    var f := x.Floor;
    var d := x - f as real;
    if d < 0.5 then f
    else if d > 0.5 then f + 1
    else if f % 2 == 0 then f
    else f + 1
  }

  /** Ties-to-even is one admissible printf rounding, so the assumption the model makes
      about printf is satisfiable. */
  lemma HalfToEvenIsPrintfRounding()
    ensures IsPrintfRounding(RoundHalfToEven)
  {
  }

  /** The two rules disagree on some ties: 42.5 goes to 42 under printf's default rounding
      and to 43 under Swift's `rounded()`. */
  lemma TiesDiffer()
    ensures RoundHalfToEven(42.5) == 42
    ensures RoundToNearestOrAwayFromZero(42.5) == 43
  {
  }

  /** Any two admissible printf roundings agree away from the ties. */
  lemma PrintfRoundingUnique(round: real -> int, x: real)
    requires IsPrintfRounding(round)
    requires 0.0 <= x <= 100.0
    requires x - x.Floor as real != 0.5
    ensures round(x) == RoundHalfToEven(x)
  {
  }
}
