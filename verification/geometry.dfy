/**
 * Integer stand-ins for the viewport arithmetic: rounding an offset to a page
 * slot and testing two half-open horizontal ranges for overlap.
 */
module Geometry {

  function Abs(x: int): int {
    if x < 0 then -x else x
  }

  /**
   * `round(x / w)` with Swift's rounding rule: to the nearest integer, ties
   * away from zero.
   */
  function RoundDiv(x: int, w: int): (r: int)
    requires w > 0
    ensures -w <= 2 * (x - r * w) <= w
    ensures 2 * (x - r * w) == w ==> x < 0
    ensures 2 * (x - r * w) == -w ==> x > 0
  {
    if x >= 0 then
      RoundUpHalf(x, w)
    else
      -RoundUpHalf(-x, w)
  }

  /** Rounding of a non-negative quotient, ties upward. */
  function RoundUpHalf(x: nat, w: int): (r: int)
    requires w > 0
    ensures -w <= 2 * (x - r * w) < w
    ensures 2 * (x - r * w) == -w ==> x > 0
  {
    var q := (2 * x + w) / (2 * w);
    var m := (2 * x + w) % (2 * w);
    assert 2 * x + w == q * (2 * w) + m;
    assert 2 * (x - q * w) == m - w;
    q
  }

  /** The rounding rule determines its result: any `r` meeting it is `RoundDiv(x, w)`. */
  lemma RoundDivUnique(x: int, w: int, r: int)
    requires w > 0
    requires -w <= 2 * (x - r * w) <= w
    requires 2 * (x - r * w) == w ==> x < 0
    requires 2 * (x - r * w) == -w ==> x > 0
    ensures r == RoundDiv(x, w)
  {
    var q := RoundDiv(x, w);
    var d := r - q;
    assert 2 * (x - r * w) == 2 * (x - q * w) - 2 * d * w;
    MulMagnitude(d, w);
  }

  lemma MulMagnitude(d: int, w: int)
    requires w > 0
    ensures d >= 1 ==> d * w >= w
    ensures d <= -1 ==> d * w <= -w
  {
  }

  /** An offset that is an exact multiple of the width rounds to that multiple. */
  lemma RoundDivExact(k: int, w: int)
    requires w > 0
    ensures RoundDiv(k * w, w) == k
  {
    RoundDivUnique(k * w, w, k);
  }

  predicate Within(x: int, lo: int, hi: int) {
    lo <= x < hi
  }

  /**
   * Swift's `(lo1..<hi1).overlaps(lo2..<hi2)`: the ranges are disjoint when one
   * ends before the other begins or when either is empty.
   */
  function Overlaps(lo1: int, hi1: int, lo2: int, hi2: int): (r: bool)
    ensures r <==> exists x :: Within(x, lo1, hi1) && Within(x, lo2, hi2)
  {
    var disjoint := hi2 <= lo1 || hi1 <= lo2 || hi1 <= lo1 || hi2 <= lo2;
    if !disjoint then
      var x := if lo1 < lo2 then lo2 else lo1;
      assert Within(x, lo1, hi1) && Within(x, lo2, hi2);
      true
    else
      false
  }
}
