/**
 Fixed-scale decimals. Prices and areas are `BigDecimal` columns of scale 2, so
 every value is an integer count of hundredths. `BigDecimal.divide(d, 2, HALF_UP)`
 of such a value by a whole number is then integer division rounded to the nearest
 integer, ties away from zero.
 */
module Decimals {

  /** The quotient `num / den` rounded half-up (ties away from zero), for a
      positive divisor. */
  function DivideHalfUp(num: int, den: int): int
    requires den > 0
  {
    if num >= 0 then (2 * num + den) / (2 * den)
    else -((2 * -num + den) / (2 * den))
  }

  /** Independent statement of HALF_UP: `q` is within one half of `num / den`,
      and an exact half goes away from zero. */
  ghost predicate IsHalfUpQuotient(num: int, den: int, q: int)
    requires den > 0
  {
    if num >= 0 then 2 * den * q - den <= 2 * num < 2 * den * q + den
    else 2 * den * q - den < 2 * num <= 2 * den * q + den
  }

  lemma DivideHalfUpIsHalfUp(num: int, den: int)
    requires den > 0
    ensures IsHalfUpQuotient(num, den, DivideHalfUp(num, den))
  {
    var a := if num >= 0 then num else -num;
    var b := 2 * den;
    var q := (2 * a + den) / b;
    assert 2 * a + den == b * q + (2 * a + den) % b;
    assert b * q <= 2 * a + den < b * q + b;
    assert 2 * den * q - den <= 2 * a < 2 * den * q + den;
  }

  lemma HalfUpQuotientUnique(num: int, den: int, q: int, q': int)
    requires den > 0
    requires IsHalfUpQuotient(num, den, q) && IsHalfUpQuotient(num, den, q')
    ensures q == q'
  {
    // Both lie within one half of num / den, so 2 * den * |q - q'| < 2 * den.
    assert 2 * den * q - den <= 2 * num <= 2 * den * q + den;
    assert 2 * den * q' - den <= 2 * num <= 2 * den * q' + den;
    if q > q' {
      MultiplyAtLeast(2 * den, q - q', 1);
    } else if q < q' {
      MultiplyAtLeast(2 * den, q' - q, 1);
    }
  }

  /** Rounding cannot leave an interval with whole-number ends that holds the
      exact quotient. */
  lemma DivideHalfUpWithin(num: int, den: int, lo: int, hi: int)
    requires den > 0
    requires den * lo <= num <= den * hi
    ensures lo <= DivideHalfUp(num, den) <= hi
  {
    var q := DivideHalfUp(num, den);
    DivideHalfUpIsHalfUp(num, den);
    assert 2 * den * q - den <= 2 * num <= 2 * den * q + den;
    if q > hi {
      MultiplyAtLeast(2 * den, q - hi, 1);
    }
    if q < lo {
      MultiplyAtLeast(2 * den, lo - q, 1);
    }
  }

  lemma MultiplyAtLeast(a: int, b: int, c: int)
    requires a > 0 && b >= c
    ensures a * b >= a * c
  {
  }
}
