/** Facts about multiples of a positive integer, shared by the size computations. */
module Arith {

  /** A non-zero multiple of a positive step is at least one step away from zero. */
  lemma MultipleSign(d: int, step: int)
    requires step > 0
    ensures d >= 0 ==> d * step >= 0
    ensures d >= 1 ==> d * step >= step
    ensures d <= -1 ==> d * step <= -step
  {
  }

  /** Every multiple of `step` leaves no remainder. */
  lemma MultipleHasNoRemainder(k: int, step: int)
    requires step > 0
    ensures (k * step) % step == 0
  {
    var q, r := (k * step) / step, (k * step) % step;
    assert (k - q) * step == r;
    MultipleSign(k - q, step);
  }

  /** A number without remainder is its quotient times the divisor. */
  lemma NoRemainderIsMultiple(m: int, step: int)
    requires step > 0 && m % step == 0
    ensures m == (m / step) * step
  {
  }

  /** Two multiples of `step` less than one step apart are ordered as if equal or above. */
  lemma MultiplesOrdered(m: int, r: int, step: int)
    requires step > 0 && m % step == 0 && r % step == 0 && m > r - step
    ensures m >= r
  {
    NoRemainderIsMultiple(m, step);
    NoRemainderIsMultiple(r, step);
    var d := m / step - r / step;
    assert d * step == m - r;
    MultipleSign(d, step);
  }

  /** Multiplication of non-negative integers is monotone in both factors. */
  lemma MulMonotone(a: int, b: int, c: int, d: int)
    requires 0 <= a <= b && 0 <= c <= d
    ensures a * c <= b * d
  {
    assert a * c <= b * c;
  }
}
