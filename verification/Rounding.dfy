/** Python's `round`: to the nearest integer, halves to the even one.

    On exact reals; binary fractions are not modelled. */
module Rounding {
  function Round(x: real): (n: int)
    ensures n as real - 0.5 <= x <= n as real + 0.5
    ensures x == n as real + 0.5 || x == n as real - 0.5 ==> n % 2 == 0
  {
    var f := x.Floor;
    var d := x - f as real;
    if d < 0.5 || (d == 0.5 && f % 2 == 0) then f else f + 1
  }

  lemma Monotone(x: real, y: real)
    requires x <= y
    ensures Round(x) <= Round(y)
  {
    if x.Floor < y.Floor { assert Round(x) <= x.Floor + 1 <= y.Floor <= Round(y); }
  }

  /** Closer than one half to an integer means rounded to it. */
  lemma Nearest(x: real, n: int)
    requires n as real - 0.5 < x < n as real + 0.5
    ensures Round(x) == n
  {
  }
}
