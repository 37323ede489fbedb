/** Python's `round(x, 2)`, on exact reals: the nearest multiple of 0.01, a tie
    going to the even hundredth. */
module Rounding {

  function Abs(x: real): real {
    if x < 0.0 then -x else x
  }

  /** Distance from the integer `m` to `x`. */
  function Gap(m: int, x: real): real {
    Abs(m as real - x)
  }

  /** Distance from `m` hundredths to `x`. */
  function CentGap(m: int, x: real): real {
    Abs(m as real / 100.0 - x)
  }

  lemma CentGapScales(m: int, x: real)
    ensures CentGap(m, x) == Gap(m, x * 100.0) / 100.0
  {
  }

  /** `x` is a whole number of hundredths. */
  predicate IsCents(x: real) {
    (x * 100.0).Floor as real == x * 100.0
  }

  /** Nearest integer to `x`, ties to the even neighbour. */
  function RoundHalfEven(x: real): (n: int)
    ensures Gap(n, x) <= 0.5
    ensures forall m: int :: Gap(n, x) <= Gap(m, x)
    ensures Gap(n, x) == 0.5 ==> n % 2 == 0
  {
    var f := x.Floor;
    var frac := x - f as real;
    assert forall m: int :: m <= f ==> Gap(m, x) >= frac;
    assert forall m: int :: m > f ==> Gap(m, x) >= 1.0 - frac;
    if frac < 0.5 then f
    else if frac > 0.5 then f + 1
    else if f % 2 == 0 then f else f + 1
  }

  /** `round(x, 2)`: the nearest whole number of hundredths, an exact tie
      going to the even one. */
  function Round2(x: real): (r: real)
    ensures IsCents(r)
    ensures Abs(r - x) <= 0.005
    ensures forall m: int :: Abs(r - x) <= CentGap(m, x)
    ensures Abs(r - x) == 0.005 ==> (r * 100.0).Floor % 2 == 0
  {
    var n := RoundHalfEven(x * 100.0);
    forall m: int ensures CentGap(m, x) == Gap(m, x * 100.0) / 100.0 {
      CentGapScales(m, x);
    }
    CentGapScales(n, x);
    assert (n as real / 100.0) * 100.0 == n as real;
    assert ((n as real / 100.0) * 100.0).Floor == n;
    n as real / 100.0
  }

  /** An exact tie between two hundredths goes to the even one. */
  lemma TieGoesToEven()
    ensures Round2(0.125) == 0.12
    ensures Round2(0.135) == 0.14
  {
    assert RoundHalfEven(12.5) == 12;
    assert RoundHalfEven(13.5) == 14;
  }

  /** A value already in hundredths is left unchanged. */
  lemma Round2OfCents(n: int)
    ensures Round2(n as real / 100.0) == n as real / 100.0
  {
    var x := n as real / 100.0;
    assert x * 100.0 == n as real;
    assert RoundHalfEven(x * 100.0) == n by {
      assert Gap(n, x * 100.0) == 0.0;
      var k := RoundHalfEven(x * 100.0);
      assert Gap(k, x * 100.0) <= 0.0;
    }
  }

  /** Rounding half to even never reverses the order of two values. */
  lemma RoundHalfEvenMonotone(a: real, b: real)
    requires a <= b
    ensures RoundHalfEven(a) <= RoundHalfEven(b)
  {
  }

  /** `round(., 2)` never reverses the order of two values. */
  lemma Round2Monotone(x: real, y: real)
    requires x <= y
    ensures Round2(x) <= Round2(y)
  {
    RoundHalfEvenMonotone(x * 100.0, y * 100.0);
  }
}
