/** Column statistics as pandas and scikit-learn compute them, on exact reals:
    the mean over present values and the population variance (`ddof=0`). */
module Statistics {

  function Sum(xs: seq<real>): real
    decreases |xs|
  {
    if |xs| == 0 then 0.0 else xs[0] + Sum(xs[1..])
  }

  function Mean(xs: seq<real>): real
    requires |xs| > 0
  {
    Sum(xs) / |xs| as real
  }

  function Square(x: real): (r: real)
    ensures r >= 0.0
  {
    x * x
  }

  /** Sum of squared deviations of `xs` from `c`. */
  function SumSquaredDeviation(xs: seq<real>, c: real): (r: real)
    ensures r >= 0.0
    decreases |xs|
  {
    if |xs| == 0 then 0.0 else Square(xs[0] - c) + SumSquaredDeviation(xs[1..], c)
  }

  /** Population variance: mean squared deviation from the mean. */
  function PopVariance(xs: seq<real>): (v: real)
    requires |xs| > 0
    ensures v >= 0.0
  {
    SumSquaredDeviation(xs, Mean(xs)) / |xs| as real
  }

  /** `xs` with `c` subtracted from every value. */
  function Centered(xs: seq<real>, c: real): (ys: seq<real>)
    ensures |ys| == |xs|
    ensures forall i :: 0 <= i < |xs| ==> ys[i] == xs[i] - c
  {
    seq(|xs|, i requires 0 <= i < |xs| => xs[i] - c)
  }

  /** Sum of `(x - c)^2 / s2` over `xs`: the squared standardized scores when
      `c` is the column mean and `s2` its squared scale. */
  function SumSquaredScores(xs: seq<real>, c: real, s2: real): real
    requires s2 > 0.0
    decreases |xs|
  {
    if |xs| == 0 then 0.0 else Square(xs[0] - c) / s2 + SumSquaredScores(xs[1..], c, s2)
  }

  lemma {:induction false} SumBounds(xs: seq<real>, lo: real, hi: real)
    requires forall i :: 0 <= i < |xs| ==> lo <= xs[i] <= hi
    ensures |xs| as real * lo <= Sum(xs) <= |xs| as real * hi
    decreases |xs|
  {
    if |xs| > 0 {
      SumBounds(xs[1..], lo, hi);
      var n := |xs| as real;
      assert n * lo == lo + (n - 1.0) * lo;
      assert n * hi == hi + (n - 1.0) * hi;
    }
  }

  /** A mean lies between any lower and upper bound of the values. */
  lemma MeanWithinBounds(xs: seq<real>, lo: real, hi: real)
    requires |xs| > 0
    requires forall i :: 0 <= i < |xs| ==> lo <= xs[i] <= hi
    ensures lo <= Mean(xs) <= hi
  {
    SumBounds(xs, lo, hi);
    var n := |xs| as real;
    assert Mean(xs) * n == Sum(xs);
  }

  lemma {:induction false} SumOfCentered(xs: seq<real>, c: real)
    ensures Sum(Centered(xs, c)) == Sum(xs) - |xs| as real * c
    decreases |xs|
  {
    if |xs| > 0 {
      SumOfCentered(xs[1..], c);
      assert Centered(xs, c)[1..] == Centered(xs[1..], c);
      var n := |xs| as real;
      assert n * c == c + (n - 1.0) * c;
    }
  }

  /** Centering on the mean leaves a column that sums (so averages) to zero. */
  lemma CenteredColumnSumsToZero(xs: seq<real>)
    requires |xs| > 0
    ensures Sum(Centered(xs, Mean(xs))) == 0.0
  {
    SumOfCentered(xs, Mean(xs));
    assert Mean(xs) * |xs| as real == Sum(xs);
  }

  lemma {:induction false} SumOfScores(xs: seq<real>, c: real, s2: real)
    requires s2 > 0.0
    ensures SumSquaredScores(xs, c, s2) == SumSquaredDeviation(xs, c) / s2
    decreases |xs|
  {
    if |xs| > 0 {
      SumOfScores(xs[1..], c, s2);
      var a, b := Square(xs[0] - c), SumSquaredDeviation(xs[1..], c);
      assert a / s2 + b / s2 == (a + b) / s2;
    }
  }

  /** With a nonzero variance as the squared scale, the squared standardized
      scores sum to the number of values: the standardized column has
      variance one. */
  lemma StandardizedColumnHasUnitVariance(xs: seq<real>)
    requires |xs| > 0 && PopVariance(xs) > 0.0
    ensures SumSquaredScores(xs, Mean(xs), PopVariance(xs)) == |xs| as real
  {
    var v := PopVariance(xs);
    var ss := SumSquaredDeviation(xs, Mean(xs));
    var n := |xs| as real;
    SumOfScores(xs, Mean(xs), v);
    DivisionUndone(ss, n);
    assert ss == v * n;
    DivisionUndone(n, v);
    assert v * n == n * v;
    assert ss / v == n;
  }

  lemma DivisionUndone(a: real, b: real)
    requires b != 0.0
    ensures (a / b) * b == a
    ensures (a * b) / b == a
  {
  }

  lemma {:induction false} SumOfConstant(xs: seq<real>, c: real)
    requires forall i :: 0 <= i < |xs| ==> xs[i] == c
    ensures Sum(xs) == |xs| as real * c
    ensures SumSquaredDeviation(xs, c) == 0.0
    decreases |xs|
  {
    if |xs| > 0 {
      SumOfConstant(xs[1..], c);
      var n := |xs| as real;
      assert n * c == c + (n - 1.0) * c;
    }
  }

  /** A constant column has that constant as its mean and zero variance. */
  lemma ConstantColumn(xs: seq<real>, c: real)
    requires |xs| > 0
    requires forall i :: 0 <= i < |xs| ==> xs[i] == c
    ensures Mean(xs) == c && PopVariance(xs) == 0.0
  {
    SumOfConstant(xs, c);
    var n := |xs| as real;
    assert Sum(xs) / n == c;
  }
}
