/** The two statistics the outline threshold is built from:
    `statistics.mean` and `statistics.pstdev`, over exact reals.
    Dafny has no square root, so a standard deviation is any
    non-negative `sd` whose square is the population variance. */
module Stats {

  function Sum(xs: seq<real>): real {
    if |xs| == 0 then 0.0 else xs[0] + Sum(xs[1..])
  }

  /** `statistics.mean(xs)`: the number that, taken `|xs|` times, sums to
      the same as `xs`. */
  function Mean(xs: seq<real>): (r: real)
    requires |xs| > 0
    ensures r * |xs| as real == Sum(xs)
  {
    Sum(xs) / |xs| as real
  }

  /** Sum of squared deviations from `mu`. */
  function SumSqDev(xs: seq<real>, mu: real): (r: real)
    ensures r >= 0.0
  {
    if |xs| == 0 then 0.0
    else
      SquareNonNegative(xs[0] - mu);
      (xs[0] - mu) * (xs[0] - mu) + SumSqDev(xs[1..], mu)
  }

  lemma SquareNonNegative(x: real)
    ensures x * x >= 0.0
  {
    if x < 0.0 { assert x * x == (-x) * (-x); }
  }

  /** Population variance: mean squared deviation from the mean. It is
      never negative, so a standard deviation exists. */
  function PVariance(xs: seq<real>): (r: real)
    requires |xs| > 0
    ensures r >= 0.0
    ensures r * |xs| as real == SumSqDev(xs, Mean(xs))
  {
    SumSqDev(xs, Mean(xs)) / |xs| as real
  }

  /** `sd` is what `statistics.pstdev(xs)` returns. The empty case is left
      unconstrained: the caller returns before asking for it. */
  predicate IsPStdDev(xs: seq<real>, sd: real) {
    |xs| == 0 || (sd >= 0.0 && sd * sd == PVariance(xs))
  }

  /** On a non-empty list the standard deviation is determined: there is
      one non-negative square root of the variance. */
  lemma PStdDevUnique(xs: seq<real>, a: real, b: real)
    requires |xs| > 0 && IsPStdDev(xs, a) && IsPStdDev(xs, b)
    ensures a == b
  {
    RootUnique(a, b);
  }

  /** Every element between `lo` and `hi` puts the sum between `|xs|`
      copies of each. */
  lemma {:induction false} SumWithin(xs: seq<real>, lo: real, hi: real)
    requires forall i :: 0 <= i < |xs| ==> lo <= xs[i] <= hi
    ensures lo * |xs| as real <= Sum(xs) <= hi * |xs| as real
  {
    if |xs| > 0 {
      SumWithin(xs[1..], lo, hi);
    }
  }

  /** The mean lies between any bounds of the elements. */
  lemma MeanWithin(xs: seq<real>, lo: real, hi: real)
    requires |xs| > 0
    requires forall i :: 0 <= i < |xs| ==> lo <= xs[i] <= hi
    ensures lo <= Mean(xs) <= hi
  {
    SumWithin(xs, lo, hi);
    DivWithin(Sum(xs), |xs| as real, lo, hi);
  }

  /** The squared deviations from `mu` sum to 0 exactly when every
      element is `mu`. */
  lemma {:induction false} SumSqDevZero(xs: seq<real>, mu: real)
    ensures SumSqDev(xs, mu) == 0.0 <==> forall i :: 0 <= i < |xs| ==> xs[i] == mu
  {
    if |xs| > 0 {
      SumSqDevZero(xs[1..], mu);
      SquareNonNegative(xs[0] - mu);
      ZeroProduct(xs[0] - mu, xs[0] - mu);
      if forall i :: 0 <= i < |xs| ==> xs[i] == mu {
        assert forall i :: 0 <= i < |xs| - 1 ==> xs[1..][i] == xs[i + 1];
      }
      if SumSqDev(xs, mu) == 0.0 {
        forall i | 0 <= i < |xs| ensures xs[i] == mu {
          if i > 0 { assert xs[1..][i - 1] == xs[i]; }
        }
      }
    }
  }

  /** `|xs|` copies of `c` sum to `|xs| * c`. */
  lemma {:induction false} SumOfConstant(xs: seq<real>, c: real)
    requires forall i :: 0 <= i < |xs| ==> xs[i] == c
    ensures Sum(xs) == |xs| as real * c
  {
    if |xs| > 0 {
      assert forall i :: 0 <= i < |xs| - 1 ==> xs[1..][i] == xs[i + 1];
      SumOfConstant(xs[1..], c);
    }
  }

  /** The population variance is 0 exactly when all elements are equal. */
  lemma VarianceZeroIffEqual(xs: seq<real>)
    requires |xs| > 0
    ensures PVariance(xs) == 0.0 <==> forall i, j :: 0 <= i < |xs| && 0 <= j < |xs| ==> xs[i] == xs[j]
  {
    var mu := Mean(xs);
    var n := |xs| as real;
    SumSqDevZero(xs, mu);
    ZeroProduct(PVariance(xs), n);
    if forall i, j :: 0 <= i < |xs| && 0 <= j < |xs| ==> xs[i] == xs[j] {
      assert forall i :: 0 <= i < |xs| ==> xs[i] == xs[0];
      SumOfConstant(xs, xs[0]);
      assert mu * n == xs[0] * n;
      MulCancel(mu, xs[0], n);
      MulCancel(xs[0], mu, n);
    }
  }

  lemma RootUnique(sd: real, a: real)
    requires sd >= 0.0 && a >= 0.0 && sd * sd == a * a
    ensures sd == a
  {
    assert (sd - a) * (sd + a) == sd * sd - a * a;
    ZeroProduct(sd - a, sd + a);
  }

  lemma ZeroProduct(x: real, y: real)
    ensures x * y == 0.0 <==> x == 0.0 || y == 0.0
  {
  }

  lemma MulMono(a: real, b: real, n: real)
    requires a <= b && n >= 0.0
    ensures a * n <= b * n
  {
  }

  lemma MulCancel(a: real, b: real, n: real)
    requires n > 0.0 && a * n <= b * n
    ensures a <= b
  {
  }

  lemma DivWithin(w: real, n: real, lo: real, hi: real)
    requires n > 0.0 && lo * n <= w <= hi * n
    ensures lo <= w / n <= hi
  {
    var q := w / n;
    assert q * n == w;
    MulCancel(lo, q, n);
    MulCancel(q, hi, n);
  }


  /** Every element moved by `c`. */
  function Shift(xs: seq<real>, c: real): (r: seq<real>)
    ensures |r| == |xs|
    ensures forall i :: 0 <= i < |xs| ==> r[i] == xs[i] + c
  {
    if |xs| == 0 then [] else [xs[0] + c] + Shift(xs[1..], c)
  }

  lemma {:induction false} SumShift(xs: seq<real>, c: real)
    ensures Sum(Shift(xs, c)) == Sum(xs) + |xs| as real * c
  {
    if |xs| > 0 {
      assert Shift(xs, c)[1..] == Shift(xs[1..], c);
      SumShift(xs[1..], c);
    }
  }

  lemma {:induction false} SumSqDevShift(xs: seq<real>, mu: real, c: real)
    ensures SumSqDev(Shift(xs, c), mu + c) == SumSqDev(xs, mu)
  {
    if |xs| > 0 {
      assert Shift(xs, c)[1..] == Shift(xs[1..], c);
      SumSqDevShift(xs[1..], mu, c);
    }
  }

  lemma DivShift(a: real, n: real, c: real)
    requires n > 0.0
    ensures (a + n * c) / n == a / n + c
  {
    assert (a / n + c) * n == a + n * c;
  }

  /** Adding one constant to every value moves the mean by that constant
      and leaves the population variance unchanged. */
  lemma ShiftMoments(xs: seq<real>, c: real)
    requires |xs| > 0
    ensures Mean(Shift(xs, c)) == Mean(xs) + c
    ensures PVariance(Shift(xs, c)) == PVariance(xs)
  {
    MeanShift(xs, c);
    SumSqDevShift(xs, Mean(xs), c);
  }

  lemma MeanShift(xs: seq<real>, c: real)
    requires |xs| > 0
    ensures Mean(Shift(xs, c)) == Mean(xs) + c
  {
    SumShift(xs, c);
    DivShift(Sum(xs), |xs| as real, c);
  }
}
