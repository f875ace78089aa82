/** Running sums of samples, and why the variances taken from them cannot be negative. */
module Samples {
  function Sum(xs: seq<real>): real { if xs == [] then 0.0 else Sum(xs[..|xs| - 1]) + xs[|xs| - 1] }

  function Square(x: real): real { x * x }

  function SumSquare(xs: seq<real>): real {
    if xs == [] then 0.0 else SumSquare(xs[..|xs| - 1]) + Square(xs[|xs| - 1])
  }

  /** The smallest sample, starting from the value the field is reset to; the largest likewise. */
  function Least(xs: seq<real>): real {
    if xs == [] then 9999999.0 else
      var m := Least(xs[..|xs| - 1]);
      if xs[|xs| - 1] < m then xs[|xs| - 1] else m
  }

  function Greatest(xs: seq<real>): real {
    if xs == [] then 0.0 else
      var m := Greatest(xs[..|xs| - 1]);
      if xs[|xs| - 1] > m then xs[|xs| - 1] else m
  }

  /** The four fields config.hpp keeps of a series of samples. */
  datatype Running = Running(sum: real, sumSquare: real, least: real, greatest: real) {
    function Add(x: real): Running {
      Running(sum + x, sumSquare + Square(x), if x < least then x else least, if x > greatest then x else greatest)
    }
  }

  const RESET := Running(0.0, 0.0, 9999999.0, 0.0)

  /** What they are for a series. */
  function Of(xs: seq<real>): Running { Running(Sum(xs), SumSquare(xs), Least(xs), Greatest(xs)) }

  lemma Snoc(xs: seq<real>, x: real)
    ensures Of(xs + [x]) == Of(xs).Add(x) && Sum(xs + [x]) == Sum(xs) + x
  {
    assert (xs + [x])[..|xs|] == xs;
  }

  /** The variance as config.hpp takes it: mean of squares minus square of the mean, both over `count`. */
  function Variance(sum: real, sumSquare: real, count: nat): real
    requires count > 0
  {
    sumSquare / count as real - (sum / count as real) * (sum / count as real)
  }

  lemma SquareNonNegative(x: real)
    ensures x * x >= 0.0
  {
  }

  lemma {:induction false} SumSquareNonNegative(xs: seq<real>)
    ensures SumSquare(xs) >= 0.0
  {
    if xs == [] {
    } else {
      SumSquareNonNegative(xs[..|xs| - 1]);
      SquareNonNegative(xs[|xs| - 1]);
    }
  }

  /** If n*q >= s*s for n > 0 then n*x*x + q >= 2*s*x, because (n*x - s)^2 >= 0. */
  lemma CauchyStep(n: real, s: real, q: real, x: real)
    requires n > 0.0 && s * s <= n * q
    ensures (s + x) * (s + x) <= (n + 1.0) * (q + x * x)
  {
    var y := n * x - s;
    SquareNonNegative(y);
    assert y * y == n * n * (x * x) - 2.0 * n * (s * x) + s * s;
    assert n * (n * (x * x) + q - 2.0 * (s * x)) >= 0.0;
    Divide(n, n * (x * x) + q - 2.0 * (s * x));
    assert (s + x) * (s + x) == s * s + 2.0 * (s * x) + x * x;
    assert (n + 1.0) * (q + x * x) == n * q + n * (x * x) + q + x * x;
  }

  lemma Divide(n: real, z: real)
    requires n > 0.0 && n * z >= 0.0
    ensures z >= 0.0
  {
  }

  /** The square of a sum is at most the number of samples times the sum of the squares. */
  lemma {:induction false} CauchySchwarz(xs: seq<real>)
    ensures Sum(xs) * Sum(xs) <= |xs| as real * SumSquare(xs)
  {
    if |xs| == 1 {
      assert xs[..0] == [];
    } else if xs != [] {
      var front, x := xs[..|xs| - 1], xs[|xs| - 1];
      CauchySchwarz(front);
      CauchyStep(|front| as real, Sum(front), SumSquare(front), x);
      assert |xs| as real == |front| as real + 1.0;
    }
  }

  /** The divisor may exceed the number of samples: the variance is still not negative. */
  lemma VarianceNonNegative(xs: seq<real>, count: nat)
    requires count > 0 && count >= |xs|
    ensures Variance(Sum(xs), SumSquare(xs), count) >= 0.0
  {
    hide Sum, SumSquare;
    var s, q, n := Sum(xs), SumSquare(xs), count as real;
    CauchySchwarz(xs);
    SumSquareNonNegative(xs);
    MoreSamples(|xs| as real, n, q);
    assert s * s <= n * q;
    Quotients(s, q, n);
  }

  lemma MoreSamples(m: real, n: real, q: real)
    requires m <= n && q >= 0.0
    ensures m * q <= n * q
  {
  }

  lemma Quotients(s: real, q: real, n: real)
    requires n > 0.0 && s * s <= n * q
    ensures q / n - (s / n) * (s / n) >= 0.0
  {
    var d := q / n - (s / n) * (s / n);
    var r := s / n;
    assert n * r == s && n * (q / n) == q;
    assert n * (n * d) == n * q - (n * r) * (n * r);
    Divide(n, n * d);
    Divide(n, d);
  }

  // ---- what the sums and the variance are

  /** The extremes bound the samples, and are among them unless they still have the value of the reset. */
  lemma {:induction false} Extremes(xs: seq<real>, i: nat)
    requires i < |xs|
    ensures Least(xs) <= xs[i] <= Greatest(xs) && Least(xs) <= 9999999.0 && Greatest(xs) >= 0.0
    ensures Least(xs) == 9999999.0 || Least(xs) in xs
    ensures Greatest(xs) == 0.0 || Greatest(xs) in xs
  {
    var n := |xs| - 1;
    var front := xs[..n];
    if n == 0 {
      assert front == [];
    } else {
      Extremes(front, if i < n then i else 0);
      assert forall x :: x in front ==> x in xs;
    }
  }

  /** The samples in which every count beyond them stands for a sample of 0. */
  function Padded(xs: seq<real>, count: nat): (r: seq<real>)
    requires count >= |xs|
    ensures |r| == count
  {
    xs + seq(count - |xs|, _ => 0.0)
  }

  /** The sum of the squared distances from `m`. */
  function Deviation(xs: seq<real>, m: real): real {
    if xs == [] then 0.0 else Deviation(xs[..|xs| - 1], m) + (xs[|xs| - 1] - m) * (xs[|xs| - 1] - m)
  }

  lemma {:induction false} PaddedSums(xs: seq<real>, count: nat)
    requires count >= |xs|
    ensures Sum(Padded(xs, count)) == Sum(xs) && SumSquare(Padded(xs, count)) == SumSquare(xs)
  {
    var p := Padded(xs, count);
    if count == |xs| {
      assert p == xs;
    } else {
      assert p[..count - 1] == Padded(xs, count - 1) && p[count - 1] == 0.0;
      PaddedSums(xs, count - 1);
    }
  }

  lemma Binomial(q: real, s: real, n: real, m: real, x: real)
    ensures q - 2.0 * (m * s) + n * (m * m) + (x - m) * (x - m) ==
            (q + x * x) - 2.0 * (m * (s + x)) + (n + 1.0) * (m * m)
  {
    assert (x - m) * (x - m) == x * x - 2.0 * (m * x) + m * m;
    assert m * (s + x) == m * s + m * x;
    assert (n + 1.0) * (m * m) == n * (m * m) + m * m;
  }

  lemma {:induction false} DeviationIs(xs: seq<real>, m: real)
    ensures Deviation(xs, m) == SumSquare(xs) - 2.0 * (m * Sum(xs)) + |xs| as real * (m * m)
  {
    if xs == [] {
    } else {
      var front, x := xs[..|xs| - 1], xs[|xs| - 1];
      DeviationIs(front, m);
      Binomial(SumSquare(front), Sum(front), |front| as real, m, x);
      assert |xs| as real == |front| as real + 1.0;
    }
  }

  lemma {:induction false} NoDeviation(xs: seq<real>, m: real)
    ensures Deviation(xs, m) >= 0.0
    ensures Deviation(xs, m) == 0.0 <==> forall i :: 0 <= i < |xs| ==> xs[i] == m
  {
    if xs == [] {
    } else {
      var front, x := xs[..|xs| - 1], xs[|xs| - 1];
      NoDeviation(front, m);
      SquareIsZero(x - m);
      assert forall i :: 0 <= i < |front| ==> front[i] == xs[i];
    }
  }

  lemma SquareIsZero(y: real)
    ensures y * y >= 0.0 && (y * y == 0.0 <==> y == 0.0)
  {
    if y > 0.0 { ZeroProduct(y, y); } else if y < 0.0 { ZeroProduct(-y, -y); assert y * y == (-y) * (-y); }
  }

  lemma {:induction false} SumOfEqual(xs: seq<real>, c: real)
    requires forall i :: 0 <= i < |xs| ==> xs[i] == c
    ensures Sum(xs) == |xs| as real * c
  {
    if xs == [] {
    } else {
      var front := xs[..|xs| - 1];
      SumOfEqual(front, c);
      assert |xs| as real == |front| as real + 1.0;
      assert (|front| as real + 1.0) * c == |front| as real * c + c;
    }
  }

  lemma ByCount(s: real, q: real, n: real, v: real)
    requires n > 0.0 && v == q / n - (s / n) * (s / n)
    ensures v * n == q - 2.0 * ((s / n) * s) + n * ((s / n) * (s / n))
  {
    var m := s / n;
    assert m * n == s && (q / n) * n == q;
    assert v * n == q - (m * m) * n;
    assert m * s == (m * m) * n;
  }

  predicate AllEqual(xs: seq<real>) { forall i :: 0 <= i < |xs| ==> xs[i] == xs[0] }

  function Average(xs: seq<real>): real requires xs != [] { Sum(xs) / |xs| as real }

  function Scaled(v: real, count: nat): real { v * count as real }

  /** All are equal exactly if all are the mean. */
  lemma EqualToMean(xs: seq<real>)
    requires xs != []
    ensures AllEqual(xs) <==> forall i :: 0 <= i < |xs| ==> xs[i] == Average(xs)
  {
    if AllEqual(xs) {
      AverageOfEqual(xs, xs[0]);
    }
    hide Average;
    if forall i :: 0 <= i < |xs| ==> xs[i] == Average(xs) {
      assert xs[0] == Average(xs);
    }
  }

  lemma AverageOfEqual(xs: seq<real>, c: real)
    requires xs != [] && forall i :: 0 <= i < |xs| ==> xs[i] == c
    ensures Average(xs) == c
  {
    hide Sum;
    SumOfEqual(xs, c);
    DivideBack(|xs| as real, c);
  }

  /**
   * The value is the variance of the samples, padded with zeros: the mean of their squared distances from their mean,
   * which is 0 exactly if all are equal.
   */
  ghost predicate IsVarianceOf(v: real, xs: seq<real>, count: nat) {
    count > 0 && count >= |xs| &&
    Scaled(v, count) == Deviation(Padded(xs, count), Average(Padded(xs, count))) &&
    (v == 0.0 <==> AllEqual(Padded(xs, count)))
  }

  lemma VarianceIsDeviation(xs: seq<real>, count: nat)
    requires count > 0 && count >= |xs|
    ensures IsVarianceOf(Variance(Sum(xs), SumSquare(xs), count), xs, count)
  {
    hide Sum, SumSquare, Deviation, Variance, Padded, AllEqual, Average, Scaled;
    var v, p := Variance(Sum(xs), SumSquare(xs), count), Padded(xs, count);
    PaddedSums(xs, count);
    DeviationOfMean(p, v);
    ZeroScaled(v, count);
    NoDeviation(p, Average(p));
    EqualToMean(p);
  }

  lemma DeviationOfMean(p: seq<real>, v: real)
    requires p != [] && v == Variance(Sum(p), SumSquare(p), |p|)
    ensures Scaled(v, |p|) == Deviation(p, Average(p))
  {
    hide Sum, SumSquare, Deviation;
    DeviationIs(p, Average(p));
    ByCount(Sum(p), SumSquare(p), |p| as real, v);
  }

  lemma ZeroScaled(v: real, count: nat)
    requires count > 0
    ensures Scaled(v, count) == 0.0 <==> v == 0.0
  {
    ZeroProduct(v, count as real);
  }

  lemma ZeroProduct(v: real, n: real)
    requires n > 0.0
    ensures v * n == 0.0 <==> v == 0.0
  {
  }

  lemma DivideBack(n: real, c: real)
    requires n > 0.0
    ensures n * c / n == c
  {
    var q := n * c / n;
    assert q * n == n * c;
    assert (q - c) * n == 0.0;
    ZeroProduct(q - c, n);
  }
}
