/** Newey-West (Bartlett kernel) long-run variance of the Brier deltas, and the t-statistic built on it. */
module NeweyWest {
  import opened LinearAlgebra
  import opened BartlettWindows

  const ZERO_VARIANCE: real := 0.000000000001
  const CAPPED_T_STAT: real := 999.0

  function Mean(deltas: Vec): real
    requires deltas != []
  {
    Quotient(Sum(deltas), |deltas| as real)
  }

  function Centered(deltas: Vec): (c: Vec)
    requires deltas != []
    ensures |c| == |deltas| && forall i :: 0 <= i < |c| ==> c[i] == deltas[i] - Mean(deltas)
  {
    seq(|deltas|, i requires 0 <= i < |deltas| => deltas[i] - Mean(deltas))
  }

  function Autocovariance(c: Vec, k: nat): real
    requires c != []
  {
    Quotient(LagSum(c, k, |c|), |c| as real)
  }

  /** The Bartlett weight of one offset. */
  function Weight(lag: nat, offset: nat): real {
    2.0 * (1.0 - Quotient(offset as real, (lag + 1) as real))
  }

  /** The variance accumulated after the given offset. */
  function LongRunVariance(c: Vec, lag: nat, offset: nat): real
    requires c != []
  {
    if offset == 0 then Autocovariance(c, 0)
    else LongRunVariance(c, lag, offset - 1) + Times(Weight(lag, offset), Autocovariance(c, offset))
  }

  /** The accumulating loop over offsets 1..lag. */
  method NeweyWestVariance(deltas: Vec, lag: nat) returns (variance: real)
    requires deltas != []
    ensures variance == LongRunVariance(Centered(deltas), lag, lag)
    ensures variance >= 0.0
    ensures variance == 0.0 <==> forall i :: 0 <= i < |deltas| ==> deltas[i] == deltas[0]
  {
    var centered := Centered(deltas);
    variance := Autocovariance(centered, 0);
    for offset := 1 to lag + 1
      invariant variance == LongRunVariance(centered, lag, offset - 1)
    {
      var covariance := Autocovariance(centered, offset);
      variance := variance + Times(Weight(lag, offset), covariance);
    }
    VarianceIsNonNegative(centered, lag);
    VarianceVanishesOnlyOnConstants(deltas, lag);
  }

  function TStat(deltas: Vec, lag: nat, sqrt: real -> real): real
    requires deltas != [] && IsSqrt(sqrt)
  {
    var variance := LongRunVariance(Centered(deltas), lag, lag);
    if variance <= ZERO_VARIANCE then
      if Mean(deltas) > 0.0 then CAPPED_T_STAT
      else if Mean(deltas) < 0.0 then -CAPPED_T_STAT
      else 0.0
    else
      PositiveRoot(variance, |deltas| as real, sqrt);
      Quotient(Mean(deltas), sqrt(Quotient(variance, |deltas| as real)))
  }

  lemma PositiveRoot(variance: real, count: real, sqrt: real -> real)
    requires variance > 0.0 && count > 0.0 && IsSqrt(sqrt)
    ensures sqrt(Quotient(variance, count)) > 0.0
  {
    var q := Quotient(variance, count);
    assert q > 0.0;
    TimesSign(sqrt(q), sqrt(q));
  }

  /** The statistic has the sign of the mean delta. */
  lemma TStatSign(deltas: Vec, lag: nat, sqrt: real -> real)
    requires deltas != [] && IsSqrt(sqrt)
    ensures TStat(deltas, lag, sqrt) > 0.0 <==> Mean(deltas) > 0.0
    ensures TStat(deltas, lag, sqrt) < 0.0 <==> Mean(deltas) < 0.0
  {
    var variance := LongRunVariance(Centered(deltas), lag, lag);
    if variance > ZERO_VARIANCE {
      PositiveRoot(variance, |deltas| as real, sqrt);
      QuotientHasSign(Mean(deltas), sqrt(Quotient(variance, |deltas| as real)));
    }
  }

  lemma QuotientHasSign(x: real, d: real)
    requires d > 0.0
    ensures Quotient(x, d) > 0.0 <==> x > 0.0
    ensures Quotient(x, d) < 0.0 <==> x < 0.0
  {
  }

  // ---------- The variance as a sum of squares ----------

  lemma ScaleAutocovariance(g: real, n: real, m: real, q: real)
    requires Times(n, q) == g
    ensures Times(Times(n, m), q) == Times(m, g)
  {
    assert (n * m) * q == m * (n * q);
  }

  lemma ScaleWeight(m: real, k: real, ratio: real, n: real, q: real, g: real)
    requires Times(n, q) == g && Times(m, ratio) == k
    ensures Times(Times(n, m), Times(2.0 * (1.0 - ratio), q)) == 2.0 * Times(m - k, g)
  {
    var w := 1.0 - ratio;
    assert m * w == m - k;
    assert (n * m) * ((2.0 * w) * q) == 2.0 * ((m * w) * (n * q));
  }

  lemma {:induction false} ScaledVariance(c: Vec, lag: nat, offset: nat)
    requires c != []
    ensures Times(Times(|c| as real, (lag + 1) as real), LongRunVariance(c, lag, offset)) == Bartlett(c, lag, offset)
  {
    var n, m := |c| as real, (lag + 1) as real;
    var g, q := LagSum(c, offset, |c|), Autocovariance(c, offset);
    MultiplyBack(g, n);
    if offset == 0 {
      ScaleAutocovariance(g, n, m, q);
    } else {
      ScaledVariance(c, lag, offset - 1);
      MultiplyBack(offset as real, m);
      ScaleWeight(m, offset as real, Quotient(offset as real, m), n, q, g);
      TimesAdd(LongRunVariance(c, lag, offset - 1), Times(Weight(lag, offset), q), Times(n, m));
    }
  }

  /** count * (lag + 1) * variance is the sum of the squares of all sliding windows of lag + 1 padded entries. */
  lemma VarianceIsSumOfSquares(c: Vec, lag: nat)
    requires c != []
    ensures Times(Times(|c| as real, (lag + 1) as real), LongRunVariance(c, lag, lag))
         == SquaredWindows(c, lag, |c| + lag)
  {
    ScaledVariance(c, lag, lag);
    SquaredWindowsAreBartlett(c, lag, |c| + lag);
  }

  lemma VarianceIsNonNegative(c: Vec, lag: nat)
    requires c != []
    ensures LongRunVariance(c, lag, lag) >= 0.0
    ensures LongRunVariance(c, lag, lag) == 0.0 <==> SquaredWindows(c, lag, |c| + lag) == 0.0
  {
    var scale, variance := Times(|c| as real, (lag + 1) as real), LongRunVariance(c, lag, lag);
    VarianceIsSumOfSquares(c, lag);
    SquaredWindowsSign(c, lag, |c| + lag);
    TimesSign(|c| as real, (lag + 1) as real);
    TimesSign(scale, variance);
    PositiveFactor(scale, variance);
  }

  lemma {:induction false} SumOfConstant(xs: Vec, x: real)
    requires forall i :: 0 <= i < |xs| ==> xs[i] == x
    ensures Sum(xs) == Times(|xs| as real, x)
  {
    if xs != [] {
      SumOfConstant(xs[1..], x);
      TimesAdd(1.0, |xs[1..]| as real, x);
    } else {
      TimesSign(0.0, x);
    }
  }

  /** Whatever the lag, the exact variance is zero only when all deltas are equal. */
  lemma VarianceVanishesOnlyOnConstants(deltas: Vec, lag: nat)
    requires deltas != []
    ensures LongRunVariance(Centered(deltas), lag, lag) == 0.0
       <==> forall i :: 0 <= i < |deltas| ==> deltas[i] == deltas[0]
  {
    var c := Centered(deltas);
    VarianceIsNonNegative(c, lag);
    SquaredWindowsSign(c, lag, |c| + lag);
    if LongRunVariance(c, lag, lag) == 0.0 {
      ZeroWindowsMeanZeroEntries(c, lag, |c|);
    }
    if forall i :: 0 <= i < |deltas| ==> deltas[i] == deltas[0] {
      SumOfConstant(deltas, deltas[0]);
      DivideBack(|deltas| as real, deltas[0]);
      ZeroEntriesMeanZeroWindows(c, lag, |c| + lag);
    }
  }

  // ---------- The statistic ----------

  lemma StatisticArithmetic(n: real, m: real, variance: real, q: real, tSquared: real, meanSquared: real, sumSquared: real)
    requires Times(n, q) == variance && Times(tSquared, q) == meanSquared
    requires Times(Times(n, n), meanSquared) == sumSquared
    ensures Times(tSquared, Times(Times(n, m), variance)) == Times(m, sumSquared)
  {
    assert tSquared * ((n * m) * (n * q)) == m * ((n * n) * (tSquared * q));
  }

  lemma SquaredStatistic(deltas: Vec, lag: nat, sqrt: real -> real)
    requires deltas != [] && IsSqrt(sqrt) && LongRunVariance(Centered(deltas), lag, lag) > ZERO_VARIANCE
    ensures var t := TStat(deltas, lag, sqrt);
            Times(Times(t, t), SquaredWindows(Centered(deltas), lag, |deltas| + lag))
            == Times((lag + 1) as real, Times(Sum(deltas), Sum(deltas)))
  {
    var n, m, variance := |deltas| as real, (lag + 1) as real, LongRunVariance(Centered(deltas), lag, lag);
    var q, mean, t := Quotient(variance, n), Mean(deltas), TStat(deltas, lag, sqrt);
    PositiveRoot(variance, n, sqrt);
    MultiplyBack(mean, sqrt(q));
    MultiplyBack(variance, n);
    MultiplyBack(Sum(deltas), n);
    QuotientHasSign(variance, n);
    TimesCommutes(t, sqrt(q));
    SquareOfProduct(t, sqrt(q));
    SquareOfProduct(n, mean);
    StatisticArithmetic(n, m, variance, q, Times(t, t), Times(mean, mean), Times(Sum(deltas), Sum(deltas)));
    VarianceIsSumOfSquares(Centered(deltas), lag);
  }

  /**
   * The statistic, given its sign: squared and times the squared windows it is (lag + 1) times the squared sum of
   * the deltas. For a variance of at most 1e-12 it is 999 with the sign of the mean, or zero.
   */
  lemma TStatIsScaledSum(deltas: Vec, lag: nat, sqrt: real -> real)
    requires deltas != [] && IsSqrt(sqrt)
    ensures var t, variance := TStat(deltas, lag, sqrt), LongRunVariance(Centered(deltas), lag, lag);
            && (variance > 0.000000000001 ==>
                  Times(Times(t, t), SquaredWindows(Centered(deltas), lag, |deltas| + lag))
                  == Times((lag + 1) as real, Times(Sum(deltas), Sum(deltas))))
            && (variance <= 0.000000000001 ==>
                  t == if Mean(deltas) > 0.0 then 999.0 else if Mean(deltas) < 0.0 then -999.0 else 0.0)
            && (t > 0.0 <==> Sum(deltas) > 0.0) && (t < 0.0 <==> Sum(deltas) < 0.0)
  {
    TStatSign(deltas, lag, sqrt);
    QuotientHasSign(Sum(deltas), |deltas| as real);
    if LongRunVariance(Centered(deltas), lag, lag) > ZERO_VARIANCE {
      SquaredStatistic(deltas, lag, sqrt);
    }
  }
}
