/** The variance adjustment of the deflated Sharpe ratio, from sample skewness and kurtosis. */
module DeflatedSharpe {
  import opened LinearAlgebra
  import opened NeweyWest

  function Squares(c: Vec): (s: Vec)
    ensures |s| == |c| && forall i :: 0 <= i < |s| ==> s[i] == Times(c[i], c[i])
  {
    seq(|c|, i requires 0 <= i < |c| => Times(c[i], c[i]))
  }

  // The central moments: averages of the second, third and fourth powers of the centred returns.
  function SecondMoment(values: Vec): real
    requires values != []
  {
    Quotient(Dot(Centered(values), Centered(values)), |values| as real)
  }

  function ThirdMoment(values: Vec): real
    requires values != []
  {
    Quotient(Dot(Centered(values), Squares(Centered(values))), |values| as real)
  }

  function FourthMoment(values: Vec): real
    requires values != []
  {
    var squares := Squares(Centered(values));
    Quotient(Dot(squares, squares), |values| as real)
  }

  function Skewness(values: Vec, sqrt: real -> real): real
    requires values != []
  {
    var m2 := SecondMoment(values);
    var power := Times(m2, sqrt(m2));
    if m2 == 0.0 || power == 0.0 then 0.0 else Quotient(ThirdMoment(values), power)
  }

  function Kurtosis(values: Vec): real
    requires values != []
  {
    var m2 := SecondMoment(values);
    if m2 == 0.0 || Times(m2, m2) == 0.0 then 3.0 else Quotient(FourthMoment(values), Times(m2, m2))
  }

  function VarianceAdjustment(values: Vec, sharpe: real, sqrt: real -> real): real
    requires values != []
  {
    1.0 - Times(Skewness(values, sqrt), sharpe) + Times(Quotient(Kurtosis(values) - 1.0, 4.0), Times(sharpe, sharpe))
  }

  ghost predicate Constant(values: Vec) {
    forall i, j :: 0 <= i < |values| && 0 <= j < |values| ==> values[i] == values[j]
  }

  // ---------- Cauchy-Schwarz ----------

  function Combination(a: real, v: Vec, t: real, u: Vec): (w: Vec)
    requires |u| == |v|
    ensures |w| == |u| && forall i :: 0 <= i < |w| ==> w[i] == Times(a, v[i]) + Times(t, u[i])
  {
    seq(|u|, i requires 0 <= i < |u| => Times(a, v[i]) + Times(t, u[i]))
  }

  lemma OrthogonalArithmetic(a: real, b: real, vv: real, ww: real, vw: real, uw: real)
    requires ww == Times(a, vw) + Times(-b, uw) && vw == Times(a, vv) + Times(-b, b)
    requires uw == Times(a, b) + Times(-b, a)
    ensures ww == Times(a, Times(a, vv) - Times(b, b))
  {
    NegatedLeft(b, a);
    TimesCommutes(a, b);
    TimesSign(-b, 0.0);
    NegatedLeft(b, b);
  }

  /** For a = u.u and b = u.v the combination a v - b u is orthogonal to u. */
  lemma CombinationSquare(u: Vec, v: Vec)
    requires |u| == |v|
    ensures var a, b := Dot(u, u), Dot(u, v);
            var w := Combination(a, v, -b, u);
            Dot(w, w) == Times(a, Times(a, Dot(v, v)) - Times(b, b))
  {
    var a, b := Dot(u, u), Dot(u, v);
    var w := Combination(a, v, -b, u);
    DotLinear(w, a, v, -b, u, w);
    DotLinear(w, a, v, -b, u, v);
    DotLinear(w, a, v, -b, u, u);
    DotSymmetric(w, v);
    DotSymmetric(w, u);
    DotSymmetric(v, u);
    OrthogonalArithmetic(a, b, Dot(v, v), Dot(w, w), Dot(v, w), Dot(u, w));
  }

  lemma CauchySchwarz(u: Vec, v: Vec)
    requires |u| == |v|
    ensures Times(Dot(u, v), Dot(u, v)) <= Times(Dot(u, u), Dot(v, v))
  {
    var a, b, vv := Dot(u, u), Dot(u, v), Dot(v, v);
    DotSelfSign(u);
    if IsZero(u) {
      DotZero(u, v);
      TimesSign(a, vv);
      TimesSign(b, b);
    } else {
      CombinationSquare(u, v);
      DotSelfSign(Combination(a, v, -b, u));
      PositiveFactor(a, Times(a, vv) - Times(b, b));
    }
  }

  // ---------- Pearson's inequality ----------

  lemma {:induction false} SumOfDifferences(xs: Vec, m: real, c: Vec)
    requires |c| == |xs| && forall i :: 0 <= i < |c| ==> c[i] == xs[i] - m
    ensures Sum(c) == Sum(xs) - Times(|xs| as real, m)
  {
    if xs != [] {
      SumOfDifferences(xs[1..], m, c[1..]);
      TimesAdd(1.0, |xs[1..]| as real, m);
    } else {
      TimesSign(0.0, m);
    }
  }

  lemma CenteredSumsToZero(values: Vec)
    requires values != []
    ensures Sum(Centered(values)) == 0.0
  {
    SumOfDifferences(values, Mean(values), Centered(values));
    MultiplyBack(Sum(values), |values| as real);
  }

  lemma {:induction false} DotConstant(c: Vec, ones: Vec, m: real)
    requires |c| == |ones| && forall i :: 0 <= i < |ones| ==> ones[i] == m
    ensures Dot(c, ones) == Times(m, Sum(c))
  {
    if c != [] {
      DotConstant(c[1..], ones[1..], m);
      TimesAdd(c[0], Sum(c[1..]), m);
    } else {
      TimesSign(m, 0.0);
    }
  }

  lemma {:induction false} SumOfSquares(c: Vec)
    ensures Sum(Squares(c)) == Dot(c, c)
  {
    if c != [] {
      SumOfSquares(c[1..]);
      assert Squares(c)[1..] == Squares(c[1..]);
    }
  }

  /** With c centred and d its squares less their mean: c.d is the third, d.d the reduced fourth power sum. */
  lemma ReducedSums(values: Vec, d: Vec)
    requires values != [] && |d| == |values|
    requires forall i :: 0 <= i < |d| ==> d[i] == Squares(Centered(values))[i] - SecondMoment(values)
    ensures Dot(Centered(values), d) == Dot(Centered(values), Squares(Centered(values)))
    ensures Dot(d, d) == Dot(Squares(Centered(values)), Squares(Centered(values)))
                       - Times(SecondMoment(values), Dot(Centered(values), Centered(values)))
  {
    var c, m2 := Centered(values), SecondMoment(values);
    var squares := Squares(c);
    var constant: Vec := seq(|c|, i => m2);
    DotSub(d, squares, constant, c);
    DotConstant(c, constant, m2);
    CenteredSumsToZero(values);
    TimesSign(m2, 0.0);
    DotSub(d, squares, constant, d);
    DotSub(d, squares, constant, squares);
    DotConstant(d, constant, m2);
    DotConstant(squares, constant, m2);
    SumOfSquares(c);
    SumOfDifferences(squares, m2, d);
    MultiplyBack(Dot(c, c), |values| as real);
    TimesSign(m2, Sum(d));
    DotSymmetric(squares, d);
    DotSymmetric(constant, d);
    DotSymmetric(constant, squares);
  }

  lemma ScaledProducts(n: real, m2: real, m3: real, m4: real)
    ensures Times(Times(n, m3), Times(n, m3)) == Times(Times(n, n), Times(m3, m3))
    ensures Times(Times(n, m2), Times(n, m4) - Times(m2, Times(n, m2)))
         == Times(Times(n, n), Times(m2, m4 - Times(m2, m2)))
  {
    var reduced := m4 - m2 * m2;
    assert n * m4 - m2 * (n * m2) == n * reduced;
    assert (n * m2) * (n * reduced) == (n * n) * (m2 * reduced);
  }

  lemma DivideOut(n: real, s2: real, s3: real, s4: real, m2: real, m3: real, m4: real)
    requires n > 0.0 && s2 == Times(n, m2) && s3 == Times(n, m3) && s4 == Times(n, m4)
    requires Times(s3, s3) <= Times(s2, s4 - Times(m2, s2))
    ensures Times(m3, m3) <= Times(m2, m4 - Times(m2, m2))
  {
    ScaledProducts(n, m2, m3, m4);
    TimesSign(n, n);
    var x, y := Times(m3, m3), Times(m2, m4 - Times(m2, m2));
    TimesAdd(y - x, x, Times(n, n));
    PositiveFactor(Times(n, n), y - x);
  }

  /** The third moment squared is at most m2 (m4 - m2^2). */
  lemma MomentInequality(values: Vec)
    requires values != []
    ensures var m2 := SecondMoment(values);
            Times(ThirdMoment(values), ThirdMoment(values)) <= Times(m2, FourthMoment(values) - Times(m2, m2))
  {
    var c, m2 := Centered(values), SecondMoment(values);
    var squares := Squares(c);
    var d := seq(|c|, i requires 0 <= i < |c| => squares[i] - m2);
    ReducedSums(values, d);
    CauchySchwarz(c, d);
    MultiplyBack(Dot(c, c), |values| as real);
    MultiplyBack(Dot(c, squares), |values| as real);
    MultiplyBack(Dot(squares, squares), |values| as real);
    DivideOut(|values| as real, Dot(c, c), Dot(c, squares), Dot(squares, squares),
              m2, ThirdMoment(values), FourthMoment(values));
  }

  lemma SecondMomentSign(values: Vec)
    requires values != [] && !Constant(values)
    ensures SecondMoment(values) > 0.0
  {
    var c := Centered(values);
    DotSelfSign(c);
    assert IsZero(c) ==> Constant(values);
    QuotientHasSign(Dot(c, c), |values| as real);
  }

  lemma CubeFactorsOut(m2: real, q: real, k: real)
    ensures Times(m2, Times(k, q) - q) == Times(k - 1.0, Times(m2, q))
  {
    assert m2 * (k * q - q) == (k - 1.0) * (m2 * q);
  }

  /** With s and k the scaled third and fourth moments, both sides of the inequality have the cube of m2 as a factor. */
  lemma ScaledMoments(m2: real, m3: real, m4: real, root: real, s: real, k: real)
    requires Times(root, root) == m2 && Times(s, Times(m2, root)) == m3 && Times(k, Times(m2, m2)) == m4
    ensures var cube := Times(m2, Times(m2, m2));
            && Times(m3, m3) == Times(Times(s, s), cube)
            && Times(m2, m4 - Times(m2, m2)) == Times(k - 1.0, cube)
  {
    SquareOfProduct(s, Times(m2, root));
    SquareOfProduct(m2, root);
    TimesCommutes(Times(m2, m2), m2);
    CubeFactorsOut(m2, Times(m2, m2), k);
  }

  lemma CancelFactor(cube: real, x: real, y: real)
    requires cube > 0.0 && Times(x, cube) <= Times(y, cube)
    ensures x <= y
  {
    TimesAdd(y - x, x, cube);
    TimesCommutes(y - x, cube);
    PositiveFactor(cube, y - x);
  }

  lemma ScaledInequality(m2: real, m3: real, m4: real, root: real, s: real, k: real)
    requires m2 > 0.0 && root > 0.0 && Times(root, root) == m2
    requires Times(m3, m3) <= Times(m2, m4 - Times(m2, m2))
    requires Times(m2, root) > 0.0 && Times(m2, m2) > 0.0
    requires s == Quotient(m3, Times(m2, root)) && k == Quotient(m4, Times(m2, m2))
    ensures Times(s, s) <= k - 1.0
  {
    MultiplyBack(m3, Times(m2, root));
    MultiplyBack(m4, Times(m2, m2));
    TimesCommutes(s, Times(m2, root));
    TimesCommutes(k, Times(m2, m2));
    ScaledMoments(m2, m3, m4, root, s, k);
    TimesSign(m2, Times(m2, m2));
    CancelFactor(Times(m2, Times(m2, m2)), Times(s, s), k - 1.0);
  }

  /** Kurtosis is at least one more than skewness squared. */
  lemma PearsonInequality(values: Vec, sqrt: real -> real)
    requires values != [] && !Constant(values) && IsSqrt(sqrt)
    ensures Times(Skewness(values, sqrt), Skewness(values, sqrt)) <= Kurtosis(values) - 1.0
  {
    var m2 := SecondMoment(values);
    var root := sqrt(m2);
    SecondMomentSign(values);
    TimesSign(root, root);
    TimesSign(m2, root);
    TimesSign(m2, m2);
    MomentInequality(values);
    ScaledInequality(m2, ThirdMoment(values), FourthMoment(values), root, Skewness(values, sqrt), Kurtosis(values));
  }

  lemma CompleteTheSquare(s: real, k: real, x: real)
    ensures 1.0 - Times(s, x) + Times(Quotient(k - 1.0, 4.0), Times(x, x))
         == Times(1.0 - Times(s, x) / 2.0, 1.0 - Times(s, x) / 2.0)
          + Times(Quotient(k - 1.0 - Times(s, s), 4.0), Times(x, x))
  {
    var y := s * x;
    assert (1.0 - y / 2.0) * (1.0 - y / 2.0) == 1.0 - y + y * y / 4.0;
    assert y * y == (s * s) * (x * x);
    var z := x * x;
    assert (k - 1.0 - s * s) / 4.0 * z == (k - 1.0) / 4.0 * z - (s * s) * z / 4.0;
  }

  // ---------- The adjustment as a sum of squares ----------

  /** The centred returns scaled by their deviation, less half the Sharpe ratio times their reduced squares. */
  function Tilted(c: Vec, m2: real, root: real, sharpe: real): (w: Vec)
    ensures |w| == |c| && forall i :: 0 <= i < |w| ==> w[i] == Times(root, c[i]) - Times(sharpe / 2.0, Times(c[i], c[i]) - m2)
  {
    seq(|c|, i requires 0 <= i < |c| => Times(root, c[i]) - Times(sharpe / 2.0, Times(c[i], c[i]) - m2))
  }

  lemma SquareArithmetic(r: real, h: real, cc: real, cd: real, dd: real, cw: real, dw: real, ww: real)
    requires ww == Times(r, cw) + Times(-h, dw) && cw == Times(r, cc) + Times(-h, cd) && dw == Times(r, cd) + Times(-h, dd)
    ensures ww == Times(Times(r, r), cc) - Times(2.0 * Times(r, h), cd) + Times(Times(h, h), dd)
  {
    assert ww == r * (r * cc - h * cd) - h * (r * cd - h * dd);
  }

  lemma SquareOfCombination(r: real, c: Vec, h: real, d: Vec)
    requires |c| == |d|
    ensures var w := Combination(r, c, -h, d);
            Dot(w, w) == Times(Times(r, r), Dot(c, c)) - Times(2.0 * Times(r, h), Dot(c, d)) + Times(Times(h, h), Dot(d, d))
  {
    var w := Combination(r, c, -h, d);
    DotLinear(w, r, c, -h, d, w);
    DotLinear(w, r, c, -h, d, c);
    DotLinear(w, r, c, -h, d, d);
    DotSymmetric(w, c);
    DotSymmetric(w, d);
    DotSymmetric(c, d);
    SquareArithmetic(r, h, Dot(c, c), Dot(c, d), Dot(d, d), Dot(c, w), Dot(d, w), Dot(w, w));
  }

  lemma TiltedAt(c: Vec, d: Vec, m2: real, root: real, sharpe: real, i: nat)
    requires i < |c| == |d| && d[i] == Squares(c)[i] - m2
    ensures Tilted(c, m2, root, sharpe)[i] == Combination(root, c, -(sharpe / 2.0), d)[i]
  {
    assert Squares(c)[i] == Times(c[i], c[i]);
    NegatedLeft(sharpe / 2.0, d[i]);
  }

  lemma TiltedIsCombination(c: Vec, d: Vec, m2: real, root: real, sharpe: real)
    requires |c| == |d| && forall i :: 0 <= i < |d| ==> d[i] == Squares(c)[i] - m2
    ensures Tilted(c, m2, root, sharpe) == Combination(root, c, -(sharpe / 2.0), d)
  {
    var w, v := Tilted(c, m2, root, sharpe), Combination(root, c, -(sharpe / 2.0), d);
    forall i | 0 <= i < |c|
      ensures w[i] == v[i]
    {
      TiltedAt(c, d, m2, root, sharpe, i);
    }
  }

  lemma LinearTerm(r: real, m2: real, m3: real, s: real, x: real, n: real)
    requires Times(r, r) == m2 && Times(s, Times(m2, r)) == m3
    ensures Times(2.0 * Times(r, x / 2.0), Times(n, m3)) == Times(Times(n, Times(m2, m2)), Times(s, x))
  {
    assert r * m3 == s * (m2 * m2) by {
      assert r * (s * (m2 * r)) == s * (m2 * (r * r));
    }
    assert (2.0 * (r * (x / 2.0))) * (n * m3) == (n * x) * (r * m3);
    assert (n * (m2 * m2)) * (s * x) == (n * x) * (s * (m2 * m2));
  }

  lemma QuadraticTerm(m2: real, m4: real, k: real, x: real, n: real)
    requires Times(k, Times(m2, m2)) == m4
    ensures Times(Times(x / 2.0, x / 2.0), Times(n, m4) - Times(m2, Times(n, m2)))
         == Times(Times(n, Times(m2, m2)), Times(Quotient(k - 1.0, 4.0), Times(x, x)))
  {
    var q, xx := m2 * m2, x * x;
    assert m2 * (n * m2) == n * q && n * (k * q) == k * (n * q);
    assert n * m4 - m2 * (n * m2) == (k - 1.0) * (n * q);
    assert (x / 2.0) * (x / 2.0) == xx / 4.0;
    assert (xx / 4.0) * ((k - 1.0) * (n * q)) == (n * q) * ((k - 1.0) / 4.0 * xx);
  }

  lemma AdjustmentArithmetic(n: real, m2: real, m3: real, m4: real, r: real, s: real, k: real, x: real)
    requires Times(r, r) == m2 && Times(s, Times(m2, r)) == m3 && Times(k, Times(m2, m2)) == m4
    ensures Times(Times(n, Times(m2, m2)), 1.0 - Times(s, x) + Times(Quotient(k - 1.0, 4.0), Times(x, x)))
         == Times(m2, Times(n, m2)) - Times(2.0 * Times(r, x / 2.0), Times(n, m3))
          + Times(Times(x / 2.0, x / 2.0), Times(n, m4) - Times(m2, Times(n, m2)))
  {
    LinearTerm(r, m2, m3, s, x, n);
    QuadraticTerm(m2, m4, k, x, n);
    var scale, a, b := Times(n, Times(m2, m2)), Times(s, x), Times(Quotient(k - 1.0, 4.0), Times(x, x));
    assert m2 * (n * m2) == n * (m2 * m2);
    TimesAdd(1.0 - a, b, scale);
    TimesAdd(1.0, -a, scale);
    NegatedFactor(scale, a);
  }

  lemma ScaledSkewness(values: Vec, sqrt: real -> real)
    requires values != [] && !Constant(values) && IsSqrt(sqrt)
    ensures var m2 := SecondMoment(values);
            && Times(sqrt(m2), sqrt(m2)) == m2
            && Times(Skewness(values, sqrt), Times(m2, sqrt(m2))) == ThirdMoment(values)
            && Times(Kurtosis(values), Times(m2, m2)) == FourthMoment(values)
  {
    var m2 := SecondMoment(values);
    var root := sqrt(m2);
    SecondMomentSign(values);
    TimesSign(root, root);
    TimesSign(m2, root);
    TimesSign(m2, m2);
    MultiplyBack(ThirdMoment(values), Times(m2, root));
    MultiplyBack(FourthMoment(values), Times(m2, m2));
    TimesCommutes(Skewness(values, sqrt), Times(m2, root));
    TimesCommutes(Kurtosis(values), Times(m2, m2));
  }

  lemma MomentsAreSums(values: Vec)
    requires values != []
    ensures var n, c := |values| as real, Centered(values);
            && Times(n, SecondMoment(values)) == Dot(c, c)
            && Times(n, ThirdMoment(values)) == Dot(c, Squares(c))
            && Times(n, FourthMoment(values)) == Dot(Squares(c), Squares(c))
  {
    var n, c := |values| as real, Centered(values);
    MultiplyBack(Dot(c, c), n);
    MultiplyBack(Dot(c, Squares(c)), n);
    MultiplyBack(Dot(Squares(c), Squares(c)), n);
  }

  lemma TiltedMoments(values: Vec, root: real, sharpe: real)
    requires values != []
    ensures var n, m2, h := |values| as real, SecondMoment(values), sharpe / 2.0;
            var w := Tilted(Centered(values), m2, root, sharpe);
            Dot(w, w) == Times(Times(root, root), Times(n, m2)) - Times(2.0 * Times(root, h), Times(n, ThirdMoment(values)))
                       + Times(Times(h, h), Times(n, FourthMoment(values)) - Times(m2, Times(n, m2)))
  {
    var c, m2 := Centered(values), SecondMoment(values);
    var d := seq(|c|, i requires 0 <= i < |c| => Squares(c)[i] - m2);
    TiltedIsCombination(c, d, m2, root, sharpe);
    SquareOfCombination(root, c, sharpe / 2.0, d);
    ReducedSums(values, d);
    MomentsAreSums(values);
  }

  /**
   * For every non-constant series and every Sharpe ratio, the count times the squared second moment times the
   * adjustment is the sum of the squares of the tilted returns. This fixes its signs and coefficients.
   */
  lemma AdjustmentIsSumOfSquares(values: Vec, sharpe: real, sqrt: real -> real)
    requires values != [] && !Constant(values) && IsSqrt(sqrt)
    ensures var n, c := |values| as real, Centered(values);
            var m2 := Quotient(Dot(c, c), n);
            var w := Tilted(c, m2, sqrt(m2), sharpe);
            Times(Times(n, Times(m2, m2)), VarianceAdjustment(values, sharpe, sqrt)) == Dot(w, w)
  {
    var n, m2 := |values| as real, SecondMoment(values);
    TiltedMoments(values, sqrt(m2), sharpe);
    ScaledSkewness(values, sqrt);
    AdjustmentArithmetic(n, m2, ThirdMoment(values), FourthMoment(values), sqrt(m2),
                         Skewness(values, sqrt), Kurtosis(values), sharpe);
  }

  /**
   * The adjustment under the square root is nonnegative for every non-constant series and every
   * Sharpe ratio, and zero only at the one ratio of a series that meets Pearson's bound.
   */
  lemma AdjustmentIsNonNegative(values: Vec, sharpe: real, sqrt: real -> real)
    requires values != [] && !Constant(values) && IsSqrt(sqrt)
    ensures VarianceAdjustment(values, sharpe, sqrt) >= 0.0
    ensures VarianceAdjustment(values, sharpe, sqrt) == 0.0
       <==> Times(Skewness(values, sqrt), sharpe) == 2.0
            && Kurtosis(values) - 1.0 == Times(Skewness(values, sqrt), Skewness(values, sqrt))
  {
    var s, k := Skewness(values, sqrt), Kurtosis(values);
    PearsonInequality(values, sqrt);
    CompleteTheSquare(s, k, sharpe);
    var root, gap := 1.0 - Times(s, sharpe) / 2.0, Quotient(k - 1.0 - Times(s, s), 4.0);
    TimesSign(root, root);
    TimesSign(sharpe, sharpe);
    TimesSign(s, sharpe);
    TimesSign(gap, Times(sharpe, sharpe));
    assert gap >= 0.0;
  }

  // ---------- The score ----------

  /** The mean return over the sample deviation. */
  function Sharpe(values: Vec, sqrt: real -> real): real
    requires |values| > 1 && !Constant(values) && IsSqrt(sqrt)
  {
    PositiveDeviation(values, sqrt);
    Quotient(Mean(values), sqrt(Quotient(Dot(Centered(values), Centered(values)), (|values| - 1) as real)))
  }

  lemma PositiveDeviation(values: Vec, sqrt: real -> real)
    requires |values| > 1 && !Constant(values) && IsSqrt(sqrt)
    ensures sqrt(Quotient(Dot(Centered(values), Centered(values)), (|values| - 1) as real)) > 0.0
  {
    var c := Centered(values);
    DotSelfSign(c);
    assert IsZero(c) ==> Constant(values);
    PositiveRoot(Dot(c, c), (|values| - 1) as real, sqrt);
  }

  /** The adjustment as it is put under the square root. */
  function Floored(adjustment: real): (a: real)
    ensures a > 0.0
  {
    if adjustment < 0.000000000001 then 0.000000000001 else adjustment
  }

  function Score(values: Vec, benchmark: real, sqrt: real -> real): real
    requires |values| > 1 && !Constant(values) && IsSqrt(sqrt)
  {
    var sharpe := Sharpe(values, sqrt);
    var floored := Floored(VarianceAdjustment(values, sharpe, sqrt));
    TimesSign(sqrt(floored), sqrt(floored));
    Quotient(Times(sharpe - benchmark, sqrt((|values| - 1) as real)), sqrt(floored))
  }

  /** The squared Sharpe ratio times the squared deviations is one less than the count times the squared mean. */
  lemma SharpeSquared(values: Vec, sqrt: real -> real)
    requires |values| > 1 && !Constant(values) && IsSqrt(sqrt)
    ensures var s, c := Sharpe(values, sqrt), Centered(values);
            && Times(Times(s, s), Dot(c, c)) == Times((|values| - 1) as real, Times(Mean(values), Mean(values)))
            && (s > 0.0 <==> Mean(values) > 0.0) && (s < 0.0 <==> Mean(values) < 0.0)
  {
    var s, c, k := Sharpe(values, sqrt), Centered(values), (|values| - 1) as real;
    var q := Quotient(Dot(c, c), k);
    PositiveDeviation(values, sqrt);
    DotSelfSign(c);
    QuotientHasSign(Dot(c, c), k);
    QuotientHasSign(Mean(values), sqrt(q));
    MultiplyBack(Mean(values), sqrt(q));
    MultiplyBack(Dot(c, c), k);
    SquareOfProduct(sqrt(q), s);
    SwapFactors(k, q, Times(s, s));
  }

  lemma SwapFactors(k: real, q: real, x: real)
    ensures Times(x, Times(k, q)) == Times(k, Times(q, x))
  {
    assert x * (k * q) == k * (q * x);
  }

  /**
   * The score squared times the floored adjustment is one less than the count times the squared distance of the
   * Sharpe ratio from its benchmark; the score has the sign of that distance.
   */
  lemma ScoreSquared(values: Vec, benchmark: real, sqrt: real -> real)
    requires |values| > 1 && !Constant(values) && IsSqrt(sqrt)
    ensures var s, z := Sharpe(values, sqrt), Score(values, benchmark, sqrt);
            && Times(Floored(VarianceAdjustment(values, s, sqrt)), Times(z, z))
               == Times((|values| - 1) as real, Times(s - benchmark, s - benchmark))
            && (z > 0.0 <==> s > benchmark) && (z < 0.0 <==> s < benchmark)
  {
    var s, z, k := Sharpe(values, sqrt), Score(values, benchmark, sqrt), (|values| - 1) as real;
    var floored, distance := Floored(VarianceAdjustment(values, s, sqrt)), s - benchmark;
    TimesSign(sqrt(floored), sqrt(floored));
    TimesSign(sqrt(k), sqrt(k));
    TimesSign(distance, sqrt(k));
    TimesSign(-distance, sqrt(k));
    NegatedLeft(distance, sqrt(k));
    QuotientHasSign(Times(distance, sqrt(k)), sqrt(floored));
    MultiplyBack(Times(distance, sqrt(k)), sqrt(floored));
    SquareOfProduct(sqrt(floored), z);
    SquareOfProduct(distance, sqrt(k));
    TimesCommutes(Times(distance, distance), k);
  }
}
