/** Ordinary least squares through the inverted normal matrix. */
module LeastSquares {
  import opened Wrappers
  import opened LinearAlgebra
  import opened GaussJordan

  /** Sums of products of the design columns. */
  function Normal(x: Matrix, cols: nat): (a: Matrix)
    requires Rect(x, |x|, cols)
    ensures Rect(a, cols, cols)
    ensures forall l, r :: 0 <= l < cols && 0 <= r < cols ==> a[l][r] == Dot(Column(x, l), Column(x, r))
  {
    seq(cols, l requires 0 <= l < cols =>
      seq(cols, r requires 0 <= r < cols => Dot(Column(x, l), Column(x, r))))
  }

  function Rhs(x: Matrix, y: Vec, cols: nat): (b: Vec)
    requires Rect(x, |y|, cols)
    ensures |b| == cols && forall l :: 0 <= l < cols ==> b[l] == Dot(Column(x, l), y)
  {
    seq(cols, l requires 0 <= l < cols => Dot(Column(x, l), y))
  }

  datatype Fit = Fit(coefficients: Vec, inverse: Matrix)

  function Solve(x: Matrix, y: Vec, cols: nat): (r: Option<Fit>)
    requires Rect(x, |y|, cols)
    ensures r.Some? ==> |r.value.coefficients| == cols && Rect(r.value.inverse, cols, cols)
  {
    match Inverse(Normal(x, cols), PIVOT_THRESHOLD)
    case None => None
    case Some(inverse) => Some(Fit(MatVec(inverse, Rhs(x, y, cols)), inverse))
  }

  function Residuals(x: Matrix, y: Vec, c: Vec): (e: Vec)
    requires Rect(x, |y|, |c|)
    ensures |e| == |y|
  {
    Sub(y, MatVec(x, c))
  }

  /** The normal matrix applied to c pairs each design column with the fitted values. */
  lemma NormalTimes(x: Matrix, c: Vec)
    requires Rect(x, |x|, |c|)
    ensures forall l :: 0 <= l < |c| ==> MatVec(Normal(x, |c|), c)[l] == Dot(Column(x, l), MatVec(x, c))
  {
    forall l | 0 <= l < |c|
      ensures MatVec(Normal(x, |c|), c)[l] == Dot(Column(x, l), MatVec(x, c))
    {
      Associative(Column(x, l), x, c);
      assert VecMat(Column(x, l), x, |c|) == Normal(x, |c|)[l];
    }
  }

  /** The residuals are orthogonal to every design column. */
  lemma ResidualsAreOrthogonal(x: Matrix, y: Vec, cols: nat)
    requires Rect(x, |y|, cols) && Solve(x, y, cols).Some?
    ensures var e := Residuals(x, y, Solve(x, y, cols).value.coefficients);
            forall l :: 0 <= l < cols ==> Dot(Column(x, l), e) == 0.0
  {
    var a, b := Normal(x, cols), Rhs(x, y, cols);
    var fit := Solve(x, y, cols).value;
    InverseIsTwoSided(a, PIVOT_THRESHOLD);
    CancelLeft(a, fit.inverse, cols, b);
    NormalTimes(x, fit.coefficients);
    var fitted := MatVec(x, fit.coefficients);
    var e := Residuals(x, y, fit.coefficients);
    forall l | 0 <= l < cols
      ensures Dot(Column(x, l), e) == 0.0
    {
      DotSub(e, y, fitted, Column(x, l));
      assert Dot(Column(x, l), fitted) == MatVec(a, fit.coefficients)[l] == b[l];
    }
  }

  /** With an intercept column of ones the residuals sum to zero. */
  lemma {:induction false} OnesSum(u: Vec, e: Vec)
    requires |u| == |e| && forall i :: 0 <= i < |u| ==> u[i] == 1.0
    ensures Dot(u, e) == Sum(e)
  {
    if u != [] {
      OnesSum(u[1..], e[1..]);
    }
  }

  lemma ResidualsSumToZero(x: Matrix, y: Vec, cols: nat)
    requires Rect(x, |y|, cols) && cols > 0 && Solve(x, y, cols).Some?
    requires forall i :: 0 <= i < |x| ==> x[i][0] == 1.0
    ensures Sum(Residuals(x, y, Solve(x, y, cols).value.coefficients)) == 0.0
  {
    ResidualsAreOrthogonal(x, y, cols);
    OnesSum(Column(x, 0), Residuals(x, y, Solve(x, y, cols).value.coefficients));
  }

  ghost function SquaredError(x: Matrix, y: Vec, c: Vec): real
    requires Rect(x, |y|, |c|)
  {
    Dot(Residuals(x, y, c), Residuals(x, y, c))
  }

  lemma SquareOfDifference(e: Vec, f: Vec, e': Vec)
    requires |e| == |f| == |e'| && forall i :: 0 <= i < |e| ==> e'[i] == e[i] - f[i]
    ensures Dot(e', e') == Dot(e, e) - 2.0 * Dot(e, f) + Dot(f, f)
  {
    DotSub(e', e, f, e');
    DotSub(e', e, f, e);
    DotSub(e', e, f, f);
    DotSymmetric(f, e);
  }

  /** The residuals are orthogonal to every fitted direction x d. */
  lemma OrthogonalToFits(x: Matrix, y: Vec, cols: nat, d: Vec)
    requires Rect(x, |y|, cols) && |d| == cols && Solve(x, y, cols).Some?
    ensures Dot(Residuals(x, y, Solve(x, y, cols).value.coefficients), MatVec(x, d)) == 0.0
  {
    var e := Residuals(x, y, Solve(x, y, cols).value.coefficients);
    ResidualsAreOrthogonal(x, y, cols);
    Associative(e, x, d);
    forall l | 0 <= l < cols
      ensures VecMat(e, x, cols)[l] == 0.0
    {
      DotSymmetric(e, Column(x, l));
    }
    DotZero(VecMat(e, x, cols), d);
  }

  lemma ShiftedResiduals(x: Matrix, y: Vec, c: Vec, best: Vec)
    requires Rect(x, |y|, |c|) && |best| == |c|
    ensures forall i :: 0 <= i < |y| ==>
              Residuals(x, y, c)[i] == Residuals(x, y, best)[i] - MatVec(x, Sub(c, best))[i]
  {
    forall i | 0 <= i < |y|
      ensures Residuals(x, y, c)[i] == Residuals(x, y, best)[i] - MatVec(x, Sub(c, best))[i]
    {
      DotSub(Sub(c, best), c, best, x[i]);
    }
  }

  /** Any other coefficients cost exactly the squared length of x (c - best) more. */
  lemma ExcessError(x: Matrix, y: Vec, cols: nat, c: Vec)
    requires Rect(x, |y|, cols) && |c| == cols && Solve(x, y, cols).Some?
    ensures var best := Solve(x, y, cols).value.coefficients;
            var shift := MatVec(x, Sub(c, best));
            SquaredError(x, y, c) == SquaredError(x, y, best) + Dot(shift, shift)
  {
    var best := Solve(x, y, cols).value.coefficients;
    var d := Sub(c, best);
    ShiftedResiduals(x, y, c, best);
    SquareOfDifference(Residuals(x, y, best), MatVec(x, d), Residuals(x, y, c));
    OrthogonalToFits(x, y, cols, d);
  }

  /** x sends no nonzero vector to zero once its normal matrix has been inverted. */
  lemma FullRank(x: Matrix, y: Vec, cols: nat, d: Vec)
    requires Rect(x, |y|, cols) && |d| == cols && Solve(x, y, cols).Some?
    requires IsZero(MatVec(x, d))
    ensures IsZero(d)
  {
    var a := Normal(x, cols);
    InverseIsTwoSided(a, PIVOT_THRESHOLD);
    InvertibleIsNotSingular(Solve(x, y, cols).value.inverse, a, cols);
    NormalTimes(x, d);
    forall l | 0 <= l < cols
      ensures MatVec(a, d)[l] == 0.0
    {
      DotSymmetric(Column(x, l), MatVec(x, d));
      DotZero(MatVec(x, d), Column(x, l));
    }
  }

  /** The returned coefficients are the one minimiser of the squared error. */
  lemma CoefficientsAreTheMinimiser(x: Matrix, y: Vec, cols: nat, c: Vec)
    requires Rect(x, |y|, cols) && |c| == cols && Solve(x, y, cols).Some?
    ensures var best := Solve(x, y, cols).value.coefficients;
            SquaredError(x, y, best) <= SquaredError(x, y, c)
            && (SquaredError(x, y, best) == SquaredError(x, y, c) <==> c == best)
  {
    var best := Solve(x, y, cols).value.coefficients;
    var d := Sub(c, best);
    ExcessError(x, y, cols, c);
    DotSelfSign(MatVec(x, d));
    if IsZero(MatVec(x, d)) {
      FullRank(x, y, cols, d);
      assert forall i :: 0 <= i < cols ==> c[i] - best[i] == d[i];
    }
  }

  /** The variance factor of the intercept is positive, so its square root needs no guard. */
  lemma LeadingEntryIsPositive(x: Matrix, y: Vec, cols: nat)
    requires Rect(x, |y|, cols) && cols > 0 && Solve(x, y, cols).Some?
    ensures Solve(x, y, cols).value.inverse[0][0] > 0.0
  {
    var a, inverse := Normal(x, cols), Solve(x, y, cols).value.inverse;
    InverseIsTwoSided(a, PIVOT_THRESHOLD);
    var b := Column(inverse, 0);
    assert MatVec(a, b) == Unit(cols, 0);
    DotUnit(cols, 0, b);
    var xb := MatVec(x, b);
    NormalTimes(x, b);
    Associative(xb, x, b);
    forall l | 0 <= l < cols
      ensures VecMat(xb, x, cols)[l] == MatVec(a, b)[l]
    {
      DotSymmetric(xb, Column(x, l));
    }
    assert VecMat(xb, x, cols) == Unit(cols, 0);
    assert Dot(xb, xb) == b[0];
    DotSelfSign(xb);
    if IsZero(xb) {
      FullRank(x, y, cols, b);
      DotZero(b, a[0]);
      DotSymmetric(b, a[0]);
      assert false;
    }
  }

  /** A target that is an exact combination of the columns gives that combination back, with no residual. */
  lemma ExactCombinationIsRecovered(x: Matrix, c: Vec)
    requires Rect(x, |x|, |c|) && Solve(x, MatVec(x, c), |c|).Some?
    ensures var fit := Solve(x, MatVec(x, c), |c|).value;
            fit.coefficients == c && IsZero(Residuals(x, MatVec(x, c), fit.coefficients))
  {
    var a, y := Normal(x, |c|), MatVec(x, c);
    InverseIsTwoSided(a, PIVOT_THRESHOLD);
    NormalTimes(x, c);
    assert Rhs(x, y, |c|) == MatVec(a, c);
    CancelLeft(Solve(x, y, |c|).value.inverse, a, |c|, c);
  }
}
