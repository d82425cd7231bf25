/** Out-of-sample residual-alpha test of a combined return series against its factor returns. */
module RiskDecomposer {
  import opened Wrappers
  import opened LinearAlgebra
  import opened SortedKeys
  import opened GaussJordan
  import opened PivotThreshold
  import opened LeastSquares
  import opened PortfolioConstructor

  const MIN_OOS_RETURNS := 8
  const GENUINE_EDGE_T_STAT: real := 2.5
  const ZERO_ERROR: real := 0.000000000001
  const CAPPED_T_STAT: real := 999.0

  datatype Reason = InsufficientReturns | NonFiniteCombinedReturn | CollinearFactors

  datatype Decomposition =
    | NoSignal(reason: Reason, count: nat)
    | Measured(genuineEdge: bool, alpha: real, tStat: real, count: nat, betas: map<Name, real>)

  predicate InEveryFactor(id: Id, factors: Returns) {
    forall name :: name in factors ==> id in factors[name]
  }

  function CommonReturnIds(combined: map<Id, Float>, factors: Returns): (ids: set<Id>)
    ensures forall id :: id in ids <==> factors.Keys != {} && id in combined && InEveryFactor(id, factors)
  {
    if factors.Keys == {} then {} else set id | id in combined && InEveryFactor(id, factors)
  }

  /** Every factor has a finite return for every observation the regression uses. */
  ghost predicate FiniteFactors(combined: map<Id, Float>, factors: Returns) {
    forall id :: id in CommonReturnIds(combined, factors) ==> Everywhere(id, Clean(factors))
  }

  /** One row per observation: an intercept of one, then the factor returns. */
  function Design(names: seq<Name>, ids: seq<Id>, clean: CleanReturns): (x: Matrix)
    requires forall k :: 0 <= k < |names| ==> names[k] in clean
    requires forall i :: 0 <= i < |ids| ==> Everywhere(ids[i], clean)
    ensures Rect(x, |ids|, |names| + 1)
    ensures forall i :: 0 <= i < |ids| ==> x[i] == [1.0] + CrossSection(names, clean, ids[i])
  {
    seq(|ids|, i requires 0 <= i < |ids| => [1.0] + CrossSection(names, clean, ids[i]))
  }

  function TStat(alpha: real, standardError: real): real {
    if standardError <= ZERO_ERROR then
      if alpha > ZERO_ERROR then CAPPED_T_STAT
      else if alpha < -ZERO_ERROR then -CAPPED_T_STAT
      else 0.0
    else Quotient(alpha, standardError)
  }

  function ResidualVariance(residuals: Vec, degreesOfFreedom: nat): real
    requires degreesOfFreedom > 0
  {
    Quotient(Dot(residuals, residuals), degreesOfFreedom as real)
  }

  function StandardError(x: Matrix, y: Vec, fit: Fit, sqrt: real -> real): real
    requires |y| > |fit.coefficients| > 0
    requires Rect(x, |y|, |fit.coefficients|)
    requires Rect(fit.inverse, |fit.coefficients|, |fit.coefficients|)
  {
    var residuals := Residuals(x, y, fit.coefficients);
    var square := Times(ResidualVariance(residuals, |y| - |fit.coefficients|), fit.inverse[0][0]);
    sqrt(if square < 0.0 then 0.0 else square)
  }

  function Betas(names: seq<Name>, coefficients: Vec): (betas: map<Name, real>)
    requires |coefficients| == |names| + 1 && Ascending(names)
    ensures forall name :: name in betas <==> name in names
    ensures forall k :: 0 <= k < |names| ==> betas[names[k]] == coefficients[k + 1]
  {
    map k | 0 <= k < |names| :: names[k] := coefficients[k + 1]
  }

  /** The regression proper, once the observations are known to suffice. */
  function Measure(x: Matrix, y: Vec, names: seq<Name>, sqrt: real -> real): Decomposition
    requires Rect(x, |y|, |names| + 1) && |y| >= |names| + 2 && Ascending(names)
  {
    match Solve(x, y, |names| + 1)
    case None => NoSignal(CollinearFactors, |y|)
    case Some(fit) =>
      var tStat := TStat(fit.coefficients[0], StandardError(x, y, fit, sqrt));
      Measured(tStat > GENUINE_EDGE_T_STAT, fit.coefficients[0], tStat, |y|, Betas(names, fit.coefficients))
  }

  function Decompose(combined: map<Id, Float>, factors: Returns, sqrt: real -> real): Decomposition
    requires FiniteFactors(combined, factors)
  {
    var names, ids := Sorted(factors.Keys), Sorted(CommonReturnIds(combined, factors));
    if |ids| < MIN_OOS_RETURNS || |ids| < |names| + 2 then NoSignal(InsufficientReturns, |ids|)
    else
      var target := CleanSeries(combined);
      if exists i :: 0 <= i < |ids| && ids[i] !in target then NoSignal(NonFiniteCombinedReturn, |ids|)
      else Measure(Design(names, ids, Clean(factors)), Series(target, ids), names, sqrt)
  }

  // ---------- Which answer is given ----------

  /** Some pivot candidate of the exact elimination of the normal matrix is at most 1e-12. */
  ghost predicate Collinear(x: Matrix, cols: nat)
    requires Rect(x, |x|, cols)
  {
    SomeWithin(CandidatesOf(Normal(x, cols)), 0.000000000001)
  }

  lemma CollinearMeansRefused(x: Matrix, y: Vec, names: seq<Name>, sqrt: real -> real)
    requires Rect(x, |y|, |names| + 1) && |y| >= |names| + 2 && Ascending(names)
    ensures Measure(x, y, names, sqrt) == NoSignal(CollinearFactors, |y|)
       <==> Inverse(Normal(x, |names| + 1), PIVOT_THRESHOLD).None?
  {
  }

  lemma CollinearMeansCandidate(x: Matrix, y: Vec, names: seq<Name>, sqrt: real -> real)
    requires Rect(x, |y|, |names| + 1) && |y| >= |names| + 2 && Ascending(names)
    ensures Measure(x, y, names, sqrt) == NoSignal(CollinearFactors, |y|) <==> Collinear(x, |names| + 1)
    ensures Measure(x, y, names, sqrt) != NoSignal(CollinearFactors, |y|) ==> Measure(x, y, names, sqrt).Measured?
  {
    CollinearMeansRefused(x, y, names, sqrt);
    RefusalVerdict(Normal(x, |names| + 1), PIVOT_THRESHOLD);
  }

  /** Every observation that the regression uses has a finite combined return. */
  ghost predicate FiniteTarget(combined: map<Id, Float>, ids: set<Id>) {
    forall id :: id in ids ==> id in combined && combined[id].Finite?
  }

  /** Fewer than eight common observations, or fewer than two more than there are factors, are insufficient. */
  ghost predicate Insufficient(observations: nat, factors: nat) {
    observations < 8 || observations < factors + 2
  }

  lemma SortedMembers(members: set<Id>, ids: seq<Id>)
    requires ids == Sorted(members)
    ensures forall i :: 0 <= i < |ids| ==> ids[i] in members
    ensures forall id :: id in members ==> exists i :: 0 <= i < |ids| && ids[i] == id
  {
    forall id | id in members
      ensures exists i :: 0 <= i < |ids| && ids[i] == id
    {
      assert id in ids;
    }
  }

  lemma FiniteOnMembers(combined: map<Id, Float>, members: set<Id>, ids: seq<Id>)
    requires ids == Sorted(members)
    ensures FiniteTarget(combined, members) <==> forall i :: 0 <= i < |ids| ==> ids[i] in CleanSeries(combined)
  {
    SortedMembers(members, ids);
  }

  lemma RegressedIds(combined: map<Id, Float>, factors: Returns, ids: seq<Id>)
    requires FiniteFactors(combined, factors) && ids == Sorted(CommonReturnIds(combined, factors))
    ensures forall i :: 0 <= i < |ids| ==> Everywhere(ids[i], Clean(factors))
    ensures FiniteTarget(combined, CommonReturnIds(combined, factors))
       <==> forall i :: 0 <= i < |ids| ==> ids[i] in CleanSeries(combined)
  {
    SortedMembers(CommonReturnIds(combined, factors), ids);
    FiniteOnMembers(combined, CommonReturnIds(combined, factors), ids);
  }

  lemma KeyCount(factors: Returns)
    ensures |Sorted(factors.Keys)| == |factors|
  {
  }

  lemma TooFew(combined: map<Id, Float>, factors: Returns, sqrt: real -> real)
    requires FiniteFactors(combined, factors) && Insufficient(|CommonReturnIds(combined, factors)|, |factors|)
    ensures Decompose(combined, factors, sqrt)
         == NoSignal(InsufficientReturns, |CommonReturnIds(combined, factors)|)
  {
    KeyCount(factors);
  }

  lemma NotFinite(combined: map<Id, Float>, factors: Returns, sqrt: real -> real)
    requires FiniteFactors(combined, factors) && !Insufficient(|CommonReturnIds(combined, factors)|, |factors|)
    requires !FiniteTarget(combined, CommonReturnIds(combined, factors))
    ensures Decompose(combined, factors, sqrt)
         == NoSignal(NonFiniteCombinedReturn, |CommonReturnIds(combined, factors)|)
  {
    KeyCount(factors);
    RegressedIds(combined, factors, Sorted(CommonReturnIds(combined, factors)));
  }

  /** With enough observations and finite returns the answer is that of the regression. */
  lemma Regressed(combined: map<Id, Float>, factors: Returns, names: seq<Name>, ids: seq<Id>, sqrt: real -> real)
    requires FiniteFactors(combined, factors)
    requires names == Sorted(factors.Keys) && ids == Sorted(CommonReturnIds(combined, factors))
    requires !Insufficient(|ids|, |factors|) && FiniteTarget(combined, CommonReturnIds(combined, factors))
    ensures forall i :: 0 <= i < |ids| ==> Everywhere(ids[i], Clean(factors)) && ids[i] in CleanSeries(combined)
    ensures |ids| >= |names| + 2
    ensures Decompose(combined, factors, sqrt)
         == Measure(Design(names, ids, Clean(factors)), Series(CleanSeries(combined), ids), names, sqrt)
  {
    KeyCount(factors);
    RegressedIds(combined, factors, ids);
  }

  lemma MeasuredOrCollinear(x: Matrix, y: Vec, names: seq<Name>, sqrt: real -> real)
    requires Rect(x, |y|, |names| + 1) && |y| >= |names| + 2 && Ascending(names)
    ensures var d := Measure(x, y, names, sqrt); d.count == |y| && (d.NoSignal? ==> d.reason == CollinearFactors)
  {
  }

  lemma RegressedReason(combined: map<Id, Float>, factors: Returns, sqrt: real -> real)
    requires FiniteFactors(combined, factors) && !Insufficient(|CommonReturnIds(combined, factors)|, |factors|)
    requires FiniteTarget(combined, CommonReturnIds(combined, factors))
    ensures var d := Decompose(combined, factors, sqrt);
            d.count == |CommonReturnIds(combined, factors)| && (d.NoSignal? ==> d.reason == CollinearFactors)
  {
    var names, ids := Sorted(factors.Keys), Sorted(CommonReturnIds(combined, factors));
    Regressed(combined, factors, names, ids, sqrt);
    MeasuredOrCollinear(Design(names, ids, Clean(factors)), Series(CleanSeries(combined), ids), names, sqrt);
  }

  /**
   * Which refusal is given: "insufficient" exactly for too few common observations, and with enough of them
   * "non-finite" exactly when some combined return is not finite.
   */
  lemma RefusalReason(combined: map<Id, Float>, factors: Returns, sqrt: real -> real)
    requires FiniteFactors(combined, factors)
    ensures var ids, d := CommonReturnIds(combined, factors), Decompose(combined, factors, sqrt);
            && d.count == |ids|
            && (d.NoSignal? && d.reason == InsufficientReturns <==> Insufficient(|ids|, |factors|))
            && (d.NoSignal? && d.reason == NonFiniteCombinedReturn
                <==> !Insufficient(|ids|, |factors|) && !FiniteTarget(combined, ids))
  {
    if Insufficient(|CommonReturnIds(combined, factors)|, |factors|) {
      TooFew(combined, factors, sqrt);
    } else if !FiniteTarget(combined, CommonReturnIds(combined, factors)) {
      NotFinite(combined, factors, sqrt);
    } else {
      RegressedReason(combined, factors, sqrt);
    }
  }

  /** With enough finite observations the answer is "collinear" exactly if a pivot candidate says so. */
  lemma RegressionVerdict(combined: map<Id, Float>, factors: Returns, names: seq<Name>, ids: seq<Id>, sqrt: real -> real)
    requires FiniteFactors(combined, factors)
    requires names == Sorted(factors.Keys) && ids == Sorted(CommonReturnIds(combined, factors))
    requires !Insufficient(|ids|, |factors|) && FiniteTarget(combined, CommonReturnIds(combined, factors))
    ensures forall i :: 0 <= i < |ids| ==> Everywhere(ids[i], Clean(factors))
    ensures Decompose(combined, factors, sqrt) == NoSignal(CollinearFactors, |ids|)
       <==> Collinear(Design(names, ids, Clean(factors)), |names| + 1)
  {
    Regressed(combined, factors, names, ids, sqrt);
    CollinearMeansCandidate(Design(names, ids, Clean(factors)), Series(CleanSeries(combined), ids), names, sqrt);
  }

  // ---------- The statistic ----------

  /** The guard under the square root never changes its argument. */
  lemma GuardNeverFires(x: Matrix, y: Vec, cols: nat)
    requires 0 < cols < |y| && Rect(x, |y|, cols)
    ensures var r := Solve(x, y, cols);
            r.Some? ==>
              Times(ResidualVariance(Residuals(x, y, r.value.coefficients), |y| - cols), r.value.inverse[0][0]) >= 0.0
  {
    var r := Solve(x, y, cols);
    if r.Some? {
      var e := Residuals(x, y, r.value.coefficients);
      LeadingEntryIsPositive(x, y, cols);
      DotSelfSign(e);
      QuotientSign(Dot(e, e), (|y| - cols) as real);
      TimesSign(ResidualVariance(e, |y| - cols), r.value.inverse[0][0]);
    }
  }

  lemma QuotientSign(x: real, d: real)
    requires x >= 0.0 && d > 0.0
    ensures Quotient(x, d) >= 0.0
    ensures x == 0.0 ==> Quotient(x, d) == 0.0
  {
  }

  lemma ScaleBack(df: real, rss: real, leading: real, q: real)
    requires Times(df, q) == rss
    ensures Times(df, Times(q, leading)) == Times(rss, leading)
  {
    assert df * (q * leading) == (df * q) * leading;
  }

  /** The standard error squared, times the degrees of freedom, is the residuals' square times the leading inverse entry. */
  lemma SquaredStandardError(x: Matrix, y: Vec, fit: Fit, sqrt: real -> real)
    requires IsSqrt(sqrt) && 0 < |fit.coefficients| < |y| && Rect(x, |y|, |fit.coefficients|)
    requires Solve(x, y, |fit.coefficients|) == Some(fit)
    ensures var e, se := Residuals(x, y, fit.coefficients), StandardError(x, y, fit, sqrt);
            && se >= 0.0
            && Times((|y| - |fit.coefficients|) as real, Times(se, se)) == Times(Dot(e, e), fit.inverse[0][0])
  {
    var e, df := Residuals(x, y, fit.coefficients), |y| - |fit.coefficients|;
    GuardNeverFires(x, y, |fit.coefficients|);
    MultiplyBack(Dot(e, e), df as real);
    ScaleBack(df as real, Dot(e, e), fit.inverse[0][0], ResidualVariance(e, df));
  }

  /** The statistic is alpha over the standard error, and capped by the sign of alpha if that is at most 1e-12. */
  ghost predicate IsStatistic(t: real, alpha: real, se: real) {
    if se > 0.000000000001 then Times(se, t) == alpha
    else t == if alpha > 0.000000000001 then 999.0 else if alpha < -0.000000000001 then -999.0 else 0.0
  }

  lemma TStatIsStatistic(alpha: real, se: real)
    requires se >= 0.0
    ensures IsStatistic(TStat(alpha, se), alpha, se)
  {
    if se > ZERO_ERROR {
      MultiplyBack(alpha, se);
    }
  }

  /**
   * A regression that is solved reports its coefficients and the statistic of its intercept, whose standard error
   * comes from the residuals and the inverse of the normal matrix; it is an edge exactly above 2.5.
   */
  lemma MeasuredStatistic(x: Matrix, y: Vec, names: seq<Name>, sqrt: real -> real)
    requires IsSqrt(sqrt) && Rect(x, |y|, |names| + 1) && |y| >= |names| + 2 && Ascending(names)
    ensures var cols, r, d := |names| + 1, Solve(x, y, |names| + 1), Measure(x, y, names, sqrt);
            r.Some? ==>
              var c, e, se := r.value.coefficients, Residuals(x, y, r.value.coefficients), StandardError(x, y, r.value, sqrt);
              && d == Measured(d.tStat > 2.5, c[0], d.tStat, |y|, Betas(names, c))
              && IsInverse(r.value.inverse, Normal(x, cols), cols)
              && se >= 0.0 && Times((|y| - cols) as real, Times(se, se)) == Times(Dot(e, e), r.value.inverse[0][0])
              && IsStatistic(d.tStat, c[0], se)
  {
    var cols, r := |names| + 1, Solve(x, y, |names| + 1);
    if r.Some? {
      SquaredStandardError(x, y, r.value, sqrt);
      TStatIsStatistic(r.value.coefficients[0], StandardError(x, y, r.value, sqrt));
      InverseIsTwoSided(Normal(x, cols), PIVOT_THRESHOLD);
    }
  }

  /** A series that is an exact combination c of intercept and factors is measured without error. */
  lemma ExactSeriesIsMeasuredExactly(x: Matrix, c: Vec, sqrt: real -> real)
    requires IsSqrt(sqrt) && 0 < |c| < |x| && Rect(x, |x|, |c|)
    ensures var r := Solve(x, MatVec(x, c), |c|);
            r.Some? ==> r.value.coefficients == c && StandardError(x, MatVec(x, c), r.value, sqrt) == 0.0
  {
    var y := MatVec(x, c);
    var r := Solve(x, y, |c|);
    if r.Some? {
      ExactCombinationIsRecovered(x, c);
      ZeroResidualsNoError(x, y, r.value, sqrt);
    }
  }

  lemma ZeroResidualsNoError(x: Matrix, y: Vec, fit: Fit, sqrt: real -> real)
    requires IsSqrt(sqrt) && |y| > |fit.coefficients| > 0 && Rect(x, |y|, |fit.coefficients|)
    requires Rect(fit.inverse, |fit.coefficients|, |fit.coefficients|)
    requires IsZero(Residuals(x, y, fit.coefficients))
    ensures StandardError(x, y, fit, sqrt) == 0.0
  {
    var e, k := Residuals(x, y, fit.coefficients), |fit.coefficients|;
    DotSelfSign(e);
    QuotientSign(Dot(e, e), (|y| - k) as real);
    TimesSign(ResidualVariance(e, |y| - k), fit.inverse[0][0]);
    SqrtOfZero(sqrt);
  }

  /**
   * An exact series is refused exactly when its regressors count as collinear. Otherwise it is measured with its own
   * coefficients, and is an edge exactly when its constant part exceeds the zero threshold.
   */
  lemma ExactSeriesVerdict(x: Matrix, names: seq<Name>, c: Vec, sqrt: real -> real)
    requires IsSqrt(sqrt) && Ascending(names) && |c| == |names| + 1
    requires Rect(x, |x|, |c|) && |x| >= |names| + 2
    ensures var d := Measure(x, MatVec(x, c), names, sqrt);
            && (d == NoSignal(CollinearFactors, |x|) <==> Collinear(x, |c|))
            && (!Collinear(x, |c|) ==>
                  d == Measured(c[0] > ZERO_ERROR, c[0], TStat(c[0], 0.0), |x|, Betas(names, c)))
  {
    CollinearMeansCandidate(x, MatVec(x, c), names, sqrt);
    if Solve(x, MatVec(x, c), |c|).Some? {
      ExactSeriesIsMeasuredExactly(x, c, sqrt);
    }
  }

  function AsFloats(values: map<Id, real>): (floats: map<Id, Float>)
    ensures floats.Keys == values.Keys
    ensures CleanSeries(floats) == values
  {
    map id | id in values :: Finite(values[id])
  }

  lemma CommonIdsAreInEveryFactor(id: Id, factors: Returns)
    requires Everywhere(id, Clean(factors))
    ensures InEveryFactor(id, factors)
  {
    forall name | name in factors
      ensures id in factors[name]
    {
      assert name in Clean(factors) && id in Clean(factors)[name];
    }
  }

  /** The decomposer reads exactly the observations the constructor combined. */
  lemma ChainReadsTheSameObservations(combined: map<Id, Float>, factors: Returns)
    requires combined.Keys == CommonIds(Clean(factors))
    ensures CommonReturnIds(combined, factors) == CommonIds(Clean(factors))
    ensures FiniteFactors(combined, factors)
  {
    forall id | id in CommonIds(Clean(factors))
      ensures id in CommonReturnIds(combined, factors)
    {
      CommonIdsAreInEveryFactor(id, factors);
    }
  }

  /** The combined series is the design applied to a zero intercept followed by the weights. */
  lemma CombinedIsExact(weights: map<Name, real>, clean: CleanReturns, ids: seq<Id>)
    requires weights.Keys == clean.Keys
    requires forall i :: 0 <= i < |ids| ==> ids[i] in CommonIds(clean) && Everywhere(ids[i], clean)
    ensures var names := Sorted(clean.Keys);
            Series(Combine(weights, clean), ids)
            == MatVec(Design(names, ids, clean), [0.0] + Series(weights, names))
  {
    var names := Sorted(clean.Keys);
    var x, w, combined := Design(names, ids, clean), Series(weights, names), Combine(weights, clean);
    forall i | 0 <= i < |ids|
      ensures combined[ids[i]] == Dot(x[i], [0.0] + w)
    {
      assert Everywhere(ids[i], clean);
      PrependIntercept(w, CrossSection(names, clean, ids[i]));
    }
  }

  lemma PrependIntercept(w: Vec, row: Vec)
    requires |w| == |row|
    ensures Dot([1.0] + row, [0.0] + w) == Dot(w, row)
  {
    assert ([1.0] + row)[1..] == row && ([0.0] + w)[1..] == w;
    DotSymmetric(w, row);
  }

  /** Maps that agree name by name are equal. */
  lemma SameOnNames(names: seq<Name>, a: map<Name, real>, b: map<Name, real>)
    requires forall name :: name in a <==> name in names
    requires forall name :: name in b <==> name in names
    requires forall k :: 0 <= k < |names| ==> a[names[k]] == b[names[k]]
    ensures a == b
  {
    assert a.Keys == b.Keys;
  }

  lemma BetasAreWeights(weights: map<Name, real>, names: seq<Name>)
    requires names == Sorted(weights.Keys)
    ensures Betas(names, [0.0] + Series(weights, names)) == weights
  {
    SameOnNames(names, Betas(names, [0.0] + Series(weights, names)), weights);
  }

  /** What regressing a combination of the factors answers: collinear, or no intercept and the weights as betas. */
  ghost predicate IsNoEdge(d: Decomposition, x: Matrix, cols: nat, weights: map<Name, real>)
    requires Rect(x, |x|, cols)
  {
    d == if Collinear(x, cols) then NoSignal(CollinearFactors, |x|) else Measured(false, 0.0, 0.0, |x|, weights)
  }

  /** Regressing a weighted combination of the factors on the factors. */
  lemma MeasureOfCombination(weights: map<Name, real>, clean: CleanReturns, names: seq<Name>, ids: seq<Id>, sqrt: real -> real)
    requires IsSqrt(sqrt) && weights.Keys == clean.Keys && names == Sorted(clean.Keys)
    requires forall i :: 0 <= i < |ids| ==> ids[i] in CommonIds(clean) && Everywhere(ids[i], clean)
    requires |ids| >= |names| + 2
    ensures var x := Design(names, ids, clean);
            IsNoEdge(Measure(x, Series(Combine(weights, clean), ids), names, sqrt), x, |names| + 1, weights)
  {
    CombinedIsExact(weights, clean, ids);
    ExactSeriesVerdict(Design(names, ids, clean), names, [0.0] + Series(weights, names), sqrt);
    BetasAreWeights(weights, names);
  }

  /** The answer for a combination of the factors over some observations. */
  ghost predicate ChainAnswer(d: Decomposition, weights: map<Name, real>, clean: CleanReturns, names: seq<Name>, ids: seq<Id>)
    requires (forall k :: 0 <= k < |names| ==> names[k] in clean) && forall i :: 0 <= i < |ids| ==> Everywhere(ids[i], clean)
  {
    if Insufficient(|ids|, |names|) then d == NoSignal(InsufficientReturns, |ids|)
    else IsNoEdge(d, Design(names, ids, clean), |names| + 1, weights)
  }

  lemma DecomposedCombination(weights: map<Name, real>, factors: Returns, names: seq<Name>, ids: seq<Id>,
                              combined: map<Id, Float>, sqrt: real -> real)
    requires IsSqrt(sqrt) && weights.Keys == factors.Keys && names == Sorted(factors.Keys)
    requires ids == Sorted(CommonIds(Clean(factors))) && combined == AsFloats(Combine(weights, Clean(factors)))
    requires FiniteFactors(combined, factors) && CommonReturnIds(combined, factors) == CommonIds(Clean(factors))
    requires forall i :: 0 <= i < |ids| ==> ids[i] in CommonIds(Clean(factors)) && Everywhere(ids[i], Clean(factors))
    ensures ChainAnswer(Decompose(combined, factors, sqrt), weights, Clean(factors), names, ids)
  {
    KeyCount(factors);
    if Insufficient(|ids|, |names|) {
      TooFew(combined, factors, sqrt);
    } else {
      assert FiniteTarget(combined, CommonReturnIds(combined, factors));
      Regressed(combined, factors, names, ids, sqrt);
      MeasureOfCombination(weights, Clean(factors), names, ids, sqrt);
    }
  }

  lemma CommonIdsAreCommon(clean: CleanReturns, ids: seq<Id>)
    requires ids == Sorted(CommonIds(clean))
    ensures forall i :: 0 <= i < |ids| ==> ids[i] in CommonIds(clean) && Everywhere(ids[i], clean)
  {
  }

  /**
   * Regressing any weighted combination of the factors on those factors never yields an edge. It is insufficient
   * exactly for too few common observations, otherwise collinear exactly if a pivot candidate says so, and
   * otherwise measured with a zero intercept and the weights as betas.
   */
  lemma CombinationHasNoAlpha(weights: map<Name, real>, factors: Returns, sqrt: real -> real)
    requires IsSqrt(sqrt) && weights.Keys == factors.Keys
    ensures var clean, names := Clean(factors), Sorted(factors.Keys);
            var ids, combined := Sorted(CommonIds(clean)), AsFloats(Combine(weights, clean));
            && |names| == |factors| && FiniteFactors(combined, factors)
            && (forall i :: 0 <= i < |ids| ==> Everywhere(ids[i], clean))
            && ChainAnswer(Decompose(combined, factors, sqrt), weights, clean, names, ids)
  {
    var combined, ids := AsFloats(Combine(weights, Clean(factors))), Sorted(CommonIds(Clean(factors)));
    KeyCount(factors);
    ChainReadsTheSameObservations(combined, factors);
    CommonIdsAreCommon(Clean(factors), ids);
    DecomposedCombination(weights, factors, Sorted(factors.Keys), ids, combined, sqrt);
  }

  /**
   * Constructing a portfolio from factor returns and regressing it on those same returns: a portfolio always has
   * eight observations, so the test is insufficient only if they are fewer than the factors and two.
   */
  lemma ConstructedPortfolioHasNoResidualAlpha(factors: Returns, sqrt: real -> real)
    requires IsSqrt(sqrt)
    ensures var p, clean, names := Construct(factors, sqrt), Clean(factors), Sorted(factors.Keys);
            p.Constructed? ==>
              && |names| == |factors| && |p.ids| >= 8
              && (forall i :: 0 <= i < |p.ids| ==> Everywhere(p.ids[i], clean))
              && FiniteFactors(AsFloats(p.combined), factors)
              && ChainAnswer(Decompose(AsFloats(p.combined), factors, sqrt), p.weights, clean, names, p.ids)
  {
    ConstructedFacts(factors, sqrt);
    var p := Construct(factors, sqrt);
    if p.Constructed? {
      CombinationHasNoAlpha(p.weights, factors, sqrt);
    }
  }
}
