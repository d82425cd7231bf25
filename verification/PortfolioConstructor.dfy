/** Inverse-volatility weights over the realised research returns of the surviving factors. */
module PortfolioConstructor {
  import opened LinearAlgebra
  import opened SortedKeys

  type Name = Key
  type Id = Key

  datatype Float = Finite(value: real) | NonFinite

  const MIN_RETURN_OBSERVATIONS := 8
  const ZERO_VOLATILITY: real := 0.000000000001

  type Returns = map<Name, map<Id, Float>>
  type CleanReturns = map<Name, map<Id, real>>

  datatype Portfolio =
    | Constructed(weights: map<Name, real>, volatilities: map<Name, real>, ids: seq<Id>, combined: map<Id, real>)
    | InsufficientObservations(ids: seq<Id>)
    | ZeroVolatility(ids: seq<Id>, volatilities: map<Name, real>)

  function CleanSeries(values: map<Id, Float>): (clean: map<Id, real>)
    ensures forall id :: id in clean <==> id in values && values[id].Finite?
    ensures forall id :: id in clean ==> clean[id] == values[id].value
  {
    map id | id in values && values[id].Finite? :: values[id].value
  }

  /** The finite values of each factor. */
  function Clean(factors: Returns): (clean: CleanReturns)
    ensures clean.Keys == factors.Keys
  {
    map name | name in factors :: CleanSeries(factors[name])
  }

  predicate Everywhere(id: Id, clean: CleanReturns) {
    forall name :: name in clean ==> id in clean[name]
  }

  /** Ids present in every factor; none when there is no factor. */
  function CommonIds(clean: CleanReturns): (ids: set<Id>)
    ensures forall id :: id in ids <==> clean.Keys != {} && Everywhere(id, clean)
  {
    if clean.Keys == {} then {}
    else set id | id in clean[Minimum(clean.Keys)] && Everywhere(id, clean)
  }

  function Series(values: map<Id, real>, ids: seq<Id>): (v: Vec)
    requires forall i :: 0 <= i < |ids| ==> ids[i] in values
    ensures |v| == |ids| && forall i :: 0 <= i < |v| ==> v[i] == values[ids[i]]
  {
    seq(|ids|, i requires 0 <= i < |ids| => values[ids[i]])
  }

  function Return(clean: CleanReturns, name: Name, id: Id): real
    requires name in clean && Everywhere(id, clean)
  {
    clean[name][id]
  }

  /** The returns of all factors for one observation, in the order of `names`. */
  function CrossSection(names: seq<Name>, clean: CleanReturns, id: Id): (v: Vec)
    requires Everywhere(id, clean) && forall k :: 0 <= k < |names| ==> names[k] in clean
    ensures |v| == |names| && forall k :: 0 <= k < |v| ==> v[k] == Return(clean, names[k], id)
  {
    seq(|names|, k requires 0 <= k < |names| => Return(clean, names[k], id))
  }

  function SquaredDeviations(values: Vec, mean: real): Vec {
    seq(|values|, i requires 0 <= i < |values| => (values[i] - mean) * (values[i] - mean))
  }

  function SampleVariance(values: Vec): real
    requires |values| > 1
  {
    var mean := Sum(values) / |values| as real;
    Sum(SquaredDeviations(values, mean)) / (|values| - 1) as real
  }

  function Volatilities(clean: CleanReturns, ids: seq<Id>, sqrt: real -> real): (v: map<Name, real>)
    requires |ids| > 1 && forall i :: 0 <= i < |ids| ==> Everywhere(ids[i], clean)
    ensures v.Keys == clean.Keys
  {
    assert forall name, i :: name in clean && 0 <= i < |ids| ==> Everywhere(ids[i], clean) && ids[i] in clean[name];
    map name | name in clean :: sqrt(SampleVariance(Series(clean[name], ids)))
  }

  ghost predicate AllPositive(values: map<Name, real>) {
    values.Keys != {} && forall name :: name in values ==> values[name] > 0.0
  }

  function Inverses(volatilities: map<Name, real>): (v: map<Name, real>)
    requires AllPositive(volatilities)
    ensures v.Keys == volatilities.Keys && AllPositive(v)
    ensures forall name :: name in v ==> v[name] == Quotient(1.0, volatilities[name])
  {
    map name | name in volatilities :: Quotient(1.0, volatilities[name])
  }

  function Normalizer(volatilities: map<Name, real>): (n: real)
    requires AllPositive(volatilities)
    ensures n > 0.0
  {
    var names := Sorted(volatilities.Keys);
    SumPositive(Series(Inverses(volatilities), names));
    Sum(Series(Inverses(volatilities), names))
  }

  function Scale(values: map<Name, real>, divisor: real): (w: map<Name, real>)
    requires divisor != 0.0
    ensures w.Keys == values.Keys && forall name :: name in w ==> w[name] == Quotient(values[name], divisor)
  {
    map name | name in values :: Quotient(values[name], divisor)
  }

  function Weights(volatilities: map<Name, real>): (w: map<Name, real>)
    requires AllPositive(volatilities)
    ensures w.Keys == volatilities.Keys
  {
    Scale(Inverses(volatilities), Normalizer(volatilities))
  }

  /** The weighted return of every observation all factors share. */
  function Combine(weights: map<Name, real>, clean: CleanReturns): (combined: map<Id, real>)
    requires weights.Keys == clean.Keys
    ensures combined.Keys == CommonIds(clean)
  {
    var names := Sorted(weights.Keys);
    map id | id in CommonIds(clean) :: Dot(Series(weights, names), CrossSection(names, clean, id))
  }

  /** The portfolio, once there are observations enough. */
  function Weigh(clean: CleanReturns, ids: seq<Id>, volatilities: map<Name, real>): Portfolio
    requires clean.Keys != {} && volatilities.Keys == clean.Keys
  {
    if exists name :: name in volatilities && volatilities[name] <= ZERO_VOLATILITY then ZeroVolatility(ids, volatilities)
    else
      var weights := Weights(volatilities);
      Constructed(weights, volatilities, ids, Combine(weights, clean))
  }

  function Construct(factors: Returns, sqrt: real -> real): Portfolio {
    var clean := Clean(factors);
    var ids := Sorted(CommonIds(clean));
    if |ids| < MIN_RETURN_OBSERVATIONS then InsufficientObservations(ids)
    else
      assert ids[0] in CommonIds(clean);
      Weigh(clean, ids, Volatilities(clean, ids, sqrt))
  }

  // ---------- When a portfolio is constructed ----------

  lemma DeviationsTail(f: Vec, m: real)
    requires f != []
    ensures var d := SquaredDeviations(f, m);
            |d| == |f| && d[0] == (f[0] - m) * (f[0] - m) && d[1..] == SquaredDeviations(f[1..], m)
  {
    var d, rest := SquaredDeviations(f, m), SquaredDeviations(f[1..], m);
    forall i | 0 <= i < |rest|
      ensures d[1..][i] == rest[i]
    {
      assert f[1..][i] == f[i + 1];
    }
  }

  lemma {:induction false} DeviationsAreNonNegative(f: Vec, m: real)
    ensures Sum(SquaredDeviations(f, m)) >= 0.0
  {
    if f != [] {
      DeviationsAreNonNegative(f[1..], m);
      DeviationsTail(f, m);
      TimesSign(f[0] - m, f[0] - m);
      assert SquaredDeviations(f, m)[0] == Times(f[0] - m, f[0] - m);
    }
  }

  lemma VolatilityOf(clean: CleanReturns, ids: seq<Id>, sqrt: real -> real, name: Name)
    requires |ids| > 1 && name in clean && forall i :: 0 <= i < |ids| ==> Everywhere(ids[i], clean)
    ensures (forall i :: 0 <= i < |ids| ==> ids[i] in clean[name])
    ensures Volatilities(clean, ids, sqrt)[name] == sqrt(SampleVariance(Series(clean[name], ids)))
  {
    assert forall i :: 0 <= i < |ids| ==> Everywhere(ids[i], clean);
  }

  lemma CommonIdsAreEverywhere(clean: CleanReturns, ids: seq<Id>)
    requires ids == Sorted(CommonIds(clean))
    ensures forall i :: 0 <= i < |ids| ==> Everywhere(ids[i], clean)
  {
    forall i | 0 <= i < |ids|
      ensures Everywhere(ids[i], clean)
    {
      assert ids[i] in CommonIds(clean);
    }
  }

  lemma VarianceFacts(f: Vec)
    requires |f| > 1
    ensures SampleVariance(f) >= 0.0
    ensures Times((|f| - 1) as real, SampleVariance(f)) == Sum(SquaredDeviations(f, Quotient(Sum(f), |f| as real)))
  {
    var spread := Sum(SquaredDeviations(f, Quotient(Sum(f), |f| as real)));
    DeviationsAreNonNegative(f, Quotient(Sum(f), |f| as real));
    MultiplyBack(spread, (|f| - 1) as real);
    PositiveFactor((|f| - 1) as real, SampleVariance(f));
  }

  /** v squared, times one less than the number of returns, is the sum of their squared deviations from the mean. */
  ghost predicate IsVolatility(v: real, f: Vec) {
    && |f| > 1 && v >= 0.0
    && Times((|f| - 1) as real, Times(v, v)) == Sum(SquaredDeviations(f, Quotient(Sum(f), |f| as real)))
  }

  lemma VolatilitiesAre(clean: CleanReturns, ids: seq<Id>, sqrt: real -> real, name: Name)
    requires IsSqrt(sqrt)
    requires |ids| > 1 && name in clean && forall i :: 0 <= i < |ids| ==> Everywhere(ids[i], clean)
    ensures (forall i :: 0 <= i < |ids| ==> ids[i] in clean[name])
    ensures IsVolatility(Volatilities(clean, ids, sqrt)[name], Series(clean[name], ids))
  {
    VolatilityOf(clean, ids, sqrt, name);
    VarianceFacts(Series(clean[name], ids));
  }

  lemma TooFewObservations(factors: Returns, ids: seq<Id>, sqrt: real -> real)
    requires ids == Sorted(CommonIds(Clean(factors))) && |ids| < 8
    ensures Construct(factors, sqrt) == InsufficientObservations(ids)
  {
  }

  lemma EnoughObservations(factors: Returns, clean: CleanReturns, ids: seq<Id>, sqrt: real -> real)
    requires clean == Clean(factors) && ids == Sorted(CommonIds(clean)) && |ids| >= 8
    requires forall i :: 0 <= i < |ids| ==> Everywhere(ids[i], clean)
    ensures clean.Keys != {} && Construct(factors, sqrt) == Weigh(clean, ids, Volatilities(clean, ids, sqrt))
  {
    assert ids[0] in CommonIds(clean);
  }

  lemma ZeroVolatilityIsRefused(clean: CleanReturns, ids: seq<Id>, volatilities: map<Name, real>)
    requires clean.Keys != {} && volatilities.Keys == clean.Keys
    requires exists name :: name in volatilities && volatilities[name] <= 0.000000000001
    ensures Weigh(clean, ids, volatilities) == ZeroVolatility(ids, volatilities)
  {
  }

  lemma PositiveVolatilityIsWeighed(clean: CleanReturns, ids: seq<Id>, volatilities: map<Name, real>)
    requires clean.Keys != {} && volatilities.Keys == clean.Keys
    requires !exists name :: name in volatilities && volatilities[name] <= 0.000000000001
    ensures AllPositive(volatilities)
    ensures var weights := Weights(volatilities);
            Weigh(clean, ids, volatilities) == Constructed(weights, volatilities, ids, Combine(weights, clean))
  {
  }

  lemma WeighedFacts(clean: CleanReturns, ids: seq<Id>, volatilities: map<Name, real>)
    requires clean.Keys != {} && volatilities.Keys == clean.Keys
    ensures var p := Weigh(clean, ids, volatilities);
            && p.ids == ids && !p.InsufficientObservations? && p.volatilities == volatilities
            && (p.ZeroVolatility? <==> exists name :: name in volatilities && volatilities[name] <= 0.000000000001)
            && (p.Constructed? ==>
                  && AllPositive(volatilities)
                  && p.weights == Weights(volatilities)
                  && p.combined == Combine(p.weights, clean))
  {
    if exists name :: name in volatilities && volatilities[name] <= 0.000000000001 {
      ZeroVolatilityIsRefused(clean, ids, volatilities);
    } else {
      PositiveVolatilityIsWeighed(clean, ids, volatilities);
    }
  }

  lemma ConstructedFacts(factors: Returns, sqrt: real -> real)
    ensures var p, clean := Construct(factors, sqrt), Clean(factors);
            p.Constructed? ==>
              && AllPositive(p.volatilities)
              && p.volatilities.Keys == p.weights.Keys == factors.Keys
              && p.weights == Weights(p.volatilities)
              && p.ids == Sorted(CommonIds(clean))
              && p.combined == Combine(p.weights, clean)
  {
    var clean := Clean(factors);
    var ids := Sorted(CommonIds(clean));
    CommonIdsAreEverywhere(clean, ids);
    if |ids| < 8 {
      TooFewObservations(factors, ids, sqrt);
    } else {
      EnoughObservations(factors, clean, ids, sqrt);
      WeighedFacts(clean, ids, Volatilities(clean, ids, sqrt));
    }
  }

  lemma ConstructionCases(factors: Returns, clean: CleanReturns, ids: seq<Id>, sqrt: real -> real)
    requires clean == Clean(factors) && ids == Sorted(CommonIds(clean))
    ensures forall i :: 0 <= i < |ids| ==> Everywhere(ids[i], clean)
    ensures var p := Construct(factors, sqrt);
            && p.ids == ids
            && (p.InsufficientObservations? <==> |ids| < 8)
            && (|ids| >= 8 ==>
                  && p.volatilities == Volatilities(clean, ids, sqrt)
                  && (p.ZeroVolatility? <==> exists name :: name in p.volatilities && p.volatilities[name] <= 0.000000000001))
  {
    CommonIdsAreEverywhere(clean, ids);
    if |ids| < 8 {
      TooFewObservations(factors, ids, sqrt);
    } else {
      EnoughObservations(factors, clean, ids, sqrt);
      WeighedFacts(clean, ids, Volatilities(clean, ids, sqrt));
    }
  }

  /**
   * The observations are those common to all factors. Fewer than eight are refused; otherwise the volatilities
   * are the sample standard deviations over them, and any of at most 1e-12 refuses the portfolio.
   */
  lemma ConstructionVerdict(factors: Returns, sqrt: real -> real)
    requires IsSqrt(sqrt)
    ensures var p, clean := Construct(factors, sqrt), Clean(factors);
            && p.ids == Sorted(CommonIds(clean))
            && (p.InsufficientObservations? <==> |p.ids| < 8)
            && (|p.ids| >= 8 ==>
                  && p.volatilities.Keys == factors.Keys
                  && (p.ZeroVolatility? <==> exists name :: name in factors && p.volatilities[name] <= 0.000000000001)
                  && forall name :: name in factors ==>
                       && (forall i :: 0 <= i < |p.ids| ==> p.ids[i] in clean[name])
                       && IsVolatility(p.volatilities[name], Series(clean[name], p.ids)))
  {
    var clean := Clean(factors);
    var ids := Sorted(CommonIds(clean));
    ConstructionCases(factors, clean, ids, sqrt);
    if |ids| >= 8 {
      forall name | name in factors
        ensures (forall i :: 0 <= i < |ids| ==> ids[i] in clean[name])
        ensures IsVolatility(Volatilities(clean, ids, sqrt)[name], Series(clean[name], ids))
      {
        VolatilitiesAre(clean, ids, sqrt, name);
      }
    }
  }

  // ---------- The weights ----------

  ghost predicate InverseVolatility(weights: map<Name, real>, volatilities: map<Name, real>) {
    && weights.Keys == volatilities.Keys
    && (forall name :: name in weights ==> weights[name] > 0.0)
    && Sum(Series(weights, Sorted(weights.Keys))) == 1.0
    && forall a, b :: a in weights && b in weights ==>
         Times(weights[a], volatilities[a]) == Times(weights[b], volatilities[b])
  }

  /** Weights are positive, sum to one, and give every factor the same weight times volatility. */
  lemma WeightsAreInverseVolatility(factors: Returns, sqrt: real -> real)
    ensures var p := Construct(factors, sqrt);
            p.Constructed? ==> p.weights.Keys == factors.Keys && InverseVolatility(p.weights, p.volatilities)
  {
    var p := Construct(factors, sqrt);
    ConstructedFacts(factors, sqrt);
    if p.Constructed? {
      WeightsAreProper(p.volatilities);
    }
  }

  lemma WeightsAreProper(volatilities: map<Name, real>)
    requires AllPositive(volatilities)
    ensures InverseVolatility(Weights(volatilities), volatilities)
  {
    WeightsSumToOne(volatilities);
    var weights, normalizer := Weights(volatilities), Normalizer(volatilities);
    forall name | name in weights
      ensures weights[name] > 0.0 && Times(weights[name], volatilities[name]) == Quotient(1.0, normalizer)
    {
      WeightTimesVolatility(volatilities[name], normalizer);
    }
  }

  lemma WeightTimesVolatility(v: real, normalizer: real)
    requires v > 0.0 && normalizer > 0.0
    ensures Quotient(Quotient(1.0, v), normalizer) > 0.0
    ensures Times(Quotient(Quotient(1.0, v), normalizer), v) == Quotient(1.0, normalizer)
  {
    var i := 1.0 / v;
    assert i > 0.0 && i * v == 1.0;
    assert i / normalizer * v == (i * v) / normalizer;
  }

  lemma WeightsSumToOne(volatilities: map<Name, real>)
    requires AllPositive(volatilities)
    ensures Sum(Series(Weights(volatilities), Sorted(volatilities.Keys))) == 1.0
  {
    var names, normalizer := Sorted(volatilities.Keys), Normalizer(volatilities);
    ScaledSum(Inverses(volatilities), names, normalizer);
    QuotientOfSelf(normalizer);
  }

  lemma ScaledSum(values: map<Name, real>, names: seq<Name>, divisor: real)
    requires divisor != 0.0 && forall k :: 0 <= k < |names| ==> names[k] in values
    ensures Sum(Series(Scale(values, divisor), names)) == Quotient(Sum(Series(values, names)), divisor)
  {
    SumOfQuotients(Series(values, names), divisor, Series(Scale(values, divisor), names));
  }
}
