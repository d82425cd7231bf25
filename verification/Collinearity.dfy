/** When the residual-alpha test calls factor returns collinear, and when it is wrong to. */
module Collinearity {
  import opened Wrappers
  import opened LinearAlgebra
  import opened SortedKeys
  import opened GaussJordan
  import opened PivotThreshold
  import opened LeastSquares
  import opened PortfolioConstructor
  import opened RiskDecomposer

  /** Some nonzero combination of the columns vanishes on every row. */
  ghost predicate Dependent(x: Matrix, cols: nat)
    requires Rect(x, |x|, cols)
  {
    exists d: Vec :: |d| == cols && !IsZero(d) && IsZero(MatVec(x, d))
  }

  lemma NullOfNormal(x: Matrix, d: Vec)
    requires Rect(x, |x|, |d|)
    ensures IsZero(MatVec(Normal(x, |d|), d)) <==> IsZero(MatVec(x, d))
  {
    var xd := MatVec(x, d);
    NormalTimes(x, d);
    if IsZero(MatVec(Normal(x, |d|), d)) {
      forall l | 0 <= l < |d|
        ensures VecMat(xd, x, |d|)[l] == 0.0
      {
        DotSymmetric(xd, Column(x, l));
        assert MatVec(Normal(x, |d|), d)[l] == 0.0;
      }
      Associative(xd, x, d);
      DotZero(VecMat(xd, x, |d|), d);
      DotSelfSign(xd);
    }
    if IsZero(xd) {
      forall l | 0 <= l < |d|
        ensures MatVec(Normal(x, |d|), d)[l] == 0.0
      {
        DotSymmetric(Column(x, l), xd);
        DotZero(xd, Column(x, l));
      }
    }
  }

  /** The normal matrix is singular exactly when the columns are dependent. */
  lemma NormalIsSingular(x: Matrix, cols: nat)
    requires Rect(x, |x|, cols)
    ensures Singular(Normal(x, cols), cols) <==> Dependent(x, cols)
  {
    if Singular(Normal(x, cols), cols) {
      var d: Vec :| |d| == cols && !IsZero(d) && IsZero(MatVec(Normal(x, cols), d));
      NullOfNormal(x, d);
    }
    if Dependent(x, cols) {
      var d: Vec :| |d| == cols && !IsZero(d) && IsZero(MatVec(x, d));
      NullOfNormal(x, d);
    }
  }

  /**
   * The verdict "collinear" is given exactly when a pivot candidate of the exact elimination is within the
   * threshold, and it is wrong exactly when besides none of the candidates is zero.
   */
  lemma CollinearVerdict(x: Matrix, y: Vec, names: seq<Name>, sqrt: real -> real)
    requires Rect(x, |y|, |names| + 1) && |y| >= |names| + 2 && Ascending(names)
    ensures var candidates := CandidatesOf(Normal(x, |names| + 1));
            var collinear := Measure(x, y, names, sqrt) == NoSignal(CollinearFactors, |y|);
            && (collinear <==> SomeWithin(candidates, PIVOT_THRESHOLD))
            && (Dependent(x, |names| + 1) ==> collinear)
            && (collinear && !Dependent(x, |names| + 1)
                <==> SomeWithin(candidates, PIVOT_THRESHOLD) && NoneZero(candidates))
  {
    var a := Normal(x, |names| + 1);
    CollinearMeansRefused(x, y, names, sqrt);
    RefusalVerdict(a, PIVOT_THRESHOLD);
    NormalIsSingular(x, |names| + 1);
    if Singular(a, |a|) {
      SingularIsRefused(a, PIVOT_THRESHOLD);
    }
  }

  // ---------- One factor ----------

  /** The regressors of a one-factor portfolio: the intercept and the factor's returns. */
  function OneFactorDesign(f: Vec): (x: Matrix)
    ensures Rect(x, |f|, 2) && forall i :: 0 <= i < |f| ==> x[i] == [1.0, f[i]]
  {
    seq(|f|, i requires 0 <= i < |f| => [1.0, f[i]])
  }

  function Mean(f: Vec): real
    requires f != []
  {
    Quotient(Sum(f), |f| as real)
  }

  /** The squared deviations from the mean, summed: the sample variance times one less than the number of returns. */
  function Spread(f: Vec): real
    requires f != []
  {
    Sum(SquaredDeviations(f, Mean(f)))
  }

  lemma SpreadIsVariance(f: Vec)
    requires |f| > 1
    ensures Spread(f) == Times((|f| - 1) as real, SampleVariance(f))
  {
    MultiplyBack(Spread(f), (|f| - 1) as real);
  }

  lemma SquareOfDifference(x: real, m: real)
    ensures (x - m) * (x - m) == x * x - Times(2.0 * m, x) + Times(m, m)
  {
  }

  lemma {:induction false} DeviationsSum(f: Vec, m: real)
    ensures Sum(SquaredDeviations(f, m)) == Dot(f, f) - Times(2.0 * m, Sum(f)) + Times(|f| as real, Times(m, m))
  {
    if f == [] {
      TimesSign(2.0 * m, 0.0);
      TimesSign(0.0, Times(m, m));
    } else {
      var rest := f[1..];
      DeviationsSum(rest, m);
      DeviationsTail(f, m);
      SquareOfDifference(f[0], m);
      TimesAdd(f[0], Sum(rest), 2.0 * m);
      TimesAdd(1.0, |rest| as real, Times(m, m));
    }
  }

  lemma MeanSquared(n: real, m: real, s: real)
    requires Times(n, m) == s
    ensures Times(n, Times(m, m)) == Times(m, s) && Times(2.0 * m, s) == 2.0 * Times(m, s)
  {
  }

  lemma SpreadOfSums(f: Vec)
    requires f != []
    ensures Spread(f) == Dot(f, f) - Times(Sum(f), Mean(f))
  {
    var n, m := |f| as real, Mean(f);
    MultiplyBack(Sum(f), n);
    DeviationsSum(f, m);
    MeanSquared(n, m, Sum(f));
    TimesCommutes(m, Sum(f));
  }

  function Ones(n: nat): (v: Vec)
    ensures |v| == n && forall i :: 0 <= i < n ==> v[i] == 1.0
  {
    seq(n, i => 1.0)
  }

  lemma {:induction false} DotOnes(f: Vec)
    ensures Dot(Ones(|f|), f) == Sum(f)
  {
    if f != [] {
      DotOnes(f[1..]);
      assert Ones(|f|)[1..] == Ones(|f| - 1);
    }
  }

  lemma {:induction false} SumOfOnes(n: nat)
    ensures Sum(Ones(n)) == n as real
  {
    if n > 0 {
      SumOfOnes(n - 1);
      assert Ones(n)[1..] == Ones(n - 1);
    }
  }

  lemma NormalOfPair(x: Matrix, u: Vec, v: Vec)
    requires Rect(x, |x|, 2) && u == Column(x, 0) && v == Column(x, 1)
    ensures Normal(x, 2) == [[Dot(u, u), Dot(u, v)], [Dot(v, u), Dot(v, v)]]
  {
    var a := Normal(x, 2);
    assert a[0] == [Dot(u, u), Dot(u, v)] && a[1] == [Dot(v, u), Dot(v, v)];
  }

  lemma OneFactorNormal(f: Vec)
    ensures Normal(OneFactorDesign(f), 2) == [[|f| as real, Sum(f)], [Sum(f), Dot(f, f)]]
  {
    var ones := Ones(|f|);
    NormalOfPair(OneFactorDesign(f), ones, f);
    DotOnes(f);
    DotOnes(ones);
    SumOfOnes(|f|);
    DotSymmetric(f, ones);
  }

  lemma AugmentedPair(n: real, s: real, q: real)
    ensures Augment([[n, s], [s, q]]) == [[n, s, 1.0, 0.0], [s, q, 0.0, 1.0]]
  {
    var aug := Augment([[n, s], [s, q]]);
    assert Unit(2, 0) == [1.0, 0.0] && Unit(2, 1) == [0.0, 1.0];
    assert aug[0] == [n, s, 1.0, 0.0] && aug[1] == [s, q, 0.0, 1.0];
  }

  lemma FirstPass(aug: Matrix)
    requires Rect(aug, 2, 4) && (aug[0][0] != 0.0 || aug[1][0] != 0.0)
    ensures var p := if Abs(aug[0][0]) < Abs(aug[1][0]) then 1 else 0;
            var next := Pivot(aug, 0, 4, 0.0);
            && PivotRow(aug, 0) == p && aug[p][0] != 0.0 && next.Some?
            && next.value[1][1] == aug[1 - p][1] - Times(aug[1 - p][0], Quotient(aug[p][1], aug[p][0]))
  {
    var p := PivotRow(aug, 0);
    var swapped := Swap(aug, 0, p);
    var scaled := swapped[0 := DivideRow(swapped[0], swapped[0][0])];
    assert ClearRows(scaled, 0, 2, 4)[1] == ClearedRow(scaled, 0, 2, 1, 4);
  }

  lemma LastPass(aug: Matrix)
    requires Rect(aug, 2, 4)
    ensures Candidates(aug, 1, 4) == [Abs(aug[1][1])]
  {
    assert PivotRow(aug, 1) == 1;
  }

  /** The candidates of a two-by-two elimination whose first entry is positive. */
  lemma CandidatesOfPair(n: real, s: real, q: real)
    requires n > 0.0
    ensures CandidatesOf([[n, s], [s, q]])
         == if n < Abs(s) then [Abs(s), Abs(s - Times(n, Quotient(q, s)))] else [n, Abs(q - Times(s, Quotient(s, n)))]
  {
    AugmentedPair(n, s, q);
    var aug: Matrix := [[n, s, 1.0, 0.0], [s, q, 0.0, 1.0]];
    FirstPass(aug);
    CandidatesStep(aug, 0, 4);
    LastPass(Pivot(aug, 0, 4, 0.0).value);
  }

  lemma ScaledSpread(n: real, s: real, q: real, spread: real)
    requires n > 0.0 && s != 0.0 && spread >= 0.0 && spread == q - Times(s, Quotient(s, n))
    ensures Abs(s - Times(n, Quotient(q, s))) == Quotient(Times(n, spread), Abs(s))
  {
    var d := s - Times(n, Quotient(q, s));
    TimesOfDifference(n, s, q, spread, d);
    TimesSign(n, spread);
    MagnitudeOfFactor(s, d, Times(n, spread));
  }

  lemma TimesOfDifference(n: real, s: real, q: real, spread: real, d: real)
    requires n > 0.0 && s != 0.0 && spread == q - Times(s, Quotient(s, n)) && d == s - Times(n, Quotient(q, s))
    ensures Times(s, d) == -Times(n, spread)
  {
    var u, v := Quotient(s, n), Quotient(q, s);
    MultiplyBack(s, n);
    MultiplyBack(q, s);
    CrossProducts(n, s, q, u, v);
  }

  lemma CrossProducts(n: real, s: real, q: real, u: real, v: real)
    requires Times(n, u) == s && Times(s, v) == q
    ensures Times(s, s - Times(n, v)) == -Times(n, q - Times(s, u))
  {
    assert n * (s * u) == s * (n * u) && s * (n * v) == n * (s * v);
  }

  lemma MagnitudeOfFactor(s: real, d: real, product: real)
    requires s != 0.0 && product >= 0.0 && Times(s, d) == -product
    ensures Abs(d) == Quotient(product, Abs(s))
  {
    TimesSign(s, d);
    TimesSign(-s, d);
    NegatedLeft(s, d);
    NegatedFactor(s, d);
    NegatedLeft(s, -d);
    assert Times(Abs(s), Abs(d)) == product;
    DivideBack(Abs(s), Abs(d));
  }

  /** The second pivot candidate, for n rows of sum s and squared deviations `spread`. */
  function Second(n: real, s: real, spread: real): (c: real)
    requires n > 0.0
  {
    if n < Abs(s) then Quotient(Times(n, spread), Abs(s)) else spread
  }

  lemma SecondOfPair(n: real, s: real, q: real, spread: real)
    requires n > 0.0 && spread >= 0.0 && spread == q - Times(s, Quotient(s, n))
    ensures CandidatesOf([[n, s], [s, q]]) == [if n < Abs(s) then Abs(s) else n, Second(n, s, spread)]
  {
    CandidatesOfPair(n, s, q);
    if n < Abs(s) {
      ScaledSpread(n, s, q, spread);
    }
  }

  lemma SecondSign(n: real, s: real, spread: real)
    requires n > 0.0 && spread >= 0.0
    ensures Second(n, s, spread) >= 0.0 && (Second(n, s, spread) == 0.0 <==> spread == 0.0)
  {
    if n < Abs(s) {
      TimesSign(n, spread);
      MultiplyBack(Times(n, spread), Abs(s));
      PositiveFactor(Abs(s), Second(n, s, spread));
      TimesSign(Abs(s), Second(n, s, spread));
    }
  }

  function SecondCandidate(f: Vec): real
    requires f != []
  {
    Second(|f| as real, Sum(f), Spread(f))
  }

  lemma OneFactorCandidates(f: Vec)
    requires f != []
    ensures CandidatesOf(Normal(OneFactorDesign(f), 2))
         == [if |f| as real < Abs(Sum(f)) then Abs(Sum(f)) else |f| as real, SecondCandidate(f)]
    ensures SecondCandidate(f) >= 0.0 && (SecondCandidate(f) == 0.0 <==> Spread(f) == 0.0)
  {
    OneFactorNormal(f);
    SpreadOfSums(f);
    DeviationsAreNonNegative(f, Mean(f));
    SecondOfPair(|f| as real, Sum(f), Dot(f, f), Spread(f));
    SecondSign(|f| as real, Sum(f), Spread(f));
  }

  lemma SomeOfTwoWithin(a: real, b: real, t: Threshold)
    requires a > t
    ensures SomeWithin([a, b], t) <==> b <= t
  {
    SomeWithinPush(a, [b], t);
    SomeWithinPush(b, [], t);
    assert [a] + [b] == [a, b] && [b] + [] == [b];
  }

  /**
   * A regression on one factor is called collinear exactly when the squared deviations of the factor's returns,
   * scaled down if the returns sum to more than their number, come to at most the threshold. The columns are
   * dependent exactly when the deviations vanish.
   */
  lemma OneFactorVerdict(f: Vec, y: Vec, name: Name, sqrt: real -> real)
    requires |f| == |y| >= 3
    ensures Measure(OneFactorDesign(f), y, [name], sqrt) == NoSignal(CollinearFactors, |y|)
       <==> SecondCandidate(f) <= PIVOT_THRESHOLD
    ensures Dependent(OneFactorDesign(f), 2) <==> Spread(f) == 0.0
  {
    var x := OneFactorDesign(f);
    var first := if |f| as real < Abs(Sum(f)) then Abs(Sum(f)) else |f| as real;
    OneFactorCandidates(f);
    CollinearVerdict(x, y, [name], sqrt);
    NormalIsSingular(x, 2);
    RefusalVerdict(Normal(x, 2), 0.0);
    SomeOfTwoWithin(first, SecondCandidate(f), PIVOT_THRESHOLD);
    SomeOfTwoWithin(first, SecondCandidate(f), 0.0);
  }

  lemma TailMembers(a: seq<Key>, x: Key)
    requires Ascending(a) && a != []
    ensures x in a[1..] <==> x in a && x != a[0]
  {
    if x in a[1..] {
      var i :| 0 <= i < |a[1..]| && a[1..][i] == x;
      assert a[i + 1] == x;
    }
    if x in a && x != a[0] {
      var i :| 0 <= i < |a| && a[i] == x;
      assert a[1..][i - 1] == x;
    }
  }

  lemma {:induction false} AscendingIsUnique(a: seq<Key>, b: seq<Key>)
    requires Ascending(a) && Ascending(b) && forall x :: x in a <==> x in b
    ensures a == b
  {
    assert |b| > 0 ==> b[0] in a;
    if a != [] {
      assert a[0] in b && b[0] in a;
      assert a[0] == b[0];
      forall x
        ensures x in a[1..] <==> x in b[1..]
      {
        TailMembers(a, x);
        TailMembers(b, x);
      }
      AscendingIsUnique(a[1..], b[1..]);
      assert a == [a[0]] + a[1..] && b == [b[0]] + b[1..];
    }
  }

  lemma SortedOne(name: Name)
    ensures Sorted({name}) == [name]
  {
    AscendingIsUnique(Sorted({name}), [name]);
  }

  lemma DesignOfOneFactor(name: Name, ids: seq<Id>, clean: CleanReturns)
    requires name in clean && forall i :: 0 <= i < |ids| ==> Everywhere(ids[i], clean)
    ensures forall i :: 0 <= i < |ids| ==> ids[i] in clean[name]
    ensures Design([name], ids, clean) == OneFactorDesign(Series(clean[name], ids))
  {
    forall i | 0 <= i < |ids|
      ensures ids[i] in clean[name]
    {
      assert Everywhere(ids[i], clean);
    }
    var x, f := Design([name], ids, clean), Series(clean[name], ids);
    forall i | 0 <= i < |ids|
      ensures x[i] == OneFactorDesign(f)[i]
    {
      assert CrossSection([name], clean, ids[i]) == [f[i]];
    }
  }

  /** The same for the residual-alpha test of any series against one factor, once it has the returns it asks for. */
  lemma OneFactorDecomposition(combined: map<Id, Float>, factors: Returns, name: Name, ids: seq<Id>, sqrt: real -> real)
    requires factors.Keys == {name} && FiniteFactors(combined, factors)
    requires ids == Sorted(CommonReturnIds(combined, factors)) && |ids| >= MIN_OOS_RETURNS
    requires forall i :: 0 <= i < |ids| ==> ids[i] in CleanSeries(combined)
    ensures forall i :: 0 <= i < |ids| ==> ids[i] in Clean(factors)[name]
    ensures Decompose(combined, factors, sqrt) == NoSignal(CollinearFactors, |ids|)
       <==> SecondCandidate(Series(Clean(factors)[name], ids)) <= PIVOT_THRESHOLD
  {
    var clean := Clean(factors);
    SortedOne(name);
    forall i | 0 <= i < |ids|
      ensures Everywhere(ids[i], clean)
    {
      assert ids[i] in CommonReturnIds(combined, factors);
    }
    DesignOfOneFactor(name, ids, clean);
    OneFactorVerdict(Series(clean[name], ids), Series(CleanSeries(combined), ids), name, sqrt);
  }

  // ---------- A factor too small for the threshold ----------

  const TINY: real := 0.0000001

  function TinyReturn(i: int): real {
    if i % 2 == 0 then TINY else -TINY
  }

  function Ids(n: nat): (ids: seq<Id>)
    ensures |ids| == n && forall i :: 0 <= i < n ==> ids[i] == Key(i)
  {
    seq(n, i requires 0 <= i < n => Key(i))
  }

  function TinySeries(): (values: map<Id, real>)
    ensures forall id :: id in values <==> 0 <= id.rank < 8
    ensures forall id :: id in values ==> values[id] == TinyReturn(id.rank)
  {
    map i: int | 0 <= i < 8 :: Key(i) := TinyReturn(i)
  }

  /** One factor with eight returns of alternating sign. */
  function TinyFactor(name: Name): Returns {
    map[name := AsFloats(TinySeries())]
  }

  /** The returns from the i-th on. */
  function TinyReturns(i: nat, n: nat): (v: Vec)
    requires i <= n
    ensures |v| == n - i && forall k :: 0 <= k < |v| ==> v[k] == TinyReturn(i + k)
  {
    seq(n - i, k requires 0 <= k < n - i => TinyReturn(i + k))
  }

  lemma TinyTail(i: nat, n: nat)
    requires i < n
    ensures TinyReturns(i, n)[1..] == TinyReturns(i + 1, n) && TinyReturns(i, n)[0] == TinyReturn(i)
  {
  }

  lemma {:induction false} TinySum(i: nat, n: nat)
    requires i <= n && n % 2 == 0
    ensures Sum(TinyReturns(i, n)) == if i % 2 == 0 then 0.0 else -TINY
    decreases n - i
  {
    if i < n {
      TinySum(i + 1, n);
      TinyTail(i, n);
    }
  }

  lemma {:induction false} TinyDeviations(i: nat, n: nat)
    requires i <= n
    ensures Sum(SquaredDeviations(TinyReturns(i, n), 0.0)) == (n - i) as real * 0.00000000000001
    decreases n - i
  {
    if i < n {
      TinyDeviations(i + 1, n);
      TinyTail(i, n);
      DeviationsTail(TinyReturns(i, n), 0.0);
      assert (TinyReturn(i) - 0.0) * (TinyReturn(i) - 0.0) == 0.00000000000001;
    }
  }

  /** The squared deviations come to 8e-14, far below the threshold, and the second candidate is their sum. */
  lemma TinySpread()
    ensures Spread(TinyReturns(0, 8)) == SecondCandidate(TinyReturns(0, 8)) == 0.00000000000008
  {
    TinySum(0, 8);
    TinyDeviations(0, 8);
    QuotientOfSelf(8.0);
  }

  lemma TinyClean(name: Name)
    ensures Clean(TinyFactor(name)) == map[name := TinySeries()]
  {
    var clean := Clean(TinyFactor(name));
    assert clean.Keys == {name} && clean[name] == TinySeries();
  }

  lemma EverywhereInOne(id: Id, name: Name, values: map<Id, real>)
    ensures Everywhere(id, map[name := values]) <==> id in values
  {
    assert name in map[name := values];
  }

  lemma SortedIds(n: nat, s: set<Id>)
    requires forall id :: id in s <==> 0 <= id.rank < n
    ensures Sorted(s) == Ids(n)
  {
    forall id
      ensures id in Sorted(s) <==> id in Ids(n)
    {
      assert 0 <= id.rank < n ==> Ids(n)[id.rank] == id;
    }
    AscendingIsUnique(Sorted(s), Ids(n));
  }

  lemma TinyCommonIds(name: Name)
    ensures forall id :: id in CommonIds(map[name := TinySeries()]) <==> 0 <= id.rank < 8
    ensures forall i :: 0 <= i < 8 ==> Everywhere(Ids(8)[i], map[name := TinySeries()])
  {
    var clean := map[name := TinySeries()];
    assert name in clean.Keys;
    forall id
      ensures Everywhere(id, clean) <==> id in TinySeries()
    {
      EverywhereInOne(id, name, TinySeries());
    }
  }

  lemma TinyIds(name: Name)
    ensures Sorted(CommonIds(map[name := TinySeries()])) == Ids(8)
    ensures map[name := TinySeries()].Keys == {name} && Sorted({name}) == [name]
  {
    TinyCommonIds(name);
    SortedIds(8, CommonIds(map[name := TinySeries()]));
    SortedOne(name);
  }

  lemma TinySeriesOf()
    ensures (forall i :: 0 <= i < 8 ==> Ids(8)[i] in TinySeries()) && Series(TinySeries(), Ids(8)) == TinyReturns(0, 8)
  {
  }

  lemma TinyVariance()
    ensures Times(7.0, SampleVariance(TinyReturns(0, 8))) == 0.00000000000008
  {
    TinySpread();
    SpreadIsVariance(TinyReturns(0, 8));
  }

  lemma SquaresAreOrdered(x: real, y: real)
    requires 0.0 <= x <= y
    ensures Times(x, x) <= Times(y, y)
  {
    TimesSign(y - x, x);
    TimesSign(y - x, y);
    assert y * y == x * x + (y - x) * x + (y - x) * y;
  }

  lemma RootAboveZeroVolatility(root: real, v: real)
    requires root >= 0.0 && Times(root, root) == v && Times(7.0, v) == 0.00000000000008
    ensures root > ZERO_VOLATILITY
  {
    var limit: real := ZERO_VOLATILITY;
    assert Times(limit, limit) == 0.000000000000000000000001;
    if root <= limit {
      SquaresAreOrdered(root, limit);
      assert false;
    }
  }

  lemma TinyRoot(sqrt: real -> real)
    requires IsSqrt(sqrt)
    ensures sqrt(SampleVariance(TinyReturns(0, 8))) > ZERO_VOLATILITY
  {
    TinyVariance();
    var v := SampleVariance(TinyReturns(0, 8));
    RootAboveZeroVolatility(sqrt(v), v);
  }

  lemma ConstructedIf(factors: Returns, clean: CleanReturns, ids: seq<Id>, sqrt: real -> real)
    requires clean == Clean(factors) && ids == Sorted(CommonIds(clean)) && |ids| >= MIN_RETURN_OBSERVATIONS
    requires forall i :: 0 <= i < |ids| ==> Everywhere(ids[i], clean)
    requires forall name :: name in clean ==> Volatilities(clean, ids, sqrt)[name] > ZERO_VOLATILITY
    ensures Construct(factors, sqrt).Constructed?
  {
  }

  /** One factor whose volatility passes is a portfolio. */
  lemma OneFactorIsConstructed(factors: Returns, clean: CleanReturns, ids: seq<Id>, name: Name, sqrt: real -> real)
    requires clean == Clean(factors) && clean.Keys == {name}
    requires ids == Sorted(CommonIds(clean)) && |ids| >= MIN_RETURN_OBSERVATIONS
    requires forall i :: 0 <= i < |ids| ==> ids[i] in clean[name]
    requires sqrt(SampleVariance(Series(clean[name], ids))) > ZERO_VOLATILITY
    ensures Construct(factors, sqrt).Constructed?
  {
    CommonIdsAreEverywhere(clean, ids);
    VolatilityOf(clean, ids, sqrt, name);
    ConstructedIf(factors, clean, ids, sqrt);
  }

  /** The constructor accepts the factor. */
  lemma TinyIsConstructed(name: Name, sqrt: real -> real)
    requires IsSqrt(sqrt)
    ensures Construct(TinyFactor(name), sqrt).Constructed?
  {
    TinyClean(name);
    TinyIds(name);
    TinySeriesOf();
    TinyRoot(sqrt);
    OneFactorIsConstructed(TinyFactor(name), map[name := TinySeries()], Ids(8), name, sqrt);
  }

  lemma TinyDecompose(combined: map<Id, real>, name: Name, sqrt: real -> real)
    requires FiniteFactors(AsFloats(combined), TinyFactor(name)) && combined.Keys == CommonIds(Clean(TinyFactor(name)))
    requires CommonReturnIds(AsFloats(combined), TinyFactor(name)) == CommonIds(Clean(TinyFactor(name)))
    ensures Decompose(AsFloats(combined), TinyFactor(name), sqrt) == NoSignal(CollinearFactors, 8)
  {
    var factors := TinyFactor(name);
    TinyClean(name);
    TinyIds(name);
    TinyCommonIds(name);
    TinySeriesOf();
    TinySpread();
    forall i | 0 <= i < 8
      ensures Ids(8)[i] in combined
    {
      assert Everywhere(Ids(8)[i], Clean(factors));
    }
    OneFactorDecomposition(AsFloats(combined), factors, name, Ids(8), sqrt);
  }

  /** The regression of the factor's portfolio is that of the tiny design, whose columns are independent. */
  lemma TinyRegression(name: Name)
    ensures var clean := Clean(TinyFactor(name));
            && Sorted(CommonIds(clean)) == Ids(8) && Sorted(clean.Keys) == [name]
            && (forall i :: 0 <= i < 8 ==> Everywhere(Ids(8)[i], clean))
            && Design([name], Ids(8), clean) == OneFactorDesign(TinyReturns(0, 8))
            && !Dependent(OneFactorDesign(TinyReturns(0, 8)), 2)
  {
    TinyClean(name);
    TinyIds(name);
    TinyCommonIds(name);
    TinySeriesOf();
    DesignOfOneFactor(name, Ids(8), Clean(TinyFactor(name)));
    TinySpread();
    OneFactorVerdict(TinyReturns(0, 8), TinyReturns(0, 8), name, x => x);
  }

  /**
   * A portfolio of one factor with eight returns of 1e-7 and alternating sign is constructed, and its
   * regression, although of independent columns, is then refused as collinear.
   */
  lemma TinyFactorIsCalledCollinear(name: Name, sqrt: real -> real)
    requires IsSqrt(sqrt)
    ensures var p := Construct(TinyFactor(name), sqrt);
            && p.Constructed? && FiniteFactors(AsFloats(p.combined), TinyFactor(name))
            && Decompose(AsFloats(p.combined), TinyFactor(name), sqrt) == NoSignal(CollinearFactors, 8)
  {
    var factors := TinyFactor(name);
    TinyIsConstructed(name, sqrt);
    ConstructedFacts(factors, sqrt);
    var combined := Construct(factors, sqrt).combined;
    ChainReadsTheSameObservations(AsFloats(combined), factors);
    TinyDecompose(combined, name, sqrt);
  }
}
