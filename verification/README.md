# Verification of the forecasting, backtesting and record-keeping core

A Dafny model of the parts of the backend and of the browser extension whose behaviour over whole runs, or
over all numeric inputs, is hard to see from the code. Check it with `dafny verify dfyconfig.toml`.

Numbers are exact reals, integers unbounded, time stamps integers (or reals where the source uses a monotonic
clock). Names, slugs and row ids that the source only compares or sorts are keys with a rank. Square roots are
a function parameter of which only `sqrt(x)` non-negative with square `x` is used. Code that updates state in
place is a class or works on an array; each such method is tied to a function, and the properties are proved
about that function over every input or every run.

| files | subject |
|---|---|
| `LinearAlgebra`, `GaussJordan`, `PivotThreshold`, `LeastSquares`, `PortfolioConstructor`, `RiskDecomposer`, `Collinearity` | in-place Gauss-Jordan inversion, least squares, inverse-volatility weights, the residual-alpha verdict of the whole chain, and when its collinearity verdict is right |
| `BartlettWindows`, `NeweyWest`, `DeflatedSharpe` | the two variances that are put under a square root |
| `WalkForward`, `PurgedSplits` | rolling-origin and combinatorial purged splits |
| `TtlLruCache`, `RateLimit`, `EventBus` | the in-process services, each against a simple reference |
| `ClaimScorer`, `GradingRuns`, `Backfill` | no-look-ahead grading, when a grade stands under later writes, and the keyset-paginated backfill |
| `NullabilityMigration`, `MigrationProperties` | the resumable per-table migration under faults |
| `FillModel`, `SnapshotReplay`, `ReplayAccounting`, `ReplayCashFlow`, `ReplayScores` | fill prices, the replay of a market, what it books, and how it is scored |
| `CloneService`, `ForecastQueue`, `AnalystMetrics` | versioned clones, the offline queue, the public track record |
| `SortedKeys`, `FiniteSets`, `Subsequences`, `Wrappers` | shared vocabulary |

How faults enter the migration: every attempt of a batch carries a fault that stops it at a chosen statement with
a SQLSTATE, at its commit, or not at all; an interrupted run is one whose faults end it early. How events enter the
other run properties: as an arbitrary sequence of operations with their arguments and clock readings.

## Where the code does not do what it says

- A regression is called collinear when a pivot candidate is at most 1e-12. Dependent regressors always are, but so
  are some independent ones: `Collinearity.CollinearVerdict` says exactly when, `Collinearity.OneFactorVerdict` says it
  for one factor in terms of its returns, and `Collinearity.TinyFactorIsCalledCollinear` is such a portfolio.
- `backend/app/eval/claim_scorer.py:1-7` promises deterministic grading. Which row of several sources' rows for one
  instant is read is the database's choice (`ClaimScorer.GradersAgreeExactlyWhenRowsDo`,
  `ClaimScorer.TiedSourcesLeaveTheVerdictOpen`), and rows written after a pass, or overwritten by the hourly price
  feed, can make the pass's grade differ from a later one's. `GradingRuns.GradeMatchesFinalTable` says exactly when a
  price that the table decides stands, `GradingRuns.GradedRowIsPossible` when the row graded from could still be read,
  ties included, and `GradingRuns.HourlyGradeIsStable` from when on the feed can no longer touch the answer;
  `GradingRuns.LateRowChangesTheGrade` and `GradingRuns.RepricedHourChangesTheGrade` are failing runs.
- `backend/app/backtesting/fill_model.py:15-17` promises the mid at zero spread and size. It is met exactly for mids in
  [0.001, 0.999] (`FillModel.FreeFillIsTheMid`).
- The replay closes a NO position by subtracting a YES-side price from its NO-side entry price
  (`backend/app/backtesting/snapshot_replay.py:297-308`). `FillModel.NoGainIsNotMarkToMarket` says exactly when that is
  the mark-to-market gain, and `ReplayAccounting.FallingMidBooksALoss` is a replay where the sign is wrong.
- The closes of NO positions buy YES and so are counted among the entries by the fill statistics
  (`backend/app/backtesting/snapshot_replay.py:391-392`, `ReplayAccounting.QualityCountsNoCloses`). The mean profit is
  then not that per entry: `ReplayAccounting.MeanPnlIsPerEntry` says exactly when it is, and
  `ReplayAccounting.NoCloseIsCounted` is a replay where it is not.
- The replay's header promises that no later snapshot is used; its Brier outcomes use the next one.
  `SnapshotReplay.ScoresDependOnTheNextTick` says exactly when that shows.

## Model

| member | source | states |
|---|---|---|
| `GaussJordan.PivotRow` | backend/app/alpha/risk_decomposer.py:97 | The chosen row is at or below the diagonal and no candidate there is larger in magnitude |
| `GaussJordan.ClearColumn` | backend/app/alpha/risk_decomposer.py:103-107 | The row loop, replacing rows of the one work array, leaves exactly the matrix whose other rows have had their multiple of the pivot row subtracted |
| `GaussJordan.PivotColumn` | backend/app/alpha/risk_decomposer.py:97-107 | One pass of the column loop: swap, divide, clear; it gives up, changing nothing that is used later, exactly when the largest candidate is within the threshold |
| `GaussJordan.EliminateInPlace` | backend/app/alpha/risk_decomposer.py:96-107 | All passes over the work array compute the same elimination as the recursive definition, with the same refusals |
| `GaussJordan.Invert` | backend/app/alpha/risk_decomposer.py:92-108 | Whatever matrix is returned for a square matrix multiplies it to the identity on both sides |
| `GaussJordan.InverseIsTwoSided` | backend/app/alpha/risk_decomposer.py:92-108 | For every square matrix, symmetric or not: a returned B satisfies BA = AB = I |
| `PivotThreshold.SingularIsRefused` | backend/app/alpha/risk_decomposer.py:97-99 | A singular matrix is refused at every threshold |
| `PivotThreshold.ExactRefusalIsSingularity` | backend/app/alpha/risk_decomposer.py:97-99 | At threshold zero exactly the singular matrices are refused |
| `PivotThreshold.RefusedMeansCandidate` | backend/app/alpha/risk_decomposer.py:97-99 | A matrix is refused exactly when the largest pivot candidate of some pass of the exact elimination is within the threshold |
| `PivotThreshold.RefusalVerdict` | backend/app/alpha/risk_decomposer.py:97-99 | A refusal is wrong, the matrix being invertible, exactly when no candidate of the exact elimination is zero but one is positive and within the threshold |
| `Collinearity.NormalIsSingular` | backend/app/alpha/risk_decomposer.py:81-84 | The normal matrix is singular exactly when the regressors are linearly dependent |
| `Collinearity.CollinearVerdict` | backend/app/alpha/risk_decomposer.py:30-32 | Dependent regressors are always called collinear, and the verdict is wrong exactly when some pivot candidate is within 1e-12 and none is zero |
| `Collinearity.OneFactorVerdict` | backend/app/alpha/risk_decomposer.py:28-32 | A regression on one factor is called collinear exactly when the squared deviations of its returns, summed (and scaled down by count over magnitude of the sum, if the returns sum to more than their count), are at most 1e-12; its columns are dependent exactly when the deviations vanish |
| `Collinearity.OneFactorDecomposition` | backend/app/alpha/risk_decomposer.py:13-32 | The same for the residual-alpha test of any series against one factor that has the returns it asks for |
| `Collinearity.TinyRegression` | backend/app/alpha/risk_decomposer.py:28-30 | The regression of one factor with eight returns of alternating sign and size 1e-7 has independent columns |
| `Collinearity.TinyFactorIsCalledCollinear` | backend/app/alpha/alpha_run_service.py:59-69 | The failing input: that factor passes the constructor and the chain then reports collinear factor returns |
| `LeastSquares.ResidualsAreOrthogonal` | backend/app/alpha/risk_decomposer.py:33-36 | The residuals of the fit are orthogonal to every regressor |
| `LeastSquares.ResidualsSumToZero` | backend/app/alpha/risk_decomposer.py:28-36 | With the intercept column the residuals sum to zero |
| `LeastSquares.ExcessError` | backend/app/alpha/risk_decomposer.py:79-89 | Any other coefficient vector costs exactly the squared length of its fitted difference more |
| `LeastSquares.CoefficientsAreTheMinimiser` | backend/app/alpha/risk_decomposer.py:79-89 | The fitted coefficients are the one and only minimiser of the squared error |
| `LeastSquares.LeadingEntryIsPositive` | backend/app/alpha/risk_decomposer.py:42 | The intercept entry of the inverted normal matrix is strictly positive |
| `LeastSquares.ExactCombinationIsRecovered` | backend/app/alpha/risk_decomposer.py:79-89 | A target that is an exact combination of the columns gives back that combination, with zero residuals |
| `PortfolioConstructor.WeightsAreInverseVolatility` | backend/app/alpha/portfolio_constructor.py:27-39 | Every factor gets a positive weight, weights sum to one, and weight times volatility is the same for all factors |
| `PortfolioConstructor.ConstructionVerdict` | backend/app/alpha/portfolio_constructor.py:18-38 | The observations are those common to all factors; fewer than eight are refused; otherwise each volatility squared times one less than their number is the sum of squared deviations, and the portfolio is refused exactly if one is at most 1e-12 |
| `RiskDecomposer.GuardNeverFires` | backend/app/alpha/risk_decomposer.py:42 | The number under the square root is never negative, so the clamp at zero never changes it |
| `RiskDecomposer.RefusalReason` | backend/app/alpha/risk_decomposer.py:20-27 | The answer is "insufficient" exactly for fewer than eight common observations or fewer than two more than factors, and with enough of them "non-finite" exactly if some combined return is not finite |
| `RiskDecomposer.RegressionVerdict` | backend/app/alpha/risk_decomposer.py:28-32 | With enough finite observations the answer is "collinear" exactly if some pivot candidate of the normal matrix is at most 1e-12 |
| `RiskDecomposer.MeasuredStatistic` | backend/app/alpha/risk_decomposer.py:33-63 | A solved regression reports its coefficients; the standard error squared times the degrees of freedom is the residuals' square times the leading entry of the inverse normal matrix; the statistic is alpha over it, or capped by the sign of alpha, and is an edge exactly above 2.5 |
| `RiskDecomposer.ExactSeriesVerdict` | backend/app/alpha/risk_decomposer.py:22-63 | A series that is an exact combination is refused exactly when its regressors count as collinear; otherwise it is measured with its own intercept and betas, and is an edge exactly when that intercept exceeds the zero threshold |
| `RiskDecomposer.ChainReadsTheSameObservations` | backend/app/alpha/alpha_run_service.py:59-69 | The regression runs on exactly the observations the portfolio was combined over, all of them finite |
| `RiskDecomposer.CombinationHasNoAlpha` | backend/app/alpha/risk_decomposer.py:13-63 | Regressing any weighted combination of factor returns on those factors never yields an edge: it is insufficient exactly for too few observations, else collinear exactly if a pivot candidate says so, else measured with zero alpha and statistic and the weights as betas |
| `RiskDecomposer.ConstructedPortfolioHasNoResidualAlpha` | backend/app/alpha/alpha_run_service.py:59-69 | End to end: a constructed portfolio has eight observations or more, and regressed on its own factor returns it gets exactly that answer |
| `NeweyWest.NeweyWestVariance` | backend/app/alpha/validator.py:248-258 | The accumulating loop over offsets computes the Bartlett-weighted long-run variance, which is never negative and zero only for constant deltas |
| `BartlettWindows.SquaredWindowsAreBartlett` | backend/app/alpha/validator.py:252-258 | The squared sums of all windows of lag + 1 zero-padded entries add up to (lag + 1) G(0) plus twice (lag + 1 - k) G(k) over the offsets k, where G(k) is the sum of products at offset k |
| `NeweyWest.VarianceIsSumOfSquares` | backend/app/alpha/validator.py:252-258 | For every series and lag: count times (lag + 1) times the variance is the sum of the squares of all sliding window sums over the zero-padded series |
| `NeweyWest.VarianceIsNonNegative` | backend/app/alpha/validator.py:253-258 | The variance is never negative, and zero exactly when all window sums vanish |
| `NeweyWest.VarianceVanishesOnlyOnConstants` | backend/app/alpha/validator.py:259-260 | In exact arithmetic the variance is zero exactly when all deltas are equal, whatever the lag |
| `NeweyWest.TStatSign` | backend/app/alpha/validator.py:259-261 | The statistic has the sign of the mean delta on every branch |
| `NeweyWest.TStatIsScaledSum` | backend/app/alpha/validator.py:259-261 | Above a variance of 1e-12 the squared statistic times the squared windows is (lag + 1) times the squared sum of the deltas; at or below it the statistic is 999 with the sign of the mean, or zero |
| `DeflatedSharpe.CauchySchwarz` | backend/app/backtesting/significance.py:208-225 | The square of a sum of products is at most the product of the sums of squares |
| `DeflatedSharpe.MomentInequality` | backend/app/backtesting/significance.py:208-225 | Third moment squared is at most m2 (m4 - m2 squared) for the sample moments as computed |
| `DeflatedSharpe.PearsonInequality` | backend/app/backtesting/significance.py:208-225 | Kurtosis is at least skewness squared plus one for every non-constant series |
| `DeflatedSharpe.AdjustmentIsNonNegative` | backend/app/backtesting/significance.py:174-180 | The variance adjustment is non-negative for every non-constant series and every Sharpe ratio; it vanishes exactly when skewness times Sharpe is two and Pearson holds with equality |
| `DeflatedSharpe.AdjustmentIsSumOfSquares` | backend/app/backtesting/significance.py:174-180 | For every non-constant series and Sharpe ratio: count times squared second moment times the adjustment is the sum of squares of root(m2) c - (sharpe / 2) (c squared - m2) over the centred returns c, which fixes the sign of the skewness term |
| `DeflatedSharpe.SharpeSquared` | backend/app/backtesting/significance.py:135-171 | The squared Sharpe ratio times the squared deviations is one less than the count times the squared mean, with the sign of the mean |
| `DeflatedSharpe.ScoreSquared` | backend/app/backtesting/significance.py:173-181 | The squared score times the floored adjustment is one less than the count times the squared distance of the Sharpe ratio from its benchmark, with the sign of that distance |
| `WalkForward.SortByTime` | backend/app/backtesting/walk_forward.py:42 | The result is ordered by time and is a permutation of the rows |
| `WalkForward.EqualTimesKeepOrder` | backend/app/backtesting/walk_forward.py:42 | Sorting is stable: rows of one time keep their order |
| `WalkForward.YieldSplits` | backend/app/backtesting/walk_forward.py:43-54 | The loop yields exactly the splits before the first one with look-ahead, and then the error or the end |
| `WalkForward.SuccessYieldsAll` | backend/app/backtesting/walk_forward.py:43-54 | Without an error those are all the splits |
| `WalkForward.FailureStopsAtTheFirst` | backend/app/backtesting/walk_forward.py:53 | With an error, the split after the yielded ones is one with look-ahead |
| `WalkForward.RefusedParameters` | backend/app/backtesting/walk_forward.py:35-40 | Parameters are refused exactly if a window is not positive or the embargo is negative |
| `WalkForward.YieldedSplitShape` | backend/app/backtesting/walk_forward.py:43-54 | Every split yielded, also before an error, has the requested train size and embargo distance and no look-ahead |
| `WalkForward.CollectComparisons` | backend/app/backtesting/walk_forward.py:109-124 | The nested loops collect exactly the comparisons of the concatenated evaluation windows, or report the split error |
| `WalkForward.EvalRowsCoverTail` | backend/app/backtesting/walk_forward.py:43-54 | Evaluation windows are disjoint and concatenate to exactly the sorted rows from the first training window plus embargo on |
| `WalkForward.SplitShape` | backend/app/backtesting/walk_forward.py:43-51 | Split k trains on exactly the requested number of rows, ending exactly one embargo before a non-empty evaluation window no larger than asked |
| `WalkForward.LookaheadMeansTie` | backend/app/backtesting/walk_forward.py:53 | The look-ahead error is raised exactly when two rows of equal time straddle some split boundary |
| `WalkForward.DistinctTimesHaveNoTie` | backend/app/backtesting/walk_forward.py:128-141 | Rows with distinct times never raise it |
| `WalkForward.EvaluationIsTheTail` | backend/app/backtesting/walk_forward.py:109-125 | For rows of pairwise distinct times the evaluation sees exactly the tail of the sorted rows, so it does not depend on the evaluation window size |
| `PurgedSplits.ContiguousGroups` | backend/app/backtesting/walk_forward.py:153-162 | The accumulating loop computes the closed-form group boundaries |
| `PurgedSplits.GroupsPartition` | backend/app/backtesting/walk_forward.py:153-162 | The groups tile all rows without gap or overlap; their sizes differ by at most one, the larger ones first |
| `PurgedSplits.OneGroupPerRow` | backend/app/backtesting/walk_forward.py:153-162 | Every row lies in exactly one group |
| `PurgedSplits.CombinationsAreAll` | backend/app/backtesting/walk_forward.py:78 | The enumerated choices of evaluation groups are exactly the strictly increasing k-element choices |
| `PurgedSplits.OccurrenceCount` | backend/app/backtesting/walk_forward.py:78 | Every group is in exactly C(G - 1, k - 1) of the choices |
| `PurgedSplits.CollectIndexes` | backend/app/backtesting/walk_forward.py:79-87 | Growing the two index sets group by group gives exactly the evaluated and the embargoed rows |
| `PurgedSplits.PurgedSplit` | backend/app/backtesting/walk_forward.py:79-93 | One pass of the loop builds the split of a choice from those sets |
| `PurgedSplits.PurgedSplitsOfRows` | backend/app/backtesting/walk_forward.py:57-96 | The generator as a whole: parameter errors, sorting, grouping and the splits of all choices in order, without those that have an empty side |
| `PurgedSplits.RefusedParameters` | backend/app/backtesting/walk_forward.py:64-75 | Purged splits are refused exactly for fewer than two groups, no group on one of the sides, a negative embargo, or fewer rows than groups |
| `PurgedSplits.SplitMembers` | backend/app/backtesting/walk_forward.py:78-96 | The splits kept are exactly those of the choices that leave a row on both sides |
| `PurgedSplits.YieldedSplitsArePurged` | backend/app/backtesting/walk_forward.py:89-96 | Every split yielded holds the ordered rows at the training positions of some choice on the training side and those at its evaluation positions on the other |
| `PurgedSplits.TrainingIsFarFromEvaluation` | backend/app/backtesting/walk_forward.py:81-92 | A row is a training row exactly when it is farther than the embargo from every evaluation row |
| `PurgedSplits.EveryRowEvaluatedEquallyOften` | backend/app/backtesting/walk_forward.py:78-96 | Without embargo there are C(G, k) splits and every row is evaluated in exactly C(G - 1, k - 1) of them |
| `TtlLruCache.Cache.Get` | backend/app/core/resilience.py:82-94 | A read returns the live value and moves its entry to the end, drops a stale one, and otherwise changes nothing |
| `TtlLruCache.Cache.Set` | backend/app/core/resilience.py:96-102 | A write puts the entry at the end and the eviction loop drops just the oldest ones beyond the capacity |
| `TtlLruCache.RunIsBounded` | backend/app/core/resilience.py:78-105 | Over every history keys are distinct and the capacity is never exceeded |
| `TtlLruCache.EntriesAreInOrderOfUse` | backend/app/core/resilience.py:82-102 | Over every history the entries stand in the order of the last set or hit of their keys, least recent first |
| `TtlLruCache.RecentlyUsedStays` | backend/app/core/resilience.py:82-102 | Over every history a key that was set or hit is still held, with the value the unbounded map remembers, if nothing cleared it or read it stale and fewer than the capacity of other keys were set or hit since |
| `TtlLruCache.LargerCacheIncludesSmaller` | backend/app/core/resilience.py:82-105 | LRU inclusion with expiry: fed the same history, the larger cache holds all entries of the smaller in the same order, with the same times and values |
| `TtlLruCache.HitsAreMonotone` | backend/app/core/resilience.py:82-94 | Every hit of the smaller cache is the same hit of the larger |
| `TtlLruCache.CacheAgreesWithReference` | backend/app/core/resilience.py:82-105 | Every entry is what an unbounded map fed the same history remembers |
| `TtlLruCache.NothingIsEvictedBelowCapacity` | backend/app/core/resilience.py:101-102 | While the unbounded map fits, the cache holds all of it |
| `TtlLruCache.ReadsMatchReference` | backend/app/core/resilience.py:82-94 | A hit is always a hit of the unbounded map with the same value, and below capacity misses agree as well |
| `RateLimit.Limiter.PruneExpired` | backend/app/core/ratelimit.py:132-134 | The deletion loop leaves exactly the unexpired windows |
| `RateLimit.Limiter.CheckAndIncrement` | backend/app/core/ratelimit.py:124-145 | The whole new window map and the answer, on every branch, including admission without tracking when the map is full |
| `RateLimit.RetryAfterIsExact` | backend/app/core/ratelimit.py:142-143 | A refusal changes nothing, and a retry after a whole number of seconds is admitted exactly when it is at least the announced one |
| `RateLimit.UncountedAdmission` | backend/app/core/ratelimit.py:130-138 | A request is admitted without being tracked exactly when its key is new and the map is still full after pruning |
| `RateLimit.RunIsBounded` | backend/app/core/ratelimit.py:124-145 | Over every run the map stays within its cap and every counter within 1..limit |
| `RateLimit.DecisionsMatchReference` | backend/app/core/ratelimit.py:124-145 | On a non-decreasing clock, while fewer than the cap of windows are unexpired, every decision is that of an unbounded limiter that never prunes |
| `RateLimit.AdmissionsPerInterval` | backend/app/core/ratelimit.py:129-145 | Any half-open interval of one window length sees at most 2 limit - 1 tracked admissions of a key |
| `RateLimit.BoundIsMet` | backend/app/core/ratelimit.py:129-145 | That bound is attained by a concrete run |
| `EventBus.Subscription.Deliver` | backend/app/core/event_bus.py:40-61 | A delivery appends the payload, dropping exactly the oldest one and counting it when the queue is full, and is a publication in the subscriber's history |
| `EventBus.Subscription.Get` | backend/app/core/event_bus.py:63-70 | A read takes the oldest payload and is a step of the subscriber's history |
| `EventBus.Bus.Subscribe` | backend/app/core/event_bus.py:83-86 | A fresh, empty subscription joins the topic, other topics are untouched; the histories of all subscribers take the subscribing step of the run model |
| `EventBus.Bus.Unsubscribe` | backend/app/core/event_bus.py:88-94 | The subscription leaves the topic, other topics are untouched; the histories take the closing step |
| `EventBus.Bus.Publish` | backend/app/core/event_bus.py:96-99 | The loop delivers to every subscriber of the topic exactly once and touches no other; the histories take the publishing step |
| `EventBus.Bus.ReadIsBusStep` | backend/app/core/event_bus.py:63-70 | A subscriber's own read is the reading step of the run model and leaves the histories of all others |
| `EventBus.RunIsConsistent` | backend/app/core/event_bus.py:40-70 | The queue is always the latest contiguous stretch published, deliveries are an earlier in-order subsequence, and published = delivered + queued + dropped |
| `EventBus.Drain` | backend/app/core/event_bus.py:63-70 | Reading n payloads in a row returns the n oldest queued ones, in order |
| `EventBus.SubscribersAreIsolated` | backend/app/core/event_bus.py:83-99 | What a subscriber holds and has received is a function of the publications and its own actions only; no other reader matters |
| `EventBus.MembersAreConsistent` | backend/app/core/event_bus.py:83-99 | Every subscriber of every bus run meets the queue invariant from its subscription on |
| `ClaimScorer.VerdictsArePartners` | backend/app/eval/claim_scorer.py:33-56 | Held and reverted exclude each other, up mirrors down, and a repricing reverts exactly when one of up and down is right but not the other |
| `ClaimScorer.VoidMeansUnknown` | backend/app/eval/claim_scorer.py:43-56 | The verdict is void exactly if a price is missing or the direction is unknown |
| `ClaimScorer.CorrectMeansMove` | backend/app/eval/claim_scorer.py:45-55 | With both prices each direction is correct exactly for a move of at least epsilon its way, in either way, or in neither |
| `ClaimScorer.ClaimScorerService.ScorePending` | backend/app/eval/claim_scorer.py:97-137 | The grading loop turns the claims into the graded claims and returns the exact tally |
| `ClaimScorer.CountsAddUp` | backend/app/eval/claim_scorer.py:108-134 | Correct, incorrect, void and skipped add up to the pending claims |
| `ClaimScorer.SomeQueryAnswers` | backend/app/eval/claim_scorer.py:85-93 | The assumption made about the database can be met: taking the first of the latest eligible rows answers every query |
| `ClaimScorer.FutureIsInvisible` | backend/app/eval/claim_scorer.py:64-95 | Rows outside the window, such as those past the horizon, leave the possible answers of a price query as they are |
| `ClaimScorer.PricesComeFromTheirWindows` | backend/app/eval/claim_scorer.py:64-123 | Whatever the database: the price at the claim is its own or that of a newest row no later than its making; the resolution price is that of a newest row after it and no later than its horizon |
| `ClaimScorer.LatestIsUnique` | backend/app/eval/claim_scorer.py:85-93 | If no two rows of the market share an instant, a price query has one possible answer |
| `ClaimScorer.PriceIsDetermined` | backend/app/eval/claim_scorer.py:85-93 | The answer's price is decided by the table exactly when all rows of the latest eligible instant agree on it |
| `ClaimScorer.DistinctInstantsAgree` | backend/app/eval/claim_scorer.py:85-93 | A table in which no two rows of the market share an instant decides every price of that market |
| `ClaimScorer.GradersAgreeExactlyWhenRowsDo` | backend/app/eval/claim_scorer.py:85-93 | All databases give one resolution price for a table exactly when the rows of the latest eligible instant agree |
| `ClaimScorer.TiedSourcesLeaveTheVerdictOpen` | backend/app/data/snapshots.py:46-52 | Two sources at one instant: two databases, both answering correctly, grade the same claim from the same table oppositely |
| `GradingRuns.GradedWhenHorizonPassed` | backend/app/eval/claim_scorer.py:109-114 | A claim is as made until some pass after its making reaches its horizon, and graded from then on |
| `GradingRuns.GradesAreFinal` | backend/app/eval/claim_scorer.py:101-105 | A graded claim never changes again |
| `GradingRuns.GradeIsFixed` | backend/app/eval/claim_scorer.py:116-135 | The grade is resolved from the price table of the moment of its pass |
| `GradingRuns.OldAnswerIsPossible` | backend/app/eval/claim_scorer.py:85-93 | Ties or not, a row answered earlier is still a possible answer exactly if no newer eligible row was added since |
| `GradingRuns.AnswerAfter` | backend/app/eval/claim_scorer.py:85-93 | Where the latest eligible rows agree, the answer's price is as before exactly if the newest newer row, if any, has it, and otherwise the row was not repriced |
| `GradingRuns.TableHoldsStandingWrites` | backend/app/data/snapshots.py:46-52 | After any history the table holds exactly the rows of the last quotes of their keys and, for keys without a quote since, of their first write: persisting never replaces a row, the price feed always does |
| `GradingRuns.GradeMatchesFinalTable` | backend/app/eval/claim_scorer.py:97-135 | Where the final table decides the horizon price, a resolution price is that price exactly under that condition; if the price at the claim is decided and stands as well, so does the verdict |
| `GradingRuns.GradedRowIsPossible` | backend/app/eval/claim_scorer.py:97-135 | For every table and every choice among ties: the row a claim was graded from could be the final table's answer exactly if no newer row of its window was recorded after its pass |
| `GradingRuns.GradingIsScheduleIndependent` | backend/app/eval/claim_scorer.py:97-135 | Two histories with the same claim and a final table that decides its horizon price: given that the first price stands, the prices agree exactly if the second stands, and the verdicts agree if all prices are decided and stand |
| `GradingRuns.LaterWritesStand` | backend/app/eval/claim_scorer.py:78-95 | If every later write for its market, append or overwrite, is for an instant past the horizon, the final table has the same possible answers as that of the pass; where it decides them, the resolution price and the verdict are the final table's |
| `GradingRuns.QuotesAfterTheHour` | backend/app/workers/price_feed_worker.py:250-264 | Once the hour of the horizon is over no quote of the price feed is for an instant at or before it |
| `GradingRuns.FeedIsOutOfReach` | backend/app/workers/price_feed_worker.py:250-275 | For every table and every window that is over: no quote from now on can change its possible answers exactly if the current hour lies past it, before it, or behind a later row of it |
| `GradingRuns.FedMarketIsOnTheHour` | backend/app/workers/price_feed_worker.py:185-275 | A market that only the feed writes, under whichever of its sources, has rows on the hour alone |
| `GradingRuns.HourlyGradeIsStable` | backend/app/workers/price_feed_worker.py:250-275 | In a market of hourly rows, with any sources and ties, no further quote can change what the resolution price may be exactly if the hour of the horizon is over or its row is not after the claim |
| `GradingRuns.LateRowChangesTheGrade` | backend/app/data/snapshots.py:48-75 | A row stamped with the horizon and persisted after a pass there: two schedules, the same final table, opposite verdicts |
| `GradingRuns.RepricedHourChangesTheGrade` | backend/app/workers/price_feed_worker.py:250-264 | A pass within the hour reads a row the feed then overwrites: two schedules, the same final table, opposite verdicts |
| `Backfill.Store.CaptureFactorSnapshot` | backend/app/alpha/provenance.py:46-60 | A forecast that has factors keeps them; otherwise exactly one record is added |
| `Backfill.Store.CaptureClosingLines` | backend/app/alpha/provenance.py:189-276 | Exactly the forecasts that lack a line and were locked before the last pre-close odds get one, and their number is returned |
| `Backfill.LineIsThatOfTheNewestRow` | backend/app/alpha/provenance.py:221-262 | A forecast gets a line exactly if the newest odds row of its market at or before the close is a probability and later than the lock, and then with the id, probability and instant of that row |
| `Backfill.Store.BackfillHistory` | backend/app/alpha/provenance.py:279-363 | For every page size the cursor loop ends, having written and counted what one sweep over the initially selected rows would |
| `Backfill.RestIsSelected` | backend/app/alpha/provenance.py:290-331 | After any number of rows the query past the cursor selects exactly the rows not yet visited, although visited rows may still lack a record |
| `Backfill.SelectionIsExact` | backend/app/alpha/provenance.py:290-320 | A run visits exactly the live scored forecasts that lack a record |
| `Backfill.ReportCountsWrites` | backend/app/alpha/provenance.py:334-357 | The two counters of written records are exactly the growth of the two tables |
| `Backfill.TallyAddsUp` | backend/app/alpha/provenance.py:334-357 | Written lines plus gaps equal the selected forecasts that lacked a line |
| `Backfill.NothingFillableIsLeft` | backend/app/alpha/provenance.py:290-357 | After a run every live scored forecast has factors, and has a line exactly when it had one or one can be had |
| `Backfill.WrittenLinesAreSound` | backend/app/alpha/provenance.py:229-262 | Every written line satisfies lock time < observation <= cutoff, every written factor record carries its forecast's market and lock time, and no record is ever overwritten |
| `Backfill.SecondRunOnlyRescansGaps` | backend/app/alpha/provenance.py:279-363 | On unchanged odds a second run writes nothing and scans exactly the gaps of the first |
| `NullabilityMigration.Connection.TryBatch` | backend/alembic/versions/067_notnull_json_parity.py:228-237 | One attempt either commits all statements or leaves the database as it was, under every fault |
| `NullabilityMigration.Connection.RunBatch` | backend/alembic/versions/067_notnull_json_parity.py:224-262 | The retry loop touches only its table and ends as the attempt-by-attempt definition says |
| `NullabilityMigration.Connection.Upgrade` | backend/alembic/versions/067_notnull_json_parity.py:265-294 | Table after table; the first batch that cannot be completed ends the run |
| `NullabilityMigration.Connection.Downgrade` | backend/alembic/versions/067_notnull_json_parity.py:297-320 | The reverse direction, with the reverse guard |
| `MigrationProperties.BatchIsAtomic` | backend/alembic/versions/067_notnull_json_parity.py:224-262 | A batch that completes has taken full effect; one that does not leaves its table as it was |
| `MigrationProperties.RunKeeps` | backend/alembic/versions/067_notnull_json_parity.py:265-320 | Under every fault and in both directions NOT NULL columns hold no NULL and no stored value other than NULL is altered |
| `MigrationProperties.RunFillsFromTargets` | backend/alembic/versions/067_notnull_json_parity.py:265-320 | Under every fault and in both directions, a NULL that a run replaces becomes a fill of a target for its own table and column |
| `MigrationProperties.CompletedRun` | backend/alembic/versions/067_notnull_json_parity.py:265-320 | A run that completes has every existing target column in the wanted state |
| `MigrationProperties.ResumeCompletes` | backend/alembic/versions/067_notnull_json_parity.py:265-294 | After any number of interrupted upgrades, one upgrade that completes leaves every existing target NOT NULL and free of NULL, and any further upgrade changes nothing |
| `MigrationProperties.RetryableFaultsAreSurvived` | backend/alembic/versions/067_notnull_json_parity.py:236-252 | A batch survives retryable faults as long as one of its three attempts is quiet |
| `MigrationProperties.BatchSurvives` | backend/alembic/versions/067_notnull_json_parity.py:224-262 | A batch on stored rows completes exactly if one of its three attempts is hit by no error and only deadlocks, lock or statement timeouts and serialization failures hit those before it |
| `MigrationProperties.QuietRunCompletes` | backend/alembic/versions/067_notnull_json_parity.py:282-291 | Without faults a run cannot fail on existing rows |
| `MigrationProperties.OtherColumnsStay` | backend/alembic/versions/067_notnull_json_parity.py:265-320 | A run touches no column that is not a target |
| `MigrationProperties.DownAndUpAgain` | backend/alembic/versions/067_notnull_json_parity.py:297-320 | Undoing a completed upgrade makes every target nullable, and upgrading again restores the upgraded database |
| `FillModel.FreeFillIsTheMid` | backend/app/backtesting/fill_model.py:86-106 | With no spread and size, each of the three sides fills at its mid exactly when the mid lies in [0.001, 0.999] |
| `FillModel.FreeFillMissesAnExtremeMid` | backend/app/backtesting/fill_model.py:106 | At a mid of zero every side misses its mid by 0.001 |
| `FillModel.FillVerdict` | backend/app/backtesting/fill_model.py:60-106 | A trade fills exactly for a mid in [0, 1] and non-negative costs; unless clipped to [0.001, 0.999] its price is the side's mid moved against the trader by half the spread and the size slippage |
| `FillModel.YesRoundTrip` | backend/app/backtesting/fill_model.py:86-106 | Buying YES and selling it gains exactly if the mid rose by more than twice the cost and neither price is clipped to its worst |
| `FillModel.NoGainSign` | backend/app/backtesting/snapshot_replay.py:297-308 | The gain booked for a NO position is positive exactly if the two mids add up to less than one, clipping aside |
| `FillModel.NoMarkToMarketSign` | backend/app/backtesting/snapshot_replay.py:297-308 | The gain of selling the NO shares again is positive exactly if the mid fell by more than twice the cost, clipping aside |
| `FillModel.NoGainIsNotMarkToMarket` | backend/app/backtesting/snapshot_replay.py:297-308 | For all mids and costs, booked and mark-to-market gain of a NO position agree exactly for an entry mid of one half plus the cost |
| `SnapshotReplay.RunSnapshotReplay` | backend/app/backtesting/snapshot_replay.py:264-412 | The replay loop, final close and report compute the fold of the per-tick steps, the Brier series and the fill statistics |
| `SnapshotReplay.BookSeesOnlyThePast` | backend/app/backtesting/snapshot_replay.py:272-366 | Position, equity, trades and equity points after k ticks depend on those k ticks alone |
| `SnapshotReplay.ReplayDoesNotLookAhead` | backend/app/backtesting/snapshot_replay.py:272-389 | Two replays agreeing on their first k ticks share the trades and equity points of those ticks in their final results |
| `SnapshotReplay.ScoresSeeOneTickAhead` | backend/app/backtesting/snapshot_replay.py:350-364 | The recorded outcomes and Brier points read no further than one tick ahead |
| `SnapshotReplay.ScoresDependOnTheNextTick` | backend/app/backtesting/snapshot_replay.py:350-364 | Replays agreeing on k ticks agree on their scores exactly if the agent passes at the last of them or the tick after it has the same outcome |
| `SnapshotReplay.NextTickDecidesTheScore` | backend/app/backtesting/snapshot_replay.py:350-356 | Two replays of one first tick whose scores differ because of the second |
| `ReplayScores.DecideMeansEdge` | backend/app/backtesting/snapshot_replay.py:199-212 | The agent trades exactly when the mid is at least five thresholds from one half, forecasts a fifth of the way to one half, and buys the side below it |
| `ReplayScores.ScoresRecordTicks` | backend/app/backtesting/snapshot_replay.py:346-364 | The recorded forecasts and outcomes are those of the traded ticks that have a following tick, in order, with outcome one exactly if the mid did not fall |
| `ReplayScores.BrierIsMeanSquare` | backend/app/backtesting/snapshot_replay.py:356-364 | The Brier score is the mean squared miss, and zero exactly if every forecast was right |
| `ReplayScores.FinalScore` | backend/app/backtesting/snapshot_replay.py:346-412 | The final score of a completed replay is the mean squared miss of its recorded forecasts, if there are any |
| `ReplayAccounting.EveryEntryIsClosedOnce` | backend/app/backtesting/snapshot_replay.py:272-389 | Final equity is initial equity plus the gains of closing each entry at the next and the last at the end; the trades are each entry after the close of its predecessor; the curve is the equity booked at each tick but the first entry's, and once more at the end |
| `ReplayCashFlow.ProfitIsFlowOfFills` | backend/app/backtesting/snapshot_replay.py:272-389 | What a replay gains is the stake times the signed sum of all recorded fill prices and of the final close: every YES purchase counts negatively, every YES sale and every NO purchase positively |
| `ReplayAccounting.EquityPointTimes` | backend/app/backtesting/snapshot_replay.py:310-387 | The times of the equity points: all ticks but the first entry's, then the last tick again if there is an entry |
| `ReplayAccounting.FirstEntryHasNoPoint` | backend/app/backtesting/snapshot_replay.py:310-387 | A replay of two ticks with both equity points at the second |
| `ReplayAccounting.ScoresRun` | backend/app/backtesting/snapshot_replay.py:350-364 | From the second forecast on there is one Brier point per forecast, holding the score of all forecasts so far |
| `ReplayAccounting.QualityCountsNoCloses` | backend/app/backtesting/snapshot_replay.py:391-401 | The trade count is the entries plus the NO entries closed by a later entry; every counted slippage is the cost; the total profit is that of all entries and the mean divides it by the miscounted trades |
| `ReplayAccounting.MeanPnlIsPerEntry` | backend/app/backtesting/snapshot_replay.py:391-401 | The reported mean profit is that per entry exactly if no NO entry was closed by a later entry or nothing was gained |
| `ReplayAccounting.NoCloseIsCounted` | backend/app/backtesting/snapshot_replay.py:391-401 | The failing input: two NO entries at 0.8 without costs are counted as three trades, with a mean loss of 0.4 where each lost 0.6 |
| `ReplayAccounting.ValidMarketCompletes` | backend/app/backtesting/snapshot_replay.py:264-412 | With mids in [0, 1] and non-negative costs every replay completes |
| `ReplayAccounting.NoRoundTripIsNoGain` | backend/app/backtesting/snapshot_replay.py:297-308 | What the replay books for a NO position is the booked gain of the fill model times the stake |
| `ReplayAccounting.YesRoundTripIsYesGain` | backend/app/backtesting/snapshot_replay.py:299-308 | What the replay books for a YES position is its sale price less its purchase price, times the stake |
| `ReplayAccounting.FallingMidBooksALoss` | backend/app/backtesting/snapshot_replay.py:368-389 | With the default stake, costs and threshold, a NO entry at 0.8 closed at 0.5 is booked as losing 30 while its shares gained 8 |
| `ReplayAccounting.SameMidNeverGains` | backend/app/backtesting/snapshot_replay.py:199-211 | A position the agent takes, closed at the mid it was opened at, never gains |
| `CloneService.CleanNameFacts` | backend/app/agents/clone_service.py:97 | A stored name is the given one without the spaces around it, cut to 128 characters; a short name without outer spaces is stored as given |
| `CloneService.ValidateNodes` | backend/app/agents/clone_service.py:45-66 | The deduplicating loop returns the validated list or the error |
| `CloneService.DeduplicatedFacts` | backend/app/agents/clone_service.py:59-66 | Deduplication keeps one occurrence of every node, in the order of first occurrences |
| `CloneService.ValidationIsExact` | backend/app/agents/clone_service.py:51-66 | An accepted list is non-empty, allowed and duplicate-free, and such a list is accepted unchanged |
| `CloneService.ClampIsNearest` | backend/app/agents/clone_service.py:69-74 | A stored number lies within its bounds and nothing within them is nearer to the given one |
| `CloneService.CreationIsStored` | backend/app/agents/clone_service.py:79-107 | A creation within the bounds stores its settings unchanged, with the name in its stored form |
| `CloneService.CloneTable.CreateClone` | backend/app/agents/clone_service.py:79-107 | A rejected creation changes nothing; an accepted one appends version 1 |
| `CloneService.CloneTable.UpdateClone` | backend/app/agents/clone_service.py:157-202 | A rejected edit changes nothing; an accepted one retires the latest row and appends the next version |
| `CloneService.EditIsStored` | backend/app/agents/clone_service.py:176-199 | Settings an edit gives within bounds are stored as given; those it does not give stay as they are |
| `CloneService.EditVerdict` | backend/app/agents/clone_service.py:157-175 | An edit is accepted exactly if the caller owns the clone's latest row and the nodes it gives are all vetted |
| `CloneService.EditIsApplied` | backend/app/agents/clone_service.py:157-202 | An accepted edit retires the clone's latest row and appends its next version |
| `CloneService.CloneTable.DeleteClone` | backend/app/agents/clone_service.py:205-220 | Exactly the caller's rows of the clone lose their flag, and their number is returned |
| `CloneService.RunKeepsSound` | backend/app/agents/clone_service.py:79-220 | Over every run: versions are exactly 1..k, one owner per clone, at most one latest row and it is the newest, stored names, nodes and bounds proper, history changes only in cleared flags |
| `CloneService.DeleteDeletes` | backend/app/agents/clone_service.py:210-219 | An owner's deletion leaves no latest version |
| `CloneService.DeletedForGood` | backend/app/agents/clone_service.py:172-174 | A deleted clone stays deleted and never gains another version |
| `CloneService.ForeignOpsChangeNothing` | backend/app/agents/clone_service.py:172-219 | Another user's edit or deletion leaves the table as it was |
| `CloneService.RunCloneGraph` | backend/app/agents/clone_service.py:257-271 | The trace is chained: each step starts from the state the one before left; a node outside the allowlist ends the run with an error |
| `ForecastQueue.BackoffShape` | extension/src/queue.ts:194-197 | The delay starts at one second, doubles with every failed attempt, never decreases, and stops at five minutes |
| `ForecastQueue.Store.EnqueueForecast` | extension/src/queue.ts:55-80 | A queued key returns its row and changes nothing; a new one is appended as pending |
| `ForecastQueue.Store.SyncQueuedForecasts` | extension/src/queue.ts:82-127 | The send loop, saving before and after every send, ends in the state and counts of the row-by-row pass |
| `ForecastQueue.RunIsConsistent` | extension/src/queue.ts:55-127 | Over every run keys are unique, attempts equal the sends of the key, every send keeps the backoff of every earlier one, and only a last send can have been accepted |
| `ForecastQueue.RowsCarryTheirForecast` | extension/src/queue.ts:55-80 | Over every run each row carries the message and lock time its key was first enqueued with |
| `ForecastQueue.PassCountsSends` | extension/src/queue.ts:82-127 | A pass reports how many of its sends were accepted and how many were not |
| `ForecastQueue.PassLeavesNothingPending` | extension/src/queue.ts:82-127 | A complete pass leaves no pending row and none in transit |
| `ForecastQueue.ReadyRowsAreSent` | extension/src/queue.ts:82-127 | After any run a pass sends a key exactly once if it was never sent or its last send was rejected and its backoff has passed, and otherwise leaves it alone |
| `ForecastQueue.SyncedIsFinal` | extension/src/queue.ts:91-96 | No row ever disappears; a synced row never changes and is never sent again |
| `AnalystMetrics.AggregateClaims` | backend/app/eval/analyst_metrics.py:72-105 | The nested bucketing loops and the output loop give one aggregate per bucket, in order of first insertion |
| `AnalystMetrics.BucketIsFilter` | backend/app/eval/analyst_metrics.py:80-88 | The bucket of a key holds exactly the graded claims in the window with that name, in order, and exists exactly if there is one |
| `AnalystMetrics.AggregateMeans` | backend/app/eval/analyst_metrics.py:91-104 | Of a bucket: accuracy times the count is the number of correct claims, the Brier score times the count the sum of squared misses, and it is provisional exactly below the minimum |
| `AnalystMetrics.WindowMeansDays` | backend/app/eval/analyst_metrics.py:55-58 | A claim is in a window of days if it was resolved at most that many days ago; window zero takes all |
| `AnalystMetrics.WindowsAreNested` | backend/app/eval/analyst_metrics.py:55-58 | The seven-day claims of a group are a subsequence of its thirty-day claims, and those of all of them |
| `AnalystMetrics.EveryDimensionAddsUp` | backend/app/eval/analyst_metrics.py:61-68 | In every dimension and window the counts, correct counts and Brier sums over its keys add up to those of overall |
| `AnalystMetrics.AggregatesAreProper` | backend/app/eval/analyst_metrics.py:91-104 | No key repeats among the aggregates and each stands for at least one claim, so no rate divides by zero |

## Left out

- RiskDecomposer.Decompose: demands that the factor returns of the regressed observations are finite, because the source does not check them and its arithmetic on NaN is not modelled; the constructor's own observations always meet this (`ChainReadsTheSameObservations`).
- GaussJordan.Invert: floating-point rounding is not modelled, so the statements are about exact elimination.
- DeflatedSharpe.AdjustmentIsNonNegative: constant return series are excluded, because the source answers them before it computes the adjustment.
- NeweyWest.NeweyWestVariance: takes the lag as an argument; the cube-root choice of the lag is not modelled.
- WalkForward.CollectComparisons: ends at the comparisons handed to the scorer; the scorer itself is not part of this model, nor is the parsing of time stamps.
- RateLimit.DecisionsMatchReference: one limit and one window length per run, as each caller of the source uses its own.
- GradingRuns.GradingIsScheduleIndependent: the verdict of claims whose price at the claim or at the horizon does not stand may still happen to agree; only the prices are characterised exactly. Where tied rows disagree, `GradedRowIsPossible` and `LaterWritesStand` speak of possible answers, because which of them the database returns is not determined.
- Backfill.Store.CaptureFactorSnapshot: the features and provenance inside a factor record are not modelled, only its presence and whether it was backfilled.
- Backfill.Store.BackfillHistory: rows inserted or changed by others during the run are not modelled.
- NullabilityMigration.Connection.Upgrade: writers running beside the migration are seen only as faults; lock and statement timeouts and pauses between attempts appear only through their SQLSTATEs; the regrouping of the fix table is taken as given.
- CloneService.CloneTable.CreateClone: the random ids are not modelled; ids are arguments and a creation uses a new one.
- ForecastQueue.Store.SyncQueuedForecasts: complete passes that do not overlap other operations; a row left `syncing` by a crash is never sent again by the source and does not arise here. The hash behind the key is opaque, and the IndexedDB store's re-sorting on load is not modelled.
- AnalystMetrics.AggregateClaims: rates are not rounded, and replacing the stored aggregates is not modelled.
- Rounding of published numbers (`round`, `Decimal`) throughout.
- The normal distribution, the expected maximum Sharpe ratio (the benchmark of the score is a parameter) and the bootstrap draws of the statistical gates, and the order in which the validator reports gates.
- The circuit breaker, the small per-purpose caches, `max_drawdown`, ensembles, calibration bins and candle seeding: they would add easier members of the same kinds.
- HTTP routing, database sessions and savepoint races, language-model calls, WebSockets and scheduling.
