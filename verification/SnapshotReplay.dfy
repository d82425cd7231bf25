/** Backtest replay of one market's price snapshots with a single open position. */
module SnapshotReplay {
  import opened FillModel
  import opened LinearAlgebra
  import opened Wrappers

  datatype Snapshot = Snapshot(at: int, yes: real)
  datatype Trade = Trade(at: int, side: Side, mid: real, fill: Fill, predicted: real, edge: real)
  datatype Point = Point(at: int, equity: real)
  datatype Position = Position(entry: real, side: Side, predicted: real)
  datatype Decision = Decision(predicted: real, side: Side)
  datatype Params = Params(initial: real, costs: Costs, threshold: real)

  /** What trading decides at one tick. */
  datatype Book = Book(equity: real, open: Option<Position>, trades: seq<Trade>, curve: seq<Point>)

  datatype BrierPoint = BrierPoint(at: int, brier: real, count: nat)

  /** The forecasts, their next-tick outcomes and the running Brier scores, recorded beside the book. */
  datatype Scores = Scores(predictions: seq<real>, outcomes: seq<int>, points: seq<BrierPoint>)

  datatype State = State(book: Book, scores: Scores)

  // ---------- The agent ----------

  /** Leans a fifth of the way towards one half, and trades when that is edge enough. */
  function Decide(s: Snapshot, threshold: real): Option<Decision> {
    var predicted := 0.5 + (s.yes - 0.5) * 0.8;
    var edgeYes := predicted - s.yes;
    var edgeNo := (1.0 - predicted) - (1.0 - s.yes);
    var best := if edgeYes < edgeNo then edgeNo else edgeYes;
    if best < threshold then None
    else Some(Decision(predicted, if edgeYes >= edgeNo then YesBuy else NoBuy))
  }

  /** The agent buys the side below one half. */
  lemma DecideSide(s: Snapshot, threshold: real)
    ensures Decide(s, threshold).Some? ==>
              (Decide(s, threshold).value.side == YesBuy <==> s.yes <= 0.5)
  {
  }

  // ---------- One tick ----------

  function CloseSide(p: Position): Side {
    if p.side == YesBuy then YesSell else YesBuy
  }

  function Gain(p: Position, close: real, stake: real): real {
    if p.side == YesBuy then (close - p.entry) * stake else (p.entry - close) * stake
  }

  /** Closes the open position, if any, at the tick's mid. */
  function Close(b: Book, s: Snapshot, c: Costs): Result<Book, FillError> {
    if b.open.None? then Success(b)
    else
      var p := b.open.value;
      var fill :- ComputeFill(CloseSide(p), s.yes, c);
      var equity := b.equity + Gain(p, fill.price, c.size);
      Success(Book(equity, None, b.trades + [Trade(s.at, CloseSide(p), s.yes, fill, p.predicted, 0.0)],
                   b.curve + [Point(s.at, equity)]))
  }

  function Enter(b: Book, s: Snapshot, d: Decision, c: Costs): Result<Book, FillError> {
    var fill :- ComputeFill(d.side, s.yes, c);
    var edge := if d.side == YesBuy then d.predicted - s.yes else (1.0 - d.predicted) - (1.0 - s.yes);
    Success(b.(open := Some(Position(fill.price, d.side, d.predicted)),
               trades := b.trades + [Trade(s.at, d.side, s.yes, fill, d.predicted, edge)]))
  }

  function TickBook(b: Book, s: Snapshot, params: Params): Result<Book, FillError> {
    match Decide(s, params.threshold)
    case None => Success(b.(curve := b.curve + [Point(s.at, b.equity)]))
    case Some(d) =>
      var closed :- Close(b, s, params.costs);
      Enter(closed, s, d, params.costs)
  }

  function SquaredErrors(predictions: seq<real>, outcomes: seq<int>): real
    requires |predictions| == |outcomes|
  {
    if predictions == [] then 0.0
    else
      var n := |predictions| - 1;
      var miss := predictions[n] - outcomes[n] as real;
      SquaredErrors(predictions[..n], outcomes[..n]) + Times(miss, miss)
  }

  function BrierScore(predictions: seq<real>, outcomes: seq<int>): real
    requires |predictions| == |outcomes|
  {
    if predictions == [] then 0.0 else Quotient(SquaredErrors(predictions, outcomes), |predictions| as real)
  }

  function AddScore(scores: Scores, s: Snapshot, predicted: real, outcome: int): (r: Scores)
    requires |scores.predictions| == |scores.outcomes|
    ensures |r.predictions| == |r.outcomes|
  {
    var predictions, outcomes := scores.predictions + [predicted], scores.outcomes + [outcome];
    var n := |predictions|;
    Scores(predictions, outcomes,
           if n >= 2 then scores.points + [BrierPoint(s.at, BrierScore(predictions, outcomes), n)] else scores.points)
  }

  /** Whether the mid did not fall until the following tick, if there is one. */
  function Outcome(s: Snapshot, next: Option<Snapshot>): Option<int> {
    if next.None? then None else Some(if next.value.yes >= s.yes then 1 else 0)
  }

  /** The outcome of a forecast is read from the following tick. */
  function TickScores(scores: Scores, s: Snapshot, next: Option<Snapshot>, threshold: real): (r: Scores)
    requires |scores.predictions| == |scores.outcomes|
    ensures |r.predictions| == |r.outcomes|
  {
    var d, outcome := Decide(s, threshold), Outcome(s, next);
    if d.None? || outcome.None? then scores else AddScore(scores, s, d.value.predicted, outcome.value)
  }

  // ---------- The run ----------

  function NextTick(snapshots: seq<Snapshot>, k: nat): Option<Snapshot> {
    if k + 1 < |snapshots| then Some(snapshots[k + 1]) else None
  }

  function BookAfter(snapshots: seq<Snapshot>, k: nat, params: Params): Result<Book, FillError>
    requires k <= |snapshots|
  {
    if k == 0 then Success(Book(params.initial, None, [], []))
    else
      var before :- BookAfter(snapshots, k - 1, params);
      TickBook(before, snapshots[k - 1], params)
  }

  function ScoresAfter(snapshots: seq<Snapshot>, k: nat, threshold: real): (r: Scores)
    requires k <= |snapshots|
    ensures |r.predictions| == |r.outcomes|
  {
    if k == 0 then Scores([], [], [])
    else TickScores(ScoresAfter(snapshots, k - 1, threshold), snapshots[k - 1], NextTick(snapshots, k - 1), threshold)
  }

  /** Closes what is still open at the last price; this close books equity but no trade. */
  function Settle(b: Book, last: Snapshot, c: Costs): Result<Book, FillError> {
    if b.open.None? then Success(b)
    else
      var closed :- Close(b, last, c);
      Success(closed.(trades := b.trades))
  }

  datatype FillQuality = FillQuality(
    tradeCount: nat,
    meanSlippage: real,
    maxSlippage: real,
    totalPnl: real,
    meanPnl: real)

  /** The trades on a buying side: what the statistics take for entries. */
  function BuyingTrades(trades: seq<Trade>): seq<Trade> {
    if trades == [] then []
    else
      var last := trades[|trades| - 1];
      BuyingTrades(trades[..|trades| - 1]) + (if last.side == YesBuy || last.side == NoBuy then [last] else [])
  }

  function Abs(x: real): real {
    if x < 0.0 then -x else x
  }

  function SlippageSum(trades: seq<Trade>): real {
    if trades == [] then 0.0
    else SlippageSum(trades[..|trades| - 1]) + Abs(trades[|trades| - 1].fill.slippage)
  }

  function MaxSlippage(trades: seq<Trade>): real
    requires trades != []
  {
    var last := Abs(trades[|trades| - 1].fill.slippage);
    if |trades| == 1 then last
    else
      var before := MaxSlippage(trades[..|trades| - 1]);
      if before < last then last else before
  }

  function Quality(trades: seq<Trade>, pnl: real): FillQuality {
    var buys := BuyingTrades(trades);
    if buys == [] then FillQuality(0, 0.0, 0.0, 0.0, 0.0)
    else
      var n := |buys| as real;
      FillQuality(|buys|, Quotient(SlippageSum(buys), n), MaxSlippage(buys), pnl, Quotient(pnl, n))
  }

  datatype Replay =
    | InsufficientData
    | Replay(state: State, quality: FillQuality, brierFinal: Option<real>)

  function Report(state: State, initial: real): Replay
    requires |state.scores.predictions| == |state.scores.outcomes|
  {
    Replay(state, Quality(state.book.trades, state.book.equity - initial),
           if state.scores.predictions == [] then None
           else Some(BrierScore(state.scores.predictions, state.scores.outcomes)))
  }

  function RunReplay(snapshots: seq<Snapshot>, params: Params): Result<Replay, FillError> {
    if |snapshots| < 2 then Success(InsufficientData)
    else
      var book :- BookAfter(snapshots, |snapshots|, params);
      var settled :- Settle(book, snapshots[|snapshots| - 1], params.costs);
      Success(Report(State(settled, ScoresAfter(snapshots, |snapshots|, params.threshold)), params.initial))
  }

  /** The replay loop. */
  method RunSnapshotReplay(snapshots: seq<Snapshot>, params: Params) returns (r: Result<Replay, FillError>)
    ensures r == RunReplay(snapshots, params)
  {
    if |snapshots| < 2 {
      return Success(InsufficientData);
    }
    var book := Book(params.initial, None, [], []);
    var scores := Scores([], [], []);
    for i := 0 to |snapshots|
      invariant BookAfter(snapshots, i, params) == Success(book)
      invariant scores == ScoresAfter(snapshots, i, params.threshold)
    {
      var s := snapshots[i];
      var decision := Decide(s, params.threshold);
      if decision.None? {
        book := book.(curve := book.curve + [Point(s.at, book.equity)]);
        continue;
      }
      var closed := Close(book, s, params.costs);
      var entered := if closed.Failure? then closed else Enter(closed.value, s, decision.value, params.costs);
      if entered.Failure? {
        FailureStops(snapshots, i + 1, |snapshots|, params, entered.error);
        return Failure(entered.error);
      }
      book := entered.value;
      if i + 1 < |snapshots| {
        var outcome := if snapshots[i + 1].yes >= s.yes then 1 else 0;
        scores := AddScore(scores, s, decision.value.predicted, outcome);
      }
    }
    var settled := Settle(book, snapshots[|snapshots| - 1], params.costs);
    if settled.Failure? {
      return Failure(settled.error);
    }
    r := Success(Report(State(settled.value, scores), params.initial));
  }

  lemma {:induction false} FailureStops(snapshots: seq<Snapshot>, k: nat, n: nat, params: Params, e: FillError)
    requires k <= n <= |snapshots| && BookAfter(snapshots, k, params) == Failure(e)
    ensures BookAfter(snapshots, n, params) == Failure(e)
    decreases n
  {
    if k < n {
      FailureStops(snapshots, k, n - 1, params, e);
    }
  }

  // ---------- No look-ahead ----------

  lemma SharedTicks(a: seq<Snapshot>, b: seq<Snapshot>, k: nat, j: nat)
    requires j < k <= |a| && k <= |b| && a[..k] == b[..k]
    ensures a[..j] == b[..j] && a[j] == b[j]
  {
    assert a[j] == a[..k][j] && b[j] == b[..k][j];
    assert a[..j] == a[..k][..j] && b[..j] == b[..k][..j];
  }

  /** The book after k ticks is decided by those k ticks alone. */
  lemma {:induction false} BookSeesOnlyThePast(a: seq<Snapshot>, b: seq<Snapshot>, k: nat, params: Params)
    requires k <= |a| && k <= |b| && a[..k] == b[..k]
    ensures BookAfter(a, k, params) == BookAfter(b, k, params)
  {
    if k > 0 {
      SharedTicks(a, b, k, k - 1);
      BookSeesOnlyThePast(a, b, k - 1, params);
    }
  }

  /** Later ticks only append to trades and equity points. */
  lemma {:induction false} LaterTicksAppend(snapshots: seq<Snapshot>, k: nat, n: nat, params: Params)
    requires k <= n <= |snapshots| && BookAfter(snapshots, n, params).Success?
    ensures BookAfter(snapshots, k, params).Success?
    ensures BookAfter(snapshots, k, params).value.trades <= BookAfter(snapshots, n, params).value.trades
    ensures BookAfter(snapshots, k, params).value.curve <= BookAfter(snapshots, n, params).value.curve
    decreases n
  {
    if k < n {
      LaterTicksAppend(snapshots, k, n - 1, params);
    }
  }

  /** Two completed replays that agree on the first k ticks share the trades and equity points of those ticks. */
  lemma ReplayDoesNotLookAhead(a: seq<Snapshot>, b: seq<Snapshot>, k: nat, params: Params)
    requires k <= |a| && k <= |b| && a[..k] == b[..k] && |a| >= 2 && |b| >= 2
    requires RunReplay(a, params).Success? && RunReplay(b, params).Success?
    ensures BookAfter(a, k, params).Success? && BookAfter(b, k, params) == BookAfter(a, k, params)
    ensures var shared := BookAfter(a, k, params).value;
            && shared.trades <= RunReplay(a, params).value.state.book.trades
            && shared.trades <= RunReplay(b, params).value.state.book.trades
            && shared.curve <= RunReplay(a, params).value.state.book.curve
            && shared.curve <= RunReplay(b, params).value.state.book.curve
  {
    BookSeesOnlyThePast(a, b, k, params);
    LaterTicksAppend(a, k, |a|, params);
    LaterTicksAppend(b, k, |b|, params);
  }

  /** The scores read no further than one tick ahead. */
  lemma {:induction false} ScoresSeeOneTickAhead(a: seq<Snapshot>, b: seq<Snapshot>, k: nat, threshold: real)
    requires k < |a| && k < |b| && a[..k + 1] == b[..k + 1]
    ensures ScoresAfter(a, k, threshold) == ScoresAfter(b, k, threshold)
  {
    if k > 0 {
      SharedTicks(a, b, k + 1, k);
      SharedTicks(a, b, k + 1, k - 1);
      ScoresSeeOneTickAhead(a, b, k - 1, threshold);
    }
  }

  lemma AddScoreTells(scores: Scores, s: Snapshot, predicted: real, x: int, y: int)
    requires |scores.predictions| == |scores.outcomes|
    ensures AddScore(scores, s, predicted, x) != scores
    ensures AddScore(scores, s, predicted, x) == AddScore(scores, s, predicted, y) <==> x == y
  {
    var n := |scores.outcomes|;
    assert AddScore(scores, s, predicted, x).outcomes[n] == x && AddScore(scores, s, predicted, y).outcomes[n] == y;
  }

  /**
   * Replays that agree on their first k ticks agree on the scores of those ticks exactly if the agent
   * passes at the last of them or the tick after it, which neither replay has reached, has the same outcome.
   */
  lemma ScoresDependOnTheNextTick(a: seq<Snapshot>, b: seq<Snapshot>, k: nat, threshold: real)
    requires 0 < k <= |a| && k <= |b| && a[..k] == b[..k]
    ensures ScoresAfter(a, k, threshold) == ScoresAfter(b, k, threshold)
       <==> Decide(a[k - 1], threshold).None?
            || Outcome(a[k - 1], NextTick(a, k - 1)) == Outcome(a[k - 1], NextTick(b, k - 1))
  {
    SharedTicks(a, b, k, k - 1);
    ScoresSeeOneTickAhead(a, b, k - 1, threshold);
    TickScoresTell(ScoresAfter(a, k - 1, threshold), a[k - 1], NextTick(a, k - 1), NextTick(b, k - 1), threshold);
  }

  lemma TickScoresTell(scores: Scores, s: Snapshot, x: Option<Snapshot>, y: Option<Snapshot>, threshold: real)
    requires |scores.predictions| == |scores.outcomes|
    ensures TickScores(scores, s, x, threshold) == TickScores(scores, s, y, threshold)
       <==> Decide(s, threshold).None? || Outcome(s, x) == Outcome(s, y)
  {
    var d := Decide(s, threshold);
    if d.Some? {
      var m, n := Outcome(s, x), Outcome(s, y);
      AddScoreTells(scores, s, d.value.predicted, if m.Some? then m.value else 0, if n.Some? then n.value else 0);
      AddScoreTells(scores, s, d.value.predicted, if n.Some? then n.value else 0, if m.Some? then m.value else 0);
    }
  }

  /** A replay whose score of the first tick was decided by the second. */
  lemma NextTickDecidesTheScore()
    ensures var rising, falling := [Snapshot(0, 0.1), Snapshot(1, 0.2)], [Snapshot(0, 0.1), Snapshot(1, 0.05)];
            && rising[..1] == falling[..1]
            && ScoresAfter(rising, 1, 0.05) != ScoresAfter(falling, 1, 0.05)
  {
    var rising, falling := [Snapshot(0, 0.1), Snapshot(1, 0.2)], [Snapshot(0, 0.1), Snapshot(1, 0.05)];
    assert rising[..1] == falling[..1];
    ScoresDependOnTheNextTick(rising, falling, 1, 0.05);
  }
}
