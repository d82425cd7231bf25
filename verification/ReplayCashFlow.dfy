/** The equity of a replay as the signed sum of the fill prices it records. */
module ReplayCashFlow {
  import opened FillModel
  import opened LinearAlgebra
  import opened ReplayAccounting
  import opened SnapshotReplay
  import opened Wrappers

  /** How a fill counts per share: buying YES costs its price; selling YES, and also buying NO, brings it. */
  function Flow(side: Side, price: real): real {
    if side == YesBuy then -price else price
  }

  /** The flows of all recorded trades. */
  function Flows(trades: seq<Trade>): real {
    if trades == [] then 0.0
    else
      var last := trades[|trades| - 1];
      Flows(trades[..|trades| - 1]) + Flow(last.side, last.fill.price)
  }

  lemma OneFlow(t: Trade)
    ensures Flows([t]) == Flow(t.side, t.fill.price)
  {
    assert [t][..0] == [];
    assert Flows([]) == 0.0;
  }

  lemma {:induction false} FlowsSum(a: seq<Trade>, b: seq<Trade>)
    ensures Flows(a + b) == Flows(a) + Flows(b)
  {
    if b == [] {
      assert a + b == a;
    } else {
      FlowsSum(a, b[..|b| - 1]);
      assert (a + b)[..|a + b| - 1] == a + b[..|b| - 1];
    }
  }

  /** The price at which an entry is bought, and its flow: the clipped mid and cost of its side. */
  function EntryFlow(s: Snapshot, c: Costs): real {
    if s.yes <= 0.5 then -Clip(s.yes + Cost(c)) else Clip(1.0 - s.yes + Cost(c))
  }

  /** The flow of closing it at a later tick: selling YES for a YES position, buying YES for a NO position. */
  function CloseFlow(s: Snapshot, t: Snapshot, c: Costs): real {
    if s.yes <= 0.5 then Clip(t.yes - Cost(c)) else -Clip(t.yes + Cost(c))
  }

  lemma EntryTradeFlow(s: Snapshot, params: Params)
    requires Filled([s], params)
    ensures Flows(EntryTrade(s, params)) == EntryFlow(s, params.costs)
  {
    assert [s][0] == s;
    DecideSide(s, params.threshold);
    OneFlow(EntryTrade(s, params)[0]);
    assert EntryTrade(s, params) == [EntryTrade(s, params)[0]];
  }

  lemma CloseTradeFlow(s: Snapshot, t: Snapshot, params: Params)
    requires Filled([s], params) && 0.0 <= t.yes <= 1.0
    ensures Flows(CloseTrade(s, t, params)) == CloseFlow(s, t, params.costs)
  {
    assert [s][0] == s;
    DecideSide(s, params.threshold);
    OneFlow(CloseTrade(s, t, params)[0]);
    assert CloseTrade(s, t, params) == [CloseTrade(s, t, params)[0]];
  }

  /** A position's gain per share on the side that the agent takes. */
  function SideGain(s: Snapshot, t: Snapshot, c: Costs): real {
    if s.yes <= 0.5 then YesGain(s.yes, t.yes, c) else NoGain(s.yes, t.yes, c)
  }

  lemma GainIsFlow(s: Snapshot, t: Snapshot, c: Costs)
    ensures SideGain(s, t, c) == EntryFlow(s, c) + CloseFlow(s, t, c)
  {
  }

  lemma ProductIsTimes(trip: real, gain: real, stake: real)
    requires trip == gain * stake
    ensures trip == Times(stake, gain)
  {
  }

  lemma YesTripIsSideGain(s: Snapshot, t: Snapshot, params: Params)
    requires ValidMarket([s, t], params.costs) && Decide(s, params.threshold).Some? && s.yes <= 0.5
    ensures RoundTrip(s, t, params) == Times(params.costs.size, SideGain(s, t, params.costs))
  {
    YesRoundTripIsYesGain(s, t, params);
    ProductIsTimes(RoundTrip(s, t, params), YesGain(s.yes, t.yes, params.costs), params.costs.size);
  }

  lemma NoTripIsSideGain(s: Snapshot, t: Snapshot, params: Params)
    requires ValidMarket([s, t], params.costs) && Decide(s, params.threshold).Some? && s.yes > 0.5
    ensures RoundTrip(s, t, params) == Times(params.costs.size, SideGain(s, t, params.costs))
  {
    NoRoundTripIsNoGain(s, t, params);
    ProductIsTimes(RoundTrip(s, t, params), NoGain(s.yes, t.yes, params.costs), params.costs.size);
  }

  lemma RoundTripIsSideGain(s: Snapshot, t: Snapshot, params: Params)
    requires Filled([s], params) && 0.0 <= t.yes <= 1.0
    ensures RoundTrip(s, t, params) == Times(params.costs.size, SideGain(s, t, params.costs))
  {
    assert [s][0] == s;
    ValidPair(s, t, params.costs);
    if s.yes <= 0.5 {
      YesTripIsSideGain(s, t, params);
    } else {
      NoTripIsSideGain(s, t, params);
    }
  }

  /** Every round trip, YES or NO, gains its two flows times the stake. */
  ghost predicate TripIsFlow(trip: real, stake: real, entry: real, close: real) {
    trip == Times(stake, entry + close)
  }

  lemma GainTimesStake(trip: real, gain: real, stake: real, entry: real, close: real)
    requires trip == Times(stake, gain) && gain == entry + close
    ensures TripIsFlow(trip, stake, entry, close)
  {
  }

  lemma FlowOfGain(s: Snapshot, t: Snapshot, c: Costs, trip: real) returns (entry: real, close: real)
    requires trip == Times(c.size, SideGain(s, t, c))
    ensures entry == EntryFlow(s, c) && close == CloseFlow(s, t, c) && TripIsFlow(trip, c.size, entry, close)
  {
    entry, close := EntryFlow(s, c), CloseFlow(s, t, c);
    GainIsFlow(s, t, c);
    GainTimesStake(trip, SideGain(s, t, c), c.size, entry, close);
  }

  lemma RoundTripFlow(s: Snapshot, t: Snapshot, params: Params) returns (trip: real, entry: real, close: real)
    requires Filled([s], params) && 0.0 <= t.yes <= 1.0
    ensures trip == RoundTrip(s, t, params) && entry == EntryFlow(s, params.costs) && close == CloseFlow(s, t, params.costs)
    ensures TripIsFlow(trip, params.costs.size, entry, close)
  {
    RoundTripIsSideGain(s, t, params);
    trip := RoundTrip(s, t, params);
    entry, close := FlowOfGain(s, t, params.costs, trip);
  }

  /** The flow of the entry still open. */
  function OpenFlow(entries: seq<Snapshot>, c: Costs): real {
    if entries == [] then 0.0 else EntryFlow(entries[|entries| - 1], c)
  }

  /** The recorded flows times the stake are the booked gains and the flow of the open entry. */
  ghost predicate FlowsMatch(entries: seq<Snapshot>, open: real, params: Params) {
    Times(params.costs.size, Flows(TradesOf(entries, params)))
    == ChainedGains(entries, params) + Times(params.costs.size, open)
  }

  lemma OpeningFlowsMatch(s: Snapshot, params: Params, open: real)
    requires Filled([s], params) && open == EntryFlow(s, params.costs)
    ensures FlowsMatch([s], open, params)
  {
    OpeningEntry(s, params);
    EntryTradeFlow(s, params);
  }

  lemma FlowArithmetic(size: real, flows: real, gains: real, open: real, close: real, entry: real, trip: real)
    requires Times(size, flows) == gains + Times(size, open) && TripIsFlow(trip, size, open, close)
    ensures Times(size, flows + close + entry) == gains + trip + Times(size, entry)
  {
    TimesAdd(flows + close, entry, size);
    TimesAdd(flows, close, size);
    TimesAdd(open, close, size);
  }

  lemma FlowsOfNext(entries: seq<Snapshot>, s: Snapshot, params: Params, close: real, entry: real)
    requires entries != [] && Filled([entries[|entries| - 1], s], params)
    requires close == CloseFlow(entries[|entries| - 1], s, params.costs) && entry == EntryFlow(s, params.costs)
    ensures Flows(TradesOf(entries + [s], params)) == Flows(TradesOf(entries, params)) + close + entry
  {
    var last, trades := entries[|entries| - 1], TradesOf(entries, params);
    FilledPair(last, s, params);
    assert [s][0] == s;
    EntryTradeFlow(s, params);
    CloseTradeFlow(last, s, params);
    NextEntry(entries, s, params);
    FlowsSum(trades, CloseTrade(last, s, params));
    FlowsSum(trades + CloseTrade(last, s, params), EntryTrade(s, params));
  }

  /** One more entry, given the flows and the round trip it adds. */
  lemma NextMatches(entries: seq<Snapshot>, s: Snapshot, params: Params, open: real, close: real, entry: real, trip: real)
    requires entries != [] && FlowsMatch(entries, open, params) && TripIsFlow(trip, params.costs.size, open, close)
    requires ChainedGains(entries + [s], params) == ChainedGains(entries, params) + trip
    requires Flows(TradesOf(entries + [s], params)) == Flows(TradesOf(entries, params)) + close + entry
    ensures FlowsMatch(entries + [s], entry, params)
  {
    FlowArithmetic(params.costs.size, Flows(TradesOf(entries, params)), ChainedGains(entries, params), open, close, entry, trip);
  }

  lemma NextFlowsMatch(entries: seq<Snapshot>, s: Snapshot, params: Params, entry: real)
    requires entries != [] && FlowsMatch(entries, OpenFlow(entries, params.costs), params)
    requires Filled([entries[|entries| - 1], s], params) && entry == EntryFlow(s, params.costs)
    ensures FlowsMatch(entries + [s], entry, params)
  {
    var last := entries[|entries| - 1];
    FilledPair(last, s, params);
    assert [s][0] == s;
    var trip, open, close := RoundTripFlow(last, s, params);
    NextEntry(entries, s, params);
    FlowsOfNext(entries, s, params, close, entry);
    NextMatches(entries, s, params, open, close, entry, trip);
  }

  lemma NoEntriesMatch(params: Params)
    ensures FlowsMatch([], 0.0, params)
  {
    TimesSign(params.costs.size, 0.0);
  }

  lemma EntriesSplit(entries: seq<Snapshot>) returns (init: seq<Snapshot>, last: Snapshot)
    requires entries != []
    ensures entries == init + [last] && |init| < |entries| && last == entries[|entries| - 1]
  {
    init, last := entries[..|entries| - 1], entries[|entries| - 1];
  }

  lemma {:induction false} EntriesMatch(entries: seq<Snapshot>, params: Params)
    requires entries != [] ==> Filled(entries, params)
    ensures FlowsMatch(entries, OpenFlow(entries, params.costs), params)
    decreases |entries|
  {
    if entries == [] {
      NoEntriesMatch(params);
    } else {
      var init, last := EntriesSplit(entries);
      if init == [] {
        assert entries == [last];
        OpeningFlowsMatch(last, params, EntryFlow(last, params.costs));
      } else {
        FilledSplits(init, last, params);
        EntriesMatch(init, params);
        NextFlowsMatch(init, last, params, EntryFlow(last, params.costs));
      }
    }
  }

  /** The flow of closing the last entry, if any, at the last tick. */
  function FinalFlow(entries: seq<Snapshot>, last: Snapshot, c: Costs): real {
    if entries == [] then 0.0 else CloseFlow(entries[|entries| - 1], last, c)
  }

  lemma SettledTickIsValid(b: Book, last: Snapshot, c: Costs)
    requires b.open.Some? && Settle(b, last, c).Success?
    ensures 0.0 <= last.yes <= 1.0
  {
  }

  lemma LastTickIsValid(snapshots: seq<Snapshot>, params: Params)
    requires |snapshots| >= 2 && RunReplay(snapshots, params).Success? && Entries(snapshots, params.threshold) != []
    ensures 0.0 <= snapshots[|snapshots| - 1].yes <= 1.0
  {
    FinalBook(snapshots, params);
    BookIsBalanced(snapshots, params);
    SettledTickIsValid(BookOf(snapshots, params).value, snapshots[|snapshots| - 1], params.costs);
  }

  lemma EntriesAreFilled(snapshots: seq<Snapshot>, params: Params)
    requires |snapshots| >= 2 && RunReplay(snapshots, params).Success? && Entries(snapshots, params.threshold) != []
    ensures Filled(Entries(snapshots, params.threshold), params)
  {
    FinalBook(snapshots, params);
    CompletedIsFilled(snapshots, params);
  }

  lemma TotalArithmetic(size: real, flows: real, gains: real, open: real, close: real, trip: real)
    requires Times(size, flows) == gains + Times(size, open) && TripIsFlow(trip, size, open, close)
    ensures gains + trip == Times(size, flows + close)
  {
    TimesAdd(flows, close, size);
    TimesAdd(open, close, size);
  }

  /** The gain of closing every entry at the next and the last one at the last tick. */
  ghost predicate IsTotal(total: real, entries: seq<Snapshot>, last: Snapshot, params: Params) {
    total == if entries == [] then 0.0 else ChainedGains(entries, params) + RoundTrip(entries[|entries| - 1], last, params)
  }

  ghost predicate TotalIsFlow(total: real, trades: seq<Trade>, final: real, stake: real) {
    total == Times(stake, Flows(trades) + final)
  }

  lemma TotalSplits(total: real, entries: seq<Snapshot>, last: Snapshot, params: Params, trip: real)
    requires entries != [] && IsTotal(total, entries, last, params)
    requires trip == RoundTrip(entries[|entries| - 1], last, params)
    ensures total == ChainedGains(entries, params) + trip
  {
  }

  lemma TotalFromMatch(total: real, entries: seq<Snapshot>, params: Params, open: real, close: real, trip: real)
    requires FlowsMatch(entries, open, params) && TripIsFlow(trip, params.costs.size, open, close)
    requires total == ChainedGains(entries, params) + trip
    ensures TotalIsFlow(total, TradesOf(entries, params), close, params.costs.size)
  {
    TotalArithmetic(params.costs.size, Flows(TradesOf(entries, params)), ChainedGains(entries, params), open, close, trip);
  }

  lemma LastIsFilled(entries: seq<Snapshot>, params: Params)
    requires entries != [] && Filled(entries, params)
    ensures Filled([entries[|entries| - 1]], params)
  {
    assert [entries[|entries| - 1]][0] == entries[|entries| - 1];
  }

  lemma SomeTotalIsFlow(total: real, entries: seq<Snapshot>, last: Snapshot, params: Params) returns (close: real)
    requires entries != [] && Filled(entries, params) && 0.0 <= last.yes <= 1.0 && IsTotal(total, entries, last, params)
    ensures close == FinalFlow(entries, last, params.costs)
    ensures TotalIsFlow(total, TradesOf(entries, params), close, params.costs.size)
  {
    LastIsFilled(entries, params);
    EntriesMatch(entries, params);
    var trip, open, c := RoundTripFlow(entries[|entries| - 1], last, params);
    close := c;
    TotalSplits(total, entries, last, params, trip);
    TotalFromMatch(total, entries, params, open, close, trip);
  }

  lemma NoTotalNoFlow(total: real, last: Snapshot, params: Params) returns (close: real)
    requires IsTotal(total, [], last, params)
    ensures close == FinalFlow([], last, params.costs)
    ensures TotalIsFlow(total, TradesOf([], params), close, params.costs.size)
  {
    close := 0.0;
    assert Flows(TradesOf([], params)) == 0.0;
    TimesSign(params.costs.size, 0.0);
  }

  lemma TotalFlow(total: real, entries: seq<Snapshot>, last: Snapshot, params: Params) returns (close: real)
    requires entries != [] ==> Filled(entries, params) && 0.0 <= last.yes <= 1.0
    requires IsTotal(total, entries, last, params)
    ensures close == FinalFlow(entries, last, params.costs)
    ensures TotalIsFlow(total, TradesOf(entries, params), close, params.costs.size)
  {
    if entries == [] {
      close := NoTotalNoFlow(total, last, params);
    } else {
      close := SomeTotalIsFlow(total, entries, last, params);
    }
  }

  /** What settling books, in terms of the entries so far. */
  lemma SettledTotal(b: Book, entries: seq<Snapshot>, last: Snapshot, params: Params, book: Book) returns (total: real)
    requires BalancedEntries(b, entries, params) && Settle(b, last, params.costs) == Success(book)
    ensures IsTotal(total, entries, last, params)
    ensures book.equity == params.initial + total && book.trades == TradesOf(entries, params)
  {
    SettleBooks(b, entries, last, params);
    total := if entries == [] then 0.0 else ChainedGains(entries, params) + RoundTrip(entries[|entries| - 1], last, params);
  }

  lemma FinalEntries(snapshots: seq<Snapshot>, params: Params) returns (b: Book)
    requires |snapshots| >= 2 && RunReplay(snapshots, params).Success?
    ensures BalancedEntries(b, Entries(snapshots, params.threshold), params)
    ensures Settle(b, snapshots[|snapshots| - 1], params.costs) == Success(RunReplay(snapshots, params).value.state.book)
  {
    FinalBook(snapshots, params);
    BookIsBalanced(snapshots, params);
    b := BookOf(snapshots, params).value;
  }

  lemma FlowOfSettled(b: Book, entries: seq<Snapshot>, last: Snapshot, params: Params, book: Book) returns (close: real)
    requires BalancedEntries(b, entries, params) && Settle(b, last, params.costs) == Success(book)
    requires entries != [] ==> Filled(entries, params) && 0.0 <= last.yes <= 1.0
    ensures close == FinalFlow(entries, last, params.costs)
    ensures TotalIsFlow(book.equity - params.initial, book.trades, close, params.costs.size)
  {
    var total := SettledTotal(b, entries, last, params, book);
    close := TotalFlow(total, entries, last, params);
  }

  /**
   * What a replay gains is, times the stake, the flows of all recorded fills and of the unrecorded final close. For
   * YES positions that is their cash flow; a NO position is booked as if its purchase brought its price.
   */
  lemma ProfitIsFlowOfFills(snapshots: seq<Snapshot>, params: Params)
    requires |snapshots| >= 2 && RunReplay(snapshots, params).Success?
    ensures var book, entries := RunReplay(snapshots, params).value.state.book, Entries(snapshots, params.threshold);
            TotalIsFlow(book.equity - params.initial, book.trades,
                        FinalFlow(entries, snapshots[|snapshots| - 1], params.costs), params.costs.size)
  {
    var b := FinalEntries(snapshots, params);
    if Entries(snapshots, params.threshold) != [] {
      EntriesAreFilled(snapshots, params);
      LastTickIsValid(snapshots, params);
    }
    var close := FlowOfSettled(b, Entries(snapshots, params.threshold), snapshots[|snapshots| - 1], params,
                               RunReplay(snapshots, params).value.state.book);
  }
}
