/** What a replay books: positions, trades, equity points and statistics in terms of the entries. */
module ReplayAccounting {
  import opened FillModel
  import opened LinearAlgebra
  import opened SnapshotReplay
  import opened Wrappers

  /** The ticks at which the agent trades. */
  function Entries(snapshots: seq<Snapshot>, threshold: real): seq<Snapshot> {
    if snapshots == [] then []
    else
      var last := snapshots[|snapshots| - 1];
      Entries(snapshots[..|snapshots| - 1], threshold) + (if Decide(last, threshold).Some? then [last] else [])
  }

  /** The position opened at an entry tick. */
  function PositionAt(entry: Snapshot, params: Params): Option<Position> {
    var d := Decide(entry, params.threshold);
    if d.None? then None
    else
      match ComputeFill(d.value.side, entry.yes, params.costs)
      case Success(fill) => Some(Position(fill.price, d.value.side, d.value.predicted))
      case Failure(_) => None
  }

  /** The gain of entering at one tick and closing at another. */
  function RoundTrip(entry: Snapshot, exit: Snapshot, params: Params): real {
    match PositionAt(entry, params)
    case None => 0.0
    case Some(p) =>
      match ComputeFill(CloseSide(p), exit.yes, params.costs)
      case Success(fill) => Gain(p, fill.price, params.costs.size)
      case Failure(_) => 0.0
  }

  /** The gains of closing every entry at the next one. */
  function ChainedGains(entries: seq<Snapshot>, params: Params): real {
    if |entries| < 2 then 0.0
    else
      var n := |entries|;
      ChainedGains(entries[..n - 1], params) + RoundTrip(entries[n - 2], entries[n - 1], params)
  }

  function FillAt(side: Side, mid: real, c: Costs): Fill {
    match ComputeFill(side, mid, c)
    case Success(fill) => fill
    case Failure(_) => Fill(0.0, 0.0)
  }

  /** The trade that opens a position. */
  function EntryTrade(entry: Snapshot, params: Params): seq<Trade> {
    match Decide(entry, params.threshold)
    case None => []
    case Some(d) =>
      [Trade(entry.at, d.side, entry.yes, FillAt(d.side, entry.yes, params.costs), d.predicted,
             if d.side == YesBuy then d.predicted - entry.yes else entry.yes - d.predicted)]
  }

  /** The trade that closes it at a later tick. */
  function CloseTrade(entry: Snapshot, exit: Snapshot, params: Params): seq<Trade> {
    match Decide(entry, params.threshold)
    case None => []
    case Some(d) =>
      var side := if d.side == YesBuy then YesSell else YesBuy;
      [Trade(exit.at, side, exit.yes, FillAt(side, exit.yes, params.costs), d.predicted, 0.0)]
  }

  /** Every entry is followed, at the next entry's tick, by its own close. */
  function TradesOf(entries: seq<Snapshot>, params: Params): seq<Trade> {
    if entries == [] then []
    else
      var n := |entries|;
      TradesOf(entries[..n - 1], params)
      + (if n > 1 then CloseTrade(entries[n - 2], entries[n - 1], params) else [])
      + EntryTrade(entries[n - 1], params)
  }

  /** One point per tick except the first entry's: the equity booked by then. */
  function CurveOf(snapshots: seq<Snapshot>, params: Params): seq<Point> {
    if snapshots == [] then []
    else
      var init, last := snapshots[..|snapshots| - 1], snapshots[|snapshots| - 1];
      var entries := Entries(snapshots, params.threshold);
      CurveOf(init, params)
      + (if Decide(last, params.threshold).Some? && |entries| == 1 then []
         else [Point(last.at, params.initial + ChainedGains(entries, params))])
  }

  /** The open position is the last entry's. */
  ghost predicate HoldsLast(b: Book, entries: seq<Snapshot>, params: Params) {
    if entries == [] then b.open.None? else b.open.Some? && b.open == PositionAt(entries[|entries| - 1], params)
  }

  /** Position, equity and trades in terms of the entries so far. */
  ghost predicate BalancedEntries(b: Book, entries: seq<Snapshot>, params: Params) {
    && HoldsLast(b, entries, params)
    && b.equity == params.initial + ChainedGains(entries, params)
    && b.trades == TradesOf(entries, params)
  }

  /** What the book looks like after some ticks, in terms of the ticks and the entries among them. */
  ghost predicate Balanced(b: Book, ticks: seq<Snapshot>, params: Params) {
    BalancedEntries(b, Entries(ticks, params.threshold), params) && b.curve == CurveOf(ticks, params)
  }

  lemma TickPush(ticks: seq<Snapshot>, s: Snapshot, params: Params)
    ensures var entries := Entries(ticks + [s], params.threshold);
            && entries == Entries(ticks, params.threshold) + (if Decide(s, params.threshold).Some? then [s] else [])
            && CurveOf(ticks + [s], params)
               == CurveOf(ticks, params)
                  + (if Decide(s, params.threshold).Some? && |entries| == 1 then []
                     else [Point(s.at, params.initial + ChainedGains(entries, params))])
  {
    assert (ticks + [s])[..|ticks|] == ticks;
  }

  lemma OpeningEntry(s: Snapshot, params: Params)
    ensures TradesOf([s], params) == EntryTrade(s, params) && ChainedGains([s], params) == 0.0
  {
    assert [s][..0] == [];
    assert TradesOf([], params) == [];
    assert [] + [] + EntryTrade(s, params) == EntryTrade(s, params);
  }

  lemma NextEntry(entries: seq<Snapshot>, s: Snapshot, params: Params)
    requires entries != []
    ensures var last := entries[|entries| - 1];
            && TradesOf(entries + [s], params)
               == TradesOf(entries, params) + CloseTrade(last, s, params) + EntryTrade(s, params)
            && ChainedGains(entries + [s], params) == ChainedGains(entries, params) + RoundTrip(last, s, params)
  {
    assert (entries + [s])[..|entries|] == entries;
  }

  /** Closing books the last entry's round trip, its close trade and an equity point. */
  lemma CloseBooks(b: Book, entries: seq<Snapshot>, s: Snapshot, params: Params)
    requires HoldsLast(b, entries, params) && Close(b, s, params.costs).Success?
    ensures var closed := Close(b, s, params.costs).value;
            && closed.open.None?
            && (entries == [] ==> closed == b)
            && (entries != [] ==>
                  var last := entries[|entries| - 1];
                  && closed.equity == b.equity + RoundTrip(last, s, params)
                  && closed.trades == b.trades + CloseTrade(last, s, params)
                  && closed.curve == b.curve + [Point(s.at, closed.equity)])
  {
  }

  /** Entering adds the entry trade and opens its position. */
  lemma EnterBooks(b: Book, s: Snapshot, params: Params)
    requires var d := Decide(s, params.threshold); d.Some? && Enter(b, s, d.value, params.costs).Success?
    ensures var after := Enter(b, s, Decide(s, params.threshold).value, params.costs).value;
            && after.open == PositionAt(s, params) && after.open.Some?
            && after.trades == b.trades + EntryTrade(s, params)
            && after.equity == b.equity && after.curve == b.curve
  {
  }

  lemma TickIsCloseThenEnter(b: Book, s: Snapshot, params: Params)
    requires Decide(s, params.threshold).Some? && TickBook(b, s, params).Success?
    ensures var closed := Close(b, s, params.costs);
            && closed.Success?
            && TickBook(b, s, params) == Enter(closed.value, s, Decide(s, params.threshold).value, params.costs)
  {
  }

  /** What an entry at s does to the book, closing the position of `last` if there is one. */
  ghost predicate EntryBooked(b: Book, after: Book, last: Option<Snapshot>, s: Snapshot, params: Params) {
    && after.open.Some? && after.open == PositionAt(s, params)
    && match last
       case None =>
         after.equity == b.equity && after.trades == b.trades + EntryTrade(s, params) && after.curve == b.curve
       case Some(entry) =>
         && after.equity == b.equity + RoundTrip(entry, s, params)
         && after.trades == b.trades + CloseTrade(entry, s, params) + EntryTrade(s, params)
         && after.curve == b.curve + [Point(s.at, after.equity)]
  }

  function LastOf(entries: seq<Snapshot>): Option<Snapshot> {
    if entries == [] then None else Some(entries[|entries| - 1])
  }

  lemma TickBooksEntry(b: Book, entries: seq<Snapshot>, s: Snapshot, params: Params)
    requires HoldsLast(b, entries, params)
    requires Decide(s, params.threshold).Some? && TickBook(b, s, params).Success?
    ensures EntryBooked(b, TickBook(b, s, params).value, LastOf(entries), s, params)
  {
    TickIsCloseThenEnter(b, s, params);
    CloseBooks(b, entries, s, params);
    EnterBooks(Close(b, s, params.costs).value, s, params);
  }

  lemma OpeningKeepsBalance(b: Book, after: Book, ticks: seq<Snapshot>, s: Snapshot, params: Params)
    requires Balanced(b, ticks, params) && Decide(s, params.threshold).Some?
    requires Entries(ticks, params.threshold) == [] && EntryBooked(b, after, None, s, params)
    ensures Balanced(after, ticks + [s], params)
  {
    TickPush(ticks, s, params);
    OpeningEntry(s, params);
    assert [] + [s] == [s] && [] + EntryTrade(s, params) == EntryTrade(s, params);
    assert CurveOf(ticks, params) + [] == CurveOf(ticks, params);
    assert b.trades == [];
  }

  lemma NextTickExtends(ticks: seq<Snapshot>, s: Snapshot, params: Params)
    requires Decide(s, params.threshold).Some? && Entries(ticks, params.threshold) != []
    ensures var entries := Entries(ticks, params.threshold);
            && Entries(ticks + [s], params.threshold) == entries + [s]
            && CurveOf(ticks + [s], params)
               == CurveOf(ticks, params) + [Point(s.at, params.initial + ChainedGains(entries + [s], params))]
  {
    TickPush(ticks, s, params);
  }

  lemma NextKeepsEntries(b: Book, after: Book, entries: seq<Snapshot>, s: Snapshot, params: Params)
    requires entries != [] && BalancedEntries(b, entries, params)
    requires EntryBooked(b, after, LastOf(entries), s, params)
    ensures BalancedEntries(after, entries + [s], params)
    ensures after.curve == b.curve + [Point(s.at, params.initial + ChainedGains(entries + [s], params))]
  {
    NextEntry(entries, s, params);
    assert (entries + [s])[|entries|] == s;
  }

  lemma NextKeepsBalance(b: Book, after: Book, ticks: seq<Snapshot>, s: Snapshot, params: Params)
    requires Balanced(b, ticks, params) && Decide(s, params.threshold).Some?
    requires Entries(ticks, params.threshold) != []
    requires EntryBooked(b, after, LastOf(Entries(ticks, params.threshold)), s, params)
    ensures Balanced(after, ticks + [s], params)
  {
    NextKeepsEntries(b, after, Entries(ticks, params.threshold), s, params);
    NextTickExtends(ticks, s, params);
  }

  lemma EntryKeepsBalance(b: Book, ticks: seq<Snapshot>, s: Snapshot, params: Params)
    requires Balanced(b, ticks, params) && Decide(s, params.threshold).Some? && TickBook(b, s, params).Success?
    ensures Balanced(TickBook(b, s, params).value, ticks + [s], params)
  {
    TickBooksEntry(b, Entries(ticks, params.threshold), s, params);
    if Entries(ticks, params.threshold) == [] {
      OpeningKeepsBalance(b, TickBook(b, s, params).value, ticks, s, params);
    } else {
      NextKeepsBalance(b, TickBook(b, s, params).value, ticks, s, params);
    }
  }

  lemma PassBooks(b: Book, s: Snapshot, params: Params)
    requires Decide(s, params.threshold).None?
    ensures TickBook(b, s, params) == Success(b.(curve := b.curve + [Point(s.at, b.equity)]))
  {
  }

  lemma PassTickExtends(ticks: seq<Snapshot>, s: Snapshot, params: Params)
    requires Decide(s, params.threshold).None?
    ensures var entries := Entries(ticks, params.threshold);
            && Entries(ticks + [s], params.threshold) == entries
            && CurveOf(ticks + [s], params)
               == CurveOf(ticks, params) + [Point(s.at, params.initial + ChainedGains(entries, params))]
  {
    TickPush(ticks, s, params);
    assert Entries(ticks, params.threshold) + [] == Entries(ticks, params.threshold);
  }

  lemma PointKeepsEntries(b: Book, after: Book, entries: seq<Snapshot>, p: Point, params: Params)
    requires BalancedEntries(b, entries, params) && after == b.(curve := b.curve + [p])
    ensures BalancedEntries(after, entries, params)
    ensures b.equity == params.initial + ChainedGains(entries, params)
  {
  }

  lemma PassedIsBalanced(b: Book, after: Book, ticks: seq<Snapshot>, s: Snapshot, params: Params)
    requires Balanced(b, ticks, params) && Decide(s, params.threshold).None?
    requires after == b.(curve := b.curve + [Point(s.at, b.equity)])
    ensures Balanced(after, ticks + [s], params)
  {
    PointKeepsEntries(b, after, Entries(ticks, params.threshold), Point(s.at, b.equity), params);
    PassTickExtends(ticks, s, params);
  }

  lemma PassKeepsBalance(b: Book, ticks: seq<Snapshot>, s: Snapshot, params: Params)
    requires Balanced(b, ticks, params) && Decide(s, params.threshold).None?
    ensures TickBook(b, s, params).Success? && Balanced(TickBook(b, s, params).value, ticks + [s], params)
  {
    PassBooks(b, s, params);
    PassedIsBalanced(b, TickBook(b, s, params).value, ticks, s, params);
  }

  lemma LastSplitsOff(ticks: seq<Snapshot>) returns (init: seq<Snapshot>, last: Snapshot)
    requires ticks != []
    ensures ticks == init + [last] && |init| < |ticks|
  {
    init, last := ticks[..|ticks| - 1], ticks[|ticks| - 1];
  }

  /** The book after all ticks. */
  function BookOf(ticks: seq<Snapshot>, params: Params): Result<Book, FillError> {
    BookAfter(ticks, |ticks|, params)
  }

  lemma BookPush(ticks: seq<Snapshot>, s: Snapshot, params: Params)
    ensures BookOf(ticks + [s], params)
         == match BookOf(ticks, params)
            case Success(b) => TickBook(b, s, params)
            case Failure(e) => Failure(e)
  {
    var all := ticks + [s];
    assert all[..|ticks|] == ticks && ticks[..|ticks|] == ticks;
    BookSeesOnlyThePast(all, ticks, |ticks|, params);
    assert all[|ticks|] == s;
  }

  ghost predicate BalancedAtEnd(ticks: seq<Snapshot>, params: Params) {
    BookOf(ticks, params).Success? ==> Balanced(BookOf(ticks, params).value, ticks, params)
  }

  lemma PushKeepsBalance(ticks: seq<Snapshot>, s: Snapshot, params: Params)
    requires BalancedAtEnd(ticks, params)
    ensures BalancedAtEnd(ticks + [s], params)
  {
    BookPush(ticks, s, params);
    if BookOf(ticks + [s], params).Success? {
      if Decide(s, params.threshold).Some? {
        EntryKeepsBalance(BookOf(ticks, params).value, ticks, s, params);
      } else {
        PassKeepsBalance(BookOf(ticks, params).value, ticks, s, params);
      }
    }
  }

  lemma NoTicksBalance(params: Params)
    ensures BalancedAtEnd([], params)
  {
  }

  lemma {:induction false} BookIsBalanced(ticks: seq<Snapshot>, params: Params)
    ensures BalancedAtEnd(ticks, params)
    decreases |ticks|
  {
    if ticks == [] {
      NoTicksBalance(params);
    } else {
      var init, last := LastSplitsOff(ticks);
      BookIsBalanced(init, params);
      PushKeepsBalance(init, last, params);
    }
  }

  /** The total gain: every entry closed by the next one, the last at the final price. */
  function TotalGain(snapshots: seq<Snapshot>, params: Params): real
    requires snapshots != []
  {
    var entries := Entries(snapshots, params.threshold);
    if entries == [] then 0.0
    else ChainedGains(entries, params) + RoundTrip(entries[|entries| - 1], snapshots[|snapshots| - 1], params)
  }

  /** What the settled book of a replay records. */
  ghost predicate Accounted(book: Book, snapshots: seq<Snapshot>, params: Params)
    requires snapshots != []
  {
    var entries, last := Entries(snapshots, params.threshold), snapshots[|snapshots| - 1];
    && book.open.None?
    && book.equity == params.initial + TotalGain(snapshots, params)
    && book.trades == TradesOf(entries, params)
    && book.curve == CurveOf(snapshots, params) + (if entries == [] then [] else [Point(last.at, book.equity)])
  }

  /** Settling closes the last entry at the final price, with an equity point and no trade. */
  lemma SettleBooks(b: Book, entries: seq<Snapshot>, last: Snapshot, params: Params)
    requires HoldsLast(b, entries, params) && Settle(b, last, params.costs).Success?
    ensures var book := Settle(b, last, params.costs).value;
            && book.open.None? && book.trades == b.trades
            && (entries == [] ==> book == b)
            && (entries != [] ==>
                  && book.equity == b.equity + RoundTrip(entries[|entries| - 1], last, params)
                  && book.curve == b.curve + [Point(last.at, book.equity)])
  {
    if entries != [] {
      CloseBooks(b, entries, last, params);
    }
  }

  lemma SettledIsAccounted(b: Book, snapshots: seq<Snapshot>, params: Params)
    requires snapshots != [] && Balanced(b, snapshots, params)
    requires Settle(b, snapshots[|snapshots| - 1], params.costs).Success?
    ensures Accounted(Settle(b, snapshots[|snapshots| - 1], params.costs).value, snapshots, params)
  {
    SettleBooks(b, Entries(snapshots, params.threshold), snapshots[|snapshots| - 1], params);
    assert CurveOf(snapshots, params) + [] == CurveOf(snapshots, params);
  }

  lemma FinalBook(snapshots: seq<Snapshot>, params: Params)
    requires |snapshots| >= 2 && RunReplay(snapshots, params).Success?
    ensures var b := BookOf(snapshots, params);
            && b.Success?
            && Settle(b.value, snapshots[|snapshots| - 1], params.costs)
               == Success(RunReplay(snapshots, params).value.state.book)
  {
  }

  /**
   * Every entry is closed exactly once. Final equity is the initial equity plus the gain of closing each entry
   * at the next entry and the last one at the final price. The trades are the first entry and then, at every
   * later entry's tick, the close of the entry before and the entry itself. The curve has a point for every
   * tick but the first entry's and, if there is an entry, a second one for the last tick.
   */
  lemma EveryEntryIsClosedOnce(snapshots: seq<Snapshot>, params: Params)
    requires |snapshots| >= 2 && RunReplay(snapshots, params).Success?
    ensures Accounted(RunReplay(snapshots, params).value.state.book, snapshots, params)
  {
    FinalBook(snapshots, params);
    BookIsBalanced(snapshots, params);
    SettledIsAccounted(BookOf(snapshots, params).value, snapshots, params);
  }

  function CurveTimes(curve: seq<Point>): (t: seq<int>)
    ensures |t| == |curve| && forall i :: 0 <= i < |t| ==> t[i] == curve[i].at
  {
    seq(|curve|, i requires 0 <= i < |curve| => curve[i].at)
  }

  function TickTimes(snapshots: seq<Snapshot>): (t: seq<int>)
    ensures |t| == |snapshots| && forall i :: 0 <= i < |t| ==> t[i] == snapshots[i].at
  {
    seq(|snapshots|, i requires 0 <= i < |snapshots| => snapshots[i].at)
  }

  /** The place of the first entry, or the length if there is none. */
  function FirstEntry(snapshots: seq<Snapshot>, threshold: real): (f: nat)
    ensures f <= |snapshots|
    ensures f < |snapshots| ==> Decide(snapshots[f], threshold).Some?
    ensures forall i :: 0 <= i < f ==> Decide(snapshots[i], threshold).None?
  {
    if snapshots == [] then 0
    else
      var n := |snapshots| - 1;
      var f := FirstEntry(snapshots[..n], threshold);
      if f < n || Decide(snapshots[n], threshold).Some? then f else n + 1
  }

  lemma FirstEntryPush(ticks: seq<Snapshot>, s: Snapshot, threshold: real)
    ensures var f := FirstEntry(ticks, threshold);
            FirstEntry(ticks + [s], threshold)
            == if f < |ticks| || Decide(s, threshold).Some? then f else |ticks| + 1
  {
    assert (ticks + [s])[..|ticks|] == ticks;
  }

  /** The tick times without that of tick f. */
  function TimesWithout(ticks: seq<Snapshot>, f: nat): seq<int> {
    if f < |ticks| then TickTimes(ticks[..f]) + TickTimes(ticks[f + 1..]) else TickTimes(ticks)
  }

  lemma TimesWithoutPush(ticks: seq<Snapshot>, s: Snapshot, f: nat)
    ensures f != |ticks| ==> TimesWithout(ticks + [s], f) == TimesWithout(ticks, f) + [s.at]
    ensures f == |ticks| ==> TimesWithout(ticks + [s], f) == TimesWithout(ticks, f)
  {
    var more := ticks + [s];
    if f < |ticks| {
      assert more[..f] == ticks[..f] && more[f + 1..] == ticks[f + 1..] + [s];
    } else if f == |ticks| {
      assert more[..f] == ticks && more[f + 1..] == [];
    }
  }

  lemma CurveTimesPush(curve: seq<Point>, p: Point)
    ensures CurveTimes(curve + [p]) == CurveTimes(curve) + [p.at]
  {
  }

  ghost predicate TimesMatch(ticks: seq<Snapshot>, params: Params) {
    var f := FirstEntry(ticks, params.threshold);
    && (Entries(ticks, params.threshold) == [] <==> f == |ticks|)
    && CurveTimes(CurveOf(ticks, params)) == TimesWithout(ticks, f)
  }

  /** A first entry adds no point. */
  lemma OpeningKeepsTimes(ticks: seq<Snapshot>, s: Snapshot, params: Params)
    requires TimesMatch(ticks, params) && Decide(s, params.threshold).Some? && Entries(ticks, params.threshold) == []
    ensures TimesMatch(ticks + [s], params)
  {
    TickPush(ticks, s, params);
    FirstEntryPush(ticks, s, params.threshold);
    TimesWithoutPush(ticks, s, |ticks|);
    assert CurveOf(ticks, params) + [] == CurveOf(ticks, params);
  }

  lemma PointKeepsTimes(ticks: seq<Snapshot>, s: Snapshot, point: Point, params: Params)
    requires TimesMatch(ticks, params) && point.at == s.at
    requires Decide(s, params.threshold).None? || Entries(ticks, params.threshold) != []
    requires CurveOf(ticks + [s], params) == CurveOf(ticks, params) + [point]
    requires Entries(ticks + [s], params.threshold)
          == Entries(ticks, params.threshold) + (if Decide(s, params.threshold).Some? then [s] else [])
    ensures TimesMatch(ticks + [s], params)
  {
    var f := FirstEntry(ticks, params.threshold);
    FirstEntryPush(ticks, s, params.threshold);
    TimesWithoutPush(ticks, s, f);
    TimesWithoutPush(ticks, s, |ticks| + 1);
    CurveTimesPush(CurveOf(ticks, params), point);
  }

  lemma PushKeepsTimes(ticks: seq<Snapshot>, s: Snapshot, params: Params)
    requires TimesMatch(ticks, params)
    ensures TimesMatch(ticks + [s], params)
  {
    if Decide(s, params.threshold).Some? && Entries(ticks, params.threshold) == [] {
      OpeningKeepsTimes(ticks, s, params);
    } else {
      TickPush(ticks, s, params);
      var entries := Entries(ticks + [s], params.threshold);
      PointKeepsTimes(ticks, s, Point(s.at, params.initial + ChainedGains(entries, params)), params);
    }
  }

  lemma NoTicksMatch(params: Params)
    ensures TimesMatch([], params)
  {
  }

  lemma {:induction false} PointTimes(ticks: seq<Snapshot>, params: Params)
    ensures TimesMatch(ticks, params)
    decreases |ticks|
  {
    if ticks == [] {
      NoTicksMatch(params);
    } else {
      var init, last := LastSplitsOff(ticks);
      PointTimes(init, params);
      PushKeepsTimes(init, last, params);
    }
  }

  lemma SettledTimes(curve: seq<Point>, settled: seq<Point>, p: Point, again: bool)
    requires settled == curve + (if again then [p] else [])
    ensures CurveTimes(settled) == CurveTimes(curve) + (if again then [p.at] else [])
  {
    CurveTimesPush(curve, p);
    assert curve + [] == curve;
  }

  /** The points are at every tick but the first entry's, then at the last tick again if there is an entry. */
  ghost predicate PointsAtTicks(curve: seq<Point>, snapshots: seq<Snapshot>, threshold: real) {
    var f, n := FirstEntry(snapshots, threshold), |snapshots|;
    CurveTimes(curve) == TimesWithout(snapshots, f) + (if f < n then [snapshots[n - 1].at] else [])
  }

  lemma AccountedPoints(book: Book, snapshots: seq<Snapshot>, params: Params)
    requires snapshots != [] && Accounted(book, snapshots, params)
    ensures PointsAtTicks(book.curve, snapshots, params.threshold)
  {
    PointTimes(snapshots, params);
    SettledTimes(CurveOf(snapshots, params), book.curve, Point(snapshots[|snapshots| - 1].at, book.equity),
                 FirstEntry(snapshots, params.threshold) < |snapshots|);
  }

  lemma EquityPointTimes(snapshots: seq<Snapshot>, params: Params)
    requires |snapshots| >= 2 && RunReplay(snapshots, params).Success?
    ensures PointsAtTicks(RunReplay(snapshots, params).value.state.book.curve, snapshots, params.threshold)
  {
    EveryEntryIsClosedOnce(snapshots, params);
    AccountedPoints(RunReplay(snapshots, params).value.state.book, snapshots, params);
  }

  // ---------- The statistics ----------

  /** From the second forecast on there is a running score per forecast: that of all forecasts so far. */
  ghost predicate RunningScores(scores: Scores) {
    && |scores.predictions| == |scores.outcomes|
    && |scores.points| == (if scores.predictions == [] then 0 else |scores.predictions| - 1)
    && forall j :: 0 <= j < |scores.points| ==>
         && scores.points[j].count == j + 2
         && scores.points[j].brier == BrierScore(scores.predictions[..j + 2], scores.outcomes[..j + 2])
  }

  lemma AddScoreRuns(scores: Scores, s: Snapshot, predicted: real, outcome: int)
    requires RunningScores(scores)
    ensures RunningScores(AddScore(scores, s, predicted, outcome))
  {
    var r := AddScore(scores, s, predicted, outcome);
    forall j | 0 <= j < |r.points|
      ensures r.points[j].count == j + 2
      ensures r.points[j].brier == BrierScore(r.predictions[..j + 2], r.outcomes[..j + 2])
    {
      if j < |scores.points| {
        assert r.points[j] == scores.points[j];
        assert r.predictions[..j + 2] == scores.predictions[..j + 2] && r.outcomes[..j + 2] == scores.outcomes[..j + 2];
      } else {
        assert r.predictions[..j + 2] == r.predictions && r.outcomes[..j + 2] == r.outcomes;
      }
    }
  }

  lemma {:induction false} ScoresRun(snapshots: seq<Snapshot>, k: nat, threshold: real)
    requires k <= |snapshots|
    ensures RunningScores(ScoresAfter(snapshots, k, threshold))
  {
    if k > 0 {
      ScoresRun(snapshots, k - 1, threshold);
      var s := snapshots[k - 1];
      var d, outcome := Decide(s, threshold), Outcome(s, NextTick(snapshots, k - 1));
      if d.Some? && outcome.Some? {
        AddScoreRuns(ScoresAfter(snapshots, k - 1, threshold), s, d.value.predicted, outcome.value);
      }
    }
  }

  /** NO entries that a later entry closes: their close buys YES and so counts as an entry. */
  function ClosedNoEntries(entries: seq<Snapshot>): nat {
    if |entries| < 2 then 0
    else
      var n := |entries|;
      ClosedNoEntries(entries[..n - 1]) + (if entries[n - 2].yes > 0.5 then 1 else 0)
  }

  ghost predicate CostsSlippage(trades: seq<Trade>, c: Costs) {
    forall i :: 0 <= i < |trades| ==> Abs(trades[i].fill.slippage) == Cost(c)
  }

  lemma {:induction false} UniformSlippage(trades: seq<Trade>, c: Costs)
    requires CostsSlippage(trades, c) && trades != []
    ensures SlippageSum(trades) == Times(|trades| as real, Cost(c)) && MaxSlippage(trades) == Cost(c)
  {
    if |trades| > 1 {
      UniformSlippage(trades[..|trades| - 1], c);
      TimesAdd((|trades| - 1) as real, 1.0, Cost(c));
    } else {
      assert SlippageSum(trades[..0]) == 0.0;
    }
  }

  lemma {:induction false} BuyingTradesKeep(trades: seq<Trade>, c: Costs)
    requires CostsSlippage(trades, c)
    ensures CostsSlippage(BuyingTrades(trades), c)
  {
    if trades != [] {
      BuyingTradesKeep(trades[..|trades| - 1], c);
    }
  }

  lemma {:induction false} BuyingTradesSum(a: seq<Trade>, b: seq<Trade>)
    ensures BuyingTrades(a + b) == BuyingTrades(a) + BuyingTrades(b)
  {
    if b == [] {
      assert a + b == a;
    } else {
      BuyingTradesSum(a, b[..|b| - 1]);
      assert (a + b)[..|a + b| - 1] == a + b[..|b| - 1];
    }
  }

  /** Every entry of a completed replay was decided and filled. */
  ghost predicate Filled(entries: seq<Snapshot>, params: Params) {
    && params.costs.spread >= 0.0 && params.costs.size >= 0.0 && params.costs.slippagePerUnit >= 0.0
    && forall i :: 0 <= i < |entries| ==> Decide(entries[i], params.threshold).Some? && 0.0 <= entries[i].yes <= 1.0
  }

  lemma EntryIsFilled(b: Book, s: Snapshot, params: Params)
    requires Decide(s, params.threshold).Some? && TickBook(b, s, params).Success?
    ensures Filled([s], params)
  {
  }

  lemma FilledPush(entries: seq<Snapshot>, s: Snapshot, params: Params)
    requires Filled([s], params) && (entries != [] ==> Filled(entries, params))
    ensures Filled(entries + [s], params)
  {
    assert [s][0] == s;
  }

  ghost predicate FilledAtEnd(ticks: seq<Snapshot>, params: Params) {
    var entries := Entries(ticks, params.threshold);
    BookOf(ticks, params).Success? && entries != [] ==> Filled(entries, params)
  }

  lemma EntryKeepsFilled(ticks: seq<Snapshot>, s: Snapshot, params: Params)
    requires FilledAtEnd(ticks, params) && Decide(s, params.threshold).Some? && BookOf(ticks + [s], params).Success?
    ensures FilledAtEnd(ticks + [s], params)
  {
    BookPush(ticks, s, params);
    EntryIsFilled(BookOf(ticks, params).value, s, params);
    TickPush(ticks, s, params);
    FilledPush(Entries(ticks, params.threshold), s, params);
  }

  lemma PassKeepsFilled(ticks: seq<Snapshot>, s: Snapshot, params: Params)
    requires FilledAtEnd(ticks, params) && Decide(s, params.threshold).None?
    ensures FilledAtEnd(ticks + [s], params)
  {
    BookPush(ticks, s, params);
    TickPush(ticks, s, params);
    assert Entries(ticks, params.threshold) + [] == Entries(ticks, params.threshold);
  }

  lemma PushKeepsFilled(ticks: seq<Snapshot>, s: Snapshot, params: Params)
    requires FilledAtEnd(ticks, params)
    ensures FilledAtEnd(ticks + [s], params)
  {
    if Decide(s, params.threshold).None? {
      PassKeepsFilled(ticks, s, params);
    } else if BookOf(ticks + [s], params).Success? {
      EntryKeepsFilled(ticks, s, params);
    }
  }

  lemma {:induction false} CompletedIsFilled(ticks: seq<Snapshot>, params: Params)
    ensures FilledAtEnd(ticks, params)
    decreases |ticks|
  {
    if ticks != [] {
      var init, last := LastSplitsOff(ticks);
      CompletedIsFilled(init, params);
      PushKeepsFilled(init, last, params);
    }
  }

  lemma OneEntryTrade(s: Snapshot, params: Params)
    requires Filled([s], params)
    ensures |EntryTrade(s, params)| == 1 && CostsSlippage(EntryTrade(s, params), params.costs)
    ensures BuyingTrades(EntryTrade(s, params)) == EntryTrade(s, params)
  {
    assert [s][0] == s;
    assert EntryTrade(s, params)[..0] == [];
  }

  lemma OneCloseTrade(s: Snapshot, t: Snapshot, params: Params)
    requires Filled([s, t], params)
    ensures |CloseTrade(s, t, params)| == 1 && CostsSlippage(CloseTrade(s, t, params), params.costs)
    ensures |BuyingTrades(CloseTrade(s, t, params))| == if s.yes > 0.5 then 1 else 0
  {
    assert [s, t][0] == s && [s, t][1] == t;
    DecideSide(s, params.threshold);
    assert CloseTrade(s, t, params)[..0] == [];
  }

  /** What the statistics see of the trades of some entries. */
  ghost predicate Counted(entries: seq<Snapshot>, params: Params) {
    var trades := TradesOf(entries, params);
    && CostsSlippage(trades, params.costs)
    && |trades| == (if entries == [] then 0 else 2 * |entries| - 1)
    && |BuyingTrades(trades)| == |entries| + ClosedNoEntries(entries)
  }

  lemma FirstIsCounted(s: Snapshot, params: Params)
    requires Filled([s], params)
    ensures Counted([s], params)
  {
    OneEntryTrade(s, params);
    OpeningEntry(s, params);
  }

  lemma BuyingTradesOfThree(a: seq<Trade>, b: seq<Trade>, c: seq<Trade>)
    ensures BuyingTrades(a + b + c) == BuyingTrades(a) + BuyingTrades(b) + BuyingTrades(c)
  {
    BuyingTradesSum(a, b);
    BuyingTradesSum(a + b, c);
  }

  lemma CostsSlippageOfThree(a: seq<Trade>, b: seq<Trade>, c: seq<Trade>, costs: Costs)
    requires CostsSlippage(a, costs) && CostsSlippage(b, costs) && CostsSlippage(c, costs)
    ensures CostsSlippage(a + b + c, costs)
  {
  }

  lemma ClosedNoEntriesPush(entries: seq<Snapshot>, s: Snapshot)
    requires entries != []
    ensures ClosedNoEntries(entries + [s])
         == ClosedNoEntries(entries) + (if entries[|entries| - 1].yes > 0.5 then 1 else 0)
  {
    assert (entries + [s])[..|entries|] == entries;
  }

  lemma FilledPair(s: Snapshot, t: Snapshot, params: Params)
    requires Filled([s, t], params)
    ensures Filled([s], params) && Filled([t], params)
  {
    assert [s, t][0] == s && [s, t][1] == t;
  }

  lemma NextIsCounted(entries: seq<Snapshot>, s: Snapshot, params: Params)
    requires entries != [] && Counted(entries, params) && Filled([entries[|entries| - 1], s], params)
    ensures Counted(entries + [s], params)
  {
    var last, trades := entries[|entries| - 1], TradesOf(entries, params);
    var close, entry := CloseTrade(last, s, params), EntryTrade(s, params);
    FilledPair(last, s, params);
    OneEntryTrade(s, params);
    OneCloseTrade(last, s, params);
    NextEntry(entries, s, params);
    BuyingTradesOfThree(trades, close, entry);
    CostsSlippageOfThree(trades, close, entry, params.costs);
    ClosedNoEntriesPush(entries, s);
  }

  ghost predicate CountedIfFilled(entries: seq<Snapshot>, params: Params) {
    (entries != [] ==> Filled(entries, params)) ==> Counted(entries, params)
  }

  lemma FilledSplits(entries: seq<Snapshot>, s: Snapshot, params: Params)
    requires entries != [] && Filled(entries + [s], params)
    ensures Filled(entries, params) && Filled([entries[|entries| - 1], s], params)
  {
    var more := entries + [s];
    assert more[|entries|] == s && forall i :: 0 <= i < |entries| ==> more[i] == entries[i];
    assert entries[|entries| - 1] == more[|entries| - 1];
  }

  lemma FirstPushKeepsCounted(s: Snapshot, params: Params)
    ensures CountedIfFilled([s], params)
  {
    if Filled([s], params) {
      FirstIsCounted(s, params);
    }
  }

  lemma NextPushKeepsCounted(entries: seq<Snapshot>, s: Snapshot, params: Params)
    requires entries != [] && CountedIfFilled(entries, params)
    ensures CountedIfFilled(entries + [s], params)
  {
    if Filled(entries + [s], params) {
      FilledSplits(entries, s, params);
      NextIsCounted(entries, s, params);
    }
  }

  lemma PushKeepsCounted(entries: seq<Snapshot>, s: Snapshot, params: Params)
    requires CountedIfFilled(entries, params)
    ensures CountedIfFilled(entries + [s], params)
  {
    if entries == [] {
      assert entries + [s] == [s];
      FirstPushKeepsCounted(s, params);
    } else {
      NextPushKeepsCounted(entries, s, params);
    }
  }

  lemma NoEntriesCounted(params: Params)
    ensures CountedIfFilled([], params)
  {
  }

  lemma {:induction false} TradesFacts(entries: seq<Snapshot>, params: Params)
    ensures CountedIfFilled(entries, params)
    decreases |entries|
  {
    if entries == [] {
      NoEntriesCounted(params);
    } else {
      var init, last := LastSplitsOff(entries);
      TradesFacts(init, params);
      PushKeepsCounted(init, last, params);
    }
  }

  /**
   * The trade count is the number of entries plus that of the NO entries a later entry closed, whose closing
   * trades buy YES; every counted trade slipped by exactly the cost; the profit is the given gain.
   */
  ghost predicate CountsNoCloses(quality: FillQuality, entries: seq<Snapshot>, gain: real, params: Params) {
    && quality.tradeCount == |entries| + ClosedNoEntries(entries)
    && quality.totalPnl == gain
    && (entries != [] ==> quality.meanPnl == Quotient(gain, quality.tradeCount as real))
    && (entries != [] ==> quality.meanSlippage == quality.maxSlippage == Cost(params.costs))
  }

  /** What a replay gained in all. */
  function Profit(replay: Replay, params: Params): real
    requires replay.Replay?
  {
    replay.state.book.equity - params.initial
  }

  lemma AccountedTotals(book: Book, snapshots: seq<Snapshot>, params: Params)
    requires snapshots != [] && Accounted(book, snapshots, params)
    ensures book.trades == TradesOf(Entries(snapshots, params.threshold), params)
    ensures Entries(snapshots, params.threshold) == [] ==> book.equity == params.initial
  {
  }

  lemma ReportedQuality(snapshots: seq<Snapshot>, params: Params)
    requires |snapshots| >= 2 && RunReplay(snapshots, params).Success?
    ensures var replay := RunReplay(snapshots, params).value;
            replay.quality == Quality(replay.state.book.trades, Profit(replay, params))
  {
  }

  lemma BookMeansCounted(ticks: seq<Snapshot>, params: Params)
    requires BookOf(ticks, params).Success?
    ensures Counted(Entries(ticks, params.threshold), params)
  {
    CompletedIsFilled(ticks, params);
    TradesFacts(Entries(ticks, params.threshold), params);
  }

  lemma EntriesAreCounted(snapshots: seq<Snapshot>, params: Params)
    requires |snapshots| >= 2 && RunReplay(snapshots, params).Success?
    ensures Counted(Entries(snapshots, params.threshold), params)
  {
    FinalBook(snapshots, params);
    BookMeansCounted(snapshots, params);
  }

  lemma QualityOf(quality: FillQuality, trades: seq<Trade>, entries: seq<Snapshot>, pnl: real, params: Params)
    requires quality == Quality(trades, pnl) && trades == TradesOf(entries, params)
    requires Counted(entries, params) && (entries == [] ==> pnl == 0.0)
    ensures CountsNoCloses(quality, entries, pnl, params)
  {
    var buys := BuyingTrades(trades);
    BuyingTradesKeep(trades, params.costs);
    if buys != [] {
      UniformSlippage(buys, params.costs);
      DivideBack(|buys| as real, Cost(params.costs));
    }
  }

  lemma AccountedQuality(replay: Replay, snapshots: seq<Snapshot>, params: Params)
    requires snapshots != [] && replay.Replay? && Accounted(replay.state.book, snapshots, params)
    requires replay.quality == Quality(replay.state.book.trades, Profit(replay, params))
    requires Counted(Entries(snapshots, params.threshold), params)
    ensures CountsNoCloses(replay.quality, Entries(snapshots, params.threshold), Profit(replay, params), params)
  {
    AccountedTotals(replay.state.book, snapshots, params);
    QualityOf(replay.quality, replay.state.book.trades, Entries(snapshots, params.threshold), Profit(replay, params), params);
  }

  lemma RunIsReported(replay: Replay, snapshots: seq<Snapshot>, params: Params)
    requires |snapshots| >= 2 && RunReplay(snapshots, params) == Success(replay)
    ensures replay.Replay? && Accounted(replay.state.book, snapshots, params)
    ensures replay.quality == Quality(replay.state.book.trades, Profit(replay, params))
    ensures Counted(Entries(snapshots, params.threshold), params)
  {
    ReportedQuality(snapshots, params);
    EntriesAreCounted(snapshots, params);
    EveryEntryIsClosedOnce(snapshots, params);
  }

  /** The statistics count the closes of NO positions among the entries, in the trade count and in every mean. */
  lemma QualityCountsNoCloses(snapshots: seq<Snapshot>, params: Params)
    requires |snapshots| >= 2 && RunReplay(snapshots, params).Success?
    ensures var replay := RunReplay(snapshots, params).value;
            CountsNoCloses(replay.quality, Entries(snapshots, params.threshold), Profit(replay, params), params)
  {
    RunIsReported(RunReplay(snapshots, params).value, snapshots, params);
    AccountedQuality(RunReplay(snapshots, params).value, snapshots, params);
  }

  lemma ZeroProduct(x: real, y: real)
    requires Times(x, y) == 0.0
    ensures x == 0.0 || y == 0.0
  {
    TimesSign(x, y);
    TimesSign(-x, y);
    NegatedLeft(x, y);
  }

  lemma DividedByMore(x: real, n: nat, more: nat)
    requires n > 0
    ensures Quotient(x, (n + more) as real) == Quotient(x, n as real) <==> more == 0 || x == 0.0
  {
    var q := Quotient(x, n as real);
    MultiplyBack(x, n as real);
    MultiplyBack(x, (n + more) as real);
    if Quotient(x, (n + more) as real) == q {
      TimesAdd(n as real, more as real, q);
      assert Times(more as real, q) == 0.0;
      ZeroProduct(more as real, q);
      TimesSign(n as real, q);
    }
    if x == 0.0 {
      QuotientOfSelf(n as real);
      QuotientOfSelf((n + more) as real);
    }
  }

  /** The reported mean profit is that per entry exactly if no NO entry was closed by a later one or nothing was gained. */
  lemma MeanPnlIsPerEntry(snapshots: seq<Snapshot>, params: Params)
    requires |snapshots| >= 2 && RunReplay(snapshots, params).Success?
    requires Entries(snapshots, params.threshold) != []
    ensures var entries := Entries(snapshots, params.threshold);
            var replay := RunReplay(snapshots, params).value;
            (replay.quality.meanPnl == Quotient(Profit(replay, params), |entries| as real)
             <==> ClosedNoEntries(entries) == 0 || Profit(replay, params) == 0.0)
  {
    var entries := Entries(snapshots, params.threshold);
    QualityCountsNoCloses(snapshots, params);
    DividedByMore(Profit(RunReplay(snapshots, params).value, params), |entries|, ClosedNoEntries(entries));
  }

  // ---------- Single positions ----------

  /** A NO position closed within a valid market is booked as `NoGain` per share. */
  lemma NoRoundTripIsNoGain(s: Snapshot, t: Snapshot, params: Params)
    requires ValidMarket([s, t], params.costs) && Decide(s, params.threshold).Some? && s.yes > 0.5
    ensures RoundTrip(s, t, params) == NoGain(s.yes, t.yes, params.costs) * params.costs.size
  {
    assert [s, t][0] == s && [s, t][1] == t;
    DecideSide(s, params.threshold);
  }

  /** A YES position closed within a valid market is booked as `YesGain` per share. */
  lemma YesRoundTripIsYesGain(s: Snapshot, t: Snapshot, params: Params)
    requires ValidMarket([s, t], params.costs) && Decide(s, params.threshold).Some? && s.yes <= 0.5
    ensures RoundTrip(s, t, params) == YesGain(s.yes, t.yes, params.costs) * params.costs.size
  {
    assert [s, t][0] == s && [s, t][1] == t;
    DecideSide(s, params.threshold);
  }

  /** Mids are probabilities and costs are not negative. */
  ghost predicate ValidMarket(ticks: seq<Snapshot>, c: Costs) {
    && c.spread >= 0.0 && c.size >= 0.0 && c.slippagePerUnit >= 0.0
    && forall i :: 0 <= i < |ticks| ==> 0.0 <= ticks[i].yes <= 1.0
  }

  lemma ValidCloses(b: Book, s: Snapshot, c: Costs)
    requires ValidMarket([s], c)
    ensures Close(b, s, c).Success?
  {
    assert [s][0] == s;
  }

  lemma ValidTicks(b: Book, s: Snapshot, params: Params)
    requires ValidMarket([s], params.costs)
    ensures TickBook(b, s, params).Success?
  {
    assert [s][0] == s;
    ValidCloses(b, s, params.costs);
  }

  lemma ValidLast(ticks: seq<Snapshot>, s: Snapshot, c: Costs)
    requires ValidMarket(ticks + [s], c)
    ensures ValidMarket(ticks, c) && ValidMarket([s], c)
  {
    assert (ticks + [s])[|ticks|] == s && forall i :: 0 <= i < |ticks| ==> (ticks + [s])[i] == ticks[i];
  }

  lemma {:induction false} ValidBooks(ticks: seq<Snapshot>, params: Params)
    requires ValidMarket(ticks, params.costs)
    ensures BookOf(ticks, params).Success?
    decreases |ticks|
  {
    if ticks != [] {
      var init, last := LastSplitsOff(ticks);
      ValidLast(init, last, params.costs);
      ValidBooks(init, params);
      BookPush(init, last, params);
      ValidTicks(BookOf(init, params).value, last, params);
    }
  }

  /** In a valid market every replay completes. */
  lemma ValidMarketCompletes(ticks: seq<Snapshot>, params: Params)
    requires ValidMarket(ticks, params.costs)
    ensures RunReplay(ticks, params).Success?
  {
    if |ticks| >= 2 {
      var init, last := LastSplitsOff(ticks);
      ValidBooks(ticks, params);
      ValidLast(init, last, params.costs);
      ValidCloses(BookOf(ticks, params).value, last, params.costs);
    }
  }

  lemma EntriesOfTwo(s: Snapshot, t: Snapshot, threshold: real)
    ensures Entries([s, t], threshold)
         == (if Decide(s, threshold).Some? then [s] else []) + (if Decide(t, threshold).Some? then [t] else [])
  {
    assert [s, t][..1] == [s] && [s][..0] == [];
    assert Entries([], threshold) == [];
  }

  lemma FirstOfTwo(s: Snapshot, t: Snapshot, threshold: real)
    requires Decide(s, threshold).Some?
    ensures FirstEntry([s, t], threshold) == 0
  {
    assert [s, t][0] == s;
  }

  /** Two ticks, an entry at the first: both equity points are at the second. */
  lemma FirstEntryHasNoPoint(initial: real, costs: Costs)
    requires costs.spread >= 0.0 && costs.size >= 0.0 && costs.slippagePerUnit >= 0.0
    ensures var r := RunReplay([Snapshot(0, 0.1), Snapshot(1, 0.5)], Params(initial, costs, 0.05));
            r.Success? && CurveTimes(r.value.state.book.curve) == [1, 1]
  {
    var ticks, params := [Snapshot(0, 0.1), Snapshot(1, 0.5)], Params(initial, costs, 0.05);
    assert ValidMarket(ticks, costs);
    ValidMarketCompletes(ticks, params);
    FirstOfTwo(ticks[0], ticks[1], 0.05);
    EquityPointTimes(ticks, params);
    assert TickTimes(ticks[..0]) == [] && TickTimes(ticks[1..]) == [1] && [] + [1] + [1] == [1, 1];
  }

  lemma DefaultCostsExample()
    ensures var costs := Costs(0.02, 100.0, 0.001);
            NoGain(0.8, 0.5, costs) == -0.3 && NoMarkToMarket(0.8, 0.5, costs) == 0.08
  {
    assert Cost(Costs(0.02, 100.0, 0.001)) == 0.11;
  }

  /** With one entry at the first of two ticks the replay gains that entry's round trip. */
  lemma OneEntryGain(s: Snapshot, t: Snapshot, params: Params)
    requires ValidMarket([s, t], params.costs)
    requires Decide(s, params.threshold).Some? && Decide(t, params.threshold).None?
    ensures var r := RunReplay([s, t], params);
            r.Success? && r.value.Replay? && r.value.state.book.equity == params.initial + RoundTrip(s, t, params)
  {
    ValidMarketCompletes([s, t], params);
    EntriesOfTwo(s, t, params.threshold);
    assert [s] + [] == [s];
    EveryEntryIsClosedOnce([s, t], params);
    OpeningEntry(s, params);
  }

  /** With the default costs, stake and threshold: a NO bought at 0.8 and closed at 0.5 earns 8 and is booked as losing 30. */
  lemma FallingMidBooksALoss(initial: real)
    ensures var costs := Costs(0.02, 100.0, 0.001);
            var r := RunReplay([Snapshot(0, 0.8), Snapshot(1, 0.5)], Params(initial, costs, 0.05));
            && r.Success? && r.value.state.book.equity == initial - 30.0
            && NoMarkToMarket(0.8, 0.5, costs) * costs.size == 8.0
  {
    var s, t, params := Snapshot(0, 0.8), Snapshot(1, 0.5), Params(initial, Costs(0.02, 100.0, 0.001), 0.05);
    OneEntryGain(s, t, params);
    NoRoundTripIsNoGain(s, t, params);
    DefaultCostsExample();
  }

  lemma ProfitIsTotalGain(snapshots: seq<Snapshot>, params: Params)
    requires |snapshots| >= 2 && RunReplay(snapshots, params).Success?
    ensures Profit(RunReplay(snapshots, params).value, params) == TotalGain(snapshots, params)
  {
    EveryEntryIsClosedOnce(snapshots, params);
  }

  lemma GainOfTwo(s: Snapshot, t: Snapshot, params: Params)
    requires Decide(s, params.threshold).Some? && Decide(t, params.threshold).Some? && s.yes > 0.5
    ensures Entries([s, t], params.threshold) == [s, t] && ClosedNoEntries([s, t]) == 1
    ensures TotalGain([s, t], params) == RoundTrip(s, t, params) + RoundTrip(t, t, params)
  {
    EntriesOfTwo(s, t, params.threshold);
    assert [s] + [t] == [s, t];
    ClosedNoEntriesPush([s], t);
    OpeningEntry(s, params);
    NextEntry([s], t, params);
  }

  lemma TwoEntriesQuality(s: Snapshot, t: Snapshot, params: Params) returns (replay: Replay)
    requires ValidMarket([s, t], params.costs)
    requires Decide(s, params.threshold).Some? && Decide(t, params.threshold).Some? && s.yes > 0.5
    ensures Entries([s, t], params.threshold) == [s, t] && RunReplay([s, t], params) == Success(replay) && replay.Replay?
    ensures CountsNoCloses(replay.quality, [s, t], RoundTrip(s, t, params) + RoundTrip(t, t, params), params)
  {
    ValidMarketCompletes([s, t], params);
    replay := RunReplay([s, t], params).value;
    GainOfTwo(s, t, params);
    ProfitIsTotalGain([s, t], params);
    QualityCountsNoCloses([s, t], params);
  }

  lemma ValidPair(s: Snapshot, t: Snapshot, c: Costs)
    requires 0.0 <= s.yes <= 1.0 && 0.0 <= t.yes <= 1.0
    requires c.spread >= 0.0 && c.size >= 0.0 && c.slippagePerUnit >= 0.0
    ensures ValidMarket([s, t], c)
  {
  }

  lemma FreeExample(s: Snapshot)
    requires s.yes == 0.8
    ensures Decide(s, 0.05).Some?
  {
  }

  lemma FreeNoGain(mid: real, later: real, c: Costs)
    requires mid == later == 0.8 && c.spread == 0.0 && c.slippagePerUnit == 0.0
    ensures NoGain(mid, later, c) == -0.6
  {
    assert c.slippagePerUnit * c.size == 0.0;
    assert Cost(c) == 0.0;
  }

  lemma UnitNoRoundTrip(s: Snapshot, t: Snapshot, params: Params, gain: real)
    requires ValidMarket([s, t], params.costs) && Decide(s, params.threshold).Some? && s.yes > 0.5
    requires params.costs.size == 1.0 && NoGain(s.yes, t.yes, params.costs) == gain
    ensures RoundTrip(s, t, params) == gain
  {
    NoRoundTripIsNoGain(s, t, params);
  }

  lemma ThreeTrades(quality: FillQuality, s: Snapshot, t: Snapshot, gain: real, params: Params)
    requires s.yes > 0.5 && gain == -1.2 && CountsNoCloses(quality, [s, t], gain, params)
    ensures quality.tradeCount == 3 && quality.totalPnl == -1.2 && quality.meanPnl == -0.4
  {
    ClosedNoEntriesPush([s], t);
    assert [s] + [t] == [s, t] && ClosedNoEntries([s]) == 0;
    assert Quotient(-1.2, 3.0) == -0.4;
  }

  lemma FreeRoundTrip(s: Snapshot, t: Snapshot, params: Params)
    requires s.yes == t.yes == 0.8 && params.costs == Costs(0.0, 1.0, 0.0) && params.threshold == 0.05
    ensures RoundTrip(s, t, params) == -0.6
  {
    FreeExample(s);
    ValidPair(s, t, params.costs);
    FreeNoGain(s.yes, t.yes, params.costs);
    UnitNoRoundTrip(s, t, params, -0.6);
  }

  lemma CountedThrice(s: Snapshot, t: Snapshot, params: Params) returns (replay: Replay)
    requires ValidMarket([s, t], params.costs)
    requires Decide(s, params.threshold).Some? && Decide(t, params.threshold).Some? && s.yes > 0.5
    requires RoundTrip(s, t, params) == -0.6 && RoundTrip(t, t, params) == -0.6
    ensures Entries([s, t], params.threshold) == [s, t] && RunReplay([s, t], params) == Success(replay) && replay.Replay?
    ensures replay.quality.tradeCount == 3 && replay.quality.totalPnl == -1.2 && replay.quality.meanPnl == -0.4
  {
    replay := TwoEntriesQuality(s, t, params);
    ThreeTrades(replay.quality, s, t, RoundTrip(s, t, params) + RoundTrip(t, t, params), params);
  }

  /** Two NO entries at 0.8 without costs: three counted trades, and a mean loss of 0.4 where each entry lost 0.6. */
  lemma NoCloseIsCounted(s: Snapshot, t: Snapshot, params: Params) returns (replay: Replay)
    requires s.yes == t.yes == 0.8 && params.costs == Costs(0.0, 1.0, 0.0) && params.threshold == 0.05
    ensures Entries([s, t], params.threshold) == [s, t] && RunReplay([s, t], params) == Success(replay) && replay.Replay?
    ensures replay.quality.tradeCount == 3 && replay.quality.totalPnl == -1.2 && replay.quality.meanPnl == -0.4
  {
    FreeExample(s);
    FreeExample(t);
    ValidPair(s, t, params.costs);
    FreeRoundTrip(s, t, params);
    FreeRoundTrip(t, t, params);
    replay := CountedThrice(s, t, params);
  }

  /** A position the agent takes, closed at the mid it was opened at, never gains. */
  lemma SameMidNeverGains(s: Snapshot, t: Snapshot, params: Params)
    requires s.yes == t.yes && params.costs.size >= 0.0
    ensures RoundTrip(s, t, params) <= 0.0
  {
    var p := PositionAt(s, params);
    if p.Some? {
      CostIsNonNegative(p.value.side, s.yes, params.costs);
      DecideSide(s, params.threshold);
      var cost := Cost(params.costs);
      ClipFacts(s.yes - cost, s.yes + cost);
      ClipFacts(1.0 - s.yes + cost, s.yes + cost);
      if ComputeFill(CloseSide(p.value), t.yes, params.costs).Success? {
        var close := ComputeFill(CloseSide(p.value), t.yes, params.costs).value.price;
        LossTimesStake(if p.value.side == YesBuy then close - p.value.entry else p.value.entry - close, params.costs.size);
      }
    }
  }

  lemma LossTimesStake(difference: real, stake: real)
    requires difference <= 0.0 && stake >= 0.0
    ensures difference * stake <= 0.0
  {
  }
}
