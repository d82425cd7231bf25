/** Rolling-origin splits and the evaluation of a forecast over them. */
module WalkForward {
  import opened Wrappers

  datatype Row = Row(time: int, predicted: real, closing: real, outcome: int)
  datatype Split = Split(train: seq<Row>, eval: seq<Row>)
  datatype SplitError = InvalidParameter | Lookahead

  // ---------- Sorting by time ----------

  function Insert(row: Row, sorted: seq<Row>): (r: seq<Row>)
    ensures multiset(r) == multiset(sorted) + multiset{row}
  {
    if sorted == [] then [row]
    else if row.time < sorted[0].time then [row] + sorted
    else
      assert sorted == [sorted[0]] + sorted[1..];
      [sorted[0]] + Insert(row, sorted[1..])
  }

  ghost predicate Ordered(rows: seq<Row>) {
    forall i, j :: 0 <= i < j < |rows| ==> rows[i].time <= rows[j].time
  }

  ghost predicate StrictlyOrdered(rows: seq<Row>) {
    forall i, j :: 0 <= i < j < |rows| ==> rows[i].time < rows[j].time
  }

  lemma {:induction false} InsertKeepsOrder(row: Row, sorted: seq<Row>)
    requires Ordered(sorted)
    ensures Ordered(Insert(row, sorted))
  {
    if sorted != [] && row.time >= sorted[0].time {
      var rest := Insert(row, sorted[1..]);
      InsertKeepsOrder(row, sorted[1..]);
      forall j | 0 <= j < |rest|
        ensures sorted[0].time <= rest[j].time
      {
        assert rest[j] in multiset(rest);
        assert rest[j] == row || rest[j] in sorted[1..];
      }
    }
  }

  /** The rows in order of time; rows of equal time keep their order. */
  function SortByTime(rows: seq<Row>): (r: seq<Row>)
    ensures Ordered(r) && multiset(r) == multiset(rows)
  {
    if rows == [] then []
    else
      var before := SortByTime(rows[..|rows| - 1]);
      InsertKeepsOrder(rows[|rows| - 1], before);
      assert rows == rows[..|rows| - 1] + [rows[|rows| - 1]];
      Insert(rows[|rows| - 1], before)
  }

  function IfAt(row: Row, time: int): seq<Row> {
    if row.time == time then [row] else []
  }

  /** The rows of one time, in order. */
  function AtTime(rows: seq<Row>, time: int): seq<Row> {
    if rows == [] then [] else IfAt(rows[0], time) + AtTime(rows[1..], time)
  }

  lemma AtTimeCons(row: Row, rows: seq<Row>, time: int)
    ensures AtTime([row] + rows, time) == IfAt(row, time) + AtTime(rows, time)
  {
    assert ([row] + rows)[1..] == rows;
  }

  lemma Regroup(rows: seq<Row>, row: Row, a: seq<Row>, b: seq<Row>, c: seq<Row>)
    requires rows != []
    ensures [rows[0]] + (rows[1..] + [row]) == rows + [row]
    ensures a + (b + c) == (a + b) + c
  {
  }

  lemma {:induction false} AtTimeAppend(rows: seq<Row>, row: Row, time: int)
    ensures AtTime(rows + [row], time) == AtTime(rows, time) + IfAt(row, time)
  {
    if rows == [] {
      AtTimeCons(row, [], time);
      assert [row] + [] == [] + [row];
    } else {
      AtTimeAppend(rows[1..], row, time);
      AtTimeCons(rows[0], rows[1..] + [row], time);
      Regroup(rows, row, IfAt(rows[0], time), AtTime(rows[1..], time), IfAt(row, time));
    }
  }

  lemma {:induction false} NoneAtTime(rows: seq<Row>, time: int)
    requires forall i :: 0 <= i < |rows| ==> rows[i].time > time
    ensures AtTime(rows, time) == []
  {
    if rows != [] {
      NoneAtTime(rows[1..], time);
    }
  }

  lemma InsertBeforeLater(row: Row, sorted: seq<Row>, time: int)
    requires forall i :: 0 <= i < |sorted| ==> sorted[i].time > row.time
    ensures AtTime([row] + sorted, time) == AtTime(sorted, time) + IfAt(row, time)
  {
    AtTimeCons(row, sorted, time);
    if row.time == time {
      NoneAtTime(sorted, time);
    }
  }

  lemma {:induction false} InsertGoesLast(row: Row, sorted: seq<Row>, time: int)
    requires Ordered(sorted)
    ensures AtTime(Insert(row, sorted), time) == AtTime(sorted, time) + IfAt(row, time)
  {
    if sorted == [] {
      InsertBeforeLater(row, sorted, time);
      assert [row] + sorted == [row];
    } else if row.time < sorted[0].time {
      InsertBeforeLater(row, sorted, time);
    } else {
      InsertGoesLast(row, sorted[1..], time);
      AtTimeCons(sorted[0], Insert(row, sorted[1..]), time);
    }
  }

  lemma SortPush(rows: seq<Row>, row: Row)
    ensures SortByTime(rows + [row]) == Insert(row, SortByTime(rows))
  {
    assert (rows + [row])[..|rows|] == rows;
  }

  lemma PushIsStable(rows: seq<Row>, row: Row, time: int)
    requires AtTime(SortByTime(rows), time) == AtTime(rows, time)
    ensures AtTime(SortByTime(rows + [row]), time) == AtTime(rows + [row], time)
  {
    SortPush(rows, row);
    InsertGoesLast(row, SortByTime(rows), time);
    AtTimeAppend(rows, row, time);
  }

  lemma LastSplitsOff(rows: seq<Row>) returns (init: seq<Row>, last: Row)
    requires rows != []
    ensures rows == init + [last] && |init| < |rows|
  {
    init, last := rows[..|rows| - 1], rows[|rows| - 1];
  }

  /** Sorting is stable. */
  lemma {:induction false} EqualTimesKeepOrder(rows: seq<Row>, time: int)
    ensures AtTime(SortByTime(rows), time) == AtTime(rows, time)
    decreases |rows|
  {
    if rows != [] {
      var init, last := LastSplitsOff(rows);
      EqualTimesKeepOrder(init, time);
      PushIsStable(init, last, time);
    }
  }

  // ---------- The splits ----------

  function EarliestTime(rows: seq<Row>): (t: int)
    requires rows != []
    ensures forall r :: r in rows ==> t <= r.time
  {
    if |rows| == 1 then rows[0].time
    else
      var rest := EarliestTime(rows[1..]);
      if rows[0].time < rest then rows[0].time else rest
  }

  /** No training row is at or after the evaluation window. */
  predicate NoLookahead(train: seq<Row>, eval: seq<Row>) {
    train == [] || eval == [] || forall i :: 0 <= i < |train| ==> train[i].time < EarliestTime(eval)
  }

  function SplitAt(ordered: seq<Row>, trainEnd: nat, train: nat, eval: nat, embargo: nat): Split
    requires 0 < train <= trainEnd && trainEnd + embargo < |ordered|
  {
    var start := trainEnd + embargo;
    var end := if start + eval < |ordered| then start + eval else |ordered|;
    Split(ordered[trainEnd - train..trainEnd], ordered[start..end])
  }

  /** The splits from training end `trainEnd` on, in steps of the evaluation window. */
  function SplitsFrom(ordered: seq<Row>, trainEnd: nat, train: nat, eval: nat, embargo: nat)
    : Result<seq<Split>, SplitError>
    requires 0 < train <= trainEnd && eval > 0
    decreases |ordered| - trainEnd
  {
    if trainEnd >= |ordered| then Success([])
    else if trainEnd + embargo >= |ordered| then SplitsFrom(ordered, trainEnd + eval, train, eval, embargo)
    else
      var split := SplitAt(ordered, trainEnd, train, eval, embargo);
      if !NoLookahead(split.train, split.eval) then Failure(Lookahead)
      else
        var rest :- SplitsFrom(ordered, trainEnd + eval, train, eval, embargo);
        Success([split] + rest)
  }

  function RollingOriginSplits(rows: seq<Row>, train: int, eval: int, embargo: int): Result<seq<Split>, SplitError> {
    if train <= 0 || eval <= 0 || embargo < 0 then Failure(InvalidParameter)
    else SplitsFrom(SortByTime(rows), train, train, eval, embargo)
  }

  datatype Comparison = Comparison(predicted: real, closing: real, outcome: int)

  function ToComparison(row: Row): Comparison {
    Comparison(row.predicted, row.closing, row.outcome)
  }

  function Comparisons(rows: seq<Row>): (c: seq<Comparison>)
    ensures |c| == |rows|
    ensures forall i :: 0 <= i < |c| ==> c[i] == Comparison(rows[i].predicted, rows[i].closing, rows[i].outcome)
  {
    seq(|rows|, i requires 0 <= i < |rows| => ToComparison(rows[i]))
  }

  /** All evaluation rows, split after split. */
  function EvalRows(splits: seq<Split>): seq<Row> {
    if splits == [] then [] else splits[0].eval + EvalRows(splits[1..])
  }

  /** The splits from training end `trainEnd` on, up to a first one with look-ahead. */
  function SplitsBeforeLookahead(ordered: seq<Row>, trainEnd: nat, train: nat, eval: nat, embargo: nat): seq<Split>
    requires 0 < train <= trainEnd && eval > 0
    decreases |ordered| - trainEnd
  {
    if trainEnd >= |ordered| then []
    else if trainEnd + embargo >= |ordered| then SplitsBeforeLookahead(ordered, trainEnd + eval, train, eval, embargo)
    else
      var split := SplitAt(ordered, trainEnd, train, eval, embargo);
      if !NoLookahead(split.train, split.eval) then []
      else [split] + SplitsBeforeLookahead(ordered, trainEnd + eval, train, eval, embargo)
  }

  /** The splits of an iteration that succeeds are those before the first look-ahead, of which there is none. */
  lemma {:induction false} SuccessYieldsAll(ordered: seq<Row>, trainEnd: nat, train: nat, eval: nat, embargo: nat)
    requires 0 < train <= trainEnd && eval > 0
    ensures match SplitsFrom(ordered, trainEnd, train, eval, embargo)
            case Success(all) => SplitsBeforeLookahead(ordered, trainEnd, train, eval, embargo) == all
            case Failure(e) => e == Lookahead
    decreases |ordered| - trainEnd
  {
    if trainEnd < |ordered| {
      SuccessYieldsAll(ordered, trainEnd + eval, train, eval, embargo);
    }
  }

  /** Every yielded split has the requested shape and no look-ahead. */
  lemma {:induction false} YieldedSplitShape(ordered: seq<Row>, trainEnd: nat, train: nat, eval: nat, embargo: nat, k: nat)
    requires 0 < train <= trainEnd && eval > 0
    requires k < |SplitsBeforeLookahead(ordered, trainEnd, train, eval, embargo)|
    ensures Shaped(SplitsBeforeLookahead(ordered, trainEnd, train, eval, embargo)[k], ordered, Advance(trainEnd, k, eval),
                   train, eval, embargo)
    ensures var split := SplitsBeforeLookahead(ordered, trainEnd, train, eval, embargo)[k];
            NoLookahead(split.train, split.eval)
    decreases |ordered| - trainEnd
  {
    if trainEnd + embargo >= |ordered| {
      NothingYieldedPastTheEnd(ordered, trainEnd, train, eval, embargo);
      assert false;
    } else if k > 0 {
      YieldedSplitShape(ordered, trainEnd + eval, train, eval, embargo, k - 1);
    }
  }

  lemma {:induction false} NothingYieldedPastTheEnd(ordered: seq<Row>, trainEnd: nat, train: nat, eval: nat, embargo: nat)
    requires 0 < train <= trainEnd && eval > 0 && trainEnd + embargo >= |ordered|
    ensures SplitsBeforeLookahead(ordered, trainEnd, train, eval, embargo) == []
    decreases |ordered| - trainEnd
  {
    if trainEnd < |ordered| {
      NothingYieldedPastTheEnd(ordered, trainEnd + eval, train, eval, embargo);
    }
  }

  /** A failed iteration has yielded exactly the splits before the first one with look-ahead. */
  lemma {:induction false} FailureStopsAtTheFirst(ordered: seq<Row>, trainEnd: nat, train: nat, eval: nat, embargo: nat)
    requires 0 < train <= trainEnd && eval > 0
    requires SplitsFrom(ordered, trainEnd, train, eval, embargo).Failure?
    ensures var k := |SplitsBeforeLookahead(ordered, trainEnd, train, eval, embargo)|;
            var end := Advance(trainEnd, k, eval);
            && trainEnd <= end && end + embargo < |ordered|
            && var split := SplitAt(ordered, end, train, eval, embargo);
               !NoLookahead(split.train, split.eval)
    decreases |ordered| - trainEnd
  {
    if trainEnd + embargo >= |ordered| {
      NoSplitsPastTheEnd(ordered, trainEnd, train, eval, embargo);
      assert false;
    } else {
      var split := SplitAt(ordered, trainEnd, train, eval, embargo);
      if NoLookahead(split.train, split.eval) {
        FailureStopsAtTheFirst(ordered, trainEnd + eval, train, eval, embargo);
      }
    }
  }

  /** The splits emitted and those still to come are all splits; an error is still to come if there is one. */
  ghost predicate Emitted(splits: seq<Split>, ordered: seq<Row>, trainEnd: nat, train: nat, eval: nat, embargo: nat)
    requires 0 < train <= trainEnd && eval > 0
  {
    && splits + SplitsBeforeLookahead(ordered, trainEnd, train, eval, embargo)
    == SplitsBeforeLookahead(ordered, train, train, eval, embargo)
    && (SplitsFrom(ordered, trainEnd, train, eval, embargo).Failure?
        <==> SplitsFrom(ordered, train, train, eval, embargo).Failure?)
  }

  lemma PutInFront(splits: seq<Split>, split: Split, rest: seq<Split>)
    ensures splits + ([split] + rest) == (splits + [split]) + rest
    ensures splits + [] == splits && [] + splits == splits
  {
  }

  lemma EmitNext(splits: seq<Split>, ordered: seq<Row>, trainEnd: nat, train: nat, eval: nat, embargo: nat, next: nat)
    requires 0 < train <= trainEnd < |ordered| && eval > 0 && next == trainEnd + eval
    requires Emitted(splits, ordered, trainEnd, train, eval, embargo)
    ensures if trainEnd + embargo >= |ordered| then Emitted(splits, ordered, next, train, eval, embargo)
            else
              var split := SplitAt(ordered, trainEnd, train, eval, embargo);
              if NoLookahead(split.train, split.eval)
              then Emitted(splits + [split], ordered, next, train, eval, embargo)
              else splits == SplitsBeforeLookahead(ordered, train, train, eval, embargo)
                   && SplitsFrom(ordered, train, train, eval, embargo).Failure?
  {
    if trainEnd + embargo < |ordered| {
      SplitsStep(ordered, trainEnd, train, eval, embargo);
      var split := SplitAt(ordered, trainEnd, train, eval, embargo);
      PutInFront(splits, split, SplitsBeforeLookahead(ordered, next, train, eval, embargo));
    }
  }

  /** The loop yields the splits one at a time and stops at the first look-ahead. */
  method YieldSplits(ordered: seq<Row>, train: nat, eval: nat, embargo: nat)
    returns (splits: seq<Split>, error: Option<SplitError>)
    requires train > 0 && eval > 0
    ensures splits == SplitsBeforeLookahead(ordered, train, train, eval, embargo)
    ensures match SplitsFrom(ordered, train, train, eval, embargo)
            case Success(all) => error.None? && splits == all
            case Failure(e) => error == Some(e)
  {
    splits := [];
    var trainEnd := train;
    SuccessYieldsAll(ordered, train, train, eval, embargo);
    while trainEnd < |ordered|
      invariant trainEnd >= train && Emitted(splits, ordered, trainEnd, train, eval, embargo)
    {
      EmitNext(splits, ordered, trainEnd, train, eval, embargo, trainEnd + eval);
      if trainEnd + embargo < |ordered| {
        var split := SplitAt(ordered, trainEnd, train, eval, embargo);
        if !NoLookahead(split.train, split.eval) {
          return splits, Some(Lookahead);
        }
        splits := splits + [split];
      }
      trainEnd := trainEnd + eval;
    }
    error := None;
  }

  /** Collects the comparisons the walk-forward evaluation hands to the scorer. */
  method CollectComparisons(rows: seq<Row>, train: int, eval: int, embargo: int)
    returns (r: Result<seq<Comparison>, SplitError>)
    ensures match RollingOriginSplits(rows, train, eval, embargo)
            case Success(splits) => r == Success(Comparisons(EvalRows(splits)))
            case Failure(e) => r == Failure(e)
  {
    if train <= 0 || eval <= 0 || embargo < 0 {
      return Failure(InvalidParameter);
    }
    var splits, error := YieldSplits(SortByTime(rows), train, eval, embargo);
    if error.Some? {
      return Failure(error.value);
    }
    var comparisons: seq<Comparison> := [];
    for k := 0 to |splits|
      invariant comparisons == Comparisons(EvalRows(splits[..k]))
    {
      comparisons := AppendComparisons(comparisons, splits[k].eval);
      EvalRowsAppend(splits[..k], splits[k]);
      ComparisonsAppend(EvalRows(splits[..k]), splits[k].eval);
      assert splits[..k + 1] == splits[..k] + [splits[k]];
    }
    assert splits[..|splits|] == splits;
    r := Success(comparisons);
  }

  method AppendComparisons(before: seq<Comparison>, rows: seq<Row>) returns (comparisons: seq<Comparison>)
    ensures comparisons == before + Comparisons(rows)
  {
    comparisons := before;
    for i := 0 to |rows|
      invariant comparisons == before + Comparisons(rows[..i])
    {
      comparisons := comparisons + [ToComparison(rows[i])];
    }
    assert rows[..|rows|] == rows;
  }

  lemma ComparisonsAppend(a: seq<Row>, b: seq<Row>)
    ensures Comparisons(a + b) == Comparisons(a) + Comparisons(b)
  {
  }

  lemma {:induction false} EvalRowsAppend(splits: seq<Split>, split: Split)
    ensures EvalRows(splits + [split]) == EvalRows(splits) + split.eval
  {
    if splits == [] {
      assert splits + [split] == [split];
      assert EvalRows([split]) == split.eval + [];
    } else {
      EvalRowsAppend(splits[1..], split);
      assert (splits + [split])[1..] == splits[1..] + [split];
    }
  }

  // ---------- What the splits cover ----------

  /** The rows from position `start` on. */
  function Tail(ordered: seq<Row>, start: nat): seq<Row> {
    if start < |ordered| then ordered[start..] else []
  }

  lemma JoinTail(ordered: seq<Row>, trainEnd: nat, train: nat, eval: nat, embargo: nat)
    requires 0 < train <= trainEnd && trainEnd + embargo < |ordered|
    ensures SplitAt(ordered, trainEnd, train, eval, embargo).eval + Tail(ordered, trainEnd + eval + embargo)
         == Tail(ordered, trainEnd + embargo)
  {
    assert trainEnd + eval + embargo == trainEnd + embargo + eval;
  }

  lemma CoverStep(ordered: seq<Row>, trainEnd: nat, train: nat, eval: nat, embargo: nat, rest: seq<Split>)
    requires 0 < train <= trainEnd && trainEnd + embargo < |ordered|
    requires EvalRows(rest) == Tail(ordered, trainEnd + eval + embargo)
    ensures EvalRows([SplitAt(ordered, trainEnd, train, eval, embargo)] + rest) == Tail(ordered, trainEnd + embargo)
  {
    EvalRowsCons(SplitAt(ordered, trainEnd, train, eval, embargo), rest);
    JoinTail(ordered, trainEnd, train, eval, embargo);
  }

  lemma {:induction false} EvalRowsCoverTail(ordered: seq<Row>, trainEnd: nat, train: nat, eval: nat, embargo: nat)
    requires 0 < train <= trainEnd && eval > 0
    requires SplitsFrom(ordered, trainEnd, train, eval, embargo).Success?
    ensures EvalRows(SplitsFrom(ordered, trainEnd, train, eval, embargo).value) == Tail(ordered, trainEnd + embargo)
    decreases |ordered| - trainEnd
  {
    if trainEnd + embargo >= |ordered| {
      NoSplitsPastTheEnd(ordered, trainEnd, train, eval, embargo);
    } else {
      var rest := SplitsFrom(ordered, trainEnd + eval, train, eval, embargo);
      SplitsStep(ordered, trainEnd, train, eval, embargo);
      EvalRowsCoverTail(ordered, trainEnd + eval, train, eval, embargo);
      CoverStep(ordered, trainEnd, train, eval, embargo, rest.value);
    }
  }

  lemma EvalRowsCons(split: Split, rest: seq<Split>)
    ensures EvalRows([split] + rest) == split.eval + EvalRows(rest)
  {
    assert ([split] + rest)[1..] == rest;
  }

  /** The training end after k more steps of the evaluation window. */
  function Advance(trainEnd: nat, k: nat, eval: nat): nat
    decreases k
  {
    if k == 0 then trainEnd else Advance(trainEnd + eval, k - 1, eval)
  }

  lemma {:induction false} AdvanceIs(trainEnd: nat, k: nat, eval: nat)
    ensures Advance(trainEnd, k, eval) == trainEnd + k * eval
    decreases k
  {
    if k > 0 {
      AdvanceIs(trainEnd + eval, k - 1, eval);
    }
  }

  ghost predicate Shaped(split: Split, ordered: seq<Row>, end: nat, train: nat, eval: nat, embargo: nat) {
    && 0 < train <= end && end + embargo < |ordered|
    && split == SplitAt(ordered, end, train, eval, embargo)
    && |split.train| == train && 0 < |split.eval| <= eval
  }

  lemma {:induction false} SplitIsShaped(ordered: seq<Row>, trainEnd: nat, train: nat, eval: nat, embargo: nat, k: nat)
    requires 0 < train <= trainEnd && eval > 0
    requires var r := SplitsFrom(ordered, trainEnd, train, eval, embargo); r.Success? && k < |r.value|
    ensures Shaped(SplitsFrom(ordered, trainEnd, train, eval, embargo).value[k], ordered, Advance(trainEnd, k, eval),
                   train, eval, embargo)
    decreases |ordered| - trainEnd
  {
    if trainEnd + embargo >= |ordered| {
      NoSplitsPastTheEnd(ordered, trainEnd, train, eval, embargo);
      assert false;
    } else {
      SplitsStep(ordered, trainEnd, train, eval, embargo);
      if k > 0 {
        SplitIsShaped(ordered, trainEnd + eval, train, eval, embargo, k - 1);
      }
    }
  }

  /** Split k trains on exactly `train` rows that end `embargo` rows before its evaluation rows begin. */
  lemma SplitShape(ordered: seq<Row>, trainEnd: nat, train: nat, eval: nat, embargo: nat, k: nat)
    requires 0 < train <= trainEnd && eval > 0
    requires var r := SplitsFrom(ordered, trainEnd, train, eval, embargo); r.Success? && k < |r.value|
    ensures Shaped(SplitsFrom(ordered, trainEnd, train, eval, embargo).value[k], ordered, trainEnd + k * eval,
                   train, eval, embargo)
  {
    SplitIsShaped(ordered, trainEnd, train, eval, embargo, k);
    AdvanceIs(trainEnd, k, eval);
  }

  lemma {:induction false} NoSplitsPastTheEnd(ordered: seq<Row>, trainEnd: nat, train: nat, eval: nat, embargo: nat)
    requires 0 < train <= trainEnd && eval > 0 && trainEnd + embargo >= |ordered|
    ensures SplitsFrom(ordered, trainEnd, train, eval, embargo) == Success([])
    decreases |ordered| - trainEnd
  {
    if trainEnd < |ordered| {
      NoSplitsPastTheEnd(ordered, trainEnd + eval, train, eval, embargo);
    }
  }

  /** Whether the last training row of some split is not before its first evaluation row. */
  ghost predicate TiedBoundary(ordered: seq<Row>, trainEnd: nat, train: nat, eval: nat, embargo: nat)
    requires 0 < train <= trainEnd && eval > 0
    decreases |ordered| - trainEnd
  {
    trainEnd + embargo < |ordered|
    && (ordered[trainEnd - 1].time == ordered[trainEnd + embargo].time
        || TiedBoundary(ordered, trainEnd + eval, train, eval, embargo))
  }

  lemma {:induction false} EarliestOfOrdered(rows: seq<Row>)
    requires rows != [] && Ordered(rows)
    ensures EarliestTime(rows) == rows[0].time
  {
    if |rows| > 1 {
      EarliestOfOrdered(rows[1..]);
    }
  }

  lemma NoLookaheadOfOrdered(train: seq<Row>, eval: seq<Row>)
    requires train != [] && eval != [] && Ordered(train) && Ordered(eval)
    ensures NoLookahead(train, eval) <==> train[|train| - 1].time < eval[0].time
  {
    EarliestOfOrdered(eval);
  }

  lemma BoundaryDecides(ordered: seq<Row>, trainEnd: nat, train: nat, eval: nat, embargo: nat)
    requires Ordered(ordered) && 0 < train <= trainEnd && eval > 0 && trainEnd + embargo < |ordered|
    ensures var split := SplitAt(ordered, trainEnd, train, eval, embargo);
            (NoLookahead(split.train, split.eval)
             <==> ordered[trainEnd - 1].time != ordered[trainEnd + embargo].time)
  {
    var split := SplitAt(ordered, trainEnd, train, eval, embargo);
    NoLookaheadOfOrdered(split.train, split.eval);
  }

  /** Look-ahead is reported exactly when equal times straddle the boundary of some split. */
  lemma {:induction false} LookaheadMeansTie(ordered: seq<Row>, trainEnd: nat, train: nat, eval: nat, embargo: nat)
    requires Ordered(ordered) && 0 < train <= trainEnd && eval > 0
    ensures SplitsFrom(ordered, trainEnd, train, eval, embargo).Failure?
       <==> TiedBoundary(ordered, trainEnd, train, eval, embargo)
    decreases |ordered| - trainEnd
  {
    if trainEnd + embargo >= |ordered| {
      NoSplitsPastTheEnd(ordered, trainEnd, train, eval, embargo);
    } else {
      BoundaryDecides(ordered, trainEnd, train, eval, embargo);
      LookaheadMeansTie(ordered, trainEnd + eval, train, eval, embargo);
      SplitsStep(ordered, trainEnd, train, eval, embargo);
    }
  }

  lemma SplitsStep(ordered: seq<Row>, trainEnd: nat, train: nat, eval: nat, embargo: nat)
    requires 0 < train <= trainEnd && eval > 0 && trainEnd + embargo < |ordered|
    ensures var split := SplitAt(ordered, trainEnd, train, eval, embargo);
            var rest := SplitsFrom(ordered, trainEnd + eval, train, eval, embargo);
            SplitsFrom(ordered, trainEnd, train, eval, embargo)
            == if !NoLookahead(split.train, split.eval) then Failure(Lookahead)
               else if rest.Failure? then Failure(rest.error)
               else Success([split] + rest.value)
  {
  }

  lemma {:induction false} DistinctTimesHaveNoTie(ordered: seq<Row>, trainEnd: nat, train: nat, eval: nat, embargo: nat)
    requires StrictlyOrdered(ordered) && 0 < train <= trainEnd && eval > 0
    ensures !TiedBoundary(ordered, trainEnd, train, eval, embargo)
    decreases |ordered| - trainEnd
  {
    if trainEnd + embargo < |ordered| {
      DistinctTimesHaveNoTie(ordered, trainEnd + eval, train, eval, embargo);
    }
  }

  ghost predicate DistinctTimes(rows: seq<Row>) {
    forall i, j :: 0 <= i < j < |rows| ==> rows[i].time != rows[j].time
  }

  lemma {:induction false} InsertKeepsStrictOrder(row: Row, sorted: seq<Row>)
    requires StrictlyOrdered(sorted) && forall i :: 0 <= i < |sorted| ==> sorted[i].time != row.time
    ensures StrictlyOrdered(Insert(row, sorted))
  {
    if sorted != [] && row.time >= sorted[0].time {
      var rest := Insert(row, sorted[1..]);
      InsertKeepsStrictOrder(row, sorted[1..]);
      forall j | 0 <= j < |rest|
        ensures sorted[0].time < rest[j].time
      {
        assert rest[j] in multiset(rest);
        assert rest[j] == row || rest[j] in sorted[1..];
      }
    }
  }

  /** Rows of pairwise distinct times sort into strict order. */
  lemma {:induction false} DistinctTimesSortStrictly(rows: seq<Row>)
    requires DistinctTimes(rows)
    ensures StrictlyOrdered(SortByTime(rows))
  {
    if rows != [] {
      var init, last := rows[..|rows| - 1], rows[|rows| - 1];
      DistinctTimesSortStrictly(init);
      forall i | 0 <= i < |SortByTime(init)|
        ensures SortByTime(init)[i].time != last.time
      {
        assert SortByTime(init)[i] in multiset(SortByTime(init));
        assert SortByTime(init)[i] in init;
      }
      InsertKeepsStrictOrder(last, SortByTime(init));
    }
  }

  /** Parameters are refused exactly if a window is not positive or the embargo is negative. */
  lemma RefusedParameters(rows: seq<Row>, train: int, eval: int, embargo: int)
    ensures RollingOriginSplits(rows, train, eval, embargo) == Failure(InvalidParameter)
       <==> train <= 0 || eval <= 0 || embargo < 0
  {
    if train > 0 && eval > 0 && embargo >= 0 {
      SuccessYieldsAll(SortByTime(rows), train, train, eval, embargo);
    }
  }

  /**
   * For distinct times the evaluation rows are exactly the sorted rows past the first training
   * window and the embargo, so the comparisons do not depend on the evaluation window.
   */
  lemma EvaluationIsTheTail(rows: seq<Row>, train: int, eval: int, embargo: int)
    requires train > 0 && eval > 0 && embargo >= 0 && DistinctTimes(rows)
    ensures var r := RollingOriginSplits(rows, train, eval, embargo);
            r.Success? && EvalRows(r.value) == Tail(SortByTime(rows), train + embargo)
  {
    DistinctTimesSortStrictly(rows);
    LookaheadMeansTie(SortByTime(rows), train, train, eval, embargo);
    DistinctTimesHaveNoTie(SortByTime(rows), train, train, eval, embargo);
    EvalRowsCoverTail(SortByTime(rows), train, train, eval, embargo);
  }
}
