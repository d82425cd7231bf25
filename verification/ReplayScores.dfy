/** What a replay forecasts, which outcomes it scores the forecasts against, and the score itself. */
module ReplayScores {
  import opened FillModel
  import opened LinearAlgebra
  import opened SnapshotReplay
  import opened Wrappers

  /** The agent trades exactly when the mid is at least five thresholds away from one half,
   *  and moves it a fifth of the way there. */
  lemma DecideMeansEdge(s: Snapshot, threshold: real)
    ensures var d := Decide(s, threshold);
            && (d.Some? <==> 5.0 * threshold <= Distance(s.yes, 0.5))
            && (d.Some? ==> 5.0 * (d.value.predicted - s.yes) == 0.5 - s.yes)
            && (d.Some? ==> d.value.side == if s.yes <= 0.5 then YesBuy else NoBuy)
  {
  }

  // ---------- What is recorded ----------

  /** The ticks among the first k that the agent trades at and that have a following tick. */
  function ScoredTicks(snapshots: seq<Snapshot>, k: nat, threshold: real): (ticks: seq<nat>)
    requires k <= |snapshots|
    ensures forall j :: 0 <= j < |ticks| ==> ticks[j] + 1 < |snapshots|
  {
    if k == 0 then []
    else
      ScoredTicks(snapshots, k - 1, threshold)
      + (if k < |snapshots| && 5.0 * threshold <= Distance(snapshots[k - 1].yes, 0.5) then [k - 1] else [])
  }

  /** A forecast a fifth of the way to one half, scored by whether the mid did not fall until the next tick. */
  ghost predicate Records(scores: Scores, j: nat, s: Snapshot, next: Snapshot)
    requires j < |scores.predictions| == |scores.outcomes|
  {
    && 5.0 * (scores.predictions[j] - s.yes) == 0.5 - s.yes
    && scores.outcomes[j] == if next.yes >= s.yes then 1 else 0
  }

  ghost predicate RecordsTicks(scores: Scores, snapshots: seq<Snapshot>, ticks: seq<nat>)
    requires forall j :: 0 <= j < |ticks| ==> ticks[j] + 1 < |snapshots|
  {
    && |scores.predictions| == |scores.outcomes| == |ticks|
    && |scores.points| == (if ticks == [] then 0 else |ticks| - 1)
    && (forall j :: 0 <= j < |scores.points| ==> scores.points[j].at == snapshots[ticks[j + 1]].at)
    && forall j :: 0 <= j < |ticks| ==> Records(scores, j, snapshots[ticks[j]], snapshots[ticks[j] + 1])
  }

  lemma AddScoreRecords(scores: Scores, snapshots: seq<Snapshot>, ticks: seq<nat>, i: nat, predicted: real, outcome: int)
    requires forall j :: 0 <= j < |ticks| ==> ticks[j] + 1 < |snapshots|
    requires RecordsTicks(scores, snapshots, ticks) && i + 1 < |snapshots|
    requires 5.0 * (predicted - snapshots[i].yes) == 0.5 - snapshots[i].yes
    requires outcome == if snapshots[i + 1].yes >= snapshots[i].yes then 1 else 0
    ensures RecordsTicks(AddScore(scores, snapshots[i], predicted, outcome), snapshots, ticks + [i])
  {
    var r, more := AddScore(scores, snapshots[i], predicted, outcome), ticks + [i];
    forall j | 0 <= j < |more|
      ensures Records(r, j, snapshots[more[j]], snapshots[more[j] + 1])
    {
      if j < |ticks| {
        assert Records(scores, j, snapshots[ticks[j]], snapshots[ticks[j] + 1]);
      }
    }
  }

  lemma TickRecords(scores: Scores, snapshots: seq<Snapshot>, ticks: seq<nat>, i: nat, threshold: real)
    returns (next: Scores, more: seq<nat>)
    requires forall j :: 0 <= j < |ticks| ==> ticks[j] + 1 < |snapshots|
    requires RecordsTicks(scores, snapshots, ticks) && i < |snapshots|
    ensures next == TickScores(scores, snapshots[i], NextTick(snapshots, i), threshold)
    ensures more == ticks + (if i + 1 < |snapshots| && 5.0 * threshold <= Distance(snapshots[i].yes, 0.5) then [i] else [])
    ensures (forall j :: 0 <= j < |more| ==> more[j] + 1 < |snapshots|) && RecordsTicks(next, snapshots, more)
  {
    var d := Decide(snapshots[i], threshold);
    next := TickScores(scores, snapshots[i], NextTick(snapshots, i), threshold);
    DecideMeansEdge(snapshots[i], threshold);
    if i + 1 < |snapshots| && d.Some? {
      more := ticks + [i];
      AddScoreRecords(scores, snapshots, ticks, i, d.value.predicted,
                      if snapshots[i + 1].yes >= snapshots[i].yes then 1 else 0);
    } else {
      more := ticks;
      assert ticks + [] == ticks;
    }
  }

  ghost predicate RecordedUpTo(snapshots: seq<Snapshot>, k: nat, threshold: real)
    requires k <= |snapshots|
  {
    RecordsTicks(ScoresAfter(snapshots, k, threshold), snapshots, ScoredTicks(snapshots, k, threshold))
  }

  lemma OneTickMore(snapshots: seq<Snapshot>, k: nat, threshold: real)
    requires k < |snapshots| && RecordedUpTo(snapshots, k, threshold)
    ensures RecordedUpTo(snapshots, k + 1, threshold)
  {
    var next, more := TickRecords(ScoresAfter(snapshots, k, threshold), snapshots, ScoredTicks(snapshots, k, threshold),
                                  k, threshold);
    assert ScoresAfter(snapshots, k + 1, threshold) == next;
    assert ScoredTicks(snapshots, k + 1, threshold) == more;
  }

  lemma NoTicksRecorded(snapshots: seq<Snapshot>, threshold: real)
    ensures RecordedUpTo(snapshots, 0, threshold)
  {
  }

  /** After k ticks the forecasts and outcomes are those of the traded ticks among them, in order. */
  lemma {:induction false} ScoresRecordTicks(snapshots: seq<Snapshot>, k: nat, threshold: real)
    requires k <= |snapshots|
    ensures RecordedUpTo(snapshots, k, threshold)
  {
    if k == 0 {
      NoTicksRecorded(snapshots, threshold);
    } else {
      ScoresRecordTicks(snapshots, k - 1, threshold);
      OneTickMore(snapshots, k - 1, threshold);
    }
  }

  // ---------- The score ----------

  function Misses(predictions: seq<real>, outcomes: seq<int>): (m: Vec)
    requires |predictions| == |outcomes|
    ensures |m| == |predictions| && forall i :: 0 <= i < |m| ==> m[i] == predictions[i] - outcomes[i] as real
  {
    seq(|predictions|, i requires 0 <= i < |predictions| => predictions[i] - outcomes[i] as real)
  }

  lemma {:induction false} ErrorsAreMisses(predictions: seq<real>, outcomes: seq<int>)
    requires |predictions| == |outcomes|
    ensures SquaredErrors(predictions, outcomes) == Dot(Misses(predictions, outcomes), Misses(predictions, outcomes))
  {
    if predictions != [] {
      var n := |predictions| - 1;
      var init := Misses(predictions[..n], outcomes[..n]);
      var miss := predictions[n] - outcomes[n] as real;
      ErrorsAreMisses(predictions[..n], outcomes[..n]);
      DotPush(init, init, miss, miss);
      assert Misses(predictions, outcomes) == init + [miss];
    }
  }

  /** The score is the mean squared miss, and zero exactly for forecasts that are all right. */
  lemma BrierIsMeanSquare(predictions: seq<real>, outcomes: seq<int>)
    requires |predictions| == |outcomes| > 0
    ensures var b, m := BrierScore(predictions, outcomes), Misses(predictions, outcomes);
            && Times(|predictions| as real, b) == Dot(m, m)
            && b >= 0.0 && (b == 0.0 <==> forall i :: 0 <= i < |predictions| ==> predictions[i] == outcomes[i] as real)
  {
    var b, m, n := BrierScore(predictions, outcomes), Misses(predictions, outcomes), |predictions| as real;
    ErrorsAreMisses(predictions, outcomes);
    MultiplyBack(Dot(m, m), n);
    DotSelfSign(m);
    PositiveFactor(n, b);
    TimesSign(n, b);
    assert IsZero(m) <==> forall i :: 0 <= i < |predictions| ==> predictions[i] == outcomes[i] as real by {
      assert forall i :: 0 <= i < |m| ==> m[i] == predictions[i] - outcomes[i] as real;
    }
  }

  /** The final score of a completed replay is that of its recorded forecasts, if there are any. */
  lemma FinalScore(snapshots: seq<Snapshot>, params: Params)
    requires |snapshots| >= 2 && RunReplay(snapshots, params).Success?
    ensures var replay, ticks := RunReplay(snapshots, params).value, ScoredTicks(snapshots, |snapshots|, params.threshold);
            && RecordsTicks(replay.state.scores, snapshots, ticks)
            && (replay.brierFinal.Some? <==> ticks != [])
            && (ticks != [] ==>
                  var m := Misses(replay.state.scores.predictions, replay.state.scores.outcomes);
                  Times(|ticks| as real, replay.brierFinal.value) == Dot(m, m))
  {
    ScoresRecordTicks(snapshots, |snapshots|, params.threshold);
    var scores := ScoresAfter(snapshots, |snapshots|, params.threshold);
    if scores.predictions != [] {
      BrierIsMeanSquare(scores.predictions, scores.outcomes);
    }
  }
}
