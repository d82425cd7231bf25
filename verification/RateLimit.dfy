/** The fixed-window rate limiter with pruning and a capacity cap. */
module RateLimit {
  import opened FiniteSets

  const MAX_KEYS := 4096

  datatype Window = Window(start: real, count: nat)

  type Windows<!K> = map<K, Window>

  predicate Expired(w: Window, now: real, span: nat) {
    now - w.start >= span as real
  }

  /** The windows that are still running. */
  function Prune<K>(m: Windows<K>, now: real, span: nat): Windows<K> {
    map k | k in m && !Expired(m[k], now, span) :: m[k]
  }

  function Ceiling(x: real): (c: int)
    ensures c as real >= x
    ensures (c - 1) as real < x
  {
    -((-x).Floor)
  }

  /** Seconds until the window has run out, at least one. */
  function RetryAfter(w: Window, now: real, span: nat): (seconds: int)
    ensures seconds >= 1
  {
    var wait := Ceiling(span as real - (now - w.start));
    if wait < 1 then 1 else wait
  }

  // ---------- One request ----------

  datatype Outcome<!K> = Outcome(windows: Windows<K>, retryAfter: int)

  /** A new window for the key, unless the map is full of running windows. */
  function Open<K>(m: Windows<K>, key: K, now: real, span: nat): Windows<K>
    requires key !in m
  {
    var room := if |m| >= MAX_KEYS then Prune(m, now, span) else m;
    if |room| >= MAX_KEYS then room else room[key := Window(now, 1)]
  }

  function Check<K>(m: Windows<K>, key: K, limit: nat, span: nat, now: real): Outcome<K> {
    if key !in m then Outcome(Open(m, key, now, span), 0)
    else if Expired(m[key], now, span) then Outcome(m[key := Window(now, 1)], 0)
    else if m[key].count >= limit then Outcome(m, RetryAfter(m[key], now, span))
    else Outcome(m[key := Window(m[key].start, m[key].count + 1)], 0)
  }

  class Limiter<K(==)> {
    var windows: Windows<K>

    constructor ()
      ensures windows == map[]
    {
      windows := map[];
    }

    /** Deletes the expired windows one by one. */
    method PruneExpired(windowSec: nat, now: real)
      modifies this
      ensures windows == Prune(old(windows), now, windowSec)
    {
      ghost var before := windows;
      var expired := set k | k in windows && Expired(windows[k], now, windowSec);
      while expired != {}
        invariant windows.Keys <= before.Keys && expired <= windows.Keys
        invariant forall k :: k in windows ==> windows[k] == before[k]
        invariant forall k :: k in before && (k in expired || !Expired(before[k], now, windowSec)) ==> k in windows
        invariant forall k :: k in windows && Expired(before[k], now, windowSec) ==> k in expired
        decreases expired
      {
        var k :| k in expired;
        windows := windows - {k};
        expired := expired - {k};
      }
      assert windows.Keys == Prune(before, now, windowSec).Keys;
    }

    method CheckAndIncrement(key: K, limit: nat, windowSec: nat, now: real) returns (retryAfter: int)
      modifies this
      ensures Outcome(windows, retryAfter) == Check(old(windows), key, limit, windowSec, now)
    {
      if key !in windows || Expired(windows[key], now, windowSec) {
        if key !in windows && |windows| >= MAX_KEYS {
          PruneExpired(windowSec, now);
          if |windows| >= MAX_KEYS {
            return 0;
          }
        }
        windows := windows[key := Window(now, 1)];
        return 0;
      }
      var w := windows[key];
      if w.count >= limit {
        return RetryAfter(w, now, windowSec);
      }
      windows := windows[key := Window(w.start, w.count + 1)];
      return 0;
    }
  }

  /** A refused caller is let in again after exactly the announced number of whole seconds. */
  lemma RetryAfterIsExact<K>(m: Windows<K>, key: K, limit: nat, span: nat, now: real, seconds: nat)
    requires limit >= 1 && seconds >= 1
    requires Check(m, key, limit, span, now).retryAfter > 0
    ensures Check(m, key, limit, span, now).windows == m
    ensures Check(m, key, limit, span, now + seconds as real).retryAfter == 0
       <==> seconds >= Check(m, key, limit, span, now).retryAfter
  {
    var w := m[key];
    var wait := span as real - (now - w.start);
    var c := Ceiling(wait);
    assert Expired(w, now + seconds as real, span) <==> seconds as real >= wait;
    assert seconds as real >= wait <==> seconds >= c by {
      if seconds < c {
        assert seconds as real <= (c - 1) as real;
      }
    }
  }

  /** A request goes through without being counted exactly when its key is new and the map is full of running windows. */
  lemma UncountedAdmission<K>(m: Windows<K>, key: K, limit: nat, span: nat, now: real)
    ensures var outcome := Check(m, key, limit, span, now);
            (outcome.retryAfter == 0 && key !in outcome.windows
             <==> key !in m && |m| >= 4096 && |Prune(m, now, span)| >= 4096)
  {
  }

  // ---------- Runs ----------

  datatype Request<K> = Request(key: K, now: real)

  ghost predicate Chronological<K>(requests: seq<Request<K>>) {
    forall i, j :: 0 <= i < j < |requests| ==> requests[i].now <= requests[j].now
  }

  function Run<K>(requests: seq<Request<K>>, limit: nat, span: nat): Windows<K> {
    if requests == [] then map[]
    else
      var last := requests[|requests| - 1];
      Check(Run(requests[..|requests| - 1], limit, span), last.key, limit, span, last.now).windows
  }

  ghost predicate Bounded<K>(m: Windows<K>, limit: nat) {
    |m| <= MAX_KEYS && forall k :: k in m ==> 1 <= m[k].count <= limit
  }

  lemma PutSize<K>(m: Windows<K>, key: K, w: Window)
    ensures |m[key := w]| == if key in m then |m| else |m| + 1
  {
    assert m[key := w].Keys == m.Keys + {key};
    if key in m {
      assert m.Keys + {key} == m.Keys;
    }
  }

  lemma PruneKeepsBounds<K>(m: Windows<K>, limit: nat, span: nat, now: real)
    requires Bounded(m, limit)
    ensures Bounded(Prune(m, now, span), limit)
  {
    assert Prune(m, now, span).Keys <= m.Keys;
    SubsetSize(Prune(m, now, span).Keys, m.Keys);
  }

  lemma CheckKeepsBounds<K>(m: Windows<K>, key: K, limit: nat, span: nat, now: real)
    requires limit >= 1 && Bounded(m, limit)
    ensures Bounded(Check(m, key, limit, span, now).windows, limit)
  {
    if key !in m {
      PruneKeepsBounds(m, limit, span, now);
      PutSize(m, key, Window(now, 1));
      PutSize(Prune(m, now, span), key, Window(now, 1));
    } else {
      PutSize(m, key, Window(now, 1));
      PutSize(m, key, Window(m[key].start, m[key].count + 1));
    }
  }

  /** The map never outgrows the cap and every counter lies between one and the limit. */
  lemma {:induction false} RunIsBounded<K>(requests: seq<Request<K>>, limit: nat, span: nat)
    requires limit >= 1
    ensures Bounded(Run(requests, limit, span), limit)
  {
    if requests != [] {
      var last := requests[|requests| - 1];
      RunIsBounded(requests[..|requests| - 1], limit, span);
      CheckKeepsBounds(Run(requests[..|requests| - 1], limit, span), last.key, limit, span, last.now);
    }
  }

  // ---------- Against an unbounded limiter ----------

  /** The reference: one window per key ever seen, never pruned and never capped. */
  function ReferenceCheck<K>(m: Windows<K>, key: K, limit: nat, span: nat, now: real): Outcome<K> {
    if key !in m || Expired(m[key], now, span) then Outcome(m[key := Window(now, 1)], 0)
    else if m[key].count >= limit then Outcome(m, RetryAfter(m[key], now, span))
    else Outcome(m[key := Window(m[key].start, m[key].count + 1)], 0)
  }

  function ReferenceRun<K>(requests: seq<Request<K>>, limit: nat, span: nat): Windows<K> {
    if requests == [] then map[]
    else
      var last := requests[|requests| - 1];
      ReferenceCheck(ReferenceRun(requests[..|requests| - 1], limit, span), last.key, limit, span, last.now).windows
  }

  /** Before request i fewer than the cap's number of reference windows are running. */
  ghost predicate RoomAt<K>(requests: seq<Request<K>>, i: nat, limit: nat, span: nat)
    requires i < |requests|
  {
    |Prune(ReferenceRun(requests[..i], limit, span), requests[i].now, span)| < MAX_KEYS
  }

  ghost predicate NeverFull<K>(requests: seq<Request<K>>, limit: nat, span: nat) {
    forall i :: 0 <= i < |requests| ==> RoomAt(requests, i, limit, span)
  }

  /** The limiter has every running window of the reference, and no other contents. */
  ghost predicate Simulates<K>(m: Windows<K>, reference: Windows<K>, now: real, span: nat) {
    && (forall k :: k in m ==> k in reference && m[k] == reference[k])
    && (forall k :: k in reference && k !in m ==> Expired(reference[k], now, span))
  }

  lemma CheckSimulates<K>(m: Windows<K>, reference: Windows<K>, key: K, limit: nat, span: nat, now: real)
    requires Simulates(m, reference, now, span)
    requires |Prune(reference, now, span)| < MAX_KEYS
    ensures var checked, expected := Check(m, key, limit, span, now), ReferenceCheck(reference, key, limit, span, now);
            checked.retryAfter == expected.retryAfter && Simulates(checked.windows, expected.windows, now, span)
  {
    if key !in m {
      assert Prune(m, now, span) == Prune(reference, now, span) by {
        assert Prune(m, now, span).Keys == Prune(reference, now, span).Keys;
      }
    }
  }

  lemma SimulatesLater<K>(m: Windows<K>, reference: Windows<K>, earlier: real, now: real, span: nat)
    requires Simulates(m, reference, earlier, span) && earlier <= now
    ensures Simulates(m, reference, now, span)
  {
  }

  lemma RoomInPrefix<K>(requests: seq<Request<K>>, last: Request<K>, i: nat, limit: nat, span: nat)
    requires i < |requests|
    ensures RoomAt(requests + [last], i, limit, span) <==> RoomAt(requests, i, limit, span)
  {
    assert (requests + [last])[..i] == requests[..i] && (requests + [last])[i] == requests[i];
  }

  lemma RoomForLast<K>(requests: seq<Request<K>>, last: Request<K>, limit: nat, span: nat)
    requires RoomAt(requests + [last], |requests|, limit, span)
    ensures |Prune(ReferenceRun(requests, limit, span), last.now, span)| < MAX_KEYS
  {
    assert (requests + [last])[..|requests|] == requests;
  }

  lemma EarlierNeverFull<K>(requests: seq<Request<K>>, last: Request<K>, limit: nat, span: nat)
    requires Chronological(requests + [last]) && NeverFull(requests + [last], limit, span)
    ensures Chronological(requests) && NeverFull(requests, limit, span)
    ensures forall i :: 0 <= i < |requests| ==> requests[i].now <= last.now
    ensures |Prune(ReferenceRun(requests, limit, span), last.now, span)| < MAX_KEYS
  {
    var all := requests + [last];
    assert all[|requests|] == last && forall i :: 0 <= i < |requests| ==> requests[i] == all[i];
    forall i | 0 <= i < |requests|
      ensures RoomAt(requests, i, limit, span)
    {
      RoomInPrefix(requests, last, i, limit, span);
    }
    RoomForLast(requests, last, limit, span);
  }

  lemma LastSplitsOff<K>(requests: seq<Request<K>>) returns (before: seq<Request<K>>, last: Request<K>)
    requires requests != []
    ensures requests == before + [last] && |before| < |requests|
  {
    before, last := requests[..|requests| - 1], requests[|requests| - 1];
  }

  lemma RunsPush<K>(before: seq<Request<K>>, last: Request<K>, limit: nat, span: nat)
    ensures Run(before + [last], limit, span) == Check(Run(before, limit, span), last.key, limit, span, last.now).windows
    ensures ReferenceRun(before + [last], limit, span)
         == ReferenceCheck(ReferenceRun(before, limit, span), last.key, limit, span, last.now).windows
  {
    assert (before + [last])[..|before|] == before;
  }

  lemma {:induction false} RunSimulates<K>(requests: seq<Request<K>>, limit: nat, span: nat, now: real)
    requires Chronological(requests) && NeverFull(requests, limit, span)
    requires forall i :: 0 <= i < |requests| ==> requests[i].now <= now
    ensures Simulates(Run(requests, limit, span), ReferenceRun(requests, limit, span), now, span)
    decreases |requests|
  {
    if requests != [] {
      var before, last := LastSplitsOff(requests);
      EarlierNeverFull(before, last, limit, span);
      RunSimulates(before, limit, span, last.now);
      CheckSimulates(Run(before, limit, span), ReferenceRun(before, limit, span), last.key, limit, span, last.now);
      RunsPush(before, last, limit, span);
      SimulatesLater(Run(requests, limit, span), ReferenceRun(requests, limit, span), last.now, now, span);
    }
  }

  /** While the reference never fills the cap, every decision is the reference's decision. */
  lemma DecisionsMatchReference<K>(requests: seq<Request<K>>, request: Request<K>, limit: nat, span: nat)
    requires Chronological(requests + [request]) && NeverFull(requests + [request], limit, span)
    ensures Check(Run(requests, limit, span), request.key, limit, span, request.now).retryAfter
         == ReferenceCheck(ReferenceRun(requests, limit, span), request.key, limit, span, request.now).retryAfter
  {
    EarlierNeverFull(requests, request, limit, span);
    RunSimulates(requests, limit, span, request.now);
    CheckSimulates(Run(requests, limit, span), ReferenceRun(requests, limit, span), request.key, limit, span, request.now);
  }

  // ---------- Admissions in any interval of one window length ----------

  /**
   * The admissions of one key that the limiter counted, grouped by window. A request let through
   * because the map is full is not counted.
   */
  function Groups<K(==)>(requests: seq<Request<K>>, key: K, limit: nat, span: nat): seq<seq<real>> {
    if requests == [] then []
    else
      var before, last := requests[..|requests| - 1], requests[|requests| - 1];
      var groups := Groups(before, key, limit, span);
      if last.key != key then groups
      else Count(groups, Run(before, limit, span), key, limit, span, last.now)
  }

  function Count<K(==)>(groups: seq<seq<real>>, m: Windows<K>, key: K, limit: nat, span: nat, now: real): seq<seq<real>> {
    var outcome := Check(m, key, limit, span, now);
    if outcome.retryAfter > 0 || key !in outcome.windows then groups
    else if key !in m || Expired(m[key], now, span) || groups == [] then groups + [[now]]
    else groups[..|groups| - 1] + [groups[|groups| - 1] + [now]]
  }

  /** Groups of at most `limit` times within `span` of their first, whose first times are `span` apart. */
  ghost predicate WellSpaced(groups: seq<seq<real>>, limit: nat, span: nat) {
    && (forall i :: 0 <= i < |groups| ==> 1 <= |groups[i]| <= limit)
    && (forall i, j :: 0 <= i < |groups| && 0 <= j < |groups[i]| ==>
          groups[i][0] <= groups[i][j] < groups[i][0] + span as real)
    && (forall i :: 0 < i < |groups| ==> groups[i - 1][0] + span as real <= groups[i][0])
  }

  /** The last group is the running window of the key, or over. */
  ghost predicate LastGroupIsWindow<K>(groups: seq<seq<real>>, m: Windows<K>, key: K, now: real, span: nat) {
    if key in m then groups != [] && groups[|groups| - 1] != []
      && groups[|groups| - 1][0] == m[key].start && |groups[|groups| - 1]| == m[key].count
    else groups == [] || (groups[|groups| - 1] != [] && groups[|groups| - 1][0] + span as real <= now)
  }

  lemma OpenGroup(groups: seq<seq<real>>, now: real, limit: nat, span: nat)
    requires limit >= 1 && span >= 1 && WellSpaced(groups, limit, span)
    requires groups != [] ==> groups[|groups| - 1][0] + span as real <= now
    ensures WellSpaced(groups + [[now]], limit, span)
  {
  }

  lemma ExtendGroup(groups: seq<seq<real>>, now: real, limit: nat, span: nat)
    requires WellSpaced(groups, limit, span) && groups != [] && |groups[|groups| - 1]| < limit
    requires groups[|groups| - 1][0] <= now < groups[|groups| - 1][0] + span as real
    ensures WellSpaced(groups[..|groups| - 1] + [groups[|groups| - 1] + [now]], limit, span)
  {
    var last := groups[|groups| - 1];
    var r := groups[..|groups| - 1] + [last + [now]];
    assert forall i :: 0 <= i < |groups| - 1 ==> r[i] == groups[i];
    assert r[|groups| - 1] == last + [now];
  }

  /** Windows start no later than the current time. */
  ghost predicate Started<K>(m: Windows<K>, now: real) {
    forall k :: k in m ==> m[k].start <= now
  }

  /** Everything the groups of one key keep through a run. */
  ghost predicate Tracks<K>(groups: seq<seq<real>>, m: Windows<K>, key: K, now: real, limit: nat, span: nat) {
    WellSpaced(groups, limit, span) && LastGroupIsWindow(groups, m, key, now, span) && Started(m, now)
  }

  lemma CheckKeepsStarted<K>(m: Windows<K>, key: K, limit: nat, span: nat, now: real)
    requires Started(m, now)
    ensures Started(Check(m, key, limit, span, now).windows, now)
  {
  }

  lemma OpenKeepsTracks<K>(groups: seq<seq<real>>, m: Windows<K>, key: K, limit: nat, span: nat, now: real)
    requires limit >= 1 && span >= 1 && Tracks(groups, m, key, now, limit, span)
    requires key !in m || Expired(m[key], now, span)
    ensures Tracks(Count(groups, m, key, limit, span, now), Check(m, key, limit, span, now).windows,
                   key, now, limit, span)
  {
    var outcome := Check(m, key, limit, span, now);
    CheckKeepsStarted(m, key, limit, span, now);
    OpenGroup(groups, now, limit, span);
    assert Count(groups, m, key, limit, span, now) == if key in outcome.windows then groups + [[now]] else groups;
  }

  lemma CountKeepsTracks<K>(groups: seq<seq<real>>, m: Windows<K>, key: K, limit: nat, span: nat, now: real)
    requires limit >= 1 && span >= 1 && Tracks(groups, m, key, now, limit, span) && Bounded(m, limit)
    ensures Tracks(Count(groups, m, key, limit, span, now), Check(m, key, limit, span, now).windows,
                   key, now, limit, span)
  {
    if key !in m || Expired(m[key], now, span) {
      OpenKeepsTracks(groups, m, key, limit, span, now);
    } else {
      CheckKeepsStarted(m, key, limit, span, now);
      if m[key].count < limit {
        ExtendGroup(groups, now, limit, span);
      }
    }
  }

  lemma OtherKeyKeepsTracks<K>(groups: seq<seq<real>>, m: Windows<K>, key: K, other: K, limit: nat, span: nat, now: real)
    requires key != other && Tracks(groups, m, key, now, limit, span)
    ensures Tracks(groups, Check(m, other, limit, span, now).windows, key, now, limit, span)
  {
    CheckKeepsStarted(m, other, limit, span, now);
  }

  lemma {:induction false} RunTracks<K>(requests: seq<Request<K>>, key: K, limit: nat, span: nat, now: real)
    requires limit >= 1 && span >= 1 && Chronological(requests)
    requires requests != [] ==> requests[|requests| - 1].now <= now
    ensures Tracks(Groups(requests, key, limit, span), Run(requests, limit, span), key, now, limit, span)
  {
    if requests != [] {
      var before, last := requests[..|requests| - 1], requests[|requests| - 1];
      var groups, m := Groups(before, key, limit, span), Run(before, limit, span);
      RunTracks(before, key, limit, span, last.now);
      RunIsBounded(before, limit, span);
      if last.key == key {
        CountKeepsTracks(groups, m, key, limit, span, last.now);
      } else {
        OtherKeyKeepsTracks(groups, m, key, last.key, limit, span, last.now);
      }
    }
  }

  function Hits(group: seq<real>, t: real, span: nat): nat {
    if group == [] then 0
    else
      Hits(group[..|group| - 1], t, span) + (if t <= group[|group| - 1] < t + span as real then 1 else 0)
  }

  /** How many of the grouped times lie in [t, t + span). */
  function TotalHits(groups: seq<seq<real>>, t: real, span: nat): nat {
    if groups == [] then 0 else TotalHits(groups[..|groups| - 1], t, span) + Hits(groups[|groups| - 1], t, span)
  }

  lemma {:induction false} HitsBound(group: seq<real>, t: real, span: nat)
    ensures Hits(group, t, span) <= |group|
    ensures group != [] && group[0] < t ==> Hits(group, t, span) <= |group| - 1
    ensures (forall j :: 0 <= j < |group| ==> !(t <= group[j] < t + span as real)) ==> Hits(group, t, span) == 0
  {
    if group != [] {
      HitsBound(group[..|group| - 1], t, span);
    }
  }

  lemma {:induction false} EarlierGroupsMiss(groups: seq<seq<real>>, t: real, limit: nat, span: nat)
    requires WellSpaced(groups, limit, span)
    requires groups != [] ==> groups[|groups| - 1][0] + span as real <= t
    ensures TotalHits(groups, t, span) == 0
  {
    if groups != [] {
      HitsBound(groups[|groups| - 1], t, span);
      EarlierGroupsMiss(groups[..|groups| - 1], t, limit, span);
    }
  }

  lemma GroupBeforeInterval(groups: seq<seq<real>>, t: real, limit: nat, span: nat)
    requires limit >= 1 && WellSpaced(groups, limit, span)
    requires groups != [] ==> groups[|groups| - 1][0] < t
    ensures TotalHits(groups, t, span) <= limit - 1
  {
    if groups != [] {
      HitsBound(groups[|groups| - 1], t, span);
      EarlierGroupsMiss(groups[..|groups| - 1], t, limit, span);
    }
  }

  lemma {:induction false} IntervalBound(groups: seq<seq<real>>, t: real, limit: nat, span: nat)
    requires limit >= 1 && WellSpaced(groups, limit, span)
    ensures TotalHits(groups, t, span) <= 2 * limit - 1
  {
    if groups != [] {
      var start := groups[|groups| - 1][0];
      HitsBound(groups[|groups| - 1], t, span);
      if start < t {
        GroupBeforeInterval(groups, t, limit, span);
      } else if start < t + span as real {
        GroupBeforeInterval(groups[..|groups| - 1], t, limit, span);
      } else {
        IntervalBound(groups[..|groups| - 1], t, limit, span);
      }
    }
  }

  /** Any half-open interval of one window length sees at most 2 limit - 1 counted admissions of a key. */
  lemma AdmissionsPerInterval<K>(requests: seq<Request<K>>, key: K, limit: nat, span: nat, t: real)
    requires limit >= 1 && span >= 1 && Chronological(requests)
    ensures TotalHits(Groups(requests, key, limit, span), t, span) <= 2 * limit - 1
  {
    if requests != [] {
      RunTracks(requests, key, limit, span, requests[|requests| - 1].now);
    }
    IntervalBound(Groups(requests, key, limit, span), t, limit, span);
  }

  function BusyMinute<K>(key: K): seq<Request<K>> {
    [Request(key, 0.0), Request(key, 59.0), Request(key, 60.0), Request(key, 61.0)]
  }

  lemma OneMore<K>(before: seq<Request<K>>, key: K, now: real, limit: nat, span: nat)
    ensures var after := before + [Request(key, now)];
            && Run(after, limit, span) == Check(Run(before, limit, span), key, limit, span, now).windows
            && Groups(after, key, limit, span)
               == Count(Groups(before, key, limit, span), Run(before, limit, span), key, limit, span, now)
  {
    assert (before + [Request(key, now)])[..|before|] == before;
  }

  lemma BusyMinuteGroups<K>(key: K)
    ensures Groups(BusyMinute(key), key, 2, 60) == [[0.0, 59.0], [60.0, 61.0]]
  {
    var r1 := [] + [Request(key, 0.0)];
    var r2 := r1 + [Request(key, 59.0)];
    var r3 := r2 + [Request(key, 60.0)];
    OneMore([], key, 0.0, 2, 60);
    OneMore(r1, key, 59.0, 2, 60);
    OneMore(r2, key, 60.0, 2, 60);
    OneMore(r3, key, 61.0, 2, 60);
    assert Run(r1, 2, 60) == map[key := Window(0.0, 1)] && Groups(r1, key, 2, 60) == [[0.0]];
    assert [0.0] + [59.0] == [0.0, 59.0] && [60.0] + [61.0] == [60.0, 61.0];
    assert Run(r2, 2, 60) == map[key := Window(0.0, 2)] && Groups(r2, key, 2, 60) == [[0.0, 59.0]];
    assert Run(r3, 2, 60) == map[key := Window(60.0, 1)] && Groups(r3, key, 2, 60) == [[0.0, 59.0], [60.0]];
    assert r3 + [Request(key, 61.0)] == BusyMinute(key);
  }

  lemma HitsOfPair(x: real, y: real, t: real, span: nat)
    ensures Hits([x, y], t, span)
         == (if t <= x < t + span as real then 1 else 0) + (if t <= y < t + span as real then 1 else 0)
  {
    var pair, single: seq<real> := [x, y], [x];
    assert pair[..1] == single && |single[..0]| == 0;
    assert Hits(single, t, span) == if t <= x < t + span as real then 1 else 0;
  }

  /** The bound is met: with limit 2 and a span of 60, [59, 119) sees three admissions. */
  lemma BoundIsMet<K>(key: K)
    ensures Chronological(BusyMinute(key))
    ensures TotalHits(Groups(BusyMinute(key), key, 2, 60), 59.0, 60) == 2 * 2 - 1
  {
    BusyMinuteGroups(key);
    HitsOfPair(0.0, 59.0, 59.0, 60);
    HitsOfPair(60.0, 61.0, 59.0, 60);
    var groups: seq<seq<real>> := [[0.0, 59.0], [60.0, 61.0]];
    assert groups[..1] == [[0.0, 59.0]];
    assert TotalHits(groups[..1], 59.0, 60) == 1;
  }
}
