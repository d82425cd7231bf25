/** The offline forecast queue: idempotent enqueueing and retried synchronisation. */
module ForecastQueue {
  const BASE_RETRY_DELAY_MS := 1000
  const MAX_RETRY_DELAY_MS := 300000

  /** The idempotency key of a forecast. */
  datatype Key = Key(hash: string)

  datatype Status = Pending | Syncing | Synced | Failed

  /** When a row may next be sent; an unreadable time stamp does not hold it back. */
  datatype When = Unset | At(ms: int) | Unreadable

  datatype Row = Row(
    key: Key,
    status: Status,
    message: string,
    lockedAt: int,
    updatedAt: int,
    attempts: nat,
    lastError: string,
    nextAttemptAt: When)

  /** What the server answered, and when. */
  datatype Response = Accepted(at: int) | Rejected(at: int, error: string)

  /** A sender's answers, by number of the send within one pass. */
  type Sender = nat -> Response

  /** One send, as the log of a run records it. */
  datatype Sent = Sent(key: Key, at: int, ok: bool)

  // ---------- Backoff ----------

  function Power2(n: nat): nat {
    if n == 0 then 1 else 2 * Power2(n - 1)
  }

  function RetryDelayMs(attempts: nat): nat {
    var delay := BASE_RETRY_DELAY_MS * Power2(if attempts > 1 then attempts - 1 else 0);
    if delay < MAX_RETRY_DELAY_MS then delay else MAX_RETRY_DELAY_MS
  }

  /** The delay starts at one second, doubles with every failed attempt, and stops at five minutes. */
  lemma {:induction false} BackoffShape(attempts: nat)
    requires attempts >= 1
    ensures RetryDelayMs(1) == 1000
    ensures RetryDelayMs(attempts + 1)
         == if 2 * RetryDelayMs(attempts) < 300000 then 2 * RetryDelayMs(attempts) else 300000
    ensures 1000 <= RetryDelayMs(attempts) <= RetryDelayMs(attempts + 1) <= 300000
  {
    if attempts > 1 {
      BackoffShape(attempts - 1);
    }
  }

  // ---------- One row in one pass ----------

  function IsReadyForRetry(row: Row, now: int): bool {
    row.nextAttemptAt.At? ==> row.nextAttemptAt.ms <= now
  }

  /** The row is sent in a pass at `now`. */
  predicate Due(row: Row, now: int) {
    row.status != Synced && row.status != Syncing && IsReadyForRetry(row, now)
  }

  function AfterSend(row: Row, now: int, response: Response): Row {
    match response
    case Accepted(at) =>
      row.(status := Synced, updatedAt := at, attempts := row.attempts + 1, lastError := "", nextAttemptAt := Unset)
    case Rejected(at, error) =>
      row.(status := Failed, updatedAt := at, attempts := row.attempts + 1, lastError := error,
           nextAttemptAt := At(now + RetryDelayMs(row.attempts + 1)))
  }

  // ---------- A pass ----------

  datatype Pass = Pass(rows: seq<Row>, log: seq<Sent>, synced: nat, failed: nat)

  /** The first k rows after the pass, and the sends they caused. */
  function PassUpto(rows: seq<Row>, k: nat, now: int, sender: Sender): (p: Pass)
    requires k <= |rows|
    ensures |p.rows| == k && |p.log| == p.synced + p.failed
  {
    if k == 0 then Pass([], [], 0, 0)
    else
      var p, row := PassUpto(rows, k - 1, now, sender), rows[k - 1];
      if !Due(row, now) then p.(rows := p.rows + [row])
      else
        var response := sender(|p.log|);
        Pass(p.rows + [AfterSend(row, now, response)], p.log + [Sent(row.key, now, response.Accepted?)],
             p.synced + (if response.Accepted? then 1 else 0), p.failed + (if response.Accepted? then 0 else 1))
  }

  function CountPending(rows: seq<Row>): nat {
    if rows == [] then 0
    else CountPending(rows[..|rows| - 1]) + (if rows[|rows| - 1].status == Pending then 1 else 0)
  }

  function Find(rows: seq<Row>, key: Key): (i: nat)
    ensures i <= |rows|
    ensures i < |rows| ==> rows[i].key == key
    ensures forall j :: 0 <= j < i ==> rows[j].key != key
  {
    if rows == [] then 0
    else if rows[0].key == key then 0
    else 1 + Find(rows[1..], key)
  }

  function NewRow(key: Key, message: string, lockedAt: int, lastError: string): Row {
    Row(key, Pending, message, lockedAt, lockedAt, 0, lastError, Unset)
  }

  function Enqueued(rows: seq<Row>, row: Row): seq<Row> {
    if Find(rows, row.key) < |rows| then rows else rows + [row]
  }

  class Store {
    var rows: seq<Row>

    constructor ()
      ensures rows == []
    {
      rows := [];
    }

    /** Adds the forecast unless its key is queued already; returns the queued row. */
    method EnqueueForecast(key: Key, message: string, lockedAt: int, lastError: string) returns (row: Row)
      modifies this
      ensures rows == Enqueued(old(rows), NewRow(key, message, lockedAt, lastError))
      ensures row in rows && row.key == key
      ensures (exists r :: r in old(rows) && r.key == key) ==> rows == old(rows)
    {
      var i := Find(rows, key);
      if i < |rows| {
        return rows[i];
      }
      row := NewRow(key, message, lockedAt, lastError);
      rows := rows + [row];
    }

    /** One complete pass; the store is saved before and after every send. */
    method SyncQueuedForecasts(now: int, sender: Sender) returns (synced: nat, failed: nat, pending: nat)
      modifies this
      ensures var p := PassUpto(old(rows), |old(rows)|, now, sender);
              rows == p.rows && synced == p.synced && failed == p.failed && pending == CountPending(p.rows)
    {
      var nextRows := rows;
      ghost var before := rows;
      synced, failed := 0, 0;
      for i := 0 to |nextRows|
        invariant |nextRows| == |before| && rows == nextRows
        invariant nextRows[..i] == PassUpto(before, i, now, sender).rows
        invariant nextRows[i..] == before[i..]
        invariant synced == PassUpto(before, i, now, sender).synced
        invariant failed == PassUpto(before, i, now, sender).failed
      {
        var row := nextRows[i];
        assert row == before[i];
        if row.status == Synced || row.status == Syncing || !IsReadyForRetry(row, now) {
          continue;
        }
        row := row.(status := Syncing, updatedAt := now, attempts := row.attempts + 1);
        nextRows := nextRows[i := row];
        rows := nextRows;
        var response := sender(synced + failed);
        match response {
          case Accepted(at) =>
            row := row.(status := Synced, updatedAt := at, lastError := "", nextAttemptAt := Unset);
            synced := synced + 1;
          case Rejected(at, error) =>
            row := row.(status := Failed, updatedAt := at, lastError := error,
                        nextAttemptAt := At(now + RetryDelayMs(row.attempts)));
            failed := failed + 1;
        }
        nextRows := nextRows[i := row];
        rows := nextRows;
      }
      pending := CountPending(nextRows);
    }
  }

  // ---------- Runs ----------

  datatype Op = Enqueue(row: Row) | Sync(now: int, sender: Sender)

  datatype State = State(rows: seq<Row>, log: seq<Sent>)

  function Step(s: State, op: Op): State {
    match op
    case Enqueue(row) => s.(rows := Enqueued(s.rows, NewRow(row.key, row.message, row.lockedAt, row.lastError)))
    case Sync(now, sender) =>
      var p := PassUpto(s.rows, |s.rows|, now, sender);
      State(p.rows, s.log + p.log)
  }

  function Run(ops: seq<Op>): State {
    if ops == [] then State([], []) else Step(Run(ops[..|ops| - 1]), ops[|ops| - 1])
  }

  /** The sends of one key, in order. */
  function SendsOf(log: seq<Sent>, key: Key): seq<Sent> {
    if log == [] then []
    else
      var last := log[|log| - 1];
      SendsOf(log[..|log| - 1], key) + (if last.key == key then [last] else [])
  }

  /**
   * A row agrees with the sends of its key: as many as its attempts, every later one at least the
   * backoff of each earlier one after it, and only a last one can have been accepted.
   */
  ghost predicate MatchesSends(row: Row, sends: seq<Sent>) {
    && row.attempts == |sends|
    && (forall i :: 0 <= i < |sends| - 1 ==> !sends[i].ok)
    && (forall i, j :: 0 <= i < j < |sends| ==> sends[j].at >= sends[i].at + RetryDelayMs(i + 1))
    && match row.status
       case Pending => sends == [] && row.nextAttemptAt == Unset
       case Syncing => false
       case Synced => sends != [] && sends[|sends| - 1].ok && row.nextAttemptAt == Unset
       case Failed => sends != [] && !sends[|sends| - 1].ok
                      && row.nextAttemptAt == At(sends[|sends| - 1].at + RetryDelayMs(|sends|))
  }

  ghost predicate RowMatches(row: Row, log: seq<Sent>) {
    MatchesSends(row, SendsOf(log, row.key))
  }

  ghost predicate UniqueKeys(rows: seq<Row>) {
    forall i, j :: 0 <= i < j < |rows| ==> rows[i].key != rows[j].key
  }

  ghost predicate AllMatch(rows: seq<Row>, log: seq<Sent>) {
    forall i :: 0 <= i < |rows| ==> RowMatches(rows[i], log)
  }

  ghost predicate HasKey(rows: seq<Row>, key: Key) {
    exists j :: 0 <= j < |rows| && rows[j].key == key
  }

  /** Every send was one of a row still there. */
  ghost predicate Covered(log: seq<Sent>, rows: seq<Row>) {
    forall i :: 0 <= i < |log| ==> HasKey(rows, log[i].key)
  }

  ghost predicate Consistent(s: State) {
    UniqueKeys(s.rows) && AllMatch(s.rows, s.log) && Covered(s.log, s.rows)
  }

  ghost predicate SameKeys(a: seq<Row>, b: seq<Row>) {
    |a| == |b| && forall i :: 0 <= i < |a| ==> a[i].key == b[i].key
  }

  lemma {:induction false} SendsOfSum(a: seq<Sent>, b: seq<Sent>, key: Key)
    ensures SendsOf(a + b, key) == SendsOf(a, key) + SendsOf(b, key)
  {
    if b == [] {
      assert a + b == a;
    } else {
      SendsOfSum(a, b[..|b| - 1], key);
      assert (a + b)[..|a + b| - 1] == a + b[..|b| - 1];
    }
  }

  lemma {:induction false} NoSends(log: seq<Sent>, key: Key)
    requires forall i :: 0 <= i < |log| ==> log[i].key != key
    ensures SendsOf(log, key) == []
  {
    if log != [] {
      NoSends(log[..|log| - 1], key);
    }
  }

  /** Row i of the pass over the first k rows, and its sends: at most one, with some response. */
  ghost predicate SentOnce(p: Pass, row: Row, now: int, sender: Sender, i: nat) {
    && i < |p.rows|
    && exists n: nat :: p.rows[i] == AfterSend(row, now, sender(n))
                        && SendsOf(p.log, row.key) == [Sent(row.key, now, sender(n).Accepted?)]
  }

  ghost predicate RowInPass(p: Pass, row: Row, now: int, sender: Sender, i: nat) {
    if i >= |p.rows| then SendsOf(p.log, row.key) == []
    else if !Due(row, now) then p.rows[i] == row && SendsOf(p.log, row.key) == []
    else SentOnce(p, row, now, sender, i)
  }

  lemma SendsOfPush(log: seq<Sent>, entry: Sent, key: Key)
    ensures SendsOf(log + [entry], key) == SendsOf(log, key) + (if entry.key == key then [entry] else [])
  {
    assert (log + [entry])[..|log|] == log;
  }

  /** A further row in the pass, sent under another key or not at all, changes nothing for row i. */
  lemma RowStays(p: Pass, next: Pass, row: Row, now: int, sender: Sender, i: nat)
    requires RowInPass(p, row, now, sender, i) && SendsOf(next.log, row.key) == SendsOf(p.log, row.key)
    requires if i < |p.rows| then i < |next.rows| && next.rows[i] == p.rows[i] else i >= |next.rows|
    ensures RowInPass(next, row, now, sender, i)
  {
  }

  /** What one more row adds to a pass. */
  lemma PassStep(rows: seq<Row>, k: nat, now: int, sender: Sender)
    requires k < |rows|
    ensures var p, next, row := PassUpto(rows, k, now, sender), PassUpto(rows, k + 1, now, sender), rows[k];
            var response := sender(|p.log|);
            && |p.rows| == k
            && next.rows == p.rows + [if Due(row, now) then AfterSend(row, now, response) else row]
            && next.log == p.log + (if Due(row, now) then [Sent(row.key, now, response.Accepted?)] else [])
  {
  }

  lemma OtherRowInPass(p: Pass, next: Pass, row: Row, other: Row, now: int, sender: Sender, i: nat)
    requires RowInPass(p, row, now, sender, i) && other.key != row.key && i != |p.rows|
    requires |next.rows| == |p.rows| + 1 && next.rows[..|p.rows|] == p.rows
    requires next.log == p.log + (if Due(other, now) then [Sent(other.key, now, sender(|p.log|).Accepted?)] else [])
    ensures RowInPass(next, row, now, sender, i)
  {
    SendsOfPush(p.log, Sent(other.key, now, sender(|p.log|).Accepted?), row.key);
    assert p.log + [] == p.log;
    assert i < |p.rows| ==> next.rows[i] == next.rows[..|p.rows|][i];
    RowStays(p, next, row, now, sender, i);
  }

  lemma OwnRowInPass(p: Pass, next: Pass, row: Row, now: int, sender: Sender)
    requires SendsOf(p.log, row.key) == []
    requires next.rows == p.rows + [if Due(row, now) then AfterSend(row, now, sender(|p.log|)) else row]
    requires next.log == p.log + (if Due(row, now) then [Sent(row.key, now, sender(|p.log|).Accepted?)] else [])
    ensures RowInPass(next, row, now, sender, |p.rows|)
  {
    SendsOfPush(p.log, Sent(row.key, now, sender(|p.log|).Accepted?), row.key);
    assert p.log + [] == p.log;
    var n := |p.log|;
    assert Due(row, now) ==> next.rows[|p.rows|] == AfterSend(row, now, sender(n));
  }

  lemma {:induction false} PassOnRow(rows: seq<Row>, k: nat, now: int, sender: Sender, i: nat)
    requires UniqueKeys(rows) && k <= |rows| && i < |rows|
    ensures RowInPass(PassUpto(rows, k, now, sender), rows[i], now, sender, i)
  {
    if k > 0 {
      PassOnRow(rows, k - 1, now, sender, i);
      PassStep(rows, k - 1, now, sender);
      var before, p := PassUpto(rows, k - 1, now, sender), PassUpto(rows, k, now, sender);
      if i == k - 1 {
        OwnRowInPass(before, p, rows[i], now, sender);
      } else {
        OtherRowInPass(before, p, rows[i], rows[k - 1], now, sender, i);
      }
    }
  }

  lemma SendKeepsMatching(row: Row, sends: seq<Sent>, now: int, response: Response)
    requires MatchesSends(row, sends) && Due(row, now)
    ensures MatchesSends(AfterSend(row, now, response), sends + [Sent(row.key, now, response.Accepted?)])
  {
  }

  lemma {:induction false} PassKeepsKeys(rows: seq<Row>, k: nat, now: int, sender: Sender)
    requires k <= |rows|
    ensures SameKeys(PassUpto(rows, k, now, sender).rows, rows[..k])
  {
    if k > 0 {
      PassKeepsKeys(rows, k - 1, now, sender);
    }
  }

  lemma {:induction false} PassIsCovered(rows: seq<Row>, k: nat, now: int, sender: Sender)
    requires k <= |rows|
    ensures Covered(PassUpto(rows, k, now, sender).log, rows)
  {
    if k > 0 {
      PassIsCovered(rows, k - 1, now, sender);
      assert HasKey(rows, rows[k - 1].key);
    }
  }

  lemma CoveredBySameKeys(log: seq<Sent>, rows: seq<Row>, after: seq<Row>)
    requires Covered(log, rows) && |rows| <= |after| && SameKeys(rows, after[..|rows|])
    ensures Covered(log, after)
  {
    forall i | 0 <= i < |log|
      ensures HasKey(after, log[i].key)
    {
      var j :| 0 <= j < |rows| && rows[j].key == log[i].key;
      assert after[..|rows|][j].key == log[i].key;
    }
  }

  lemma PassKeepsRowMatching(s: State, p: Pass, now: int, sender: Sender, i: nat)
    requires i < |s.rows| == |p.rows| && RowMatches(s.rows[i], s.log) && RowInPass(p, s.rows[i], now, sender, i)
    ensures RowMatches(p.rows[i], s.log + p.log)
  {
    var row := s.rows[i];
    SendsOfSum(s.log, p.log, row.key);
    if Due(row, now) {
      var n: nat :| p.rows[i] == AfterSend(row, now, sender(n))
                    && SendsOf(p.log, row.key) == [Sent(row.key, now, sender(n).Accepted?)];
      SendKeepsMatching(row, SendsOf(s.log, row.key), now, sender(n));
    } else {
      assert SendsOf(s.log, row.key) + [] == SendsOf(s.log, row.key);
    }
  }

  lemma SyncKeepsMatching(s: State, now: int, sender: Sender)
    requires UniqueKeys(s.rows) && AllMatch(s.rows, s.log)
    ensures AllMatch(Step(s, Sync(now, sender)).rows, Step(s, Sync(now, sender)).log)
  {
    var p := PassUpto(s.rows, |s.rows|, now, sender);
    forall i | 0 <= i < |p.rows|
      ensures RowMatches(p.rows[i], s.log + p.log)
    {
      PassOnRow(s.rows, |s.rows|, now, sender, i);
      PassKeepsRowMatching(s, p, now, sender, i);
    }
  }

  lemma SyncKeepsCovered(s: State, now: int, sender: Sender)
    requires UniqueKeys(s.rows) && Covered(s.log, s.rows)
    ensures var after := Step(s, Sync(now, sender)); UniqueKeys(after.rows) && Covered(after.log, after.rows)
  {
    var p := PassUpto(s.rows, |s.rows|, now, sender);
    PassKeepsKeys(s.rows, |s.rows|, now, sender);
    assert s.rows[..|s.rows|] == s.rows && p.rows[..|s.rows|] == p.rows;
    PassIsCovered(s.rows, |s.rows|, now, sender);
    CoveredBySameKeys(s.log, s.rows, p.rows);
    CoveredBySameKeys(p.log, s.rows, p.rows);
  }

  lemma SyncKeepsConsistent(s: State, now: int, sender: Sender)
    requires Consistent(s)
    ensures Consistent(Step(s, Sync(now, sender)))
  {
    SyncKeepsMatching(s, now, sender);
    SyncKeepsCovered(s, now, sender);
  }

  lemma EnqueueKeepsConsistent(s: State, row: Row)
    requires Consistent(s)
    ensures Consistent(Step(s, Enqueue(row)))
  {
    if Find(s.rows, row.key) == |s.rows| {
      var added := NewRow(row.key, row.message, row.lockedAt, row.lastError);
      var rows := s.rows + [added];
      forall i | 0 <= i < |s.log|
        ensures s.log[i].key != row.key
      {
        assert HasKey(s.rows, s.log[i].key);
      }
      NoSends(s.log, row.key);
      forall i | 0 <= i < |rows|
        ensures RowMatches(rows[i], s.log)
      {
        assert i < |s.rows| ==> rows[i] == s.rows[i];
      }
      assert rows[..|s.rows|] == s.rows;
      CoveredBySameKeys(s.log, s.rows, rows);
    }
  }

  /** Keys stay unique and every row agrees with the sends of its key, over every run. */
  lemma {:induction false} RunIsConsistent(ops: seq<Op>)
    ensures Consistent(Run(ops))
  {
    if ops != [] {
      RunIsConsistent(ops[..|ops| - 1]);
      match ops[|ops| - 1]
      case Enqueue(row) => EnqueueKeepsConsistent(Run(ops[..|ops| - 1]), row);
      case Sync(now, sender) => SyncKeepsConsistent(Run(ops[..|ops| - 1]), now, sender);
    }
  }

  /** Never sent, or last rejected at least its backoff before. */
  ghost predicate ReadyBySends(sends: seq<Sent>, now: int) {
    sends == [] || (!sends[|sends| - 1].ok && sends[|sends| - 1].at + RetryDelayMs(|sends|) <= now)
  }

  lemma DueMeansReady(row: Row, sends: seq<Sent>, now: int)
    requires MatchesSends(row, sends)
    ensures Due(row, now) <==> ReadyBySends(sends, now)
  {
  }

  /**
   * After any run, a pass sends a key exactly once if it was never sent, or if its last send was rejected and the
   * backoff for that many sends has passed; otherwise it leaves the row and its sends as they were.
   */
  lemma ReadyRowsAreSent(ops: seq<Op>, now: int, sender: Sender, i: nat)
    requires i < |Run(ops).rows|
    ensures var s, after := Run(ops), Step(Run(ops), Sync(now, sender));
            var key := s.rows[i].key;
            var before, sends := SendsOf(s.log, key), SendsOf(after.log, key);
            && i < |after.rows|
            && (ReadyBySends(before, now) ==>
                  && |sends| == |before| + 1 && sends[..|before|] == before
                  && sends[|before|].at == now && after.rows[i].attempts == |sends|
                  && (after.rows[i].status == if sends[|before|].ok then Synced else Failed))
            && (!ReadyBySends(before, now) ==> sends == before && after.rows[i] == s.rows[i])
  {
    var s := Run(ops);
    var p, row := PassUpto(s.rows, |s.rows|, now, sender), s.rows[i];
    RunIsConsistent(ops);
    assert RowMatches(row, s.log);
    PassOnRow(s.rows, |s.rows|, now, sender, i);
    SendsOfSum(s.log, p.log, row.key);
    DueMeansReady(row, SendsOf(s.log, row.key), now);
    assert SendsOf(s.log, row.key) + [] == SendsOf(s.log, row.key);
  }

  function CountAccepted(log: seq<Sent>): nat {
    if log == [] then 0 else CountAccepted(log[..|log| - 1]) + (if log[|log| - 1].ok then 1 else 0)
  }

  lemma AcceptedPush(log: seq<Sent>, entry: Sent)
    ensures CountAccepted(log + [entry]) == CountAccepted(log) + (if entry.ok then 1 else 0)
  {
    assert (log + [entry])[..|log|] == log;
  }

  /** A pass reports how many of its sends were accepted and how many were not. */
  lemma {:induction false} PassCountsSends(rows: seq<Row>, k: nat, now: int, sender: Sender)
    requires k <= |rows|
    ensures var p := PassUpto(rows, k, now, sender);
            p.synced == CountAccepted(p.log) && p.failed == |p.log| - CountAccepted(p.log)
  {
    if k > 0 {
      PassCountsSends(rows, k - 1, now, sender);
      var before := PassUpto(rows, k - 1, now, sender);
      AcceptedPush(before.log, Sent(rows[k - 1].key, now, sender(|before.log|).Accepted?));
    }
  }

  /** The row carries the message and lock time of the first enqueueing of its key. */
  ghost predicate IsFirstEnqueued(ops: seq<Op>, r: Row) {
    exists j :: 0 <= j < |ops| && IsOrigin(ops, j, r)
  }

  ghost predicate IsOrigin(ops: seq<Op>, j: nat, r: Row)
    requires j < |ops|
  {
    && ops[j].Enqueue? && ops[j].row.key == r.key && ops[j].row.message == r.message && ops[j].row.lockedAt == r.lockedAt
    && forall i :: 0 <= i < j && ops[i].Enqueue? ==> ops[i].row.key != r.key
  }

  lemma {:induction false} PassKeepsForecasts(rows: seq<Row>, k: nat, now: int, sender: Sender)
    requires k <= |rows|
    ensures forall i :: 0 <= i < k ==>
              var r := PassUpto(rows, k, now, sender).rows[i];
              r.key == rows[i].key && r.message == rows[i].message && r.lockedAt == rows[i].lockedAt
  {
    if k > 0 {
      PassKeepsForecasts(rows, k - 1, now, sender);
      PassStep(rows, k - 1, now, sender);
    }
  }

  lemma OriginStays(ops: seq<Op>, op: Op, r: Row, next: Row)
    requires IsFirstEnqueued(ops, r) && next.key == r.key && next.message == r.message && next.lockedAt == r.lockedAt
    ensures IsFirstEnqueued(ops + [op], next)
  {
    var j :| 0 <= j < |ops| && IsOrigin(ops, j, r);
    assert forall i :: 0 <= i <= j ==> (ops + [op])[i] == ops[i];
    assert IsOrigin(ops + [op], j, next);
  }

  /** Every enqueued key has its row. */
  lemma {:induction false} EnqueuedKeysStay(ops: seq<Op>, j: nat)
    requires j < |ops| && ops[j].Enqueue?
    ensures HasKey(Run(ops).rows, ops[j].row.key)
    decreases |ops|
  {
    var init, last := ops[..|ops| - 1], ops[|ops| - 1];
    assert init + [last] == ops;
    RunPush(init, last);
    if j < |init| {
      EnqueuedKeysStay(init, j);
      StepKeepsKey(Run(init), last, ops[j].row.key);
    } else {
      EnqueueAddsKey(Run(init).rows, NewRow(last.row.key, last.row.message, last.row.lockedAt, last.row.lastError));
    }
  }

  lemma EnqueueAddsKey(rows: seq<Row>, row: Row)
    ensures HasKey(Enqueued(rows, row), row.key)
  {
    var i := Find(rows, row.key);
    assert Enqueued(rows, row)[i].key == row.key;
  }

  lemma StepKeepsKey(s: State, op: Op, key: Key)
    requires HasKey(s.rows, key)
    ensures HasKey(Step(s, op).rows, key)
  {
    var j :| 0 <= j < |s.rows| && s.rows[j].key == key;
    if op.Sync? {
      PassKeepsForecasts(s.rows, |s.rows|, op.now, op.sender);
    }
    assert Step(s, op).rows[j].key == key;
  }

  lemma StepKeepsOrigins(ops: seq<Op>, op: Op, i: nat)
    requires forall j :: 0 <= j < |Run(ops).rows| ==> IsFirstEnqueued(ops, Run(ops).rows[j])
    requires i < |Step(Run(ops), op).rows|
    ensures IsFirstEnqueued(ops + [op], Step(Run(ops), op).rows[i])
  {
    var s, next := Run(ops), Step(Run(ops), op);
    if i < |s.rows| {
      if op.Sync? {
        PassKeepsForecasts(s.rows, |s.rows|, op.now, op.sender);
      }
      OriginStays(ops, op, s.rows[i], next.rows[i]);
    } else {
      forall j | 0 <= j < |ops| && ops[j].Enqueue?
        ensures ops[j].row.key != op.row.key
      {
        EnqueuedKeysStay(ops, j);
      }
      assert forall j :: 0 <= j < |ops| ==> (ops + [op])[j] == ops[j];
      assert IsOrigin(ops + [op], |ops|, next.rows[i]);
    }
  }

  /** Over every run each row carries the forecast that its key was first enqueued with. */
  lemma {:induction false} RowsCarryTheirForecast(ops: seq<Op>, i: nat)
    requires i < |Run(ops).rows|
    ensures IsFirstEnqueued(ops, Run(ops).rows[i])
    decreases |ops|
  {
    if ops != [] {
      var init, last := ops[..|ops| - 1], ops[|ops| - 1];
      assert init + [last] == ops;
      RunPush(init, last);
      forall j | 0 <= j < |Run(init).rows|
        ensures IsFirstEnqueued(init, Run(init).rows[j])
      {
        RowsCarryTheirForecast(init, j);
      }
      StepKeepsOrigins(init, last, i);
    }
  }

  ghost predicate Settled(rows: seq<Row>) {
    forall i :: 0 <= i < |rows| ==> rows[i].status == Synced || rows[i].status == Failed
  }

  /** After a complete pass nothing is pending and nothing is left in transit. */
  lemma PassLeavesNothingPending(ops: seq<Op>, now: int, sender: Sender)
    ensures var after := Step(Run(ops), Sync(now, sender));
            CountPending(after.rows) == 0 && Settled(after.rows)
  {
    var s := Run(ops);
    var after := Step(s, Sync(now, sender));
    RunIsConsistent(ops);
    forall i | 0 <= i < |after.rows|
      ensures after.rows[i].status == Synced || after.rows[i].status == Failed
    {
      assert RowMatches(s.rows[i], s.log);
      PassOnRow(s.rows, |s.rows|, now, sender, i);
    }
    NonePending(after.rows);
  }

  lemma {:induction false} NonePending(rows: seq<Row>)
    requires Settled(rows)
    ensures CountPending(rows) == 0
  {
    if rows != [] {
      NonePending(rows[..|rows| - 1]);
    }
  }

  /** Row i is still in its place, and once synced it and its sends are as they were. */
  ghost predicate Kept(before: State, after: State, i: nat)
    requires i < |before.rows|
  {
    && i < |after.rows|
    && after.rows[i].key == before.rows[i].key
    && (before.rows[i].status == Synced ==>
          after.rows[i] == before.rows[i]
          && SendsOf(after.log, before.rows[i].key) == SendsOf(before.log, before.rows[i].key))
  }

  lemma StepKeepsRow(s: State, op: Op, i: nat)
    requires Consistent(s) && i < |s.rows|
    ensures Kept(s, Step(s, op), i)
  {
    match op
    case Enqueue(row) =>
    case Sync(now, sender) =>
      PassOnRow(s.rows, |s.rows|, now, sender, i);
      SendsOfSum(s.log, PassUpto(s.rows, |s.rows|, now, sender).log, s.rows[i].key);
  }

  /** No row disappears; a synced row never changes again and its key is never sent again. */
  lemma {:induction false} SyncedIsFinal(ops: seq<Op>, more: seq<Op>, i: nat)
    requires i < |Run(ops).rows|
    ensures Kept(Run(ops), Run(ops + more), i)
  {
    if more == [] {
      assert ops + more == ops;
    } else {
      var init := more[..|more| - 1];
      SyncedIsFinal(ops, init, i);
      RunPush(ops + init, more[|more| - 1]);
      assert ops + init + [more[|more| - 1]] == ops + more;
      RunIsConsistent(ops + init);
      StepKeepsRow(Run(ops + init), more[|more| - 1], i);
    }
  }

  lemma RunPush(ops: seq<Op>, op: Op)
    ensures Run(ops + [op]) == Step(Run(ops), op)
  {
    assert (ops + [op])[..|ops|] == ops;
  }
}
