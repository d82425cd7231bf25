/** Grading over whole runs of writes and passes: when a grade is the one the final price table justifies. */
module GradingRuns {
  import opened Wrappers
  import opened ClaimScorer

  const MICROS_PER_HOUR := 60 * MICROS_PER_MINUTE

  // ---------- Writing prices ----------

  function HourOf(t: int): int {
    t - t % MICROS_PER_HOUR
  }

  lemma HourFacts(t: int, u: int)
    ensures HourOf(t) <= t < HourOf(t) + MICROS_PER_HOUR
    ensures t <= u ==> HourOf(t) <= HourOf(u)
    ensures HourOf(t) <= u ==> HourOf(t) <= HourOf(u)
    ensures HourOf(HourOf(t)) == HourOf(t) && HourOf(t) % 3600000000 == 0
  {
  }

  predicate SameKey(a: Snapshot, b: Snapshot) {
    a.slug == b.slug && a.source == b.source && a.at == b.at
  }

  /** The place of the row with the key of `row`, or the length of the table. */
  function Place(rows: seq<Snapshot>, row: Snapshot): (p: nat)
    ensures p <= |rows|
    ensures p < |rows| ==> SameKey(rows[p], row)
    ensures forall i :: 0 <= i < p ==> !SameKey(rows[i], row)
  {
    if rows == [] then 0 else if SameKey(rows[0], row) then 0 else 1 + Place(rows[1..], row)
  }

  /** Appends the row; a row of its key stays, or takes its price if `overwrite`. */
  function Put(rows: seq<Snapshot>, row: Snapshot, overwrite: bool): seq<Snapshot> {
    var p := Place(rows, row);
    if p == |rows| then rows + [row] else if overwrite then rows[p := row] else rows
  }

  /**
   * Persisting skips a row already there. The price feed writes to the row of its hour, so a later quote
   * of the hour overwrites an earlier one.
   */
  datatype Event =
    | Persist(row: Snapshot)
    | Quote(slug: int, source: int, clock: int, price: real)
    | Make(claim: Claim)
    | Pass(now: int)
  {
    predicate Writes() {
      Persist? || Quote?
    }

    function Written(): Snapshot
      requires Writes()
    {
      if Persist? then row else Snapshot(slug, source, HourOf(clock), price)
    }
  }

  function Write(rows: seq<Snapshot>, e: Event): seq<Snapshot> {
    if e.Writes() then Put(rows, e.Written(), e.Quote?) else rows
  }

  // ---------- Runs ----------

  datatype State = State(claims: seq<Claim>, rows: seq<Snapshot>)

  function AsMade(c: Claim): Claim {
    c.(status := Pending, resolvedAt := None, resolutionPrice := None)
  }

  function Step(s: State, e: Event, g: Grader): State {
    match e
    case Make(claim) => s.(claims := s.claims + [AsMade(claim)])
    case Pass(now) => s.(claims := GradeAll(s.claims, s.rows, now, g))
    case _ => s.(rows := Write(s.rows, e))
  }

  function Run(events: seq<Event>, g: Grader): State {
    if events == [] then State([], [])
    else Step(Run(events[..|events| - 1], g), events[|events| - 1], g)
  }

  /** The claims as they were made. */
  function Made(events: seq<Event>): seq<Claim> {
    if events == [] then []
    else
      var last := events[|events| - 1];
      Made(events[..|events| - 1]) + (if last.Make? then [AsMade(last.claim)] else [])
  }

  /** The price table, which no pass changes. */
  function Table(events: seq<Event>): seq<Snapshot> {
    if events == [] then [] else Write(Table(events[..|events| - 1]), events[|events| - 1])
  }

  lemma RunPush(events: seq<Event>, e: Event, g: Grader)
    ensures Run(events + [e], g) == Step(Run(events, g), e, g)
    ensures Made(events + [e]) == Made(events) + (if e.Make? then [AsMade(e.claim)] else [])
    ensures Table(events + [e]) == Write(Table(events), e)
  {
    assert (events + [e])[..|events|] == events;
  }

  lemma {:induction false} RunKeepsTables(events: seq<Event>, g: Grader)
    ensures Run(events, g).rows == Table(events)
    ensures |Run(events, g).claims| == |Made(events)|
  {
    if events != [] {
      RunKeepsTables(events[..|events| - 1], g);
    }
  }

  /** Some pass at or after the horizon followed the making of claim k. */
  ghost predicate PassedHorizon(events: seq<Event>, k: nat) {
    exists i :: 0 <= i < |events| && Reaches(events, i, k)
  }

  /** Event i is a pass at or after the horizon of claim k, which is made by then. */
  ghost predicate Reaches(events: seq<Event>, i: nat, k: nat)
    requires i < |events|
  {
    events[i].Pass? && k < |Made(events[..i])| && Made(events[..i])[k].Horizon() <= events[i].now
  }

  lemma PassedHorizonStep(events: seq<Event>, e: Event, k: nat)
    ensures PassedHorizon(events + [e], k)
       <==> PassedHorizon(events, k) || (e.Pass? && k < |Made(events)| && Made(events)[k].Horizon() <= e.now)
  {
    var all := events + [e];
    assert all[..|events|] == events && all[|events|] == e;
    forall i | 0 <= i < |events|
      ensures Reaches(all, i, k) <==> Reaches(events, i, k)
    {
      assert all[..i] == events[..i] && all[i] == events[i];
    }
    if PassedHorizon(events, k) {
      var i :| 0 <= i < |events| && Reaches(events, i, k);
      assert Reaches(all, i, k);
    }
    if e.Pass? && k < |Made(events)| && Made(events)[k].Horizon() <= e.now {
      assert Reaches(all, |events|, k);
    }
  }

  lemma {:induction false} MadeGrows(events: seq<Event>, i: nat)
    requires i <= |events|
    ensures |Made(events[..i])| <= |Made(events)| && Made(events)[..|Made(events[..i])|] == Made(events[..i])
  {
    if i == |events| {
      assert events[..i] == events;
    } else {
      var before := events[..|events| - 1];
      MadeGrows(before, i);
      assert before[..i] == events[..i];
    }
  }

  lemma NotYetMade(events: seq<Event>, k: nat)
    requires k >= |Made(events)|
    ensures !PassedHorizon(events, k)
  {
    forall i | 0 <= i < |events|
      ensures !Reaches(events, i, k)
    {
      MadeGrows(events, i);
    }
  }

  /** A claim is as made until some pass reaches its horizon, and graded from then on. */
  lemma {:induction false} GradedWhenHorizonPassed(events: seq<Event>, g: Grader, k: nat)
    requires k < |Made(events)|
    ensures |Run(events, g).claims| == |Made(events)|
    ensures Made(events)[k].status == Pending
    ensures Run(events, g).claims[k].Horizon() == Made(events)[k].Horizon()
    ensures if PassedHorizon(events, k) then Run(events, g).claims[k].status != Pending
            else Run(events, g).claims[k] == Made(events)[k]
  {
    var before, last := events[..|events| - 1], events[|events| - 1];
    assert before + [last] == events;
    RunKeepsTables(events, g);
    RunKeepsTables(before, g);
    PassedHorizonStep(before, last, k);
    if k < |Made(before)| {
      GradedWhenHorizonPassed(before, g, k);
    } else {
      NotYetMade(before, k);
    }
  }

  /** Claim k is in the later run as in the earlier one. */
  ghost predicate Unchanged(events: seq<Event>, later: seq<Event>, g: Grader, k: nat) {
    k < |Run(events, g).claims| && k < |Run(later, g).claims| && Run(later, g).claims[k] == Run(events, g).claims[k]
  }

  lemma StepKeepsGrade(events: seq<Event>, later: seq<Event>, e: Event, g: Grader, k: nat)
    requires Unchanged(events, later, g, k) && Run(events, g).claims[k].status != Pending
    ensures Unchanged(events, later + [e], g, k)
  {
    RunPush(later, e, g);
  }

  lemma LastSplitsOff(events: seq<Event>) returns (init: seq<Event>, last: Event)
    requires events != []
    ensures events == init + [last] && |init| < |events|
  {
    init, last := events[..|events| - 1], events[|events| - 1];
  }

  /** A graded claim never changes again. */
  lemma {:induction false} GradesAreFinal(events: seq<Event>, more: seq<Event>, g: Grader, k: nat)
    requires k < |Run(events, g).claims| && Run(events, g).claims[k].status != Pending
    ensures Unchanged(events, events + more, g, k)
    decreases |more|
  {
    if more == [] {
      assert events + more == events;
    } else {
      var init, last := LastSplitsOff(more);
      GradesAreFinal(events, init, g, k);
      StepKeepsGrade(events, events + init, last, g, k);
      assert events + init + [last] == events + more;
    }
  }

  /** Event i is the pass that grades claim k. */
  ghost predicate GradedBy(events: seq<Event>, i: nat, k: nat) {
    i < |events| && Reaches(events, i, k) && !PassedHorizon(events[..i], k)
  }

  /** From its pass on the claim is as that pass resolved it, from the table of that moment. */
  lemma GradeIsFixed(events: seq<Event>, i: nat, k: nat, g: Grader)
    requires GradedBy(events, i, k)
    ensures k < |Made(events)| && Made(events)[k] == Made(events[..i])[k]
    ensures |Run(events, g).claims| == |Made(events)|
    ensures Run(events, g).claims[k] == Resolve(Made(events)[k], Table(events[..i]), events[i].now, g)
    ensures Run(events, g).claims[k].resolvedAt == Some(events[i].now)
  {
    var before := events[..i];
    MadeGrows(events, i);
    assert Made(events)[k] == Made(events)[..|Made(before)|][k];
    GradedWhenHorizonPassed(before, g, k);
    RunKeepsTables(before, g);
    RunKeepsTables(events, g);
    RunPush(before, events[i], g);
    GradesAreFinal(before + [events[i]], events[i + 1..], g, k);
    assert before + [events[i]] + events[i + 1..] == events;
  }

  // ---------- What later writes do to an answer ----------

  /** The rows of `before` are still in their places, whatever their prices. */
  ghost predicate Extends(before: seq<Snapshot>, after: seq<Snapshot>) {
    |before| <= |after| && forall i :: 0 <= i < |before| ==> SameKey(before[i], after[i])
  }

  lemma {:induction false} TableExtends(events: seq<Event>, i: nat)
    requires i <= |events|
    ensures Extends(Table(events[..i]), Table(events))
  {
    if i == |events| {
      assert events[..i] == events;
    } else {
      var before := events[..|events| - 1];
      TableExtends(before, i);
      assert before[..i] == events[..i];
    }
  }

  /** The row of `after` in the place of s. */
  function Current(before: seq<Snapshot>, after: seq<Snapshot>, s: Snapshot): (r: Snapshot)
    requires Extends(before, after) && s in before
    ensures SameKey(r, s) && r in after
  {
    var p := Place(before, s);
    PlaceExists(before, s);
    after[p]
  }

  lemma PlaceExists(rows: seq<Snapshot>, s: Snapshot)
    requires s in rows
    ensures Place(rows, s) < |rows|
  {
    var i :| 0 <= i < |rows| && rows[i] == s;
    assert SameKey(rows[i], s);
  }

  /** The answer from the later table, given that from the earlier one and that from the rows added since. */
  function NewAnswer(before: seq<Snapshot>, after: seq<Snapshot>, r: Option<Snapshot>, added: Option<Snapshot>): Option<Snapshot>
    requires Extends(before, after) && (r.Some? ==> r.value in before)
  {
    if added.Some? && (r.None? || added.value.at > r.value.at) then added
    else if r.None? then None
    else Some(Current(before, after, r.value))
  }

  lemma NewAnswerIsLatest(before: seq<Snapshot>, after: seq<Snapshot>, w: Window, r: Option<Snapshot>, added: Option<Snapshot>)
    requires Extends(before, after) && IsLatest(r, before, w) && IsLatest(added, after[|before|..], w)
    ensures IsLatest(NewAnswer(before, after, r, added), after, w)
  {
    var x := NewAnswer(before, after, r, added);
    forall i | 0 <= i < |after| && Eligible(after[i], w)
      ensures x.Some? && after[i].at <= x.value.at
    {
      if i < |before| {
        assert SameKey(before[i], after[i]) && Eligible(before[i], w);
      } else {
        assert after[|before|..][i - |before|] == after[i];
      }
    }
  }

  /** The row a grade was read from is still a possible answer exactly if no newer eligible row was added since. */
  lemma OldAnswerIsPossible(before: seq<Snapshot>, after: seq<Snapshot>, w: Window, r: Option<Snapshot>)
    requires Extends(before, after) && IsLatest(r, before, w)
    ensures IsLatest(NewAnswer(before, after, r, None), after, w)
       <==> forall i :: |before| <= i < |after| && Eligible(after[i], w) ==> r.Some? && after[i].at <= r.value.at
  {
    var x := NewAnswer(before, after, r, None);
    if forall i :: |before| <= i < |after| && Eligible(after[i], w) ==> r.Some? && after[i].at <= r.value.at {
      forall i | 0 <= i < |after| && Eligible(after[i], w)
        ensures x.Some? && after[i].at <= x.value.at
      {
        if i < |before| {
          assert SameKey(before[i], after[i]) && Eligible(before[i], w);
        }
      }
    }
  }

  /** No newer row of another price was added, and the row of the answer was not repriced. */
  ghost predicate PriceStands(before: seq<Snapshot>, after: seq<Snapshot>, w: Window, g: Grader)
    requires Answers(g.query) && Extends(before, after)
  {
    var r, added := g.query(before, w), g.query(after[|before|..], w);
    assert IsLatest(r, before, w);
    if added.Some? && (r.None? || added.value.at > r.value.at) then r.Some? && added.value.price == r.value.price
    else r.Some? ==> Current(before, after, r.value).price == r.value.price
  }

  /** Where the rows of the latest eligible instant agree on their price, that is when the answer's price stays. */
  lemma AnswerAfter(before: seq<Snapshot>, after: seq<Snapshot>, w: Window, g: Grader)
    requires Answers(g.query) && Extends(before, after) && Agreed(after, w)
    ensures Price(g.query(after, w)) == Price(g.query(before, w)) <==> PriceStands(before, after, w, g)
  {
    var r, added := g.query(before, w), g.query(after[|before|..], w);
    assert IsLatest(r, before, w) && IsLatest(added, after[|before|..], w);
    NewAnswerIsLatest(before, after, w, r, added);
    assert IsLatest(g.query(after, w), after, w);
    assert Price(g.query(after, w)) == Price(NewAnswer(before, after, r, added));
  }

  // ---------- Whether a grade stands ----------

  /** The prices a claim was graded from stand in the later table. */
  ghost predicate HorizonStands(c: Claim, before: seq<Snapshot>, after: seq<Snapshot>, g: Grader)
    requires Answers(g.query) && Extends(before, after)
  {
    PriceStands(before, after, c.HorizonWindow(), g)
  }

  ghost predicate ClaimStands(c: Claim, before: seq<Snapshot>, after: seq<Snapshot>, g: Grader)
    requires Answers(g.query) && Extends(before, after)
  {
    c.priceAtClaim.Some? || PriceStands(before, after, c.ClaimWindow(), g)
  }

  /** The table decides the prices a claim would be graded from. */
  ghost predicate HorizonAgreed(c: Claim, rows: seq<Snapshot>) {
    Agreed(rows, c.HorizonWindow())
  }

  ghost predicate ClaimAgreed(c: Claim, rows: seq<Snapshot>) {
    c.priceAtClaim.Some? || Agreed(rows, c.ClaimWindow())
  }

  /**
   * Where the final table decides the horizon price, a graded claim's resolution price is that price exactly
   * when no newer row of another price was added to its window after its pass and the row it was read from was
   * not repriced. If the table decides the price it was claimed at as well, and that stands too, so does the verdict.
   */
  lemma GradeMatchesFinalTable(events: seq<Event>, i: nat, k: nat, g: Grader)
    requires GradedBy(events, i, k) && Answers(g.query)
    requires k < |Made(events)| && HorizonAgreed(Made(events)[k], Table(events))
    ensures Extends(Table(events[..i]), Table(events)) && |Run(events, g).claims| == |Made(events)|
    ensures var c, made, before, after := Run(events, g).claims[k], Made(events)[k], Table(events[..i]), Table(events);
            && (c.resolutionPrice == HorizonPrice(made, after, g) <==> HorizonStands(made, before, after, g))
            && (HorizonStands(made, before, after, g) && ClaimAgreed(made, after) && ClaimStands(made, before, after, g) ==>
                  c.status == Graded(VerdictOf(made, after, g)))
  {
    GradeIsFixed(events, i, k, g);
    TableExtends(events, i);
    var made, before, after := Made(events)[k], Table(events[..i]), Table(events);
    MadeIsFresh(events, k);
    AnswerAfter(before, after, made.HorizonWindow(), g);
    if made.priceAtClaim.None? && ClaimAgreed(made, after) {
      AnswerAfter(before, after, made.ClaimWindow(), g);
    }
  }

  /** No two rows have the same key. */
  ghost predicate Keyed(rows: seq<Snapshot>) {
    forall i, j :: 0 <= i < j < |rows| ==> !SameKey(rows[i], rows[j])
  }

  lemma PutKeepsKeyed(rows: seq<Snapshot>, row: Snapshot, overwrite: bool)
    requires Keyed(rows)
    ensures Keyed(Put(rows, row, overwrite))
  {
  }

  lemma {:induction false} TableIsKeyed(events: seq<Event>)
    ensures Keyed(Table(events))
  {
    if events != [] {
      var last := events[|events| - 1];
      TableIsKeyed(events[..|events| - 1]);
      if last.Writes() {
        PutKeepsKeyed(Table(events[..|events| - 1]), last.Written(), last.Quote?);
      }
    }
  }

  lemma PlaceOfMember(rows: seq<Snapshot>, s: Snapshot)
    requires Keyed(rows) && s in rows
    ensures Place(rows, s) < |rows| && rows[Place(rows, s)] == s
  {
    var i :| 0 <= i < |rows| && rows[i] == s;
    PlaceExists(rows, s);
    assert SameKey(rows[Place(rows, s)], rows[i]);
  }

  // ---------- What the table remembers ----------

  predicate WritesKey(e: Event, s: Snapshot) {
    e.Writes() && SameKey(e.Written(), s)
  }

  ghost predicate KeyIsWritten(events: seq<Event>, s: Snapshot) {
    exists j :: 0 <= j < |events| && WritesKey(events[j], s)
  }

  /** Event j wrote the row: a quote, or else the first write of its key. No later quote replaced it. */
  ghost predicate Stands(events: seq<Event>, j: nat, s: Snapshot)
    requires j < |events|
  {
    && events[j].Writes() && events[j].Written() == s
    && (events[j].Persist? ==> forall i :: 0 <= i < j ==> !WritesKey(events[i], s))
    && forall i :: j < i < |events| && events[i].Quote? ==> !WritesKey(events[i], s)
  }

  ghost predicate SomeStands(events: seq<Event>, s: Snapshot) {
    exists j :: 0 <= j < |events| && Stands(events, j, s)
  }

  lemma PutMembers(rows: seq<Snapshot>, row: Snapshot, overwrite: bool, s: Snapshot)
    requires Keyed(rows)
    ensures !SameKey(s, row) ==> (s in Put(rows, row, overwrite) <==> s in rows)
    ensures SameKey(s, row) && (overwrite || Place(rows, row) == |rows|) ==>
              (s in Put(rows, row, overwrite) <==> s == row)
  {
    var p, after := Place(rows, row), Put(rows, row, overwrite);
    if i :| 0 <= i < |rows| && rows[i] == s && !SameKey(s, row) {
      assert after[i] == s;
    }
    if p == |rows| || overwrite {
      assert after[p] == row;
    }
  }

  lemma {:induction false} KeyIsInTable(events: seq<Event>, s: Snapshot)
    ensures Place(Table(events), s) < |Table(events)| <==> KeyIsWritten(events, s)
  {
    if events != [] {
      var init, e := events[..|events| - 1], events[|events| - 1];
      KeyIsInTable(init, s);
      KeyWrittenPush(init, e, s);
      assert events == init + [e];
      KeyOfWrite(Table(init), e, s);
    }
  }

  lemma KeyWrittenPush(init: seq<Event>, e: Event, s: Snapshot)
    ensures KeyIsWritten(init + [e], s) <==> KeyIsWritten(init, s) || WritesKey(e, s)
  {
    var events := init + [e];
    if j :| 0 <= j < |init| && WritesKey(init[j], s) {
      assert WritesKey(events[j], s);
    }
    if WritesKey(e, s) {
      assert WritesKey(events[|init|], s);
    }
  }

  lemma KeyOfWrite(rows: seq<Snapshot>, e: Event, s: Snapshot)
    ensures Place(Write(rows, e), s) < |Write(rows, e)| <==> Place(rows, s) < |rows| || WritesKey(e, s)
  {
    var after := Write(rows, e);
    var p := Place(rows, s);
    if p < |rows| {
      assert SameKey(after[p], s);
    } else if WritesKey(e, s) {
      assert SameKey(after[Place(rows, e.Written())], s);
    }
  }

  lemma StandsPush(init: seq<Event>, e: Event, s: Snapshot)
    ensures SomeStands(init + [e], s)
       <==> || (!(e.Quote? && WritesKey(e, s)) && SomeStands(init, s))
            || (e.Writes() && e.Written() == s && (e.Persist? ==> !KeyIsWritten(init, s)))
  {
    var events := init + [e];
    if j :| 0 <= j < |init| && Stands(init, j, s) && !(e.Quote? && WritesKey(e, s)) {
      assert Stands(events, j, s);
    }
    if e.Writes() && e.Written() == s && (e.Persist? ==> !KeyIsWritten(init, s)) {
      assert Stands(events, |init|, s);
    }
    if j :| 0 <= j < |events| && Stands(events, j, s) {
      assert forall i :: 0 <= i < |init| ==> init[i] == events[i];
      if j < |init| {
        assert events[|init|] == e;
        assert Stands(init, j, s);
      }
    }
  }

  /**
   * After any history the table holds exactly the rows of the last quotes of their keys and, for keys without a
   * quote since, of their first write: persisting never replaces a row, and the price feed always does.
   */
  lemma {:induction false} TableHoldsStandingWrites(events: seq<Event>, s: Snapshot)
    ensures s in Table(events) <==> SomeStands(events, s)
  {
    if events != [] {
      var init, e := events[..|events| - 1], events[|events| - 1];
      assert events == init + [e];
      TableHoldsStandingWrites(init, s);
      StandsPush(init, e, s);
      TableIsKeyed(init);
      if e.Writes() {
        KeyIsInTable(init, e.Written());
        PutMembers(Table(init), e.Written(), e.Quote?, s);
      }
    }
  }

  // ---------- The row a grade was read from ----------

  /**
   * Whatever the database returns among tied rows: the row a grade was read from could still be the final table's
   * answer exactly if no row of the window newer than it was recorded after the pass. If it was not repriced
   * either, the resolution price is then one that the final table allows.
   */
  lemma GradedRowIsPossible(events: seq<Event>, i: nat, k: nat, g: Grader)
    requires GradedBy(events, i, k) && Answers(g.query) && k < |Made(events)|
    ensures Extends(Table(events[..i]), Table(events)) && |Run(events, g).claims| == |Made(events)|
    ensures var before, after, w := Table(events[..i]), Table(events), Made(events)[k].HorizonWindow();
            var r := g.query(before, w);
            && IsLatest(r, before, w)
            && (r.Some? ==> Place(before, r.value) < |before| && before[Place(before, r.value)] == r.value)
            && Run(events, g).claims[k].resolutionPrice == Price(r)
            && (IsLatest(NewAnswer(before, after, r, None), after, w)
                <==> forall j :: |before| <= j < |after| && Eligible(after[j], w) ==> r.Some? && after[j].at <= r.value.at)
  {
    GradeIsFixed(events, i, k, g);
    TableExtends(events, i);
    MadeIsFresh(events, k);
    var before, after, w := Table(events[..i]), Table(events), Made(events)[k].HorizonWindow();
    var r := g.query(before, w);
    assert IsLatest(r, before, w);
    if r.Some? {
      TableIsKeyed(events[..i]);
      PlaceOfMember(before, r.value);
    }
    OldAnswerIsPossible(before, after, w, r);
  }

  lemma {:induction false} MadeIsFresh(events: seq<Event>, k: nat)
    requires k < |Made(events)|
    ensures Made(events)[k].resolutionPrice == None
  {
    if k < |Made(events[..|events| - 1])| {
      MadeIsFresh(events[..|events| - 1], k);
    }
  }

  /**
   * Two histories with the same claim and the same final table, which decides its horizon price, whatever their
   * passes: if the first history's resolution price stands, the second has the same one exactly when its own
   * stands; if the price at the claim is decided too and all prices stand in both, the verdicts agree.
   */
  lemma GradingIsScheduleIndependent(a: seq<Event>, i: nat, b: seq<Event>, j: nat, k: nat, g: Grader)
    requires GradedBy(a, i, k) && GradedBy(b, j, k) && Answers(g.query)
    requires k < |Made(a)| && k < |Made(b)| && Made(a)[k] == Made(b)[k]
    requires Table(a) == Table(b) && HorizonAgreed(Made(a)[k], Table(a))
    ensures Extends(Table(a[..i]), Table(a)) && Extends(Table(b[..j]), Table(b))
    ensures |Run(a, g).claims| == |Made(a)| && |Run(b, g).claims| == |Made(b)|
    ensures var c, d, made := Run(a, g).claims[k], Run(b, g).claims[k], Made(a)[k];
            && (HorizonStands(made, Table(a[..i]), Table(a), g) ==>
                  (c.resolutionPrice == d.resolutionPrice <==> HorizonStands(made, Table(b[..j]), Table(b), g)))
            && (ClaimAgreed(made, Table(a))
                && HorizonStands(made, Table(a[..i]), Table(a), g) && ClaimStands(made, Table(a[..i]), Table(a), g)
                && HorizonStands(made, Table(b[..j]), Table(b), g) && ClaimStands(made, Table(b[..j]), Table(b), g) ==>
                  c.status == d.status)
  {
    GradeMatchesFinalTable(a, i, k, g);
    GradeMatchesFinalTable(b, j, k, g);
  }

  // ---------- Guards on the writes after a pass ----------

  /** The rows of the market up to an instant are as they were, and all rows added since are for later instants. */
  ghost predicate Frozen(before: seq<Snapshot>, after: seq<Snapshot>, slug: int, upto: int) {
    && Extends(before, after)
    && (forall i :: 0 <= i < |before| && before[i].slug == slug && before[i].at <= upto ==> after[i] == before[i])
    && (forall i :: |before| <= i < |after| && after[i].slug == slug ==> after[i].at > upto)
  }

  /** Every write from event i on that concerns the market is for an instant after `upto`. */
  ghost predicate WritesLater(events: seq<Event>, i: nat, slug: int, upto: int) {
    forall j :: i <= j < |events| && events[j].Writes() && events[j].Written().slug == slug ==>
      events[j].Written().at > upto
  }

  lemma WriteKeepsFrozen(before: seq<Snapshot>, after: seq<Snapshot>, e: Event, slug: int, upto: int)
    requires Frozen(before, after, slug, upto)
    requires e.Writes() && e.Written().slug == slug ==> e.Written().at > upto
    ensures Frozen(before, Write(after, e), slug, upto)
  {
    if e.Writes() {
      var p := Place(after, e.Written());
      if p < |before| {
        assert SameKey(before[p], after[p]) && SameKey(after[p], e.Written());
      }
    }
  }

  lemma {:induction false} LaterWritesFreeze(events: seq<Event>, i: nat, slug: int, upto: int)
    requires i <= |events| && WritesLater(events, i, slug, upto)
    ensures Frozen(Table(events[..i]), Table(events), slug, upto)
  {
    if i == |events| {
      assert events[..i] == events;
    } else {
      var before := events[..|events| - 1];
      LaterWritesFreeze(before, i, slug, upto);
      assert before[..i] == events[..i];
      WriteKeepsFrozen(Table(events[..i]), Table(before), events[|events| - 1], slug, upto);
    }
  }

  /** The database may answer the query from either table with the same rows. */
  ghost predicate SameAnswers(before: seq<Snapshot>, after: seq<Snapshot>, w: Window) {
    forall x :: IsLatest(x, before, w) <==> IsLatest(x, after, w)
  }

  lemma FrozenSameRows(before: seq<Snapshot>, after: seq<Snapshot>, w: Window, upto: int, s: Snapshot)
    requires Frozen(before, after, w.slug, upto) && w.upto <= upto && Eligible(s, w)
    ensures s in before <==> s in after
  {
    if s in before {
      var i :| 0 <= i < |before| && before[i] == s;
      assert after[i] == s;
    }
    if s in after {
      var i :| 0 <= i < |after| && after[i] == s;
      assert i < |before| ==> SameKey(before[i], after[i]);
      assert i < |before| && before[i] == s;
    }
  }

  lemma FrozenSameAnswers(before: seq<Snapshot>, after: seq<Snapshot>, w: Window, upto: int)
    requires Frozen(before, after, w.slug, upto) && w.upto <= upto
    ensures SameAnswers(before, after, w)
  {
    forall s | Eligible(s, w)
      ensures s in before <==> s in after
    {
      FrozenSameRows(before, after, w, upto, s);
    }
    SameRowsSameAnswers(before, after, w);
  }

  lemma SameRowsSameAnswers(before: seq<Snapshot>, after: seq<Snapshot>, w: Window)
    requires forall s :: Eligible(s, w) ==> (s in before <==> s in after)
    ensures SameAnswers(before, after, w)
  {
    forall x
      ensures IsLatest(x, before, w) <==> IsLatest(x, after, w)
    {
      LatestAmongRows(x, before, w);
      LatestAmongRows(x, after, w);
    }
  }

  lemma LatestAmongRows(x: Option<Snapshot>, rows: seq<Snapshot>, w: Window)
    ensures IsLatest(x, rows, w)
       <==> && (x.Some? ==> x.value in rows && Eligible(x.value, w))
            && forall s :: s in rows && Eligible(s, w) ==> x.Some? && s.at <= x.value.at
  {
  }

  /**
   * If every later write for its market is for an instant past the horizon, a graded claim was graded from answers
   * the final table may still give and no others. Its price and its verdict are then those of the final table
   * wherever that table decides them.
   */
  lemma LaterWritesStand(events: seq<Event>, i: nat, k: nat, g: Grader)
    requires GradedBy(events, i, k) && Answers(g.query) && k < |Made(events)|
    requires WritesLater(events, i, Made(events)[k].slug, Made(events)[k].Horizon())
    ensures |Run(events, g).claims| == |Made(events)|
    ensures var c, made, before, after := Run(events, g).claims[k], Made(events)[k], Table(events[..i]), Table(events);
            && SameAnswers(before, after, made.HorizonWindow()) && SameAnswers(before, after, made.ClaimWindow())
            && c.resolutionPrice == HorizonPrice(made, before, g) && c.status == Graded(VerdictOf(made, before, g))
            && (HorizonAgreed(made, after) ==> c.resolutionPrice == HorizonPrice(made, after, g))
            && (HorizonAgreed(made, after) && ClaimAgreed(made, after) ==> c.status == Graded(VerdictOf(made, after, g)))
  {
    var made, before, after := Made(events)[k], Table(events[..i]), Table(events);
    GradeIsFixed(events, i, k, g);
    MadeIsFresh(events, k);
    LaterWritesFreeze(events, i, made.slug, made.Horizon());
    FrozenSameAnswers(before, after, made.HorizonWindow(), made.Horizon());
    FrozenSameAnswers(before, after, made.ClaimWindow(), made.Horizon());
    SamePrice(before, after, made.HorizonWindow(), g);
    SamePrice(before, after, made.ClaimWindow(), g);
  }

  lemma SamePrice(before: seq<Snapshot>, after: seq<Snapshot>, w: Window, g: Grader)
    requires Answers(g.query) && SameAnswers(before, after, w)
    ensures Agreed(after, w) ==> Price(g.query(after, w)) == Price(g.query(before, w))
  {
    assert IsLatest(g.query(before, w), before, w) && IsLatest(g.query(after, w), after, w);
  }

  // ---------- The hourly price feed ----------

  /** Once the hour of the horizon is over, no quote of the price feed can touch the grade. */
  lemma QuotesAfterTheHour(events: seq<Event>, i: nat, slug: int, horizon: int)
    requires i < |events| && events[i].Pass? && HourOf(events[i].now) > horizon
    requires forall j :: i <= j < |events| && events[j].Writes() && events[j].Written().slug == slug ==>
               events[j].Quote? && events[j].clock >= events[i].now
    ensures WritesLater(events, i, slug, horizon)
  {
    forall j | i <= j < |events| && events[j].Writes() && events[j].Written().slug == slug
      ensures events[j].Written().at > horizon
    {
      HourFacts(events[i].now, events[j].clock);
    }
  }

  function Quoted(rows: seq<Snapshot>, slug: int, source: int, clock: int, price: real): seq<Snapshot> {
    Write(rows, Quote(slug, source, clock, price))
  }

  /** An eligible row later than the instant hides the row of that instant from the query. */
  ghost predicate Hidden(rows: seq<Snapshot>, w: Window, at: int) {
    exists i :: 0 <= i < |rows| && Eligible(rows[i], w) && rows[i].at > at
  }

  lemma PutRowsKeep(rows: seq<Snapshot>, row: Snapshot, i: nat)
    requires i < |rows|
    ensures i < |Put(rows, row, true)| && SameKey(Put(rows, row, true)[i], rows[i])
    ensures !SameKey(rows[i], row) ==> Put(rows, row, true)[i] == rows[i]
  {
  }

  lemma PutRowsAre(rows: seq<Snapshot>, row: Snapshot, i: nat)
    requires i < |Put(rows, row, true)|
    ensures var x := Put(rows, row, true)[i];
            x == row || (i < |rows| && x == rows[i])
  {
  }

  /** Writing a row that is outside the window, or earlier than a row in it, leaves the possible answers as they are. */
  lemma UnseenRowKeepsAnswers(rows: seq<Snapshot>, row: Snapshot, w: Window)
    requires !Eligible(row, w) || Hidden(rows, w, row.at)
    ensures SameAnswers(rows, Put(rows, row, true), w)
  {
    forall x
      ensures IsLatest(x, rows, w) <==> IsLatest(x, Put(rows, row, true), w)
    {
      UnseenRowKeepsAnswer(rows, row, w, x);
    }
  }

  lemma UnseenRowKeepsAnswer(rows: seq<Snapshot>, row: Snapshot, w: Window, x: Option<Snapshot>)
    requires !Eligible(row, w) || Hidden(rows, w, row.at)
    ensures IsLatest(x, rows, w) <==> IsLatest(x, Put(rows, row, true), w)
  {
    var after := Put(rows, row, true);
    if IsLatest(x, rows, w) {
      forall i | 0 <= i < |after| && Eligible(after[i], w)
        ensures x.Some? && after[i].at <= x.value.at
      {
        PutRowsAre(rows, row, i);
      }
      if x.Some? {
        var j :| 0 <= j < |rows| && rows[j] == x.value;
        PutRowsKeep(rows, row, j);
        assert after[j] == x.value;
      }
    }
    if IsLatest(x, after, w) {
      forall i | 0 <= i < |rows| && Eligible(rows[i], w)
        ensures x.Some? && rows[i].at <= x.value.at
      {
        PutRowsKeep(rows, row, i);
      }
      if x.Some? {
        var j :| 0 <= j < |after| && after[j] == x.value;
        PutRowsAre(rows, row, j);
        assert x.value in rows;
      }
    }
  }

  /** A price above all in the table. */
  function AbovePrices(rows: seq<Snapshot>): (p: real)
    ensures forall i :: 0 <= i < |rows| ==> rows[i].price < p
  {
    if rows == [] then 0.0
    else
      var rest := AbovePrices(rows[1..]);
      assert forall i :: 1 <= i < |rows| ==> rows[i] == rows[1..][i - 1];
      if rows[0].price < rest then rest else rows[0].price + 1.0
  }

  /** A row in the window that none hides is a possible answer once written. */
  lemma SeenRowIsAnAnswer(rows: seq<Snapshot>, row: Snapshot, w: Window)
    requires Eligible(row, w) && !Hidden(rows, w, row.at)
    ensures IsLatest(Some(row), Put(rows, row, true), w)
  {
    var after := Put(rows, row, true);
    assert after[Place(rows, row)] == row;
    forall i | 0 <= i < |after| && Eligible(after[i], w)
      ensures after[i].at <= row.at
    {
      PutRowsAre(rows, row, i);
    }
  }

  /** From `now` on no quote of the feed can reach the window: its hours are outside it or hidden. */
  ghost predicate OutOfReach(rows: seq<Snapshot>, w: Window, now: int) {
    HourOf(now) > w.upto || (w.after.Some? && HourOf(now) <= w.after.value) || Hidden(rows, w, HourOf(now))
  }

  lemma QuoteKeepsAnswers(rows: seq<Snapshot>, w: Window, now: int, source: int, clock: int, price: real)
    requires w.upto <= now <= clock && OutOfReach(rows, w, now)
    ensures SameAnswers(rows, Quoted(rows, w.slug, source, clock, price), w)
  {
    HourFacts(now, clock);
    HourFacts(clock, now);
    UnseenRowKeepsAnswers(rows, Snapshot(w.slug, source, HourOf(clock), price), w);
  }

  lemma QuoteChangesAnswers(rows: seq<Snapshot>, w: Window, now: int)
    requires !OutOfReach(rows, w, now)
    ensures !SameAnswers(rows, Quoted(rows, w.slug, 0, now, AbovePrices(rows)), w)
  {
    var row := Snapshot(w.slug, 0, HourOf(now), AbovePrices(rows));
    SeenRowIsAnAnswer(rows, row, w);
    assert row !in rows;
    assert !IsLatest(Some(row), rows, w);
  }

  /** What the feed may still do to the answers of a window that is over, for any table. */
  lemma FeedIsOutOfReach(rows: seq<Snapshot>, w: Window, now: int)
    requires w.upto <= now
    ensures (forall source, clock, price :: clock >= now ==> SameAnswers(rows, Quoted(rows, w.slug, source, clock, price), w))
       <==> OutOfReach(rows, w, now)
  {
    if OutOfReach(rows, w, now) {
      forall source, clock, price | clock >= now
        ensures SameAnswers(rows, Quoted(rows, w.slug, source, clock, price), w)
      {
        QuoteKeepsAnswers(rows, w, now, source, clock, price);
      }
    } else {
      QuoteChangesAnswers(rows, w, now);
    }
  }

  /** Every row of the market is on the hour. */
  ghost predicate OnTheHour(rows: seq<Snapshot>, slug: int) {
    forall i :: 0 <= i < |rows| && rows[i].slug == slug ==> rows[i].at == HourOf(rows[i].at)
  }

  /** The price feed alone writes such markets, whichever of its sources it quotes. */
  lemma {:induction false} FedMarketIsOnTheHour(events: seq<Event>, slug: int)
    requires forall j :: 0 <= j < |events| && events[j].Writes() && events[j].Written().slug == slug ==> events[j].Quote?
    ensures OnTheHour(Table(events), slug)
    decreases |events|
  {
    if events == [] {
      NoWrites();
    } else {
      var init, last := LastSplitsOff(events);
      forall j | 0 <= j < |init|
        ensures init[j] == events[j]
      {
      }
      FedMarketIsOnTheHour(init, slug);
      assert events[|init|] == last;
      WriteKeepsOnTheHour(Table(init), last, slug);
      TablePush(init, last);
    }
  }

  lemma TablePush(events: seq<Event>, e: Event)
    ensures Table(events + [e]) == Write(Table(events), e)
  {
    assert (events + [e])[..|events|] == events;
  }

  lemma WriteKeepsOnTheHour(rows: seq<Snapshot>, e: Event, slug: int)
    requires OnTheHour(rows, slug) && (e.Writes() && e.Written().slug == slug ==> e.Quote?)
    ensures OnTheHour(Write(rows, e), slug)
  {
    if e.Quote? {
      HourFacts(e.clock, e.clock);
    }
  }

  /**
   * In a market of hourly rows, whatever its sources and ties, no quote from now on can change what the resolution
   * price may be exactly if the hour of `now` lies past the horizon, or not after the claim and so outside the
   * window anyway.
   */
  lemma HourlyGradeIsStable(rows: seq<Snapshot>, c: Claim, now: int)
    requires c.Horizon() <= now && OnTheHour(rows, c.slug)
    ensures (forall source, clock, price :: clock >= now ==>
               SameAnswers(rows, Quoted(rows, c.slug, source, clock, price), c.HorizonWindow()))
       <==> HourOf(now) > c.Horizon() || HourOf(now) <= c.createdAt
  {
    FeedIsOutOfReach(rows, c.HorizonWindow(), now);
    forall i | 0 <= i < |rows| && Eligible(rows[i], c.HorizonWindow())
      ensures rows[i].at <= HourOf(now)
    {
      HourFacts(rows[i].at, now);
    }
  }

  // ---------- Runs in which the grade depends on the schedule ----------

  lemma LoneAnswer(rows: seq<Snapshot>, w: Window, s: Snapshot, g: Grader)
    requires Answers(g.query) && UniqueInstants(rows, w.slug) && IsLatest(Some(s), rows, w)
    ensures g.query(rows, w) == Some(s)
  {
    assert IsLatest(g.query(rows, w), rows, w);
    LatestIsUnique(rows, w, Some(s), g.query(rows, w));
  }

  /** An upward claim from 0.5 with the given life, made at 0. */
  function UpFromHalf(minutes: nat): Claim {
    Claim(1, Up, Some(0.5), 0, minutes, Pending, None, None)
  }

  lemma GradeOfUp(rows: seq<Snapshot>, minutes: nat, s: Snapshot, now: int, g: Grader)
    requires Answers(g.query) && g.epsilon == 0.02
    requires UniqueInstants(rows, 1) && IsLatest(Some(s), rows, UpFromHalf(minutes).HorizonWindow())
    requires minutes * MICROS_PER_MINUTE <= now
    ensures var graded := GradeAll([UpFromHalf(minutes)], rows, now, g);
            |graded| == 1 && graded[0].status == Graded(if s.price - 0.5 >= 0.02 then Correct else Incorrect)
  {
    LoneAnswer(rows, UpFromHalf(minutes).HorizonWindow(), s, g);
  }

  /** The run of making the claim, two writes and a pass, in two orders. */
  lemma TwoOrders(claim: Claim, x: Event, y: Event, p: Event, q: Event, g: Grader)
    requires x.Writes() && y.Writes() && p.Pass? && q.Pass?
    ensures var first, last := [Make(claim), x, p, y], [Make(claim), x, y, q];
            var one, two := Write([], x), Write(Write([], x), y);
            && Table(first) == Table(last) == two && Made(first) == Made(last) == [AsMade(claim)]
            && Run(first, g).claims == GradeAll([AsMade(claim)], one, p.now, g)
            && Run(last, g).claims == GradeAll([AsMade(claim)], two, q.now, g)
  {
    RunPush([], Make(claim), g);
    assert [] + [Make(claim)] == [Make(claim)] && [] + [AsMade(claim)] == [AsMade(claim)];
    RunPush([Make(claim)], x, g);
    assert [Make(claim)] + [x] == [Make(claim), x];
    RunPush([Make(claim), x], p, g);
    assert [Make(claim), x] + [p] == [Make(claim), x, p];
    RunPush([Make(claim), x, p], y, g);
    assert [Make(claim), x, p] + [y] == [Make(claim), x, p, y];
    RunPush([Make(claim), x], y, g);
    assert [Make(claim), x] + [y] == [Make(claim), x, y];
    RunPush([Make(claim), x, y], q, g);
    assert [Make(claim), x, y] + [q] == [Make(claim), x, y, q];
    NoWrites();
  }

  lemma NoWrites()
    ensures Table([]) == [] && Made([]) == []
  {
  }

  /** Same claim, same final table of distinct instants, and opposite verdicts. */
  ghost predicate Disagree(first: seq<Event>, last: seq<Event>, g: Grader) {
    && Made(first) == Made(last) && Table(first) == Table(last) && UniqueInstants(Table(first), 1)
    && |Run(first, g).claims| == |Run(last, g).claims| == 1
    && Run(first, g).claims[0].status == Graded(Incorrect) && Run(last, g).claims[0].status == Graded(Correct)
  }

  lemma OrdersDisagree(minutes: nat, x: Event, y: Event, p: Event, q: Event, s: Snapshot, t: Snapshot, g: Grader)
    requires Answers(g.query) && g.epsilon == 0.02
    requires x.Writes() && y.Writes() && p.Pass? && q.Pass?
    requires minutes * MICROS_PER_MINUTE <= p.now && minutes * MICROS_PER_MINUTE <= q.now
    requires var one, two := Write([], x), Write(Write([], x), y);
             && UniqueInstants(one, 1) && IsLatest(Some(s), one, UpFromHalf(minutes).HorizonWindow()) && s.price == 0.5
             && UniqueInstants(two, 1) && IsLatest(Some(t), two, UpFromHalf(minutes).HorizonWindow()) && t.price == 0.9
    ensures Disagree([Make(UpFromHalf(minutes)), x, p, y], [Make(UpFromHalf(minutes)), x, y, q], g)
  {
    TwoOrders(UpFromHalf(minutes), x, y, p, q, g);
    GradeOfUp(Write([], x), minutes, s, p.now, g);
    GradeOfUp(Write(Write([], x), y), minutes, t, q.now, g);
  }

  lemma OneRow(s: Snapshot, w: Window)
    requires Eligible(s, w)
    ensures UniqueInstants([s], w.slug) && IsLatest(Some(s), [s], w)
  {
    assert [s][0] == s;
  }

  lemma TwoRows(s: Snapshot, t: Snapshot, w: Window)
    requires Eligible(t, w) && s.at < t.at
    ensures UniqueInstants([s, t], w.slug) && IsLatest(Some(t), [s, t], w)
  {
    assert [s, t][1] == t;
  }

  lemma PutFirst(row: Snapshot, overwrite: bool)
    ensures Put([], row, overwrite) == [row]
  {
  }

  lemma PutSecond(s: Snapshot, t: Snapshot, overwrite: bool)
    ensures Put([s], t, overwrite) == if !SameKey(s, t) then [s, t] else if overwrite then [t] else [s]
  {
    assert [s][0] == s && [s][1..] == [];
  }

  /** A snapshot stamped with the horizon but recorded after a pass at the horizon would have changed the grade. */
  lemma LateRowChangesTheGrade(g: Grader)
    requires Answers(g.query) && g.epsilon == 0.02
    ensures var m := MICROS_PER_MINUTE;
            var early, late := Persist(Snapshot(1, 1, 1, 0.5)), Persist(Snapshot(1, 1, m, 0.9));
            Disagree([Make(UpFromHalf(1)), early, Pass(m), late], [Make(UpFromHalf(1)), early, late, Pass(m)], g)
  {
    var m, s, t := MICROS_PER_MINUTE, Snapshot(1, 1, 1, 0.5), Snapshot(1, 1, MICROS_PER_MINUTE, 0.9);
    PutFirst(s, false);
    PutSecond(s, t, false);
    OneRow(s, UpFromHalf(1).HorizonWindow());
    TwoRows(s, t, UpFromHalf(1).HorizonWindow());
    OrdersDisagree(1, Persist(s), Persist(t), Pass(m), Pass(m), s, t, g);
  }

  /** A pass at 01:10 reads the row of 01:00, which a quote at 01:20 then overwrites; a pass at 01:20 grades otherwise. */
  lemma RepricedHourChangesTheGrade(g: Grader)
    requires Answers(g.query) && g.epsilon == 0.02
    ensures var m := MICROS_PER_MINUTE;
            var low, high := Quote(1, 1, 65 * m, 0.5), Quote(1, 1, 80 * m, 0.9);
            Disagree([Make(UpFromHalf(70)), low, Pass(70 * m), high], [Make(UpFromHalf(70)), low, high, Pass(80 * m)], g)
  {
    var m, s, t := MICROS_PER_MINUTE, Snapshot(1, 1, MICROS_PER_HOUR, 0.5), Snapshot(1, 1, MICROS_PER_HOUR, 0.9);
    var low, high := Quote(1, 1, 65 * m, 0.5), Quote(1, 1, 80 * m, 0.9);
    assert low.Written() == s && high.Written() == t;
    PutFirst(s, true);
    PutSecond(s, t, true);
    OneRow(s, UpFromHalf(70).HorizonWindow());
    OneRow(t, UpFromHalf(70).HorizonWindow());
    OrdersDisagree(70, low, high, Pass(70 * m), Pass(80 * m), s, t, g);
  }
}
