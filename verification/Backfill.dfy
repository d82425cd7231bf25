/** Closing-line capture and the keyset-paginated backfill of validation history. */
module Backfill {
  import opened Wrappers

  const MAX_PAGE := 5000

  /** Row identifiers, known by their rank in the database's order. */
  datatype Id = Id(rank: int)

  datatype Market = Market(id: Id, closeAt: Option<int>, slugs: set<Id>)

  datatype Forecast = Forecast(id: Id, lockedAt: int, market: Market, live: bool, scored: bool)

  /** A recorded price; it is usable only as a probability. */
  datatype Odds = Odds(id: Id, slug: Id, capturedAt: int, impliedYes: real)

  datatype ClosingLine = ClosingLine(snapshot: Id, probability: real, observedAt: int, cutoffAt: int, backfilled: bool)

  datatype FactorSnapshot = FactorSnapshot(market: Id, observedAt: int, backfilled: bool)

  // ---------- The closing line of one forecast ----------

  predicate Later(a: Odds, b: Odds) {
    a.capturedAt > b.capturedAt || (a.capturedAt == b.capturedAt && a.id.rank > b.id.rank)
  }

  predicate PreClose(o: Odds, slugs: set<Id>, cutoff: int) {
    o.slug in slugs && o.capturedAt <= cutoff
  }

  /** The latest price of the market's slugs at or before the cutoff. */
  function LastPreClose(odds: seq<Odds>, slugs: set<Id>, cutoff: int): (r: Option<Odds>)
    ensures r.Some? ==> r.value in odds && PreClose(r.value, slugs, cutoff)
    ensures forall o :: o in odds && PreClose(o, slugs, cutoff) ==> r.Some? && !Later(o, r.value)
  {
    if odds == [] then None
    else
      var last := odds[|odds| - 1];
      var best := LastPreClose(odds[..|odds| - 1], slugs, cutoff);
      assert odds == odds[..|odds| - 1] + [last];
      if PreClose(last, slugs, cutoff) && (best.None? || Later(last, best.value)) then Some(last) else best
  }

  /** The line the market's odds provide, before looking at any forecast. */
  function MarketLine(market: Market, odds: seq<Odds>, backfilled: bool): Option<ClosingLine> {
    if market.closeAt.None? then None
    else
      var last := LastPreClose(odds, market.slugs, market.closeAt.value);
      if last.None? || !(0.0 <= last.value.impliedYes <= 1.0) then None
      else Some(ClosingLine(last.value.id, last.value.impliedYes, last.value.capturedAt, market.closeAt.value, backfilled))
  }

  /** The line of a forecast: only a price observed after the lock counts. */
  function LineFor(f: Forecast, odds: seq<Odds>, backfilled: bool): (r: Option<ClosingLine>)
    ensures r.Some? ==> f.lockedAt < r.value.observedAt <= r.value.cutoffAt && 0.0 <= r.value.probability <= 1.0
  {
    var line := MarketLine(f.market, odds, backfilled);
    if line.Some? && f.lockedAt < line.value.observedAt then line else None
  }

  /** Odds rows are identified by their id. */
  ghost predicate UniqueOdds(odds: seq<Odds>) {
    forall a, b :: a in odds && b in odds && a.id == b.id ==> a == b
  }

  /** The row is the newest one, by instant and then by id, of the market's slugs at or before its close. */
  ghost predicate IsNewest(o: Odds, market: Market, odds: seq<Odds>) {
    && market.closeAt.Some? && o in odds && o.slug in market.slugs && o.capturedAt <= market.closeAt.value
    && forall x :: x in odds && x.slug in market.slugs && x.capturedAt <= market.closeAt.value ==>
         x.capturedAt < o.capturedAt || (x.capturedAt == o.capturedAt && x.id.rank <= o.id.rank)
  }

  /** The line is read from that row, which is a probability and was observed after the lock. */
  ghost predicate IsLineOf(line: ClosingLine, o: Odds, f: Forecast, odds: seq<Odds>, backfilled: bool) {
    && IsNewest(o, f.market, odds) && 0.0 <= o.impliedYes <= 1.0 && f.lockedAt < o.capturedAt
    && line == ClosingLine(o.id, o.impliedYes, o.capturedAt, f.market.closeAt.value, backfilled)
  }

  lemma NewestIsUnique(a: Odds, b: Odds, market: Market, odds: seq<Odds>)
    requires UniqueOdds(odds) && IsNewest(a, market, odds) && IsNewest(b, market, odds)
    ensures a == b
  {
    assert a.id.rank == b.id.rank;
  }

  lemma LastIsNewest(market: Market, odds: seq<Odds>)
    requires market.closeAt.Some?
    ensures var last := LastPreClose(odds, market.slugs, market.closeAt.value);
            if last.Some? then IsNewest(last.value, market, odds) else forall o :: !IsNewest(o, market, odds)
  {
  }

  /** A forecast gets a line exactly if the newest row provides one, and then that row's. */
  lemma LineIsThatOfTheNewestRow(f: Forecast, odds: seq<Odds>, backfilled: bool, line: ClosingLine)
    requires UniqueOdds(odds)
    ensures LineFor(f, odds, backfilled) == Some(line) <==> exists o :: IsLineOf(line, o, f, odds, backfilled)
  {
    if f.market.closeAt.Some? {
      var last := LastPreClose(odds, f.market.slugs, f.market.closeAt.value);
      LastIsNewest(f.market, odds);
      if o :| IsLineOf(line, o, f, odds, backfilled) {
        NewestIsUnique(last.value, o, f.market, odds);
      }
      if LineFor(f, odds, backfilled) == Some(line) {
        assert IsLineOf(line, last.value, f, odds, backfilled);
      }
    }
  }

  type Factors = map<Id, FactorSnapshot>
  type Lines = map<Id, ClosingLine>

  function WithLine(lines: Lines, f: Forecast, odds: seq<Odds>, backfilled: bool): Lines {
    var line := LineFor(f, odds, backfilled);
    if f.id in lines || line.None? then lines else lines[f.id := line.value]
  }

  function WithFactors(factors: Factors, f: Forecast, backfilled: bool): Factors {
    if f.id in factors then factors else factors[f.id := FactorSnapshot(f.market.id, f.lockedAt, backfilled)]
  }

  // ---------- Pages ----------

  predicate After(f: Forecast, cursor: Option<Forecast>) {
    cursor.None? || f.lockedAt > cursor.value.lockedAt
    || (f.lockedAt == cursor.value.lockedAt && f.id.rank > cursor.value.id.rank)
  }

  /** A live scored forecast that lacks one of its records. */
  predicate Missing(f: Forecast, factors: Factors, lines: Lines) {
    f.live && f.scored && (f.id !in factors || f.id !in lines)
  }

  /** All forecasts the query selects past the cursor, in key order. */
  function Selected(forecasts: seq<Forecast>, factors: Factors, lines: Lines, cursor: Option<Forecast>): seq<Forecast> {
    if forecasts == [] then []
    else
      var rest := Selected(forecasts[1..], factors, lines, cursor);
      if Missing(forecasts[0], factors, lines) && After(forecasts[0], cursor) then [forecasts[0]] + rest else rest
  }

  function Page(selected: seq<Forecast>, limit: nat): seq<Forecast> {
    if |selected| <= limit then selected else selected[..limit]
  }

  lemma PageIsSlice(all: seq<Forecast>, done: nat, limit: nat)
    requires done <= |all| && limit > 0
    ensures var rows := Page(all[done..], limit);
            && done + |rows| <= |all| && rows == all[done..done + |rows|]
            && (rows == [] <==> done == |all|)
            && (rows != [] ==> rows[|rows| - 1] == all[done + |rows| - 1])
  {
  }

  /** The table in key order, with unique ids. */
  ghost predicate KeyOrdered(forecasts: seq<Forecast>) {
    && (forall i, j :: 0 <= i < j < |forecasts| ==> After(forecasts[j], Some(forecasts[i])))
    && (forall i, j :: 0 <= i < j < |forecasts| ==> forecasts[i].id != forecasts[j].id)
  }

  // ---------- What a run leaves ----------

  function FactorsAfter(rows: seq<Forecast>, factors: Factors): Factors {
    if rows == [] then factors else WithFactors(FactorsAfter(rows[..|rows| - 1], factors), rows[|rows| - 1], true)
  }

  /** The lines after capturing them for some rows; those already there stay. */
  function Capture(rows: seq<Forecast>, lines: Lines, odds: seq<Odds>, backfilled: bool): Lines {
    if rows == [] then lines
    else WithLine(Capture(rows[..|rows| - 1], lines, odds, backfilled), rows[|rows| - 1], odds, backfilled)
  }

  /** How many lines that writes. */
  function Created(rows: seq<Forecast>, lines: Lines, odds: seq<Odds>, backfilled: bool): nat {
    if rows == [] then 0
    else
      var before, f := Capture(rows[..|rows| - 1], lines, odds, backfilled), rows[|rows| - 1];
      Created(rows[..|rows| - 1], lines, odds, backfilled)
      + (if f.id !in before && LineFor(f, odds, backfilled).Some? then 1 else 0)
  }

  function LinesAfter(rows: seq<Forecast>, lines: Lines, odds: seq<Odds>): Lines {
    Capture(rows, lines, odds, true)
  }

  datatype Report = Report(scanned: nat, factorSnapshots: nat, closingLines: nat, closingLineGaps: nat)

  /** What the run counts, row by row against the tables it started from. */
  function Tally(rows: seq<Forecast>, factors: Factors, lines: Lines, odds: seq<Odds>): Report {
    if rows == [] then Report(0, 0, 0, 0)
    else
      var r, f := Tally(rows[..|rows| - 1], factors, lines, odds), rows[|rows| - 1];
      CountRow(r.(scanned := r.scanned + 1), f, f.id !in factors, f.id !in lines, odds)
  }

  lemma {:induction false} NoMarketLine(market: Market, rows: seq<Forecast>, lines: Lines, odds: seq<Odds>, backfilled: bool)
    requires MarketLine(market, odds, backfilled).None?
    requires forall i :: 0 <= i < |rows| ==> rows[i].market == market
    ensures Capture(rows, lines, odds, backfilled) == lines && Created(rows, lines, odds, backfilled) == 0
  {
    if rows != [] {
      NoMarketLine(market, rows[..|rows| - 1], lines, odds, backfilled);
    }
  }

  lemma CaptureOne(f: Forecast, lines: Lines, odds: seq<Odds>, backfilled: bool)
    ensures Capture([f], lines, odds, backfilled) == WithLine(lines, f, odds, backfilled)
    ensures Created([f], lines, odds, backfilled)
         == if f.id !in lines && LineFor(f, odds, backfilled).Some? then 1 else 0
  {
    assert [f][..0] == [];
  }

  /** The counters after one row, given which records it lacks. */
  function CountRow(r: Report, f: Forecast, lacksFactors: bool, lacksLine: bool, odds: seq<Odds>): Report {
    var found := LineFor(f, odds, true).Some?;
    Report(r.scanned,
           r.factorSnapshots + (if lacksFactors then 1 else 0),
           r.closingLines + (if lacksLine && found then 1 else 0),
           r.closingLineGaps + (if lacksLine && !found then 1 else 0))
  }

  class Store {
    const forecasts: seq<Forecast>
    const odds: seq<Odds>
    var factors: Factors
    var lines: Lines

    constructor (forecasts: seq<Forecast>, odds: seq<Odds>, factors: Factors, lines: Lines)
      ensures this.forecasts == forecasts && this.odds == odds && this.factors == factors && this.lines == lines
    {
      this.forecasts := forecasts;
      this.odds := odds;
      this.factors := factors;
      this.lines := lines;
    }

    method CaptureFactorSnapshot(f: Forecast, backfilled: bool)
      modifies this`factors
      ensures factors == WithFactors(old(factors), f, backfilled)
    {
      if f.id in factors {
        return;
      }
      factors := factors[f.id := FactorSnapshot(f.market.id, f.lockedAt, backfilled)];
    }

    /** Writes the missing closing lines of forecasts on one market; returns how many. */
    method CaptureClosingLines(market: Market, rows: seq<Forecast>, backfilled: bool) returns (created: nat)
      requires forall i :: 0 <= i < |rows| ==> rows[i].market == market
      modifies this`lines
      ensures lines == Capture(rows, old(lines), odds, backfilled)
      ensures created == Created(rows, old(lines), odds, backfilled)
    {
      created := 0;
      var line := MarketLine(market, odds, backfilled);
      if line.None? {
        NoMarketLine(market, rows, lines, odds, backfilled);
        return;
      }
      for k := 0 to |rows|
        invariant lines == Capture(rows[..k], old(lines), odds, backfilled)
        invariant created == Created(rows[..k], old(lines), odds, backfilled)
      {
        var f := rows[k];
        assert rows[..k + 1][..k] == rows[..k];
        if f.id in lines || f.lockedAt >= line.value.observedAt {
          continue;
        }
        lines := lines[f.id := line.value];
        created := created + 1;
      }
      assert rows[..|rows|] == rows;
    }

    /** Walks the population page by page and fills what can be filled. */
    method BackfillHistory(limit: int) returns (report: Report)
      requires KeyOrdered(forecasts)
      modifies this
      ensures var rows := Selected(forecasts, old(factors), old(lines), None);
              && factors == FactorsAfter(rows, old(factors))
              && lines == LinesAfter(rows, old(lines), odds)
              && report == Tally(rows, old(factors), old(lines), odds)
    {
      var page := if limit < 1 then 1 else if limit > MAX_PAGE then MAX_PAGE else limit;
      report := Report(0, 0, 0, 0);
      var cursor: Option<Forecast> := None;
      ghost var all, done := Selected(forecasts, factors, lines, None), 0;
      NothingVisited(all, factors, lines, odds);
      while true
        invariant 0 <= done <= |all|
        invariant cursor == CursorAt(all, done)
        invariant Visited(all[..done], old(factors), old(lines), odds, factors, lines, report)
        decreases |all| - done
      {
        var rows := FetchPage(cursor, page, all, done, old(factors), old(lines), report);
        if rows == [] {
          break;
        }
        cursor := Some(rows[|rows| - 1]);
        report := VisitPage(rows, all, done, old(factors), old(lines), report);
        done := done + |rows|;
      }
      AllVisited(all, done, old(factors), old(lines), odds, factors, lines, report);
    }

    /** Queries the rows past the cursor that lack a record: those that follow the rows visited so far. */
    method FetchPage(cursor: Option<Forecast>, page: nat, ghost all: seq<Forecast>, ghost done: nat,
                     ghost factors0: Factors, ghost lines0: Lines, ghost report: Report) returns (rows: seq<Forecast>)
      requires KeyOrdered(forecasts) && all == Selected(forecasts, factors0, lines0, None)
      requires done <= |all| && page > 0 && cursor == CursorAt(all, done)
      requires Visited(all[..done], factors0, lines0, odds, factors, lines, report)
      ensures rows == Page(Selected(forecasts, factors, lines, cursor), page)
      ensures UniqueIds(all) && done + |rows| <= |all| && rows == all[done..done + |rows|]
      ensures rows == [] <==> done == |all|
      ensures rows != [] ==> Some(rows[|rows| - 1]) == CursorAt(all, done + |rows|)
    {
      rows := Page(Selected(forecasts, factors, lines, cursor), page);
      NextPage(forecasts, factors0, lines0, odds, all, done, page, factors, lines, report, rows);
    }

    /** One row gets the records it is missing. */
    method VisitRow(f: Forecast, before: Report) returns (report: Report)
      modifies this
      ensures factors == WithFactors(old(factors), f, true)
      ensures lines == WithLine(old(lines), f, odds, true)
      ensures report == CountRow(before, f, f.id !in old(factors), f.id !in old(lines), odds)
    {
      report := before;
      if f.id !in factors {
        CaptureFactorSnapshot(f, true);
        report := report.(factorSnapshots := report.factorSnapshots + 1);
      }
      if f.id !in lines {
        CaptureOne(f, lines, odds, true);
        var created := CaptureClosingLines(f.market, [f], true);
        report := report.(closingLines := report.closingLines + created);
        if created == 0 {
          report := report.(closingLineGaps := report.closingLineGaps + 1);
        }
      }
    }

    /** One page of rows that all[..done] precedes. */
    method VisitPage(rows: seq<Forecast>, ghost all: seq<Forecast>, ghost done: nat, ghost factors0: Factors,
                     ghost lines0: Lines, before: Report) returns (report: Report)
      requires done + |rows| <= |all| && rows == all[done..done + |rows|]
      requires UniqueIds(all)
      requires Visited(all[..done], factors0, lines0, odds, factors, lines, before)
      modifies this
      ensures Visited(all[..done + |rows|], factors0, lines0, odds, factors, lines, report)
    {
      report := before;
      for k := 0 to |rows|
        invariant Visited(all[..done + k], factors0, lines0, odds, factors, lines, report)
      {
        VisitedStep(all, done + k, factors0, lines0, odds, report);
        report := VisitRow(rows[k], report.(scanned := report.scanned + 1));
      }
    }
  }

  ghost predicate UniqueIds(rows: seq<Forecast>) {
    forall i, j :: 0 <= i < j < |rows| ==> rows[i].id != rows[j].id
  }

  /** The tables and counters of a run at some moment. */
  datatype Progress = Progress(factors: Factors, lines: Lines, report: Report)

  function ProgressAfter(rows: seq<Forecast>, factors: Factors, lines: Lines, odds: seq<Odds>): Progress {
    Progress(FactorsAfter(rows, factors), LinesAfter(rows, lines, odds), Tally(rows, factors, lines, odds))
  }

  /** They are those after the given rows. */
  ghost predicate Visited(rows: seq<Forecast>, factors0: Factors, lines0: Lines, odds: seq<Odds>,
                          factors: Factors, lines: Lines, report: Report) {
    Progress(factors, lines, report) == ProgressAfter(rows, factors0, lines0, odds)
  }

  lemma NothingVisited(all: seq<Forecast>, factors: Factors, lines: Lines, odds: seq<Odds>)
    ensures Visited(all[..0], factors, lines, odds, factors, lines, Report(0, 0, 0, 0))
  {
  }

  lemma AllVisited(all: seq<Forecast>, done: nat, factors0: Factors, lines0: Lines, odds: seq<Odds>,
                   factors: Factors, lines: Lines, report: Report)
    requires done == |all| && Visited(all[..done], factors0, lines0, odds, factors, lines, report)
    ensures Visited(all, factors0, lines0, odds, factors, lines, report)
  {
    assert all[..done] == all;
  }

  /** The cursor after the first rows: the last of them. */
  function CursorAt(all: seq<Forecast>, done: nat): Option<Forecast>
    requires done <= |all|
  {
    if done == 0 then None else Some(all[done - 1])
  }

  // ---------- Why paging misses nothing ----------

  lemma {:induction false} AfterRows(rows: seq<Forecast>, factors: Factors, lines: Lines, odds: seq<Odds>, id: Id)
    ensures id in FactorsAfter(rows, factors) <==> id in factors || exists i :: 0 <= i < |rows| && rows[i].id == id
    ensures id in LinesAfter(rows, lines, odds)
       <==> id in lines || exists i :: 0 <= i < |rows| && rows[i].id == id && LineFor(rows[i], odds, true).Some?
  {
    if rows != [] {
      AfterRows(rows[..|rows| - 1], factors, lines, odds, id);
    }
  }

  /** The next row still has the records it started with, so visiting it is what the tally expects. */
  lemma VisitedStep(all: seq<Forecast>, done: nat, factors: Factors, lines: Lines, odds: seq<Odds>, report: Report)
    requires done < |all| && UniqueIds(all)
    requires report == Tally(all[..done], factors, lines, odds)
    ensures var f, before := all[done], all[..done];
            var factors', lines' := FactorsAfter(before, factors), LinesAfter(before, lines, odds);
            Visited(all[..done + 1], factors, lines, odds, WithFactors(factors', f, true), WithLine(lines', f, odds, true),
                    CountRow(report.(scanned := report.scanned + 1), f, f.id !in factors', f.id !in lines', odds))
  {
    AfterRows(all[..done], factors, lines, odds, all[done].id);
    assert all[..done + 1][..done] == all[..done];
  }

  lemma {:induction false} SelectedMembers(forecasts: seq<Forecast>, factors: Factors, lines: Lines, cursor: Option<Forecast>)
    ensures forall f :: f in Selected(forecasts, factors, lines, cursor)
              <==> f in forecasts && Missing(f, factors, lines) && After(f, cursor)
  {
    if forecasts != [] {
      SelectedMembers(forecasts[1..], factors, lines, cursor);
      assert forall f :: f in forecasts <==> f == forecasts[0] || f in forecasts[1..];
    }
  }

  lemma {:induction false} SelectedOrder(forecasts: seq<Forecast>, factors: Factors, lines: Lines, cursor: Option<Forecast>)
    requires KeyOrdered(forecasts)
    ensures KeyOrdered(Selected(forecasts, factors, lines, cursor))
  {
    if forecasts != [] {
      SelectedOrder(forecasts[1..], factors, lines, cursor);
      SelectedMembers(forecasts[1..], factors, lines, cursor);
      var rest := Selected(forecasts[1..], factors, lines, cursor);
      forall j | 0 <= j < |rest|
        ensures After(rest[j], Some(forecasts[0])) && rest[j].id != forecasts[0].id
      {
        assert rest[j] in forecasts[1..];
        var i :| 0 <= i < |forecasts[1..]| && forecasts[1..][i] == rest[j];
        assert forecasts[i + 1] == rest[j];
      }
    }
  }

  lemma SelectedStep(forecasts: seq<Forecast>, factors: Factors, lines: Lines, cursor: Option<Forecast>)
    requires forecasts != []
    ensures Selected(forecasts, factors, lines, cursor)
         == (if Missing(forecasts[0], factors, lines) && After(forecasts[0], cursor) then [forecasts[0]] else [])
            + Selected(forecasts[1..], factors, lines, cursor)
  {
  }

  lemma LaterRowsAreAfterHead(forecasts: seq<Forecast>, f: Forecast)
    requires KeyOrdered(forecasts) && forecasts != [] && f in forecasts[1..]
    ensures After(f, Some(forecasts[0])) && !After(forecasts[0], Some(f))
  {
    var i :| 0 <= i < |forecasts[1..]| && forecasts[1..][i] == f;
    assert After(forecasts[i + 1], Some(forecasts[0]));
  }

  /** Nothing past the cursor has changed between the two versions of the tables. */
  ghost predicate SamePast(forecasts: seq<Forecast>, cursor: Forecast, factors: Factors, lines: Lines,
                           factors': Factors, lines': Lines) {
    forall f :: f in forecasts && After(f, Some(cursor)) ==>
      (Missing(f, factors, lines) <==> Missing(f, factors', lines'))
  }

  /** Position k of the selection, seen from the tail of the table. */
  function TailPosition(forecasts: seq<Forecast>, factors: Factors, lines: Lines, k: nat): int
    requires forecasts != []
  {
    if Missing(forecasts[0], factors, lines) then k - 1 else k
  }

  lemma CursorInTail(forecasts: seq<Forecast>, factors: Factors, lines: Lines, k: nat)
    requires KeyOrdered(forecasts) && 0 < k <= |Selected(forecasts, factors, lines, None)|
    requires TailPosition(forecasts, factors, lines, k) > 0
    ensures var all, rest := Selected(forecasts, factors, lines, None), Selected(forecasts[1..], factors, lines, None);
            var k' := TailPosition(forecasts, factors, lines, k);
            && k' <= |rest| && all[k - 1] == rest[k' - 1] && all[k..] == rest[k'..]
            && !After(forecasts[0], Some(all[k - 1]))
  {
    var all, rest := Selected(forecasts, factors, lines, None), Selected(forecasts[1..], factors, lines, None);
    var k' := TailPosition(forecasts, factors, lines, k);
    SelectedStep(forecasts, factors, lines, None);
    SelectedMembers(forecasts[1..], factors, lines, None);
    assert rest[k' - 1] in rest;
    LaterRowsAreAfterHead(forecasts, rest[k' - 1]);
  }

  lemma SamePastTail(forecasts: seq<Forecast>, cursor: Forecast, factors: Factors, lines: Lines,
                     factors': Factors, lines': Lines)
    requires forecasts != [] && SamePast(forecasts, cursor, factors, lines, factors', lines')
    ensures SamePast(forecasts[1..], cursor, factors, lines, factors', lines')
  {
    assert forall f :: f in forecasts[1..] ==> f in forecasts;
  }

  /** Then the cursor cuts the first selection after its own row. */
  lemma {:induction false} CursorCuts(forecasts: seq<Forecast>, factors: Factors, lines: Lines,
                                      factors': Factors, lines': Lines, cursor: Forecast, k: nat)
    requires KeyOrdered(forecasts) && 0 < k <= |Selected(forecasts, factors, lines, None)|
    requires Selected(forecasts, factors, lines, None)[k - 1] == cursor
    requires SamePast(forecasts, cursor, factors, lines, factors', lines')
    ensures Selected(forecasts, factors', lines', Some(cursor)) == Selected(forecasts, factors, lines, None)[k..]
  {
    SelectedStep(forecasts, factors', lines', Some(cursor));
    SamePastTail(forecasts, cursor, factors, lines, factors', lines');
    TailIsOrdered(forecasts);
    var k' := TailPosition(forecasts, factors, lines, k);
    if k' == 0 {
      SelectedStep(forecasts, factors, lines, None);
      NothingCut(forecasts[1..], factors, lines, factors', lines', cursor);
    } else {
      CursorInTail(forecasts, factors, lines, k);
      CursorCuts(forecasts[1..], factors, lines, factors', lines', cursor, k');
    }
  }

  lemma TailIsOrdered(forecasts: seq<Forecast>)
    requires KeyOrdered(forecasts) && forecasts != []
    ensures KeyOrdered(forecasts[1..])
    ensures forall f :: f in forecasts[1..] ==> f in forecasts && After(f, Some(forecasts[0]))
  {
    forall f | f in forecasts[1..]
      ensures f in forecasts && After(f, Some(forecasts[0]))
    {
      LaterRowsAreAfterHead(forecasts, f);
    }
  }

  lemma {:induction false} NothingCut(forecasts: seq<Forecast>, factors: Factors, lines: Lines,
                                      factors': Factors, lines': Lines, cursor: Forecast)
    requires forall f :: f in forecasts ==> After(f, Some(cursor))
    requires SamePast(forecasts, cursor, factors, lines, factors', lines')
    ensures Selected(forecasts, factors', lines', Some(cursor)) == Selected(forecasts, factors, lines, None)
  {
    if forecasts != [] {
      NothingCut(forecasts[1..], factors, lines, factors', lines', cursor);
      assert forecasts[0] in forecasts;
    }
  }

  /** After the first `done` rows the query past the cursor selects exactly the remaining rows. */
  lemma RestIsSelected(forecasts: seq<Forecast>, factors: Factors, lines: Lines, odds: seq<Odds>, done: nat)
    requires KeyOrdered(forecasts) && done <= |Selected(forecasts, factors, lines, None)|
    ensures var all := Selected(forecasts, factors, lines, None);
            && UniqueIds(all)
            && Selected(forecasts, FactorsAfter(all[..done], factors), LinesAfter(all[..done], lines, odds),
                        CursorAt(all, done)) == all[done..]
  {
    var all := Selected(forecasts, factors, lines, None);
    SelectedOrder(forecasts, factors, lines, None);
    if done > 0 {
      var factors', lines' := FactorsAfter(all[..done], factors), LinesAfter(all[..done], lines, odds);
      forall f | f in forecasts && After(f, Some(all[done - 1]))
        ensures Missing(f, factors, lines) <==> Missing(f, factors', lines')
      {
        AfterRows(all[..done], factors, lines, odds, f.id);
        UnvisitedId(forecasts, factors, lines, done, f);
      }
      CursorCuts(forecasts, factors, lines, factors', lines', all[done - 1], done);
    }
  }

  /** The page read after visiting some rows holds the rows that follow them, and is empty only at the end. */
  lemma NextPage(forecasts: seq<Forecast>, factors0: Factors, lines0: Lines, odds: seq<Odds>, all: seq<Forecast>, done: nat,
                 page: nat, factors: Factors, lines: Lines, report: Report, rows: seq<Forecast>)
    requires KeyOrdered(forecasts) && all == Selected(forecasts, factors0, lines0, None) && done <= |all| && page > 0
    requires Visited(all[..done], factors0, lines0, odds, factors, lines, report)
    requires rows == Page(Selected(forecasts, factors, lines, CursorAt(all, done)), page)
    ensures UniqueIds(all) && done + |rows| <= |all| && rows == all[done..done + |rows|]
    ensures rows == [] <==> done == |all|
    ensures rows != [] ==> Some(rows[|rows| - 1]) == CursorAt(all, done + |rows|)
  {
    RestIsSelected(forecasts, factors0, lines0, odds, done);
    PageIsSlice(all, done, page);
  }

  /** A forecast past the cursor shares its id with no visited row. */
  lemma UnvisitedId(forecasts: seq<Forecast>, factors: Factors, lines: Lines, done: nat, f: Forecast)
    requires KeyOrdered(forecasts) && 0 < done <= |Selected(forecasts, factors, lines, None)|
    requires KeyOrdered(Selected(forecasts, factors, lines, None))
    requires f in forecasts && After(f, Some(Selected(forecasts, factors, lines, None)[done - 1]))
    ensures forall i :: 0 <= i < done ==> Selected(forecasts, factors, lines, None)[i].id != f.id
  {
    var all := Selected(forecasts, factors, lines, None);
    SelectedMembers(forecasts, factors, lines, None);
    forall i | 0 <= i < done
      ensures all[i].id != f.id
    {
      assert all[i] in forecasts;
      var a :| 0 <= a < |forecasts| && forecasts[a] == all[i];
      var b :| 0 <= b < |forecasts| && forecasts[b] == f;
      assert i < done - 1 ==> After(all[done - 1], Some(all[i]));
      assert a != b;
    }
  }

  // ---------- What the run promises ----------

  /** How many of the rows lack a closing line. */
  function Lacking(rows: seq<Forecast>, lines: Lines): nat {
    if rows == [] then 0
    else Lacking(rows[..|rows| - 1], lines) + (if rows[|rows| - 1].id !in lines then 1 else 0)
  }

  lemma {:induction false} TallyAddsUp(rows: seq<Forecast>, factors: Factors, lines: Lines, odds: seq<Odds>)
    ensures var r := Tally(rows, factors, lines, odds);
            r.scanned == |rows| && r.closingLines + r.closingLineGaps == Lacking(rows, lines)
  {
    if rows != [] {
      TallyAddsUp(rows[..|rows| - 1], factors, lines, odds);
    }
  }

  /** A run visits exactly the live scored forecasts that lack a record. */
  lemma SelectionIsExact(forecasts: seq<Forecast>, factors: Factors, lines: Lines, f: Forecast)
    ensures f in Selected(forecasts, factors, lines, None)
       <==> f in forecasts && f.live && f.scored && (f.id !in factors || f.id !in lines)
  {
    SelectedMembers(forecasts, factors, lines, None);
  }

  /** The report counts exactly the records that the run adds to the two tables. */
  lemma {:induction false} ReportCountsWrites(rows: seq<Forecast>, factors: Factors, lines: Lines, odds: seq<Odds>)
    requires UniqueIds(rows)
    ensures var r := Tally(rows, factors, lines, odds);
            && |FactorsAfter(rows, factors)| == |factors| + r.factorSnapshots
            && |LinesAfter(rows, lines, odds)| == |lines| + r.closingLines
  {
    if rows != [] {
      var init, f := rows[..|rows| - 1], rows[|rows| - 1];
      ReportCountsWrites(init, factors, lines, odds);
      AfterRows(init, factors, lines, odds, f.id);
      assert forall i :: 0 <= i < |init| ==> init[i].id != f.id;
    }
  }

  /** After a run every live scored forecast has a factor snapshot, and lacks a line only when none can be had. */
  lemma NothingFillableIsLeft(forecasts: seq<Forecast>, factors: Factors, lines: Lines, odds: seq<Odds>, f: Forecast)
    requires KeyOrdered(forecasts) && f in forecasts && f.live && f.scored
    ensures var rows := Selected(forecasts, factors, lines, None);
            && f.id in FactorsAfter(rows, factors)
            && (f.id in LinesAfter(rows, lines, odds) <==> f.id in lines || LineFor(f, odds, true).Some?)
  {
    var rows := Selected(forecasts, factors, lines, None);
    SelectedMembers(forecasts, factors, lines, None);
    AfterRows(rows, factors, lines, odds, f.id);
    if f.id !in factors || f.id !in lines {
      assert f in rows;
      var i :| 0 <= i < |rows| && rows[i] == f;
    }
    if f.id in LinesAfter(rows, lines, odds) && f.id !in lines {
      var i :| 0 <= i < |rows| && rows[i].id == f.id && LineFor(rows[i], odds, true).Some?;
      assert rows[i] in forecasts;
    }
  }

  /** Every line a run writes was observed after the lock and no later than the cutoff; no record is overwritten. */
  lemma {:induction false} WrittenLinesAreSound(rows: seq<Forecast>, factors: Factors, lines: Lines, odds: seq<Odds>, id: Id)
    ensures id in factors ==> id in FactorsAfter(rows, factors) && FactorsAfter(rows, factors)[id] == factors[id]
    ensures id in lines ==> id in LinesAfter(rows, lines, odds) && LinesAfter(rows, lines, odds)[id] == lines[id]
    ensures id in FactorsAfter(rows, factors) && id !in factors ==>
              exists i :: 0 <= i < |rows| && rows[i].id == id
                && FactorsAfter(rows, factors)[id] == FactorSnapshot(rows[i].market.id, rows[i].lockedAt, true)
    ensures id in LinesAfter(rows, lines, odds) && id !in lines ==>
              exists i :: 0 <= i < |rows| && rows[i].id == id
                && LineFor(rows[i], odds, true) == Some(LinesAfter(rows, lines, odds)[id])
                && rows[i].lockedAt < LinesAfter(rows, lines, odds)[id].observedAt
                   <= LinesAfter(rows, lines, odds)[id].cutoffAt
  {
    if rows != [] {
      WrittenLinesAreSound(rows[..|rows| - 1], factors, lines, odds, id);
    }
  }

  /** The rows a second run would select are the gaps of the first. */
  function Gaps(rows: seq<Forecast>, lines: Lines, odds: seq<Odds>): seq<Forecast> {
    if rows == [] then []
    else
      var rest := Gaps(rows[1..], lines, odds);
      if rows[0].id !in lines && LineFor(rows[0], odds, true).None? then [rows[0]] + rest else rest
  }

  lemma {:induction false} SecondSelection(forecasts: seq<Forecast>, factors: Factors, lines: Lines,
                                           factors': Factors, lines': Lines, odds: seq<Odds>)
    requires forall f :: f in forecasts && f.live && f.scored ==>
               f.id in factors' && (f.id in lines' <==> f.id in lines || LineFor(f, odds, true).Some?)
    ensures Selected(forecasts, factors', lines', None) == Gaps(Selected(forecasts, factors, lines, None), lines, odds)
  {
    if forecasts != [] {
      var head, rest := forecasts[0], Selected(forecasts[1..], factors, lines, None);
      SecondSelection(forecasts[1..], factors, lines, factors', lines', odds);
      assert head in forecasts;
      assert ([head] + rest)[1..] == rest;
    }
  }

  lemma {:induction false} GapsWriteNothing(rows: seq<Forecast>, factors: Factors, lines: Lines, odds: seq<Odds>)
    requires forall i :: 0 <= i < |rows| ==>
               rows[i].id in factors && rows[i].id !in lines && LineFor(rows[i], odds, true).None?
    ensures FactorsAfter(rows, factors) == factors && LinesAfter(rows, lines, odds) == lines
    ensures Tally(rows, factors, lines, odds) == Report(|rows|, 0, 0, |rows|)
  {
    if rows != [] {
      GapsWriteNothing(rows[..|rows| - 1], factors, lines, odds);
    }
  }

  lemma {:induction false} GapCount(rows: seq<Forecast>, factors: Factors, lines: Lines, odds: seq<Odds>)
    ensures |Gaps(rows, lines, odds)| == Tally(rows, factors, lines, odds).closingLineGaps
  {
    if rows != [] {
      var init, f := rows[..|rows| - 1], rows[|rows| - 1];
      GapCount(init, factors, lines, odds);
      GapsAppend(init, f, lines, odds);
      assert rows == init + [f];
    }
  }

  lemma {:induction false} GapsAppend(rows: seq<Forecast>, f: Forecast, lines: Lines, odds: seq<Odds>)
    ensures Gaps(rows + [f], lines, odds)
         == Gaps(rows, lines, odds) + (if f.id !in lines && LineFor(f, odds, true).None? then [f] else [])
  {
    if rows == [] {
      assert rows + [f] == [f];
    } else {
      GapsAppend(rows[1..], f, lines, odds);
      assert (rows + [f])[1..] == rows[1..] + [f];
    }
  }

  /** On unchanged odds a second run writes nothing and scans exactly the gaps of the first. */
  lemma SecondRunOnlyRescansGaps(forecasts: seq<Forecast>, factors: Factors, lines: Lines, odds: seq<Odds>)
    requires KeyOrdered(forecasts)
    ensures var rows := Selected(forecasts, factors, lines, None);
            var factors', lines' := FactorsAfter(rows, factors), LinesAfter(rows, lines, odds);
            var again := Selected(forecasts, factors', lines', None);
            var gaps := Tally(rows, factors, lines, odds).closingLineGaps;
            && FactorsAfter(again, factors') == factors' && LinesAfter(again, lines', odds) == lines'
            && Tally(again, factors', lines', odds) == Report(gaps, 0, 0, gaps)
  {
    var rows := Selected(forecasts, factors, lines, None);
    var factors', lines' := FactorsAfter(rows, factors), LinesAfter(rows, lines, odds);
    var again := Selected(forecasts, factors', lines', None);
    forall f | f in forecasts && f.live && f.scored
      ensures f.id in factors'
      ensures f.id in lines' <==> f.id in lines || LineFor(f, odds, true).Some?
    {
      NothingFillableIsLeft(forecasts, factors, lines, odds, f);
    }
    SecondSelection(forecasts, factors, lines, factors', lines', odds);
    GapCount(rows, factors, lines, odds);
    SelectedMembers(forecasts, factors', lines', None);
    forall i | 0 <= i < |again|
      ensures again[i].id in factors' && again[i].id !in lines' && LineFor(again[i], odds, true).None?
    {
      assert again[i] in forecasts;
    }
    GapsWriteNothing(again, factors', lines', odds);
  }
}
