/** Grading analyst claims against recorded prices, without looking past the horizon. */
module ClaimScorer {
  import opened Wrappers

  const MICROS_PER_MINUTE := 60000000

  datatype Verdict = Correct | Incorrect | Void

  /** The lower-cased direction word; `Other` is any unknown word. */
  datatype Direction = Up | Down | Justified | Overreaction | Other

  function Abs(x: real): real {
    if x < 0.0 then -x else x
  }

  function ScoreClaim(direction: Direction, atClaim: Option<real>, atHorizon: Option<real>, epsilon: real): Verdict {
    if atClaim.None? || atHorizon.None? then Void
    else
      var move := atHorizon.value - atClaim.value;
      match direction
      case Up => if move >= epsilon then Correct else Incorrect
      case Down => if -move >= epsilon then Correct else Incorrect
      case Justified => if Abs(move) < epsilon then Correct else Incorrect
      case Overreaction => if Abs(move) >= epsilon then Correct else Incorrect
      case Other => Void
  }

  /** With both prices exactly one of justified and overreaction is correct; up mirrors down; up and down exclude each other. */
  lemma VerdictsArePartners(p: real, q: real, epsilon: real)
    ensures ScoreClaim(Justified, Some(p), Some(q), epsilon) == Correct
       <==> ScoreClaim(Overreaction, Some(p), Some(q), epsilon) == Incorrect
    ensures ScoreClaim(Up, Some(p), Some(q), epsilon) == ScoreClaim(Down, Some(q), Some(p), epsilon)
    ensures epsilon > 0.0 ==>
              (ScoreClaim(Overreaction, Some(p), Some(q), epsilon) == Correct
               <==> ScoreClaim(Up, Some(p), Some(q), epsilon) != ScoreClaim(Down, Some(p), Some(q), epsilon))
  {
  }

  /** No verdict is guessed: it is void exactly when a price is missing or the direction is unknown. */
  lemma VoidMeansUnknown(direction: Direction, atClaim: Option<real>, atHorizon: Option<real>, epsilon: real)
    ensures ScoreClaim(direction, atClaim, atHorizon, epsilon) == Void
       <==> atClaim.None? || atHorizon.None? || direction == Other
  {
  }

  /** With both prices: the move a direction claims must be at least epsilon, or less for a justified repricing. */
  lemma CorrectMeansMove(p: real, q: real, epsilon: real)
    ensures ScoreClaim(Up, Some(p), Some(q), epsilon) == Correct <==> q >= p + epsilon
    ensures ScoreClaim(Down, Some(p), Some(q), epsilon) == Correct <==> q <= p - epsilon
    ensures ScoreClaim(Justified, Some(p), Some(q), epsilon) == Correct <==> p - epsilon < q < p + epsilon
    ensures ScoreClaim(Overreaction, Some(p), Some(q), epsilon) == Correct <==> q >= p + epsilon || q <= p - epsilon
  {
  }

  // ---------- The price table ----------

  datatype Snapshot = Snapshot(slug: int, source: int, at: int, price: real)

  /** What a query asks for: the market, the instants after `after` if that is given, and those up to `upto`. */
  datatype Window = Window(slug: int, after: Option<int>, upto: int)

  predicate Eligible(s: Snapshot, w: Window) {
    s.slug == w.slug && s.at <= w.upto && (w.after.Some? ==> s.at > w.after.value)
  }

  /** A possible answer to the query: an eligible row that no eligible row is later than, or nothing if there is none. */
  ghost predicate IsLatest(r: Option<Snapshot>, rows: seq<Snapshot>, w: Window) {
    match r
    case None => forall i :: 0 <= i < |rows| ==> !Eligible(rows[i], w)
    case Some(s) =>
      s in rows && Eligible(s, w) && forall i :: 0 <= i < |rows| && Eligible(rows[i], w) ==> rows[i].at <= s.at
  }

  /** The database's answers; which of several latest rows it returns is its own choice. */
  type Query = (seq<Snapshot>, Window) -> Option<Snapshot>

  ghost predicate Answers(query: Query) {
    forall rows, w :: IsLatest(query(rows, w), rows, w)
  }

  /** One way to answer: the first of the latest rows. */
  function FirstLatest(rows: seq<Snapshot>, w: Window): (r: Option<Snapshot>)
    ensures IsLatest(r, rows, w)
  {
    if rows == [] then None
    else
      var last := rows[|rows| - 1];
      var best := FirstLatest(rows[..|rows| - 1], w);
      assert rows == rows[..|rows| - 1] + [last];
      if Eligible(last, w) && (best.None? || last.at > best.value.at) then Some(last) else best
  }

  lemma SomeQueryAnswers()
    ensures Answers(FirstLatest)
  {
  }

  datatype Grader = Grader(query: Query, epsilon: real)

  function Price(s: Option<Snapshot>): Option<real> {
    if s.Some? then Some(s.value.price) else None
  }

  datatype Status = Pending | Graded(verdict: Verdict)

  datatype Claim = Claim(
    slug: int,
    direction: Direction,
    priceAtClaim: Option<real>,
    createdAt: int,
    horizonMinutes: nat,
    status: Status,
    resolvedAt: Option<int>,
    resolutionPrice: Option<real>)
  {
    function Horizon(): int {
      createdAt + horizonMinutes * MICROS_PER_MINUTE
    }

    function ClaimWindow(): Window {
      Window(slug, None, createdAt)
    }

    function HorizonWindow(): Window {
      Window(slug, Some(createdAt), Horizon())
    }
  }

  /** The claim's own price, or the latest one recorded when it was made. */
  function ClaimPrice(c: Claim, rows: seq<Snapshot>, g: Grader): Option<real> {
    if c.priceAtClaim.Some? then c.priceAtClaim else Price(g.query(rows, c.ClaimWindow()))
  }

  /** The latest price after the claim and at or before its horizon. */
  function HorizonPrice(c: Claim, rows: seq<Snapshot>, g: Grader): Option<real> {
    Price(g.query(rows, c.HorizonWindow()))
  }

  function VerdictOf(c: Claim, rows: seq<Snapshot>, g: Grader): Verdict {
    ScoreClaim(c.direction, ClaimPrice(c, rows, g), HorizonPrice(c, rows, g), g.epsilon)
  }

  /** The claim as graded at `now`. */
  function Resolve(c: Claim, rows: seq<Snapshot>, now: int, g: Grader): Claim {
    var price := HorizonPrice(c, rows, g);
    c.(status := Graded(VerdictOf(c, rows, g)),
       resolvedAt := Some(now),
       resolutionPrice := if price.Some? then price else c.resolutionPrice)
  }

  predicate Due(c: Claim, now: int) {
    c.status == Pending && c.Horizon() <= now
  }

  function GradeAll(claims: seq<Claim>, rows: seq<Snapshot>, now: int, g: Grader): (r: seq<Claim>)
    ensures |r| == |claims|
    ensures forall i :: 0 <= i < |r| ==>
              r[i] == if Due(claims[i], now) then Resolve(claims[i], rows, now, g) else claims[i]
  {
    seq(|claims|, i requires 0 <= i < |claims| =>
      if Due(claims[i], now) then Resolve(claims[i], rows, now, g) else claims[i])
  }

  datatype Counts = Counts(correct: nat, incorrect: nat, void: nat, skipped: nat) {
    function Add(v: Verdict): Counts {
      match v
      case Correct => this.(correct := correct + 1)
      case Incorrect => this.(incorrect := incorrect + 1)
      case Void => this.(void := void + 1)
    }
  }

  /** How many claims a pass gives the verdict, and how many pending ones it leaves. */
  function CountVerdict(claims: seq<Claim>, rows: seq<Snapshot>, now: int, g: Grader, v: Verdict): nat {
    if claims == [] then 0
    else
      var last := claims[|claims| - 1];
      CountVerdict(claims[..|claims| - 1], rows, now, g, v)
      + (if Due(last, now) && VerdictOf(last, rows, g) == v then 1 else 0)
  }

  function CountSkipped(claims: seq<Claim>, now: int): nat {
    if claims == [] then 0
    else
      var last := claims[|claims| - 1];
      CountSkipped(claims[..|claims| - 1], now) + (if last.status == Pending && !Due(last, now) then 1 else 0)
  }

  /** The tally of a pass over the claims. */
  function CountsOf(claims: seq<Claim>, rows: seq<Snapshot>, now: int, g: Grader): Counts {
    Counts(CountVerdict(claims, rows, now, g, Correct),
           CountVerdict(claims, rows, now, g, Incorrect),
           CountVerdict(claims, rows, now, g, Void),
           CountSkipped(claims, now))
  }

  lemma CountsPush(claims: seq<Claim>, claim: Claim, rows: seq<Snapshot>, now: int, g: Grader)
    ensures var before := CountsOf(claims, rows, now, g);
            CountsOf(claims + [claim], rows, now, g)
            == if Due(claim, now) then before.Add(VerdictOf(claim, rows, g))
               else if claim.status == Pending then before.(skipped := before.skipped + 1)
               else before
  {
    assert (claims + [claim])[..|claims|] == claims;
  }

  function CountPending(claims: seq<Claim>): nat {
    if claims == [] then 0
    else CountPending(claims[..|claims| - 1]) + (if claims[|claims| - 1].status == Pending then 1 else 0)
  }

  /** Every pending claim is counted once. */
  lemma {:induction false} CountsAddUp(claims: seq<Claim>, rows: seq<Snapshot>, now: int, g: Grader)
    ensures CountVerdict(claims, rows, now, g, Correct) + CountVerdict(claims, rows, now, g, Incorrect)
          + CountVerdict(claims, rows, now, g, Void) + CountSkipped(claims, now) == CountPending(claims)
  {
    if claims != [] {
      CountsAddUp(claims[..|claims| - 1], rows, now, g);
    }
  }

  class ClaimScorerService {
    const grader: Grader
    var claims: seq<Claim>
    var snapshots: seq<Snapshot>

    constructor (grader: Grader, claims: seq<Claim>, snapshots: seq<Snapshot>)
      ensures this.grader == grader && this.claims == claims && this.snapshots == snapshots
    {
      this.grader := grader;
      this.claims := claims;
      this.snapshots := snapshots;
    }

    /** Grades every pending claim whose horizon has passed. */
    method ScorePending(now: int) returns (counts: Counts)
      modifies this`claims
      ensures claims == GradeAll(old(claims), snapshots, now, grader)
      ensures counts == CountsOf(old(claims), snapshots, now, grader)
    {
      counts := Counts(0, 0, 0, 0);
      ghost var before, graded := claims, GradeAll(claims, snapshots, now, grader);
      for i := 0 to |claims|
        invariant |claims| == |before|
        invariant forall j :: 0 <= j < |claims| ==> claims[j] == if j < i then graded[j] else before[j]
        invariant counts == CountsOf(before[..i], snapshots, now, grader)
      {
        var claim := claims[i];
        assert before[..i + 1] == before[..i] + [claim];
        CountsPush(before[..i], claim, snapshots, now, grader);
        if claim.status == Pending {
          if claim.Horizon() > now {
            counts := counts.(skipped := counts.skipped + 1);
            continue;
          }
          var price := HorizonPrice(claim, snapshots, grader);
          var verdict := ScoreClaim(claim.direction, ClaimPrice(claim, snapshots, grader), price, grader.epsilon);
          claim := claim.(status := Graded(verdict), resolvedAt := Some(now));
          if price.Some? {
            claim := claim.(resolutionPrice := price);
          }
          assert claim == Resolve(before[i], snapshots, now, grader);
          claims := claims[i := claim];
          counts := counts.Add(verdict);
        }
      }
      assert claims == graded;
      assert before[..|before|] == before;
    }
  }

  // ---------- What the table decides ----------

  /**
   * Whatever the database: the price at the claim is the claim's own or that of a newest row at or before its
   * making, and the resolution price is that of a newest row after it and no later than its life allows.
   */
  lemma PricesComeFromTheirWindows(c: Claim, rows: seq<Snapshot>, g: Grader) returns (x: Option<Snapshot>, y: Option<Snapshot>)
    requires Answers(g.query)
    ensures ClaimPrice(c, rows, g) == (if c.priceAtClaim.Some? then c.priceAtClaim else Price(x))
    ensures HorizonPrice(c, rows, g) == Price(y)
    ensures x.Some? ==> x.value in rows && x.value.slug == c.slug && x.value.at <= c.createdAt
    ensures forall r :: r in rows && r.slug == c.slug && r.at <= c.createdAt ==> x.Some? && r.at <= x.value.at
    ensures y.Some? ==> y.value in rows && y.value.slug == c.slug
                        && c.createdAt < y.value.at <= c.createdAt + c.horizonMinutes * 60000000
    ensures forall r :: r in rows && r.slug == c.slug && c.createdAt < r.at <= c.createdAt + c.horizonMinutes * 60000000 ==>
              y.Some? && r.at <= y.value.at
  {
    x, y := g.query(rows, c.ClaimWindow()), g.query(rows, c.HorizonWindow());
    assert IsLatest(x, rows, c.ClaimWindow()) && IsLatest(y, rows, c.HorizonWindow());
    assert forall r :: r in rows ==> (Eligible(r, c.HorizonWindow())
             <==> r.slug == c.slug && c.createdAt < r.at <= c.createdAt + c.horizonMinutes * 60000000);
    assert forall r :: r in rows ==> (Eligible(r, c.ClaimWindow()) <==> r.slug == c.slug && r.at <= c.createdAt);
  }

  /** Rows outside the window, such as those past the horizon, leave the possible answers as they are. */
  lemma FutureIsInvisible(rows: seq<Snapshot>, later: seq<Snapshot>, w: Window, r: Option<Snapshot>)
    requires forall i :: 0 <= i < |later| ==> !Eligible(later[i], w)
    ensures IsLatest(r, rows + later, w) <==> IsLatest(r, rows, w)
  {
    if IsLatest(r, rows + later, w) {
      forall i | 0 <= i < |rows|
        ensures Eligible(rows[i], w) ==> r.Some? && rows[i].at <= r.value.at
      {
        assert (rows + later)[i] == rows[i];
      }
    }
  }

  /** No two rows of the market share an instant. */
  ghost predicate UniqueInstants(rows: seq<Snapshot>, slug: int) {
    forall i, j :: 0 <= i < j < |rows| && rows[i].slug == slug && rows[j].slug == slug ==> rows[i].at != rows[j].at
  }

  lemma LatestIsUnique(rows: seq<Snapshot>, w: Window, x: Option<Snapshot>, y: Option<Snapshot>)
    requires UniqueInstants(rows, w.slug) && IsLatest(x, rows, w) && IsLatest(y, rows, w)
    ensures x == y
  {
    if x.Some? && y.Some? {
      var i :| 0 <= i < |rows| && rows[i] == x.value;
      var j :| 0 <= j < |rows| && rows[j] == y.value;
    }
  }

  /** All answers the database may give have one price. */
  ghost predicate Agreed(rows: seq<Snapshot>, w: Window) {
    forall x, y :: IsLatest(x, rows, w) && IsLatest(y, rows, w) ==> Price(x) == Price(y)
  }

  /** The answer's price is decided by the table exactly when all rows of the latest eligible instant agree on it. */
  lemma PriceIsDetermined(rows: seq<Snapshot>, w: Window, r: Option<Snapshot>)
    requires IsLatest(r, rows, w)
    ensures Agreed(rows, w)
       <==> (r.Some? ==> forall i :: 0 <= i < |rows| && Eligible(rows[i], w) && rows[i].at == r.value.at ==>
                           rows[i].price == r.value.price)
  {
    if r.Some? && Agreed(rows, w) {
      forall i | 0 <= i < |rows| && Eligible(rows[i], w) && rows[i].at == r.value.at
        ensures rows[i].price == r.value.price
      {
        assert IsLatest(Some(rows[i]), rows, w);
      }
    }
  }

  lemma DistinctInstantsAgree(rows: seq<Snapshot>, w: Window)
    requires UniqueInstants(rows, w.slug)
    ensures Agreed(rows, w)
  {
    forall x, y | IsLatest(x, rows, w) && IsLatest(y, rows, w)
      ensures Price(x) == Price(y)
    {
      LatestIsUnique(rows, w, x, y);
    }
  }

  /** The database that gives one query on one table a chosen answer. */
  function Choosing(rows: seq<Snapshot>, w: Window, x: Option<Snapshot>): (q: Query)
    ensures IsLatest(x, rows, w) ==> Answers(q) && q(rows, w) == x
  {
    (r: seq<Snapshot>, v: Window) => if r == rows && v == w then x else FirstLatest(r, v)
  }

  /** Databases can give different resolution prices for one table exactly if its latest eligible rows disagree. */
  lemma GradersAgreeExactlyWhenRowsDo(c: Claim, rows: seq<Snapshot>, epsilon: real)
    ensures (forall q: Query, r: Query :: Answers(q) && Answers(r) ==>
               HorizonPrice(c, rows, Grader(q, epsilon)) == HorizonPrice(c, rows, Grader(r, epsilon)))
       <==> Agreed(rows, c.HorizonWindow())
  {
    var w := c.HorizonWindow();
    if Agreed(rows, w) {
      forall q: Query, r: Query | Answers(q) && Answers(r)
        ensures Price(q(rows, w)) == Price(r(rows, w))
      {
        assert IsLatest(q(rows, w), rows, w) && IsLatest(r(rows, w), rows, w);
      }
    }
    if x, y :| IsLatest(x, rows, w) && IsLatest(y, rows, w) && Price(x) != Price(y) {
      assert HorizonPrice(c, rows, Grader(Choosing(rows, w, x), epsilon)) == Price(x);
      assert HorizonPrice(c, rows, Grader(Choosing(rows, w, y), epsilon)) == Price(y);
    }
  }

  lemma ChosenGrade(claim: Claim, rows: seq<Snapshot>, now: int, x: Snapshot, epsilon: real)
    requires Due(claim, now) && claim.priceAtClaim.Some? && IsLatest(Some(x), rows, claim.HorizonWindow())
    ensures var g := Grader(Choosing(rows, claim.HorizonWindow(), Some(x)), epsilon);
            && Answers(g.query)
            && GradeAll([claim], rows, now, g)[0].status
               == Graded(ScoreClaim(claim.direction, claim.priceAtClaim, Some(x.price), epsilon))
  {
  }

  /** Two sources quoting one market at one instant: two databases grade the same claim from the same table oppositely. */
  lemma TiedSourcesLeaveTheVerdictOpen() returns (g: Grader, h: Grader)
    ensures Answers(g.query) && Answers(h.query) && g.epsilon == h.epsilon == 0.02
    ensures var claim := Claim(1, Up, Some(0.5), 0, 1, Pending, None, None);
            var rows := [Snapshot(1, 1, 5, 0.5), Snapshot(1, 2, 5, 0.9)];
            && GradeAll([claim], rows, MICROS_PER_MINUTE, g)[0].status == Graded(Incorrect)
            && GradeAll([claim], rows, MICROS_PER_MINUTE, h)[0].status == Graded(Correct)
  {
    var claim, a, b := Claim(1, Up, Some(0.5), 0, 1, Pending, None, None), Snapshot(1, 1, 5, 0.5), Snapshot(1, 2, 5, 0.9);
    var rows, w := [a, b], claim.HorizonWindow();
    assert rows[0] == a && rows[1] == b;
    assert IsLatest(Some(a), rows, w) && IsLatest(Some(b), rows, w);
    g, h := Grader(Choosing(rows, w, Some(a)), 0.02), Grader(Choosing(rows, w, Some(b)), 0.02);
    ChosenGrade(claim, rows, MICROS_PER_MINUTE, a, 0.02);
    ChosenGrade(claim, rows, MICROS_PER_MINUTE, b, 0.02);
  }
}
