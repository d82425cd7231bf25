/** What a refused inversion means: the pivot candidates of the exact elimination against the threshold. */
module PivotThreshold {
  import opened Wrappers
  import opened LinearAlgebra
  import opened GaussJordan

  /** The largest candidate magnitudes of the exact elimination, pass by pass, up to a first zero. */
  function Candidates(aug: Matrix, col: nat, width: nat): (c: seq<real>)
    requires Rect(aug, |aug|, width) && col <= |aug| <= width
    ensures forall k :: 0 <= k < |c| ==> c[k] >= 0.0
    decreases |aug| - col
  {
    if col == |aug| then []
    else
      var largest := Abs(aug[PivotRow(aug, col)][col]);
      match Pivot(aug, col, width, 0.0)
      case None => [largest]
      case Some(next) => [largest] + Candidates(next, col + 1, width)
  }

  function CandidatesOf(a: Matrix): seq<real>
    requires Rect(a, |a|, |a|)
  {
    Candidates(Augment(a), 0, 2 * |a|)
  }

  ghost predicate SomeWithin(candidates: seq<real>, t: Threshold) {
    exists k :: 0 <= k < |candidates| && candidates[k] <= t
  }

  ghost predicate NoneZero(candidates: seq<real>) {
    forall k :: 0 <= k < |candidates| ==> candidates[k] > 0.0
  }

  lemma SomeWithinPush(first: real, rest: seq<real>, t: Threshold)
    ensures SomeWithin([first] + rest, t) <==> first <= t || SomeWithin(rest, t)
  {
    var all := [first] + rest;
    if first <= t {
      assert all[0] <= t;
    }
    if SomeWithin(rest, t) {
      var k :| 0 <= k < |rest| && rest[k] <= t;
      assert all[k + 1] <= t;
    }
    if SomeWithin(all, t) {
      var k :| 0 <= k < |all| && all[k] <= t;
      assert k > 0 ==> rest[k - 1] <= t;
    }
  }

  /** A pass that is not refused does the same at every threshold. */
  lemma PivotIgnoresThreshold(aug: Matrix, col: nat, width: nat, t: Threshold)
    requires Rect(aug, |aug|, width) && col < |aug| <= width
    ensures Pivot(aug, col, width, t) == if Abs(aug[PivotRow(aug, col)][col]) <= t then None else Pivot(aug, col, width, 0.0)
  {
  }

  /** The candidates after those of one pass. */
  function LaterCandidates(aug: Matrix, col: nat, width: nat): seq<real>
    requires Rect(aug, |aug|, width) && col < |aug| <= width
  {
    match Pivot(aug, col, width, 0.0)
    case None => []
    case Some(next) => Candidates(next, col + 1, width)
  }

  lemma CandidatesStep(aug: Matrix, col: nat, width: nat)
    requires Rect(aug, |aug|, width) && col < |aug| <= width
    ensures Candidates(aug, col, width) == [Abs(aug[PivotRow(aug, col)][col])] + LaterCandidates(aug, col, width)
  {
  }

  lemma RefusedStep(aug: Matrix, col: nat, width: nat, t: Threshold)
    requires Rect(aug, |aug|, width) && col < |aug| <= width
    ensures var largest, next := Abs(aug[PivotRow(aug, col)][col]), Pivot(aug, col, width, 0.0);
            && (Eliminate(aug, col, width, t).None?
                <==> largest <= t || next.None? || Eliminate(next.value, col + 1, width, t).None?)
            && (next.None? ==> largest <= t)
  {
    PivotIgnoresThreshold(aug, col, width, t);
    EliminateStep(aug, col, width, t);
  }

  ghost predicate RefusalMatches(aug: Matrix, col: nat, width: nat, t: Threshold)
    requires Rect(aug, |aug|, width) && col <= |aug| <= width
  {
    Eliminate(aug, col, width, t).None? <==> SomeWithin(Candidates(aug, col, width), t)
  }

  lemma RefusalStep(aug: Matrix, col: nat, width: nat, next: Option<Matrix>, t: Threshold)
    requires Rect(aug, |aug|, width) && col < |aug| <= width && next == Pivot(aug, col, width, 0.0)
    requires next.Some? ==> RefusalMatches(next.value, col + 1, width, t)
    ensures RefusalMatches(aug, col, width, t)
  {
    CandidatesStep(aug, col, width);
    SomeWithinPush(Abs(aug[PivotRow(aug, col)][col]), LaterCandidates(aug, col, width), t);
    RefusedStep(aug, col, width, t);
  }

  lemma RefusalAtTheEnd(aug: Matrix, width: nat, t: Threshold)
    requires Rect(aug, |aug|, width) && |aug| <= width
    ensures RefusalMatches(aug, |aug|, width, t)
  {
  }

  /** The matrix after one pass, of the same shape. */
  lemma PassKeepsShape(aug: Matrix, col: nat, width: nat) returns (next: Option<Matrix>)
    requires Rect(aug, |aug|, width) && col < |aug| <= width
    ensures next == Pivot(aug, col, width, 0.0)
    ensures next.Some? ==> |next.value| == |aug| && Rect(next.value, |next.value|, width)
  {
    next := Pivot(aug, col, width, 0.0);
  }

  /** The elimination is refused exactly when some candidate of the exact elimination is within the threshold. */
  lemma {:induction false} RefusedMeansCandidate(aug: Matrix, col: nat, width: nat, t: Threshold)
    requires Rect(aug, |aug|, width) && col <= |aug| <= width
    ensures RefusalMatches(aug, col, width, t)
    decreases |aug| - col
  {
    if col == |aug| {
      RefusalAtTheEnd(aug, width, t);
    } else {
      var next := PassKeepsShape(aug, col, width);
      if next.Some? {
        RefusedMeansCandidate(next.value, col + 1, width, t);
      }
      RefusalStep(aug, col, width, next, t);
    }
  }

  /** A singular matrix is refused at every threshold. */
  lemma SingularIsRefused(a: Matrix, t: Threshold)
    requires Rect(a, |a|, |a|) && Singular(a, |a|)
    ensures Inverse(a, t).None?
  {
    if Inverse(a, t).Some? {
      InverseIsTwoSided(a, t);
      InvertibleIsNotSingular(Inverse(a, t).value, a, |a|);
    }
  }

  /** The left block sends this vector to zero when column `col` has no pivot candidate. */
  function NullVector(aug: Matrix, n: nat, col: nat): (x: Vec)
    requires Rect(aug, n, 2 * n) && col < n
    ensures |x| == n
  {
    seq(n, j requires 0 <= j < n => if j < col then -aug[j][col] else Delta(j, col))
  }

  lemma RowSendsNullVectorToZero(aug: Matrix, n: nat, col: nat, i: nat)
    requires Cleared(aug, n, col) && col < n && i < n
    requires forall k :: col <= k < n ==> aug[k][col] == 0.0
    ensures Dot(aug[i][..n], NullVector(aug, n, col)) == 0.0
  {
    var row, x := aug[i][..n], NullVector(aug, n, col);
    if i < col {
      var z := x[col := 0.0][i := 0.0];
      DotDisjoint(row, z);
      DotUpdate(row, z, i, row[i], x[i]);
      DotUpdate(row, z[i := x[i]], col, row[col], x[col]);
      assert row[i := row[i]] == row && row[col := row[col]] == row;
      assert z[i := x[i]][col := x[col]] == x;
    } else {
      DotDisjoint(row, x);
    }
  }

  lemma NoCandidateMeansSingular(aug: Matrix, m: Matrix, a: Matrix, n: nat, col: nat)
    requires Rect(a, n, n) && Recovers(m, aug, Augment(a), n) && Cleared(aug, n, col) && col < n
    requires forall k :: col <= k < n ==> aug[k][col] == 0.0
    ensures Singular(a, n)
  {
    var x := NullVector(aug, n, col);
    var left: Matrix := seq(n, i requires 0 <= i < n => aug[i][..n]);
    forall i | 0 <= i < n
      ensures MatVec(left, x)[i] == 0.0
    {
      RowSendsNullVectorToZero(aug, n, col, i);
    }
    forall i | 0 <= i < n
      ensures MatVec(a, x)[i] == 0.0
    {
      forall j | 0 <= j < n
        ensures Dot(m[i], Column(left, j)) == a[i][j]
      {
        assert Column(left, j) == Column(aug, j);
        assert Augment(a)[i][j] == a[i][j];
      }
      assert VecMat(m[i], left, n) == a[i];
      Associative(m[i], left, x);
      DotSymmetric(m[i], MatVec(left, x));
      DotZero(MatVec(left, x), m[i]);
    }
    assert x[col] == 1.0;
  }

  lemma ZeroPivotMeansZeroColumn(aug: Matrix, col: nat)
    requires col < |aug| && forall i :: 0 <= i < |aug| ==> col < |aug[i]|
    requires Abs(aug[PivotRow(aug, col)][col]) == 0.0
    ensures forall k :: col <= k < |aug| ==> aug[k][col] == 0.0
  {
    forall k | col <= k < |aug|
      ensures aug[k][col] == 0.0
    {
      assert Abs(aug[k][col]) <= 0.0;
    }
  }

  /** A state from which no pass can go on because every candidate is zero. */
  ghost predicate Stuck(aug: Matrix, m: Matrix, initial: Matrix, n: nat, col: nat) {
    && Recovers(m, aug, initial, n) && Cleared(aug, n, col) && col < n
    && forall k :: col <= k < n ==> aug[k][col] == 0.0
  }

  /** A state reached by row operations from which the exact elimination is refused. */
  ghost predicate Doomed(aug: Matrix, m: Matrix, initial: Matrix, n: nat, col: nat) {
    && Recovers(m, aug, initial, n) && Cleared(aug, n, col) && Rect(aug, n, 2 * n) && col <= n
    && Eliminate(aug, col, 2 * n, 0.0).None?
  }

  lemma DoomedGoesOn(aug: Matrix, m: Matrix, initial: Matrix, n: nat, col: nat)
    requires Doomed(aug, m, initial, n, col)
    ensures col < n
    ensures var next := Pivot(aug, col, 2 * n, 0.0); next.Some? ==> Eliminate(next.value, col + 1, 2 * n, 0.0).None?
  {
    assert col < n;
    EliminateStep(aug, col, 2 * n, 0.0);
  }

  /** Such a state is stuck, or the next pass leads to another. */
  lemma DoomedStep(aug: Matrix, m: Matrix, initial: Matrix, n: nat, col: nat) returns (next: Option<Matrix>, m': Matrix)
    requires Doomed(aug, m, initial, n, col)
    ensures col < n
    ensures if next.None? then Stuck(aug, m, initial, n, col) else Doomed(next.value, m', initial, n, col + 1)
  {
    DoomedGoesOn(aug, m, initial, n, col);
    next, m' := Pivot(aug, col, 2 * n, 0.0), m;
    if next.None? {
      ZeroPivotMeansZeroColumn(aug, col);
    } else {
      PivotClears(aug, n, col, 0.0);
      m' := PivotRecovers(m, aug, initial, n, col, 0.0);
    }
  }

  /** The state in which the exact elimination gives up. */
  lemma {:induction false} ZeroRefusalState(aug: Matrix, m: Matrix, initial: Matrix, n: nat, col: nat)
    returns (aug': Matrix, m': Matrix, col': nat)
    requires Doomed(aug, m, initial, n, col)
    ensures Stuck(aug', m', initial, n, col')
    decreases n - col
  {
    aug', m', col' := aug, m, col;
    var next, further := DoomedStep(aug, m, initial, n, col);
    if next.Some? {
      aug', m', col' := ZeroRefusalState(next.value, further, initial, n, col + 1);
    }
  }

  /** At threshold zero exactly the singular matrices are refused. */
  lemma ExactRefusalIsSingularity(a: Matrix)
    requires Rect(a, |a|, |a|)
    ensures Inverse(a, 0.0).None? <==> Singular(a, |a|)
  {
    if Inverse(a, 0.0).None? {
      var m := IdentityRecovers(Augment(a), |a|);
      var aug, m', col := ZeroRefusalState(Augment(a), m, Augment(a), |a|, 0);
      NoCandidateMeansSingular(aug, m', a, |a|, col);
    } else if Singular(a, |a|) {
      SingularIsRefused(a, 0.0);
    }
  }

  /**
   * A refusal is wrong exactly when the exact elimination never meets a zero candidate but meets one
   * that is positive and within the threshold.
   */
  lemma RefusalVerdict(a: Matrix, t: Threshold)
    requires Rect(a, |a|, |a|)
    ensures Inverse(a, t).None? <==> SomeWithin(CandidatesOf(a), t)
    ensures Singular(a, |a|) <==> SomeWithin(CandidatesOf(a), 0.0)
    ensures Inverse(a, t).None? && !Singular(a, |a|) <==> NoneZero(CandidatesOf(a)) && SomeWithin(CandidatesOf(a), t)
  {
    RefusedMeansCandidate(Augment(a), 0, 2 * |a|, t);
    RefusedMeansCandidate(Augment(a), 0, 2 * |a|, 0.0);
    ExactRefusalIsSingularity(a);
  }
}
