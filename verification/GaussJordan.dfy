/** In-place Gauss-Jordan inversion with partial pivoting. */
module GaussJordan {
  import opened Wrappers
  import opened LinearAlgebra

  /** The largest magnitude at which a pivot candidate is refused. */
  type Threshold = t: real | t >= 0.0

  const PIVOT_THRESHOLD: Threshold := 0.000000000001

  function Abs(x: real): real {
    if x < 0.0 then -x else x
  }

  // ---------- What the elimination computes ----------

  /** Row index >= start with the first largest magnitude in column `col`, where `best` leads so far. */
  function PivotFrom(aug: Matrix, col: nat, best: nat, row: nat): (p: nat)
    requires best < row <= |aug|
    requires forall i :: 0 <= i < |aug| ==> col < |aug[i]|
    ensures p == best || row <= p < |aug|
    ensures Abs(aug[best][col]) <= Abs(aug[p][col])
    ensures forall i :: row <= i < |aug| ==> Abs(aug[i][col]) <= Abs(aug[p][col])
    ensures p != best ==> Abs(aug[best][col]) < Abs(aug[p][col])
    ensures forall i :: row <= i < p ==> Abs(aug[i][col]) < Abs(aug[p][col])
    decreases |aug| - row
  {
    if row == |aug| then best
    else PivotFrom(aug, col, if Abs(aug[best][col]) < Abs(aug[row][col]) then row else best, row + 1)
  }

  function PivotRow(aug: Matrix, col: nat): (p: nat)
    requires col < |aug|
    requires forall i :: 0 <= i < |aug| ==> col < |aug[i]|
    ensures col <= p < |aug|
    ensures forall i :: col <= i < |aug| ==> Abs(aug[i][col]) <= Abs(aug[p][col])
  {
    PivotFrom(aug, col, col, col + 1)
  }

  function Swap(aug: Matrix, i: nat, j: nat): Matrix
    requires i < |aug| && j < |aug|
  {
    aug[i := aug[j]][j := aug[i]]
  }

  function DivideRow(row: Vec, divisor: real): (r: Vec)
    requires divisor != 0.0
    ensures |r| == |row| && forall k :: 0 <= k < |r| ==> r[k] == Quotient(row[k], divisor)
  {
    seq(|row|, k requires 0 <= k < |row| => Quotient(row[k], divisor))
  }

  function SubtractRow(row: Vec, scale: real, pivot: Vec): (r: Vec)
    requires |row| == |pivot|
    ensures |r| == |row| && forall k :: 0 <= k < |r| ==> r[k] == row[k] - Times(scale, pivot[k])
  {
    seq(|row|, k requires 0 <= k < |row| => row[k] - Times(scale, pivot[k]))
  }

  /** Rows before `upto`, other than `col` itself, have column `col` cleared with row `col`. */
  function ClearRows(aug: Matrix, col: nat, upto: nat, width: nat): (r: Matrix)
    requires Rect(aug, |aug|, width) && col < |aug| && upto <= |aug| && col < width
    ensures Rect(r, |aug|, width)
    ensures forall i :: 0 <= i < |aug| ==> r[i] == ClearedRow(aug, col, upto, i, width)
  {
    seq(|aug|, i requires 0 <= i < |aug| => ClearedRow(aug, col, upto, i, width))
  }

  function ClearedRow(aug: Matrix, col: nat, upto: nat, i: nat, width: nat): (row: Vec)
    requires Rect(aug, |aug|, width) && col < |aug| && i < |aug| && col < width
    ensures |row| == width
  {
    if i < upto && i != col then SubtractRow(aug[i], aug[i][col], aug[col]) else aug[i]
  }

  lemma ClearNext(aug: Matrix, col: nat, row: nat, width: nat)
    requires Rect(aug, |aug|, width) && col < |aug| && row < |aug| && col < width
    ensures var before := ClearRows(aug, col, row, width);
            ClearRows(aug, col, row + 1, width)
            == if row == col then before else before[row := SubtractRow(before[row], before[row][col], before[col])]
  {
  }

  /** One pass of the outer loop; no value when every candidate pivot is within the threshold. */
  function Pivot(aug: Matrix, col: nat, width: nat, t: Threshold): (r: Option<Matrix>)
    requires Rect(aug, |aug|, width) && col < |aug| && col < width
    ensures r.Some? ==> Rect(r.value, |aug|, width)
  {
    var p := PivotRow(aug, col);
    if Abs(aug[p][col]) <= t then None
    else
      var swapped := Swap(aug, col, p);
      var scaled := swapped[col := DivideRow(swapped[col], swapped[col][col])];
      Some(ClearRows(scaled, col, |aug|, width))
  }

  function Eliminate(aug: Matrix, col: nat, width: nat, t: Threshold): (r: Option<Matrix>)
    requires Rect(aug, |aug|, width) && col <= |aug| <= width
    ensures r.Some? ==> Rect(r.value, |aug|, width)
    decreases |aug| - col
  {
    if col == |aug| then Some(aug)
    else match Pivot(aug, col, width, t)
      case None => None
      case Some(next) => Eliminate(next, col + 1, width, t)
  }

  /** The matrix with the identity glued to its right. */
  function Augment(a: Matrix): (aug: Matrix)
    requires Rect(a, |a|, |a|)
    ensures Rect(aug, |a|, 2 * |a|)
    ensures forall i :: 0 <= i < |a| ==> aug[i] == a[i] + Unit(|a|, i)
  {
    seq(|a|, i requires 0 <= i < |a| => a[i] + Unit(|a|, i))
  }

  function RightHalf(aug: Matrix, n: nat): (b: Matrix)
    requires Rect(aug, n, 2 * n)
    ensures Rect(b, n, n)
    ensures forall i :: 0 <= i < n ==> b[i] == aug[i][n..]
  {
    seq(n, i requires 0 <= i < n => aug[i][n..])
  }

  function Inverse(a: Matrix, t: Threshold): (r: Option<Matrix>)
    requires Rect(a, |a|, |a|)
    ensures r.Some? ==> Rect(r.value, |a|, |a|)
  {
    match Eliminate(Augment(a), 0, 2 * |a|, t)
    case None => None
    case Some(aug) => Some(RightHalf(aug, |a|))
  }

  // ---------- The loops that compute it ----------

  /** The inner loop: clears a column in every row but its own. */
  method ClearColumn(augmented: array<Vec>, column: nat, ghost width: nat)
    requires Rect(augmented[..], augmented.Length, width) && column < augmented.Length && column < width
    modifies augmented
    ensures augmented[..] == ClearRows(old(augmented[..]), column, augmented.Length, width)
  {
    ghost var before := augmented[..];
    for row := 0 to augmented.Length
      invariant augmented[..] == ClearRows(before, column, row, width)
    {
      if row == column {
        continue;
      }
      var scale := augmented[row][column];
      assert |augmented[..][row]| == |augmented[..][column]| == width;
      augmented[row] := SubtractRow(augmented[row], scale, augmented[column]);
    }
  }

  /** The body of the outer loop. */
  method PivotColumn(augmented: array<Vec>, column: nat, ghost width: nat) returns (ok: bool)
    requires Rect(augmented[..], augmented.Length, width) && column < augmented.Length && column < width
    modifies augmented
    ensures Rect(augmented[..], augmented.Length, width)
    ensures ok == Pivot(old(augmented[..]), column, width, PIVOT_THRESHOLD).Some?
    ensures ok ==> Pivot(old(augmented[..]), column, width, PIVOT_THRESHOLD) == Some(augmented[..])
  {
    ghost var before := augmented[..];
    var pivot := PivotRow(augmented[..], column);
    if Abs(augmented[pivot][column]) <= PIVOT_THRESHOLD {
      return false;
    }
    augmented[column], augmented[pivot] := augmented[pivot], augmented[column];
    assert augmented[..] == Swap(before, column, pivot);
    var divisor := augmented[column][column];
    augmented[column] := DivideRow(augmented[column], divisor);
    ClearColumn(augmented, column, width);
    ok := true;
  }

  lemma EliminateStep(aug: Matrix, col: nat, width: nat, t: Threshold)
    requires Rect(aug, |aug|, width) && col < |aug| <= width
    ensures match Pivot(aug, col, width, t)
            case None => Eliminate(aug, col, width, t) == None
            case Some(next) => Eliminate(aug, col, width, t) == Eliminate(next, col + 1, width, t)
  {
  }

  /** The outer loop. */
  method EliminateInPlace(augmented: array<Vec>, ghost width: nat) returns (ok: bool)
    requires Rect(augmented[..], augmented.Length, width) && augmented.Length <= width
    modifies augmented
    ensures ok == Eliminate(old(augmented[..]), 0, width, PIVOT_THRESHOLD).Some?
    ensures ok ==> Eliminate(old(augmented[..]), 0, width, PIVOT_THRESHOLD) == Some(augmented[..])
  {
    ghost var state, result := augmented[..], Eliminate(augmented[..], 0, width, PIVOT_THRESHOLD);
    for column := 0 to augmented.Length
      invariant augmented[..] == state && Rect(state, augmented.Length, width)
      invariant Eliminate(state, column, width, PIVOT_THRESHOLD) == result
    {
      EliminateStep(state, column, width, PIVOT_THRESHOLD);
      ok := PivotColumn(augmented, column, width);
      if !ok {
        return;
      }
      state := augmented[..];
    }
    ok := true;
  }

  /** Computes `Inverse` by replacing rows of one work array. */
  method Invert(matrix: Matrix) returns (r: Option<Matrix>)
    requires Rect(matrix, |matrix|, |matrix|)
    ensures r == Inverse(matrix, PIVOT_THRESHOLD)
    ensures r.Some? ==> Rect(r.value, |matrix|, |matrix|) && IsInverse(r.value, matrix, |matrix|)
  {
    var size := |matrix|;
    var initial := Augment(matrix);
    var augmented := new Vec[size](i requires 0 <= i < size => initial[i]);
    assert augmented[..] == initial;
    var ok := EliminateInPlace(augmented, 2 * size);
    InverseIsTwoSided(matrix, PIVOT_THRESHOLD);
    r := if ok then Some(RightHalf(augmented[..], size)) else None;
  }

  // ---------- Why it is an inverse ----------

  /** The left half of the row is its right half times the original matrix. */
  ghost predicate RowTracks(row: Vec, a: Matrix, n: nat)
    requires Rect(a, n, n) && |row| == 2 * n
  {
    forall j :: 0 <= j < n ==> row[j] == Dot(row[n..], Column(a, j))
  }

  ghost predicate Tracks(aug: Matrix, a: Matrix, n: nat) {
    && Rect(a, n, n)
    && Rect(aug, n, 2 * n)
    && forall i :: 0 <= i < n ==> RowTracks(aug[i], a, n)
  }

  /** The rows of `aug`, combined with the coefficients in `m`, give back the rows of `initial`. */
  ghost predicate Recovers(m: Matrix, aug: Matrix, initial: Matrix, n: nat) {
    && Rect(m, n, n)
    && Rect(aug, n, 2 * n)
    && Rect(initial, n, 2 * n)
    && forall i, j :: 0 <= i < n && 0 <= j < 2 * n ==> Dot(m[i], Column(aug, j)) == initial[i][j]
  }

  /** The first `col` columns are those of the identity. */
  ghost predicate Cleared(aug: Matrix, n: nat, col: nat) {
    && Rect(aug, n, 2 * n)
    && col <= n
    && forall i, j :: 0 <= i < n && 0 <= j < col ==> aug[i][j] == Delta(i, j)
  }

  lemma {:induction false} DivideDotLeft(w: Vec, u: Vec, d: real, x: Vec)
    requires d != 0.0 && |w| == |u| == |x| && forall i :: 0 <= i < |w| ==> w[i] == Quotient(u[i], d)
    ensures Dot(w, x) == Quotient(Dot(u, x), d)
  {
    if w != [] {
      DivideDotLeft(w[1..], u[1..], d, x[1..]);
      QuotientStep(u[0], d, x[0], Dot(u[1..], x[1..]));
    }
  }

  lemma QuotientStep(u: real, d: real, x: real, rest: real)
    requires d != 0.0
    ensures Quotient(u, d) * x + Quotient(rest, d) == Quotient(u * x + rest, d)
  {
  }

  lemma {:induction false} SubtractDotLeft(w: Vec, u: Vec, s: real, v: Vec, x: Vec)
    requires |w| == |u| == |v| == |x| && forall i :: 0 <= i < |w| ==> w[i] == u[i] - Times(s, v[i])
    ensures Dot(w, x) == Dot(u, x) - Times(s, Dot(v, x))
  {
    if w == [] {
      TimesSign(s, 0.0);
    } else {
      SubtractDotLeft(w[1..], u[1..], s, v[1..], x[1..]);
      SubtractStep(w[0], u[0], s, v[0], x[0], Dot(v[1..], x[1..]));
    }
  }

  lemma SubtractStep(w: real, u: real, s: real, v: real, x: real, rest: real)
    requires w == u - Times(s, v)
    ensures w * x - Times(s, rest) == u * x - Times(s, v * x + rest)
  {
  }

  lemma DivideTracks(row: Vec, d: real, a: Matrix, n: nat)
    requires Rect(a, n, n) && |row| == 2 * n && d != 0.0
    requires RowTracks(row, a, n)
    ensures RowTracks(DivideRow(row, d), a, n)
  {
    var w := DivideRow(row, d);
    forall j | 0 <= j < n
      ensures w[j] == Dot(w[n..], Column(a, j))
    {
      DivideDotLeft(w[n..], row[n..], d, Column(a, j));
    }
  }

  lemma SubtractTracks(row: Vec, s: real, pivot: Vec, a: Matrix, n: nat)
    requires Rect(a, n, n) && |row| == |pivot| == 2 * n
    requires RowTracks(row, a, n) && RowTracks(pivot, a, n)
    ensures RowTracks(SubtractRow(row, s, pivot), a, n)
  {
    var w := SubtractRow(row, s, pivot);
    forall j | 0 <= j < n
      ensures w[j] == Dot(w[n..], Column(a, j))
    {
      SubtractDotLeft(w[n..], row[n..], s, pivot[n..], Column(a, j));
    }
  }

  lemma PivotTracks(aug: Matrix, col: nat, a: Matrix, n: nat, t: Threshold)
    requires Tracks(aug, a, n) && col < n
    ensures var r := Pivot(aug, col, 2 * n, t); r.Some? ==> Tracks(r.value, a, n)
  {
    var r := Pivot(aug, col, 2 * n, t);
    if r.Some? {
      var p := PivotRow(aug, col);
      DivideTracks(aug[p], aug[p][col], a, n);
      var swapped := Swap(aug, col, p);
      var scaled := swapped[col := DivideRow(swapped[col], swapped[col][col])];
      forall i | 0 <= i < n
        ensures RowTracks(r.value[i], a, n)
      {
        if i != col {
          SubtractTracks(scaled[i], scaled[i][col], scaled[col], a, n);
        }
      }
    }
  }

  lemma SwapDot(u: Vec, v: Vec, c: nat, p: nat)
    requires |u| == |v| && c < |u| && p < |u|
    ensures Dot(u[c := u[p]][p := u[c]], v[c := v[p]][p := v[c]]) == Dot(u, v)
  {
    DotUpdate(u, v, c, u[p], v[p]);
    DotUpdate(u[c := u[p]], v[c := v[p]], p, u[c], v[c]);
  }

  // What dividing row c, or subtracting a multiple of row c from `row`, does to the recovery coefficients.
  function DivideCoefficients(u: Vec, c: nat, d: real): (r: Vec)
    requires c < |u|
    ensures |r| == |u|
  {
    u[c := u[c] * d]
  }

  function SubtractCoefficients(u: Vec, c: nat, row: nat, s: real): (r: Vec)
    requires c < |u| && row < |u|
    ensures |r| == |u|
  {
    u[c := AddScaled(u[c], s, u[row])]
  }

  function AddScaled(x: real, s: real, y: real): real {
    x + s * y
  }

  lemma DivideDot(u: Vec, v: Vec, c: nat, d: real, y: real)
    requires |u| == |v| && c < |u| && d != 0.0
    requires y == Quotient(v[c], d)
    ensures Dot(DivideCoefficients(u, c, d), v[c := y]) == Dot(u, v)
  {
    DotUpdate(u, v, c, u[c] * d, y);
    assert (u[c] * d) * (v[c] / d) == u[c] * v[c];
  }

  lemma SubtractDot(u: Vec, v: Vec, c: nat, row: nat, s: real, y: real)
    requires |u| == |v| && c < |u| && row < |u| && row != c
    requires y == v[row] - Times(s, v[c])
    ensures Dot(SubtractCoefficients(u, c, row, s), v[row := y]) == Dot(u, v)
  {
    var v', x := v[row := y], AddScaled(u[c], s, u[row]);
    DotUpdate(u, v, row, u[row], y);
    assert u[row := u[row]] == u;
    DotUpdate(u, v', c, x, v[c]);
    assert v'[c := v[c]] == v';
    SubtractCancels(u[row], v[row], s, u[c], v[c], x, y);
  }

  lemma SubtractCancels(ur: real, vr: real, s: real, uc: real, vc: real, x: real, y: real)
    requires x == uc + s * ur && y == vr - s * vc
    ensures ur * y - ur * vr + x * vc - uc * vc == 0.0
  {
  }

  lemma SwapRecovers(m: Matrix, aug: Matrix, initial: Matrix, n: nat, c: nat, p: nat) returns (m': Matrix)
    requires Recovers(m, aug, initial, n) && c < n && p < n
    ensures Recovers(m', Swap(aug, c, p), initial, n)
  {
    m' := seq(n, i requires 0 <= i < n => m[i][c := m[i][p]][p := m[i][c]]);
    var swapped := Swap(aug, c, p);
    forall i, j | 0 <= i < n && 0 <= j < 2 * n
      ensures Dot(m'[i], Column(swapped, j)) == initial[i][j]
    {
      var v := Column(aug, j);
      SwapDot(m[i], v, c, p);
      assert Column(swapped, j) == v[c := v[p]][p := v[c]];
    }
  }

  lemma DivideRecovers(m: Matrix, aug: Matrix, initial: Matrix, n: nat, c: nat, d: real) returns (m': Matrix)
    requires Recovers(m, aug, initial, n) && c < n && d != 0.0
    ensures Recovers(m', aug[c := DivideRow(aug[c], d)], initial, n)
  {
    m' := seq(n, i requires 0 <= i < n => DivideCoefficients(m[i], c, d));
    var row := DivideRow(aug[c], d);
    forall i, j | 0 <= i < n && 0 <= j < 2 * n
      ensures Dot(m'[i], Column(aug[c := row], j)) == initial[i][j]
    {
      var v := Column(aug, j);
      DivideDot(m[i], v, c, d, row[j]);
      assert Column(aug[c := row], j) == v[c := row[j]];
    }
  }

  lemma SubtractRecovers(m: Matrix, aug: Matrix, initial: Matrix, n: nat, c: nat, row: nat) returns (m': Matrix)
    requires Recovers(m, aug, initial, n) && c < n && row < n && row != c
    ensures Recovers(m', aug[row := SubtractRow(aug[row], aug[row][c], aug[c])], initial, n)
  {
    var s := aug[row][c];
    m' := seq(n, i requires 0 <= i < n => SubtractCoefficients(m[i], c, row, s));
    var reduced := SubtractRow(aug[row], s, aug[c]);
    forall i, j | 0 <= i < n && 0 <= j < 2 * n
      ensures Dot(m'[i], Column(aug[row := reduced], j)) == initial[i][j]
    {
      var v := Column(aug, j);
      SubtractDot(m[i], v, c, row, s, reduced[j]);
      assert Column(aug[row := reduced], j) == v[row := reduced[j]];
    }
  }

  lemma ClearOneRecovers(m: Matrix, before: Matrix, initial: Matrix, n: nat, c: nat, row: nat) returns (m': Matrix)
    requires Recovers(m, before, initial, n) && c < n && row < n
    ensures Recovers(m', if row == c then before else before[row := SubtractRow(before[row], before[row][c], before[c])],
                     initial, n)
  {
    m' := m;
    if row != c {
      m' := SubtractRecovers(m, before, initial, n, c, row);
    }
  }

  lemma {:induction false} ClearRecovers(m: Matrix, aug: Matrix, initial: Matrix, n: nat, c: nat, upto: nat)
    returns (m': Matrix)
    requires Recovers(m, aug, initial, n) && c < n && upto <= n
    ensures Recovers(m', ClearRows(aug, c, upto, 2 * n), initial, n)
    decreases upto
  {
    if upto == 0 {
      m' := m;
      assert ClearRows(aug, c, 0, 2 * n) == aug;
    } else {
      m' := ClearRecovers(m, aug, initial, n, c, upto - 1);
      m' := ClearOneRecovers(m', ClearRows(aug, c, upto - 1, 2 * n), initial, n, c, upto - 1);
      ClearNext(aug, c, upto - 1, 2 * n);
    }
  }

  lemma PivotRecovers(m: Matrix, aug: Matrix, initial: Matrix, n: nat, col: nat, t: Threshold) returns (m': Matrix)
    requires Recovers(m, aug, initial, n) && col < n
    requires Pivot(aug, col, 2 * n, t).Some?
    ensures Recovers(m', Pivot(aug, col, 2 * n, t).value, initial, n)
  {
    var p := PivotRow(aug, col);
    var swapped := Swap(aug, col, p);
    var d := swapped[col][col];
    m' := SwapRecovers(m, aug, initial, n, col, p);
    m' := DivideRecovers(m', swapped, initial, n, col, d);
    m' := ClearRecovers(m', swapped[col := DivideRow(swapped[col], d)], initial, n, col, n);
  }

  /** Clearing column c of a row keeps the columns before c and empties column c. */
  lemma SubtractClears(row: Vec, pivot: Vec, c: nat, j: nat)
    requires |row| == |pivot| && j <= c < |row|
    requires pivot[c] == 1.0 && (j < c ==> pivot[j] == 0.0)
    ensures SubtractRow(row, row[c], pivot)[j] == if j < c then row[j] else 0.0
  {
  }

  lemma DivideClears(row: Vec, c: nat, j: nat)
    requires j <= c < |row| && row[c] != 0.0 && (j < c ==> row[j] == 0.0)
    ensures DivideRow(row, row[c])[j] == Delta(c, j)
  {
    QuotientOfSelf(row[c]);
  }

  lemma PivotClears(aug: Matrix, n: nat, col: nat, t: Threshold)
    requires Cleared(aug, n, col) && col < n
    ensures var r := Pivot(aug, col, 2 * n, t); r.Some? ==> Cleared(r.value, n, col + 1)
  {
    var r := Pivot(aug, col, 2 * n, t);
    if r.Some? {
      var p := PivotRow(aug, col);
      var swapped := Swap(aug, col, p);
      var pivot := DivideRow(swapped[col], swapped[col][col]);
      var scaled := swapped[col := pivot];
      assert r.value == ClearRows(scaled, col, n, 2 * n);
      forall j | 0 <= j <= col
        ensures pivot[j] == Delta(col, j)
      {
        DivideClears(swapped[col], col, j);
      }
      forall i, j | 0 <= i < n && 0 <= j < col + 1
        ensures r.value[i][j] == Delta(i, j)
      {
        if i != col {
          SubtractClears(scaled[i], pivot, col, j);
        }
      }
    }
  }

  ghost predicate Reached(aug: Matrix, m: Matrix, a: Matrix, initial: Matrix, n: nat, col: nat) {
    Tracks(aug, a, n) && Recovers(m, aug, initial, n) && Cleared(aug, n, col)
  }

  ghost predicate InReach(aug: Matrix, a: Matrix, n: nat, col: nat)
    requires Rect(a, n, n)
  {
    exists m :: Reached(aug, m, a, Augment(a), n, col)
  }

  lemma PivotReaches(aug: Matrix, a: Matrix, n: nat, col: nat, t: Threshold)
    requires Rect(a, n, n) && Rect(aug, n, 2 * n) && InReach(aug, a, n, col) && col < n && Pivot(aug, col, 2 * n, t).Some?
    ensures InReach(Pivot(aug, col, 2 * n, t).value, a, n, col + 1)
  {
    var m :| Reached(aug, m, a, Augment(a), n, col);
    PivotTracks(aug, col, a, n, t);
    PivotClears(aug, n, col, t);
    var m' := PivotRecovers(m, aug, Augment(a), n, col, t);
    assert Reached(Pivot(aug, col, 2 * n, t).value, m', a, Augment(a), n, col + 1);
  }

  ghost predicate KeptByPasses(holds: (Matrix, nat) -> bool, n: nat, width: nat, t: Threshold) {
    forall x: Matrix, c: nat {:trigger Pivot(x, c, width, t)} ::
      |x| == n && Rect(x, n, width) && c < n <= width && Pivot(x, c, width, t).Some? && holds(x, c) ==>
        holds(Pivot(x, c, width, t).value, c + 1)
  }

  /** What holds at the start and is kept by every pass holds at the end. */
  lemma {:induction false} EliminateKeeps(aug: Matrix, width: nat, col: nat, holds: (Matrix, nat) -> bool, t: Threshold)
    requires Rect(aug, |aug|, width) && col <= |aug| <= width
    requires holds(aug, col) && KeptByPasses(holds, |aug|, width, t)
    ensures var r := Eliminate(aug, col, width, t); r.Some? ==> holds(r.value, |aug|)
    decreases |aug| - col
  {
    if col < |aug| && Pivot(aug, col, width, t).Some? {
      EliminateKeeps(Pivot(aug, col, width, t).value, width, col + 1, holds, t);
    }
  }

  lemma AugmentInReach(a: Matrix, n: nat)
    requires Rect(a, n, n)
    ensures InReach(Augment(a), a, n, 0)
  {
    AugmentTracks(a, n);
    var m := IdentityRecovers(Augment(a), n);
    assert Reached(Augment(a), m, a, Augment(a), n, 0);
  }

  /** The elimination of [a | I] keeps all three relations, so it ends with the identity on the left. */
  lemma EliminationReaches(a: Matrix, n: nat, t: Threshold)
    requires Rect(a, n, n)
    ensures var r := Eliminate(Augment(a), 0, 2 * n, t); r.Some? ==> InReach(r.value, a, n, n)
  {
    var holds := (x: Matrix, c: nat) => InReach(x, a, n, c);
    forall x: Matrix, c: nat | |x| == n && Rect(x, n, 2 * n) && c < n && Pivot(x, c, 2 * n, t).Some? && holds(x, c)
      ensures holds(Pivot(x, c, 2 * n, t).value, c + 1)
    {
      PivotReaches(x, a, n, c, t);
    }
    AugmentInReach(a, n);
    EliminateKeeps(Augment(a), 2 * n, 0, holds, t);
  }

  lemma AugmentTracks(a: Matrix, n: nat)
    requires Rect(a, n, n)
    ensures Tracks(Augment(a), a, n)
  {
    var aug := Augment(a);
    forall i, j | 0 <= i < n && 0 <= j < n
      ensures aug[i][j] == Dot(aug[i][n..], Column(a, j))
    {
      assert aug[i][n..] == Unit(n, i);
      DotUnit(n, i, Column(a, j));
    }
  }

  lemma IdentityRecovers(initial: Matrix, n: nat) returns (m: Matrix)
    requires Rect(initial, n, 2 * n)
    ensures Recovers(m, initial, initial, n)
  {
    m := seq(n, i requires 0 <= i < n => Unit(n, i));
    forall i, j | 0 <= i < n && 0 <= j < 2 * n
      ensures Dot(m[i], Column(initial, j)) == initial[i][j]
    {
      DotUnit(n, i, Column(initial, j));
    }
  }

  /** With the identity on the left, the coefficients that recover [a | I] are a itself. */
  lemma IdentityLeft(m: Matrix, aug: Matrix, a: Matrix, n: nat)
    requires Rect(a, n, n) && Recovers(m, aug, Augment(a), n) && Cleared(aug, n, n)
    ensures m == a
  {
    forall i | 0 <= i < n
      ensures m[i] == a[i]
    {
      forall j | 0 <= j < n
        ensures m[i][j] == a[i][j]
      {
        assert Column(aug, j) == Unit(n, j);
        DotUnit(n, j, m[i]);
        assert Augment(a)[i][j] == a[i][j];
      }
    }
  }

  lemma ClearedIsLeftInverse(aug: Matrix, a: Matrix, n: nat)
    requires Tracks(aug, a, n) && Cleared(aug, n, n)
    ensures IsLeftInverse(RightHalf(aug, n), a, n)
  {
    var b := RightHalf(aug, n);
    forall i, j | 0 <= i < n && 0 <= j < n
      ensures Dot(b[i], Column(a, j)) == Delta(i, j)
    {
      assert RowTracks(aug[i], a, n);
    }
  }

  lemma ClearedIsRightInverse(m: Matrix, aug: Matrix, a: Matrix, n: nat)
    requires Rect(a, n, n) && Recovers(m, aug, Augment(a), n) && Cleared(aug, n, n)
    ensures IsLeftInverse(a, RightHalf(aug, n), n)
  {
    IdentityLeft(m, aug, a, n);
    var b := RightHalf(aug, n);
    forall i, j | 0 <= i < n && 0 <= j < n
      ensures Dot(a[i], Column(b, j)) == Delta(i, j)
    {
      assert Column(aug, n + j) == Column(b, j);
      assert Augment(a)[i][n + j] == Unit(n, i)[j];
    }
  }

  /** Whatever the elimination returns multiplies the input to the identity on both sides. */
  lemma InverseIsTwoSided(a: Matrix, t: Threshold)
    requires Rect(a, |a|, |a|)
    ensures var r := Inverse(a, t); r.Some? ==> IsInverse(r.value, a, |a|)
  {
    var n := |a|;
    var result := Eliminate(Augment(a), 0, 2 * n, t);
    if result.Some? {
      EliminationReaches(a, n, t);
      var m :| Reached(result.value, m, a, Augment(a), n, n);
      ClearedIsLeftInverse(result.value, a, n);
      ClearedIsRightInverse(m, result.value, a, n);
    }
  }
}
