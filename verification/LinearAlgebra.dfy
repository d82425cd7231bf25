/** Vectors and row-major matrices over exact reals, as far as the regression needs them. */
module LinearAlgebra {
  type Vec = seq<real>
  type Matrix = seq<Vec>

  ghost predicate Rect(a: Matrix, rows: nat, cols: nat) {
    |a| == rows && forall i :: 0 <= i < rows ==> |a[i]| == cols
  }

  function Dot(u: Vec, v: Vec): real
    requires |u| == |v|
  {
    if u == [] then 0.0 else u[0] * v[0] + Dot(u[1..], v[1..])
  }

  function Column(a: Matrix, j: nat): (c: Vec)
    requires forall i :: 0 <= i < |a| ==> j < |a[i]|
    ensures |c| == |a| && forall i :: 0 <= i < |a| ==> c[i] == a[i][j]
  {
    seq(|a|, i requires 0 <= i < |a| => a[i][j])
  }

  /** The product of a matrix and a column vector. */
  function MatVec(a: Matrix, x: Vec): (y: Vec)
    requires Rect(a, |a|, |x|)
    ensures |y| == |a| && forall i :: 0 <= i < |a| ==> y[i] == Dot(a[i], x)
  {
    seq(|a|, i requires 0 <= i < |a| => Dot(a[i], x))
  }

  /** The product of a row vector and a matrix with `cols` columns. */
  function VecMat(u: Vec, a: Matrix, cols: nat): (y: Vec)
    requires Rect(a, |u|, cols)
    ensures |y| == cols && forall j :: 0 <= j < cols ==> y[j] == Dot(u, Column(a, j))
  {
    seq(cols, j requires 0 <= j < cols => Dot(u, Column(a, j)))
  }

  function Delta(i: int, j: int): real {
    if i == j then 1.0 else 0.0
  }

  function Unit(n: nat, k: nat): (e: Vec)
    ensures |e| == n && forall i :: 0 <= i < n ==> e[i] == Delta(i, k)
  {
    seq(n, i => Delta(i, k))
  }

  function Sub(u: Vec, v: Vec): (w: Vec)
    requires |u| == |v|
    ensures |w| == |u| && forall i :: 0 <= i < |u| ==> w[i] == u[i] - v[i]
  {
    seq(|u|, i requires 0 <= i < |u| => u[i] - v[i])
  }

  lemma {:induction false} DotSymmetric(u: Vec, v: Vec)
    requires |u| == |v|
    ensures Dot(u, v) == Dot(v, u)
  {
    if u != [] {
      DotSymmetric(u[1..], v[1..]);
    }
  }

  /** `Dot` is linear: w is the pointwise combination s u + t v. */
  lemma {:induction false} DotLinear(w: Vec, s: real, u: Vec, t: real, v: Vec, x: Vec)
    requires |w| == |u| == |v| == |x|
    requires forall i :: 0 <= i < |w| ==> w[i] == Times(s, u[i]) + Times(t, v[i])
    ensures Dot(w, x) == Times(s, Dot(u, x)) + Times(t, Dot(v, x))
  {
    if w == [] {
      TimesSign(s, 0.0);
      TimesSign(t, 0.0);
    } else {
      DotLinear(w[1..], s, u[1..], t, v[1..], x[1..]);
      LinearStep(w[0], s, u[0], t, v[0], x[0], Dot(u[1..], x[1..]), Dot(v[1..], x[1..]));
    }
  }

  lemma LinearStep(w: real, s: real, u: real, t: real, v: real, x: real, ux: real, vx: real)
    requires w == Times(s, u) + Times(t, v)
    ensures w * x + (Times(s, ux) + Times(t, vx)) == Times(s, u * x + ux) + Times(t, v * x + vx)
  {
  }

  /** `Dot` distributes over a difference on either side. */
  lemma {:induction false} DotSub(w: Vec, u: Vec, v: Vec, x: Vec)
    requires |w| == |u| == |v| == |x|
    requires forall i :: 0 <= i < |w| ==> w[i] == u[i] - v[i]
    ensures Dot(w, x) == Dot(u, x) - Dot(v, x)
    ensures Dot(x, w) == Dot(x, u) - Dot(x, v)
  {
    if w != [] {
      DotSub(w[1..], u[1..], v[1..], x[1..]);
      DifferenceTimes(w[0], u[0], v[0], x[0]);
    }
  }

  lemma DifferenceTimes(w: real, u: real, v: real, x: real)
    requires w == u - v
    ensures w * x == u * x - v * x && x * w == x * u - x * v
  {
  }

  lemma {:induction false} DotZero(u: Vec, x: Vec)
    requires |u| == |x| && IsZero(u)
    ensures Dot(u, x) == 0.0
  {
    if u != [] {
      DotZero(u[1..], x[1..]);
    }
  }

  lemma {:induction false} DotDisjoint(u: Vec, v: Vec)
    requires |u| == |v| && forall i :: 0 <= i < |u| ==> u[i] == 0.0 || v[i] == 0.0
    ensures Dot(u, v) == 0.0
  {
    if u != [] {
      TimesSign(u[0], v[0]);
      assert u[0] * v[0] == Times(u[0], v[0]);
      DotDisjoint(u[1..], v[1..]);
    }
  }

  /** Replacing one coordinate of both vectors. */
  lemma {:induction false} DotUpdate(u: Vec, v: Vec, c: nat, x: real, y: real)
    requires |u| == |v| && c < |u|
    ensures Dot(u[c := x], v[c := y]) == Dot(u, v) - u[c] * v[c] + x * y
  {
    if c == 0 {
      assert u[0 := x][1..] == u[1..] && v[0 := y][1..] == v[1..];
    } else {
      DotUpdate(u[1..], v[1..], c - 1, x, y);
      assert u[c := x][1..] == u[1..][c - 1 := x] && v[c := y][1..] == v[1..][c - 1 := y];
    }
  }

  lemma {:induction false} DotUnit(n: nat, k: nat, x: Vec)
    requires k < n == |x|
    ensures Dot(Unit(n, k), x) == x[k]
    ensures Dot(x, Unit(n, k)) == x[k]
  {
    var zero: Vec := seq(n, i => 0.0);
    DotZero(zero, x);
    DotUpdate(zero, x, k, 1.0, x[k]);
    assert zero[k := 1.0] == Unit(n, k) && x[k := x[k]] == x;
    DotSymmetric(x, Unit(n, k));
  }

  // A name for products whose sign matters: the solver rewrites comparisons of x * x with zero.
  function Times(x: real, y: real): real {
    x * y
  }

  lemma TimesSign(x: real, y: real)
    ensures (x > 0.0 && y > 0.0) || (x < 0.0 && y < 0.0) ==> Times(x, y) > 0.0
    ensures x == 0.0 || y == 0.0 ==> Times(x, y) == 0.0
  {
    assert x * y == (-x) * (-y);
  }

  lemma PositiveFactor(a: real, x: real)
    requires a > 0.0 && Times(a, x) >= 0.0
    ensures x >= 0.0
  {
    TimesSign(a, -x);
    NegatedFactor(a, x);
  }

  lemma TimesCommutes(x: real, y: real)
    ensures Times(x, y) == Times(y, x)
  {
  }

  lemma TimesAdd(x: real, y: real, z: real)
    ensures Times(x + y, z) == Times(x, z) + Times(y, z)
    ensures Times(z, x + y) == Times(z, x) + Times(z, y)
    ensures Times(x, y) == Times(y, x)
  {
  }

  lemma NegatedLeft(b: real, z: real)
    ensures Times(-b, z) == -Times(b, z)
  {
  }

  lemma NegatedFactor(a: real, x: real)
    ensures Times(a, -x) == -Times(a, x)
  {
  }

  lemma SquareOfProduct(a: real, b: real)
    ensures Times(Times(a, b), Times(a, b)) == Times(Times(a, a), Times(b, b))
  {
    assert (a * b) * (a * b) == (a * a) * (b * b);
  }

  ghost predicate IsZero(u: Vec) {
    forall i :: 0 <= i < |u| ==> u[i] == 0.0
  }

  lemma {:induction false} DotSelfSign(u: Vec)
    ensures IsZero(u) ==> Dot(u, u) == 0.0
    ensures !IsZero(u) ==> Dot(u, u) > 0.0
  {
    if u != [] {
      TimesSign(u[0], u[0]);
      DotSelfSign(u[1..]);
      assert Dot(u, u) == Times(u[0], u[0]) + Dot(u[1..], u[1..]);
      assert IsZero(u) <==> u[0] == 0.0 && IsZero(u[1..]) by {
        assert forall i :: 1 <= i < |u| ==> u[i] == u[1..][i - 1];
      }
    }
  }

  /** (u A) x == u (A x). */
  lemma {:induction false} Associative(u: Vec, a: Matrix, x: Vec)
    requires Rect(a, |u|, |x|)
    ensures Dot(VecMat(u, a, |x|), x) == Dot(u, MatVec(a, x))
  {
    if u == [] {
      DotZero(VecMat(u, a, |x|), x);
    } else {
      FirstRowSplitsOff(u, a, x);
      DotLinear(VecMat(u, a, |x|), u[0], a[0], 1.0, VecMat(u[1..], a[1..], |x|), x);
      Associative(u[1..], a[1..], x);
      DotSplitsOff(u, MatVec(a, x), MatVec(a[1..], x));
    }
  }

  lemma FirstRowSplitsOff(u: Vec, a: Matrix, x: Vec)
    requires Rect(a, |u|, |x|) && u != []
    ensures MatVec(a, x)[1..] == MatVec(a[1..], x) && MatVec(a, x)[0] == Dot(a[0], x)
    ensures forall j :: 0 <= j < |x| ==>
              VecMat(u, a, |x|)[j] == Times(u[0], a[0][j]) + Times(1.0, VecMat(u[1..], a[1..], |x|)[j])
  {
    forall j | 0 <= j < |x|
      ensures VecMat(u, a, |x|)[j] == Times(u[0], a[0][j]) + Times(1.0, VecMat(u[1..], a[1..], |x|)[j])
    {
      ColumnSplitsOff(u, a, |x|, j);
    }
  }

  lemma ColumnSplitsOff(u: Vec, a: Matrix, cols: nat, j: nat)
    requires Rect(a, |u|, cols) && u != [] && j < cols
    ensures Dot(u, Column(a, j)) == Times(u[0], a[0][j]) + Times(1.0, Dot(u[1..], Column(a[1..], j)))
  {
    assert Column(a, j)[1..] == Column(a[1..], j);
    DotSplitsOff(u, Column(a, j), Column(a[1..], j));
  }

  lemma DotSplitsOff(u: Vec, v: Vec, rest: Vec)
    requires u != [] && |u| == |v| && v[1..] == rest
    ensures Dot(u, v) == Times(u[0], v[0]) + Times(1.0, Dot(u[1..], rest))
  {
  }

  lemma {:induction false} DotPush(u: Vec, v: Vec, x: real, y: real)
    requires |u| == |v|
    ensures Dot(u + [x], v + [y]) == Dot(u, v) + Times(x, y)
  {
    if u == [] {
      assert ([] + [x])[1..] == [] && ([] + [y])[1..] == [];
    } else {
      DotPush(u[1..], v[1..], x, y);
      assert (u + [x])[1..] == u[1..] + [x] && (v + [y])[1..] == v[1..] + [y];
    }
  }

  ghost predicate IsLeftInverse(b: Matrix, a: Matrix, n: nat)
    requires Rect(a, n, n) && Rect(b, n, n)
  {
    forall i, j :: 0 <= i < n && 0 <= j < n ==> Dot(b[i], Column(a, j)) == Delta(i, j)
  }

  /** b is the two-sided inverse of a. */
  ghost predicate IsInverse(b: Matrix, a: Matrix, n: nat)
    requires Rect(a, n, n) && Rect(b, n, n)
  {
    IsLeftInverse(b, a, n) && IsLeftInverse(a, b, n)
  }

  /** a sends some nonzero vector to zero. */
  ghost predicate Singular(a: Matrix, n: nat)
    requires Rect(a, n, n)
  {
    exists x: Vec :: |x| == n && !IsZero(x) && IsZero(MatVec(a, x))
  }

  /** A row that is a unit vector in the product picks one entry. */
  lemma UnitRowPicks(row: Vec, a: Matrix, n: nat, i: nat, x: Vec)
    requires Rect(a, n, n) && |row| == |x| == n && i < n && VecMat(row, a, n) == Unit(n, i)
    ensures Dot(row, MatVec(a, x)) == x[i]
  {
    Associative(row, a, x);
    DotUnit(n, i, x);
  }

  /** Multiplying by a and then by a left inverse of a gives back the vector. */
  lemma CancelLeft(b: Matrix, a: Matrix, n: nat, x: Vec)
    requires Rect(a, n, n) && Rect(b, n, n) && |x| == n
    requires IsLeftInverse(b, a, n)
    ensures MatVec(b, MatVec(a, x)) == x
  {
    var y := MatVec(b, MatVec(a, x));
    forall i | 0 <= i < n
      ensures y[i] == x[i]
    {
      assert VecMat(b[i], a, n) == Unit(n, i);
      UnitRowPicks(b[i], a, n, i, x);
    }
  }

  lemma InvertibleIsNotSingular(b: Matrix, a: Matrix, n: nat)
    requires Rect(a, n, n) && Rect(b, n, n) && IsLeftInverse(b, a, n)
    ensures !Singular(a, n)
  {
    forall x: Vec | |x| == n && IsZero(MatVec(a, x))
      ensures IsZero(x)
    {
      CancelLeft(b, a, n, x);
      forall i | 0 <= i < n
        ensures x[i] == 0.0
      {
        DotSymmetric(b[i], MatVec(a, x));
        DotZero(MatVec(a, x), b[i]);
      }
    }
  }

  function Sum(xs: Vec): real {
    if xs == [] then 0.0 else xs[0] + Sum(xs[1..])
  }

  function Quotient(x: real, d: real): real
    requires d != 0.0
  {
    x / d
  }

  lemma MultiplyBack(x: real, n: real)
    requires n != 0.0
    ensures Times(n, Quotient(x, n)) == x
  {
  }

  lemma DivideBack(n: real, x: real)
    requires n > 0.0
    ensures Quotient(Times(n, x), n) == x
  {
  }

  lemma QuotientOfSelf(x: real)
    requires x != 0.0
    ensures Quotient(x, x) == 1.0 && Quotient(0.0, x) == 0.0
  {
  }

  lemma {:induction false} SumOfQuotients(xs: Vec, d: real, ys: Vec)
    requires d != 0.0 && |xs| == |ys| && forall i :: 0 <= i < |xs| ==> ys[i] == Quotient(xs[i], d)
    ensures Sum(ys) == Quotient(Sum(xs), d)
  {
    if xs != [] {
      SumOfQuotients(xs[1..], d, ys[1..]);
      var x, r := xs[0], Sum(xs[1..]);
      assert x / d + r / d == (x + r) / d;
    }
  }

  lemma {:induction false} SumPositive(xs: Vec)
    requires xs != [] && forall i :: 0 <= i < |xs| ==> xs[i] > 0.0
    ensures Sum(xs) > 0.0
  {
    if |xs| > 1 {
      SumPositive(xs[1..]);
    } else {
      assert Sum(xs[1..]) == 0.0;
    }
  }

  /** A nonnegative function whose square is its argument, wherever the argument is nonnegative. */
  ghost predicate IsSqrt(sqrt: real -> real) {
    forall x: real :: x >= 0.0 ==> sqrt(x) >= 0.0 && Times(sqrt(x), sqrt(x)) == x
  }

  lemma SqrtOfZero(sqrt: real -> real)
    requires IsSqrt(sqrt)
    ensures sqrt(0.0) == 0.0
  {
    TimesSign(sqrt(0.0), sqrt(0.0));
  }
}
