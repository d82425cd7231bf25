/** Bartlett-weighted lag sums of a series as the squares of its sliding window sums. */
module BartlettWindows {
  import opened LinearAlgebra

  /** The sum of c[i] * c[i - k] for k <= i < upto. */
  function LagSum(c: Vec, k: nat, upto: nat): real
    requires upto <= |c|
  {
    if upto <= k then 0.0 else LagSum(c, k, upto - 1) + Times(c[upto - 1], c[upto - 1 - k])
  }

  /** The entries padded with zeros on both sides. */
  function At(c: Vec, i: int): real {
    if 0 <= i < |c| then c[i] else 0.0
  }

  /** The sum of the lag + 1 padded entries that end at t. */
  function Window(c: Vec, lag: nat, t: int): real {
    if lag == 0 then At(c, t) else Window(c, lag - 1, t) + At(c, t - lag)
  }

  function SquaredWindows(c: Vec, lag: nat, upto: nat): real {
    if upto == 0 then 0.0
    else SquaredWindows(c, lag, upto - 1) + Times(Window(c, lag, upto - 1), Window(c, lag, upto - 1))
  }

  /** The sum of c(t - a) * c(t - b) for 0 <= t < upto. */
  function Cross(c: Vec, a: nat, b: nat, upto: nat): real {
    if upto == 0 then 0.0 else Cross(c, a, b, upto - 1) + Times(At(c, upto - 1 - a), At(c, upto - 1 - b))
  }

  /** The sum of window(t) * c(t - b) for 0 <= t < upto. */
  function WindowCross(c: Vec, lag: nat, b: nat, upto: nat): real {
    if upto == 0 then 0.0
    else WindowCross(c, lag, b, upto - 1) + Times(Window(c, lag, upto - 1), At(c, upto - 1 - b))
  }

  lemma {:induction false} CrossFromZero(c: Vec, k: nat, upto: nat)
    ensures Cross(c, 0, k, upto) == LagSum(c, k, if upto <= |c| then upto else |c|)
  {
    if upto > 0 {
      CrossFromZero(c, k, upto - 1);
      TimesSign(At(c, upto - 1), At(c, upto - 1 - k));
    }
  }

  lemma {:induction false} CrossShift(c: Vec, a: nat, b: nat, upto: nat)
    requires a <= b
    ensures Cross(c, a, b, upto) == Cross(c, 0, b - a, if upto >= a then upto - a else 0)
  {
    if upto > 0 {
      CrossShift(c, a, b, upto - 1);
      TimesSign(At(c, upto - 1 - a), At(c, upto - 1 - b));
    }
  }

  lemma CrossIsLagSum(c: Vec, a: nat, b: nat, upto: nat)
    requires a <= b && upto >= |c| + a
    ensures Cross(c, a, b, upto) == LagSum(c, b - a, |c|)
  {
    CrossShift(c, a, b, upto);
    CrossFromZero(c, b - a, upto - a);
  }

  /** The lag sums for offsets first..last, added up. */
  function LagSums(c: Vec, first: nat, last: nat): real
    decreases last
  {
    if last < first then 0.0
    else if last == 0 then LagSum(c, 0, |c|)
    else LagSums(c, first, last - 1) + LagSum(c, last, |c|)
  }

  lemma {:induction false} LagSumsFromBelow(c: Vec, first: nat, last: nat)
    requires first <= last
    ensures LagSums(c, first, last) == LagSum(c, first, |c|) + LagSums(c, first + 1, last)
    decreases last
  {
    if first < last {
      LagSumsFromBelow(c, first, last - 1);
    }
  }

  lemma {:induction false} WindowCrossGrows(c: Vec, lag: nat, b: nat, upto: nat)
    requires lag > 0
    ensures WindowCross(c, lag, b, upto) == WindowCross(c, lag - 1, b, upto) + Cross(c, lag, b, upto)
  {
    if upto > 0 {
      WindowCrossGrows(c, lag, b, upto - 1);
      TimesAdd(Window(c, lag - 1, upto - 1), At(c, upto - 1 - lag), At(c, upto - 1 - b));
    }
  }

  lemma {:induction false} WindowCrossFromZero(c: Vec, b: nat, upto: nat)
    ensures WindowCross(c, 0, b, upto) == Cross(c, 0, b, upto)
  {
    if upto > 0 {
      WindowCrossFromZero(c, b, upto - 1);
    }
  }

  lemma {:induction false} WindowCrossIsLagSums(c: Vec, lag: nat, b: nat, upto: nat)
    requires lag < b && upto >= |c| + b
    ensures WindowCross(c, lag, b, upto) == LagSums(c, b - lag, b)
    decreases lag
  {
    CrossIsLagSum(c, lag, b, upto);
    LagSumsFromBelow(c, b - lag, b);
    if lag == 0 {
      WindowCrossFromZero(c, b, upto);
    } else {
      WindowCrossGrows(c, lag, b, upto);
      WindowCrossIsLagSums(c, lag - 1, b, upto);
    }
  }

  lemma {:induction false} SquaredWindowsGrow(c: Vec, lag: nat, upto: nat)
    requires lag > 0
    ensures SquaredWindows(c, lag, upto)
         == SquaredWindows(c, lag - 1, upto) + 2.0 * WindowCross(c, lag - 1, lag, upto) + Cross(c, lag, lag, upto)
  {
    if upto > 0 {
      SquaredWindowsGrow(c, lag, upto - 1);
      var w, x := Window(c, lag - 1, upto - 1), At(c, upto - 1 - lag);
      TimesAdd(w, x, w + x);
      TimesAdd(w, x, w);
      TimesAdd(w, x, x);
    }
  }

  lemma {:induction false} SquaredWindowsOfLagZero(c: Vec, upto: nat)
    ensures SquaredWindows(c, 0, upto) == Cross(c, 0, 0, upto)
  {
    if upto > 0 {
      SquaredWindowsOfLagZero(c, upto - 1);
    }
  }

  /** (lag + 1) * G(0) + the sum of 2 * (lag + 1 - k) * G(k) for 1 <= k <= offset, where G is the lag sum. */
  function Bartlett(c: Vec, lag: nat, offset: nat): real {
    if offset == 0 then Times((lag + 1) as real, LagSum(c, 0, |c|))
    else Bartlett(c, lag, offset - 1) + 2.0 * Times((lag + 1 - offset) as real, LagSum(c, offset, |c|))
  }

  lemma {:induction false} BartlettGrows(c: Vec, lag: nat, offset: nat)
    requires lag > 0
    ensures Bartlett(c, lag, offset)
         == Bartlett(c, lag - 1, offset) + LagSum(c, 0, |c|) + 2.0 * LagSums(c, 1, offset)
  {
    var g := LagSum(c, offset, |c|);
    TimesAdd((lag - offset) as real, 1.0, g);
    if offset > 0 {
      BartlettGrows(c, lag, offset - 1);
    }
  }

  lemma {:induction false} SquaredWindowsAreBartlett(c: Vec, lag: nat, upto: nat)
    requires upto >= |c| + lag
    ensures SquaredWindows(c, lag, upto) == Bartlett(c, lag, lag)
    decreases lag
  {
    CrossIsLagSum(c, lag, lag, upto);
    if lag == 0 {
      SquaredWindowsOfLagZero(c, upto);
    } else {
      SquaredWindowsAreBartlett(c, lag - 1, upto);
      SquaredWindowsGrow(c, lag, upto);
      WindowCrossIsLagSums(c, lag - 1, lag, upto);
      BartlettGrows(c, lag, lag);
      TimesSign((lag - lag) as real, LagSum(c, lag, |c|));
    }
  }

  lemma {:induction false} SquaredWindowsSign(c: Vec, lag: nat, upto: nat)
    ensures SquaredWindows(c, lag, upto) >= 0.0
    ensures SquaredWindows(c, lag, upto) == 0.0 ==> forall t :: 0 <= t < upto ==> Window(c, lag, t) == 0.0
  {
    if upto > 0 {
      SquaredWindowsSign(c, lag, upto - 1);
      TimesSign(Window(c, lag, upto - 1), Window(c, lag, upto - 1));
    }
  }

  lemma {:induction false} WindowAfterZeros(c: Vec, lag: nat, t: int)
    requires forall i :: 0 <= i < t && i < |c| ==> c[i] == 0.0
    ensures Window(c, lag, t) == At(c, t)
  {
    if lag > 0 {
      WindowAfterZeros(c, lag - 1, t);
    }
  }

  lemma {:induction false} ZeroWindowsMeanZeroEntries(c: Vec, lag: nat, upto: nat)
    requires upto <= |c| && forall t :: 0 <= t < |c| ==> Window(c, lag, t) == 0.0
    ensures forall i :: 0 <= i < upto ==> c[i] == 0.0
  {
    if upto > 0 {
      ZeroWindowsMeanZeroEntries(c, lag, upto - 1);
      WindowAfterZeros(c, lag, upto - 1);
    }
  }

  lemma {:induction false} ZeroEntriesMeanZeroWindows(c: Vec, lag: nat, upto: nat)
    requires IsZero(c)
    ensures SquaredWindows(c, lag, upto) == 0.0
  {
    if upto > 0 {
      ZeroEntriesMeanZeroWindows(c, lag, upto - 1);
      WindowAfterZeros(c, lag, upto - 1);
      TimesSign(Window(c, lag, upto - 1), Window(c, lag, upto - 1));
    }
  }
}
