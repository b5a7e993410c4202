/**
 * The observed and expected disagreement sums of krippendorff_alpha.py, as
 * the non-vectorised path computes them: folds over the pairable units that
 * specify the loops, the loops themselves, and what the sums mean.
 */
module Disagreement {
  import opened Units

  /** Σ over y in ys of metric(x, y). */
  function RowSum<R>(metric: (R, R) -> real, x: R, ys: seq<R>): real
  {
    if ys == [] then 0.0 else RowSum(metric, x, ys[..|ys| - 1]) + metric(x, ys[|ys| - 1])
  }

  /** `sum(metric(gi, gj) for gi in xs for gj in ys)`: the metric summed over every ordered pair. */
  function CrossSum<R>(metric: (R, R) -> real, xs: seq<R>, ys: seq<R>): real
  {
    if xs == [] then 0.0 else CrossSum(metric, xs[..|xs| - 1], ys) + RowSum(metric, xs[|xs| - 1], ys)
  }

  /** The observed sum before the division by n: each unit's Du weighted by 1 / (len(grades) - 1). */
  function ObservedSum<R>(metric: (R, R) -> real, units: seq<seq<R>>): real
    requires AllPairable(units)
  {
    if units == [] then 0.0
    else
      var u := units[|units| - 1];
      ObservedSum(metric, units[..|units| - 1]) + CrossSum(metric, u, u) / ((|u| - 1) as real)
  }

  /** The contribution of one unit g1 to the expected sum: Σ over g2 in cols of the pairs between them. */
  function UnitAgainst<R>(metric: (R, R) -> real, g1: seq<R>, cols: seq<seq<R>>): real
  {
    if cols == [] then 0.0 else UnitAgainst(metric, g1, cols[..|cols| - 1]) + CrossSum(metric, g1, cols[|cols| - 1])
  }

  /** The expected sum before the division by n (n - 1): Σ over g1 in rows and g2 in cols. */
  function ExpectedSum<R>(metric: (R, R) -> real, rows: seq<seq<R>>, cols: seq<seq<R>>): real
  {
    if rows == [] then 0.0 else ExpectedSum(metric, rows[..|rows| - 1], cols) + UnitAgainst(metric, rows[|rows| - 1], cols)
  }

  /** All pairable values pooled, unit after unit. */
  function Concat<R>(units: seq<seq<R>>): (pool: seq<R>)
    ensures |pool| == TotalLength(units)
  {
    if units == [] then [] else Concat(units[..|units| - 1]) + units[|units| - 1]
  }

  // The loops.

  /** The generator sum over all ordered pairs, gi over xs outside and gj over ys inside. */
  method PairSum<R>(metric: (R, R) -> real, xs: seq<R>, ys: seq<R>) returns (s: real)
    ensures s == CrossSum(metric, xs, ys)
  {
    s := 0.0;
    for i := 0 to |xs|
      invariant s == CrossSum(metric, xs[..i], ys)
    {
      assert xs[..i + 1][..i] == xs[..i];
      for j := 0 to |ys|
        invariant s == CrossSum(metric, xs[..i], ys) + RowSum(metric, xs[i], ys[..j])
      {
        assert ys[..j + 1][..j] == ys[..j];
        s := s + metric(xs[i], ys[j]);
      }
      assert ys[..|ys|] == ys;
    }
    assert xs[..|xs|] == xs;
  }

  /** The Do loop, up to the final division by n. */
  method Observed<R>(metric: (R, R) -> real, units: seq<seq<R>>) returns (total: real)
    requires AllPairable(units)
    ensures total == ObservedSum(metric, units)
  {
    total := 0.0;
    for u := 0 to |units|
      invariant AllPairable(units[..u])
      invariant total == ObservedSum(metric, units[..u])
    {
      assert units[..u + 1][..u] == units[..u];
      var grades := units[u];
      var du := PairSum(metric, grades, grades);
      total := total + du / ((|grades| - 1) as real);
    }
    assert units[..|units|] == units;
  }

  /** The De double loop, up to the final division by n (n - 1). */
  method Expected<R>(metric: (R, R) -> real, units: seq<seq<R>>) returns (total: real)
    ensures total == ExpectedSum(metric, units, units)
  {
    total := 0.0;
    for a := 0 to |units|
      invariant total == ExpectedSum(metric, units[..a], units)
    {
      assert units[..a + 1][..a] == units[..a];
      for b := 0 to |units|
        invariant total == ExpectedSum(metric, units[..a], units) + UnitAgainst(metric, units[a], units[..b])
      {
        assert units[..b + 1][..b] == units[..b];
        var s := PairSum(metric, units[a], units[b]);
        total := total + s;
      }
      assert units[..|units|] == units;
    }
    assert units[..|units|] == units;
  }

  // The expected sum is the disagreement among all pairable values pooled.

  lemma {:induction false} RowSumSplit<R>(metric: (R, R) -> real, x: R, a: seq<R>, b: seq<R>)
    ensures RowSum(metric, x, a + b) == RowSum(metric, x, a) + RowSum(metric, x, b)
  {
    if b != [] {
      assert (a + b)[..|a + b| - 1] == a + b[..|b| - 1];
      RowSumSplit(metric, x, a, b[..|b| - 1]);
    } else {
      assert a + b == a;
    }
  }

  lemma {:induction false} CrossSumSplitRight<R>(metric: (R, R) -> real, xs: seq<R>, a: seq<R>, b: seq<R>)
    ensures CrossSum(metric, xs, a + b) == CrossSum(metric, xs, a) + CrossSum(metric, xs, b)
  {
    if xs != [] {
      CrossSumSplitRight(metric, xs[..|xs| - 1], a, b);
      RowSumSplit(metric, xs[|xs| - 1], a, b);
    }
  }

  lemma {:induction false} CrossSumSplitLeft<R>(metric: (R, R) -> real, a: seq<R>, b: seq<R>, ys: seq<R>)
    ensures CrossSum(metric, a + b, ys) == CrossSum(metric, a, ys) + CrossSum(metric, b, ys)
  {
    if b != [] {
      assert (a + b)[..|a + b| - 1] == a + b[..|b| - 1];
      CrossSumSplitLeft(metric, a, b[..|b| - 1], ys);
    } else {
      assert a + b == a;
    }
  }

  lemma {:induction false} UnitAgainstPooled<R>(metric: (R, R) -> real, g1: seq<R>, cols: seq<seq<R>>)
    ensures UnitAgainst(metric, g1, cols) == CrossSum(metric, g1, Concat(cols))
  {
    if cols != [] {
      UnitAgainstPooled(metric, g1, cols[..|cols| - 1]);
      CrossSumSplitRight(metric, g1, Concat(cols[..|cols| - 1]), cols[|cols| - 1]);
    } else {
      assert CrossSum(metric, g1, []) == 0.0 by { CrossSumOfEmpty(metric, g1); }
    }
  }

  lemma {:induction false} CrossSumOfEmpty<R>(metric: (R, R) -> real, xs: seq<R>)
    ensures CrossSum(metric, xs, []) == 0.0
  {
    if xs != [] {
      CrossSumOfEmpty(metric, xs[..|xs| - 1]);
    }
  }

  /**
   * The double loop over units computes the metric summed over every ordered
   * pair of pairable values, whichever units they come from.
   */
  lemma {:induction false} ExpectedPooled<R>(metric: (R, R) -> real, rows: seq<seq<R>>, cols: seq<seq<R>>)
    ensures ExpectedSum(metric, rows, cols) == CrossSum(metric, Concat(rows), Concat(cols))
  {
    if rows != [] {
      ExpectedPooled(metric, rows[..|rows| - 1], cols);
      UnitAgainstPooled(metric, rows[|rows| - 1], cols);
      CrossSumSplitLeft(metric, Concat(rows[..|rows| - 1]), rows[|rows| - 1], Concat(cols));
    }
  }

  // Signs and zeros, for a metric that is never negative.

  ghost predicate NonNegative<R(!new)>(metric: (R, R) -> real)
  {
    forall a, b :: metric(a, b) >= 0.0
  }

  lemma {:induction false} RowSumZero<R(!new)>(metric: (R, R) -> real, x: R, ys: seq<R>)
    requires NonNegative(metric)
    ensures RowSum(metric, x, ys) >= 0.0
    ensures RowSum(metric, x, ys) == 0.0 <==> forall j :: 0 <= j < |ys| ==> metric(x, ys[j]) == 0.0
  {
    if ys != [] {
      var init := ys[..|ys| - 1];
      RowSumZero(metric, x, init);
      assert forall j :: 0 <= j < |init| ==> init[j] == ys[j];
    }
  }

  /** The metric summed over all pairs is non-negative, and zero exactly when every pair is at distance zero. */
  lemma {:induction false} CrossSumZero<R(!new)>(metric: (R, R) -> real, xs: seq<R>, ys: seq<R>)
    requires NonNegative(metric)
    ensures CrossSum(metric, xs, ys) >= 0.0
    ensures CrossSum(metric, xs, ys) == 0.0 <==> forall i, j :: 0 <= i < |xs| && 0 <= j < |ys| ==> metric(xs[i], ys[j]) == 0.0
  {
    if xs != [] {
      var init := xs[..|xs| - 1];
      CrossSumZero(metric, init, ys);
      RowSumZero(metric, xs[|xs| - 1], ys);
      assert forall i :: 0 <= i < |init| ==> init[i] == xs[i];
    }
  }

  lemma QuotientZero(s: real, d: real)
    requires s >= 0.0 && d >= 1.0
    ensures 0.0 <= s / d <= s
    ensures s / d == 0.0 <==> s == 0.0
  {
    var q := s / d;
    assert q * d == s;
    assert q < 0.0 ==> q * d < 0.0;
    assert q > s ==> q * d > s;
  }

  /**
   * The observed sum is non-negative, at most the sum of the units' Du, and
   * zero exactly when every unit's Du is zero.
   */
  lemma {:induction false} ObservedSumZero<R(!new)>(metric: (R, R) -> real, units: seq<seq<R>>)
    requires NonNegative(metric) && AllPairable(units)
    ensures 0.0 <= ObservedSum(metric, units) <= DiagonalSum(metric, units)
    ensures ObservedSum(metric, units) == 0.0 <==> forall i :: 0 <= i < |units| ==> CrossSum(metric, units[i], units[i]) == 0.0
  {
    if units != [] {
      var init := units[..|units| - 1];
      var u := units[|units| - 1];
      ObservedSumZero(metric, init);
      CrossSumZero(metric, u, u);
      QuotientZero(CrossSum(metric, u, u), (|u| - 1) as real);
      DiagonalSumNonNegative(metric, init);
      assert forall i :: 0 <= i < |init| ==> init[i] == units[i];
    }
  }

  /** Σ over units of Du: the pairs that lie inside one unit. */
  function DiagonalSum<R>(metric: (R, R) -> real, units: seq<seq<R>>): real
  {
    if units == [] then 0.0
    else DiagonalSum(metric, units[..|units| - 1]) + CrossSum(metric, units[|units| - 1], units[|units| - 1])
  }

  lemma {:induction false} DiagonalSumNonNegative<R(!new)>(metric: (R, R) -> real, units: seq<seq<R>>)
    requires NonNegative(metric)
    ensures DiagonalSum(metric, units) >= 0.0
  {
    if units != [] {
      DiagonalSumNonNegative(metric, units[..|units| - 1]);
      CrossSumZero(metric, units[|units| - 1], units[|units| - 1]);
    }
  }

  lemma {:induction false} UnitAgainstCovers<R(!new)>(metric: (R, R) -> real, g1: seq<R>, cols: seq<seq<R>>, k: nat)
    requires NonNegative(metric) && k < |cols|
    ensures UnitAgainst(metric, g1, cols) >= CrossSum(metric, g1, cols[k])
    ensures UnitAgainst(metric, g1, cols) >= 0.0
  {
    var init := cols[..|cols| - 1];
    CrossSumZero(metric, g1, cols[|cols| - 1]);
    if k < |init| {
      UnitAgainstCovers(metric, g1, init, k);
    } else {
      UnitAgainstNonNegative(metric, g1, init);
    }
  }

  lemma {:induction false} UnitAgainstNonNegative<R(!new)>(metric: (R, R) -> real, g1: seq<R>, cols: seq<seq<R>>)
    requires NonNegative(metric)
    ensures UnitAgainst(metric, g1, cols) >= 0.0
  {
    if cols != [] {
      UnitAgainstNonNegative(metric, g1, cols[..|cols| - 1]);
      CrossSumZero(metric, g1, cols[|cols| - 1]);
    }
  }

  /** Every pair inside a unit is also a pair between that unit and itself, so the expected sum covers the diagonal. */
  lemma {:induction false} ExpectedCoversDiagonal<R(!new)>(metric: (R, R) -> real, rows: seq<seq<R>>, cols: seq<seq<R>>)
    requires NonNegative(metric)
    requires forall i :: 0 <= i < |rows| ==> rows[i] in cols
    ensures ExpectedSum(metric, rows, cols) >= DiagonalSum(metric, rows) >= 0.0
  {
    DiagonalSumNonNegative(metric, rows);
    if rows != [] {
      var init := rows[..|rows| - 1];
      var g1 := rows[|rows| - 1];
      assert forall i :: 0 <= i < |init| ==> init[i] == rows[i];
      ExpectedCoversDiagonal(metric, init, cols);
      var k :| 0 <= k < |cols| && cols[k] == g1;
      UnitAgainstCovers(metric, g1, cols, k);
    }
  }

  /**
   * For a non-negative metric the observed sum never exceeds the expected sum;
   * in particular an expected sum of zero forces the observed sum to zero.
   */
  lemma ObservedAtMostExpected<R(!new)>(metric: (R, R) -> real, units: seq<seq<R>>)
    requires NonNegative(metric) && AllPairable(units)
    ensures 0.0 <= ObservedSum(metric, units) <= ExpectedSum(metric, units, units)
  {
    ObservedSumZero(metric, units);
    ExpectedCoversDiagonal(metric, units, units);
  }

  /** A metric that is never negative and is zero exactly on equal values, as the metrics of Metrics are. */
  ghost predicate Separating<R(!new)>(metric: (R, R) -> real)
  {
    forall a, b :: metric(a, b) >= 0.0 && (metric(a, b) == 0.0 <==> a == b)
  }

  /** Every value of the unit is the same. */
  ghost predicate Constant<R>(u: seq<R>)
  {
    forall i, j :: 0 <= i < |u| && 0 <= j < |u| ==> u[i] == u[j]
  }

  /** Under a separating metric there is no observed disagreement exactly when every unit is constant. */
  lemma ObservedZeroIffConstant<R(!new)>(metric: (R, R) -> real, units: seq<seq<R>>)
    requires Separating(metric) && AllPairable(units)
    ensures ObservedSum(metric, units) == 0.0 <==> forall i :: 0 <= i < |units| ==> Constant(units[i])
  {
    assert NonNegative(metric);
    ObservedSumZero(metric, units);
    forall i | 0 <= i < |units|
      ensures CrossSum(metric, units[i], units[i]) == 0.0 <==> Constant(units[i])
    {
      CrossSumZero(metric, units[i], units[i]);
    }
  }

  /** A metric that gives zero to every value paired with itself. */
  ghost predicate ZeroOnEqual<R(!new)>(metric: (R, R) -> real)
  {
    forall a :: metric(a, a) == 0.0
  }

  lemma {:induction false} RowSumOfZeros<R>(metric: (R, R) -> real, x: R, ys: seq<R>)
    requires forall j :: 0 <= j < |ys| ==> metric(x, ys[j]) == 0.0
    ensures RowSum(metric, x, ys) == 0.0
  {
    if ys != [] {
      RowSumOfZeros(metric, x, ys[..|ys| - 1]);
    }
  }

  lemma {:induction false} CrossSumOfZeros<R>(metric: (R, R) -> real, xs: seq<R>, ys: seq<R>)
    requires forall i, j :: 0 <= i < |xs| && 0 <= j < |ys| ==> metric(xs[i], ys[j]) == 0.0
    ensures CrossSum(metric, xs, ys) == 0.0
  {
    if xs != [] {
      CrossSumOfZeros(metric, xs[..|xs| - 1], ys);
      RowSumOfZeros(metric, xs[|xs| - 1], ys);
    }
  }

  /** Whatever its sign elsewhere, a metric that is zero on equal values observes no disagreement in constant units. */
  lemma {:induction false} ObservedSumOfConstantUnits<R(!new)>(metric: (R, R) -> real, units: seq<seq<R>>)
    requires ZeroOnEqual(metric) && AllPairable(units)
    requires forall i :: 0 <= i < |units| ==> Constant(units[i])
    ensures ObservedSum(metric, units) == 0.0
  {
    if units != [] {
      var u := units[|units| - 1];
      ObservedSumOfConstantUnits(metric, units[..|units| - 1]);
      forall i, j | 0 <= i < |u| && 0 <= j < |u| ensures metric(u[i], u[j]) == 0.0 {
        assert u[i] == u[j];
      }
      CrossSumOfZeros(metric, u, u);
    }
  }
}
