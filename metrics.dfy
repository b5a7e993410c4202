/**
 * The pairwise distance metrics of krippendorff_alpha.py. Every metric is a
 * pure function of two ratings; quantities are exact reals, so Python's
 * floating-point rounding is not modelled. The set metrics take finite sets,
 * which is what `set(a)` makes of the ratings.
 */
module Metrics {

  /** nominal_metric: `a != b`, a bool that the sums count as 0 or 1. */
  function Nominal<T(==)>(a: T, b: T): (r: real)
    ensures r == 0.0 || r == 1.0
    ensures r == 0.0 <==> a == b
  {
    if a != b then 1.0 else 0.0
  }

  /**
   * The product of two reals. The solver's nonlinear arithmetic does not find
   * the sign of x * x on its own; behind this function each sign fact is a
   * separate lemma proved by the solver in isolation.
   */
  function Product(x: real, y: real): real
  {
    x * y
  }

  lemma ProductPositive(x: real, y: real)
    requires x > 0.0 && y > 0.0
    ensures Product(x, y) > 0.0
  {
  }

  lemma ProductNonNegative(x: real, y: real)
    requires x >= 0.0 && y >= 0.0
    ensures Product(x, y) >= 0.0
  {
  }

  /** Python's `x ** 2`. */
  function Square(x: real): (r: real)
    ensures r >= 0.0
    ensures r == 0.0 <==> x == 0.0
  {
    if x > 0.0 then ProductPositive(x, x); Product(x, x)
    else if x < 0.0 then
      assert Product(x, x) == Product(-x, -x);
      ProductPositive(-x, -x);
      Product(x, x)
    else Product(x, x)
  }

  lemma SquareAtMostOne(x: real)
    requires -1.0 <= x <= 1.0
    ensures Square(x) <= 1.0
  {
    if x >= 0.0 {
      ProductNonNegative(x, 1.0 - x);
      assert Product(x, 1.0 - x) == x - Product(x, x);
    } else {
      ProductNonNegative(-x, 1.0 + x);
      assert Product(-x, 1.0 + x) == -x - Product(x, x);
    }
  }

  /** A quotient whose numerator is no larger in magnitude than its positive denominator. */
  lemma QuotientBound(n: real, d: real)
    requires d > 0.0 && -d <= n <= d
    ensures -1.0 <= n / d <= 1.0
  {
  }

  lemma QuotientNegate(n: real, d: real)
    requires d != 0.0
    ensures (-n) / d == -(n / d)
  {
  }

  /** interval_metric: the squared difference. */
  function Interval(a: real, b: real): (r: real)
    ensures r >= 0.0
    ensures r == 0.0 <==> a == b
  {
    Square(a - b)
  }

  /** ratio_metric: the squared relative difference; Python divides by zero when a + b == 0. */
  function Ratio(a: real, b: real): (r: real)
    requires a + b != 0.0
    ensures r >= 0.0
    ensures r == 0.0 <==> a == b
  {
    var q := (a - b) / (a + b);
    assert q == 0.0 <==> a - b == 0.0;
    Square(q)
  }

  lemma NominalSymmetric<T>(a: T, b: T)
    ensures Nominal(a, b) == Nominal(b, a)
  {
  }

  lemma IntervalSymmetric(a: real, b: real)
    ensures Interval(a, b) == Interval(b, a)
  {
    assert Product(a - b, a - b) == Product(b - a, b - a);
  }

  lemma RatioSymmetric(a: real, b: real)
    requires a + b != 0.0
    ensures Ratio(a, b) == Ratio(b, a)
  {
    var q := (a - b) / (a + b);
    assert b - a == -(a - b) && b + a == a + b;
    QuotientNegate(a - b, a + b);
    assert Product(q, q) == Product(-q, -q);
  }

  /** On non-negative ratings (the case the metric is meant for) the ratio distance is at most 1. */
  lemma RatioAtMostOne(a: real, b: real)
    requires a >= 0.0 && b >= 0.0 && a + b != 0.0
    ensures Ratio(a, b) <= 1.0
  {
    QuotientBound(a - b, a + b);
    SquareAtMostOne((a - b) / (a + b));
  }

  // Facts about finite sets and fractions that the set metrics rest on.

  /** The intersection is no larger than either set, and as large as one of them exactly when that one is a subset of the other. */
  lemma IntersectionSize<T>(a: set<T>, b: set<T>)
    ensures |a * b| <= |a| && |a * b| <= |b|
    ensures |a * b| == |a| <==> a <= b
    ensures |a * b| == |b| <==> b <= a
    ensures |a + b| == |a| + |b| - |a * b|
  {
    assert a * b <= a && a * b <= b;
    assert |a - b| == |a| - |a * b|;
    assert |b - a| == |b| - |a * b|;
    if |a * b| == |a| {
      assert |a - b| == 0;
      assert a - b == {};
      assert forall x :: x in a ==> x in b by {
        forall x | x in a ensures x in b {
          assert x !in b ==> x in a - b;
        }
      }
    }
    if |a * b| == |b| {
      assert |b - a| == 0;
      assert b - a == {};
      assert forall x :: x in b ==> x in a by {
        forall x | x in b ensures x in a {
          assert x !in a ==> x in b - a;
        }
      }
    }
    if a <= b { assert a * b == a; }
    if b <= a { assert a * b == b; }
  }

  /** Twice the intersection is at most the sum of the sizes, and equal to it exactly for equal sets. */
  lemma DoubleIntersection<T>(a: set<T>, b: set<T>)
    ensures 2 * |a * b| <= |a| + |b|
    ensures 2 * |a * b| == |a| + |b| <==> a == b
  {
    IntersectionSize(a, b);
    if 2 * |a * b| == |a| + |b| {
      assert |a * b| == |a| && |a * b| == |b|;
    }
  }

  /** A weighted share m * p / s of a positive total s. */
  lemma Share(m: real, p: real, s: real)
    requires 0.0 <= m <= 1.0 && 0.0 <= p <= s && s > 0.0
    ensures 0.0 <= m * p / s <= 1.0
    ensures m * p / s == 1.0 <==> m == 1.0 && p == s
    ensures m * p / s == 0.0 <==> m == 0.0 || p == 0.0
  {
    var f := p / s;
    assert f * s == p;
    assert 0.0 <= f <= 1.0 by {
      assert f > 1.0 ==> f * s > s;
      assert f < 0.0 ==> f * s < 0.0;
    }
    assert f == 1.0 <==> p == s;
    assert f == 0.0 <==> p == 0.0;
    assert m * p / s == m * f;
    assert m * f <= f by { assert m * f <= 1.0 * f; }
    assert m * f <= m by { assert m * f <= m * 1.0; }
    if m * f == 1.0 {
      assert f == 1.0 && m == 1.0;
    }
  }

  /** The share 2 c / t of a positive total t that is at least 2 c. */
  lemma DiceShare(c: nat, t: nat)
    requires 0 < t && 2 * c <= t
    ensures 0.0 <= 2.0 * (c as real) / (t as real) <= 1.0
    ensures 2.0 * (c as real) / (t as real) == 1.0 <==> 2 * c == t
    ensures 2.0 * (c as real) / (t as real) == 0.0 <==> c == 0
  {
    assert 2.0 * (c as real) == (2 * c) as real;
    Share(1.0, (2 * c) as real, t as real);
  }

  /** dice_metric: 1 - 2|A ∩ B| / (|A| + |B|); Python divides by zero when both sets are empty. */
  function Dice<T>(a: set<T>, b: set<T>): (r: real)
    requires a != {} || b != {}
    ensures 0.0 <= r <= 1.0
    ensures r == 0.0 <==> a == b
    ensures r == 1.0 <==> a * b == {}
  {
    var common, total := |a * b|, |a| + |b|;
    assert total > 0 by { if a != {} { assert |a| > 0; } else { assert |b| > 0; } }
    DoubleIntersection(a, b);
    DiceShare(common, total);
    1.0 - 2.0 * (common as real) / (total as real)
  }

  /** iou_metric: 1 - |A ∩ B| / |A ∪ B| (Jaccard distance); Python divides by zero when both sets are empty. */
  function Iou<T>(a: set<T>, b: set<T>): (r: real)
    requires a != {} || b != {}
    ensures 0.0 <= r <= 1.0
    ensures r == 0.0 <==> a == b
    ensures r == 1.0 <==> a * b == {}
  {
    IntersectionSize(a, b);
    assert |a + b| > 0 by { if a != {} { assert |a + b| >= |a| > 0; } else { assert |a + b| >= |b| > 0; } }
    Share(1.0, |a * b| as real, |a + b| as real);
    assert |a * b| == |a + b| <==> a == b;
    1.0 - (|a * b| as real) / (|a + b| as real)
  }

  function Min(x: int, y: int): int
  {
    if x <= y then x else y
  }

  /**
   * The partial-credit weight of masi_metric, chosen by the overlap of the two
   * sets: 1 when they are equal, 0.67 when one is a proper subset of the other,
   * 0.33 when they overlap otherwise, and 0 when they are disjoint and neither
   * is a subset of the other.
   */
  function MasiWeight<T>(a: set<T>, b: set<T>): (m: real)
    ensures m == 1.0 <==> a == b
    ensures m == 0.67 <==> a != b && (a <= b || b <= a)
    ensures m == 0.33 <==> a * b != {} && !(a <= b) && !(b <= a)
    ensures m == 0.0 <==> a * b == {} && !(a <= b) && !(b <= a)
  {
    IntersectionSize(a, b);
    var inter := a * b;
    if |a| == |b| && |a| == |inter| then 1.0
    else if |inter| == Min(|a|, |b|) then 0.67
    else if |inter| > 0 then 0.33
    else 0.0
  }

  /** masi_metric: 1 - m |A ∩ B| / |A ∪ B| with m the overlap weight; Python divides by zero when both sets are empty. */
  function Masi<T>(a: set<T>, b: set<T>): (r: real)
    requires a != {} || b != {}
    ensures 0.0 <= r <= 1.0
    ensures r == 0.0 <==> a == b
    ensures r == 1.0 <==> a * b == {}
  {
    IntersectionSize(a, b);
    assert |a + b| > 0 by { if a != {} { assert |a + b| >= |a| > 0; } else { assert |a + b| >= |b| > 0; } }
    var m := MasiWeight(a, b);
    Share(m, |a * b| as real, |a + b| as real);
    assert |a * b| == |a + b| <==> a == b;
    assert m == 0.0 ==> a * b == {};
    1.0 - m * (|a * b| as real) / (|a + b| as real)
  }

  // The set metrics made total: the engine takes a metric defined on every
  // pair, so a caller puts distance 0 between two empty sets, where the
  // Python metrics divide by zero.

  function DiceTotal<T>(a: set<T>, b: set<T>): (r: real)
    ensures 0.0 <= r <= 1.0
    ensures r == 0.0 <==> a == b
    ensures a != {} || b != {} ==> r == Dice(a, b)
  {
    if a == {} && b == {} then 0.0 else Dice(a, b)
  }

  function IouTotal<T>(a: set<T>, b: set<T>): (r: real)
    ensures 0.0 <= r <= 1.0
    ensures r == 0.0 <==> a == b
    ensures a != {} || b != {} ==> r == Iou(a, b)
  {
    if a == {} && b == {} then 0.0 else Iou(a, b)
  }

  function MasiTotal<T>(a: set<T>, b: set<T>): (r: real)
    ensures 0.0 <= r <= 1.0
    ensures r == 0.0 <==> a == b
    ensures a != {} || b != {} ==> r == Masi(a, b)
  {
    if a == {} && b == {} then 0.0 else Masi(a, b)
  }

  lemma DiceSymmetric<T>(a: set<T>, b: set<T>)
    requires a != {} || b != {}
    ensures Dice(a, b) == Dice(b, a)
  {
    assert a * b == b * a;
  }

  lemma IouSymmetric<T>(a: set<T>, b: set<T>)
    requires a != {} || b != {}
    ensures Iou(a, b) == Iou(b, a)
  {
    assert a * b == b * a && a + b == b + a;
  }

  lemma MasiSymmetric<T>(a: set<T>, b: set<T>)
    requires a != {} || b != {}
    ensures MasiWeight(a, b) == MasiWeight(b, a)
    ensures Masi(a, b) == Masi(b, a)
  {
    assert a * b == b * a && a + b == b + a;
  }

  /** A subset pair scores the 0.67 tier: masi({1,2}, {1,2,3}) = 1 - 0.67 * 2/3. */
  lemma MasiSubsetExample()
    ensures MasiWeight({1, 2}, {1, 2, 3}) == 0.67
    ensures Masi({1, 2}, {1, 2, 3}) == 1.0 - 0.67 * 2.0 / 3.0
  {
    var a: set<int> := {1, 2};
    var b: set<int> := {1, 2, 3};
    assert a <= b && a != b by { assert 3 in b && 3 !in a; }
    assert a * b == a && a + b == b;
    assert |a| == 2 && |b| == 3;
  }
}
