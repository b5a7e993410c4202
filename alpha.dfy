/**
 * krippendorff_alpha, the non-vectorised path: group the raters' values by
 * item, keep the items with two or more values, and compare the observed
 * disagreement within items with the expected disagreement among all
 * pairable values.
 */
module KrippendorffAlpha {
  import opened Wrappers
  import opened Units
  import opened Disagreement
  import Metrics

  /** The ValueError raised when no item has two or more values. */
  datatype AlphaError = NoItemsToCompare

  /** The values of the items with two or more values, item by item in first-seen order. */
  function PairableUnits<V(==), R>(data: seq<Rater<V>>, maskitems: seq<V>, convert: V -> R): (units: seq<seq<R>>)
    ensures AllPairable(units)
  {
    var grouped := GroupRaters(data, maskitems, convert);
    GroupWellFormed(data, maskitems, convert);
    PairableValues(grouped);
    Values(Pairable(grouped))
  }

  /**
   * The last steps, from the two sums and the number n of pairable values:
   * Do and De are the sums over n and over n (n - 1); alpha is 1 when Do is
   * zero, else 1 - Do / De, and 1 again should De be zero.
   */
  function AlphaFromSums(observedSum: real, expectedSum: real, n: nat): real
    requires n >= 2
  {
    assert n * (n - 1) > 0;
    var observed := observedSum / (n as real);
    if observed == 0.0 then 1.0
    else
      var expected := expectedSum / ((n * (n - 1)) as real);
      if observed != 0.0 && expected != 0.0 then 1.0 - observed / expected else 1.0
  }

  /** Alpha from the pairable units, or the error when there are none. */
  function AlphaOf<R>(metric: (R, R) -> real, units: seq<seq<R>>): Result<real, AlphaError>
    requires AllPairable(units)
  {
    var n := TotalLength(units);
    if n == 0 then Failure(NoItemsToCompare)
    else
      TotalLengthOfPairable(units);
      Success(AlphaFromSums(ObservedSum(metric, units), ExpectedSum(metric, units, units), n))
  }

  /** Krippendorff's alpha for data under metric, or the error raised when no value can be paired. */
  function Alpha<V(==), R>(data: seq<Rater<V>>, metric: (R, R) -> real, convert: V -> R, maskitems: seq<V>): Result<real, AlphaError>
  {
    AlphaOf(metric, PairableUnits(data, maskitems, convert))
  }

  /** Counting the pairable values and comparing Do with De, as the source does once the units are built. */
  method AlphaFromUnits<R>(metric: (R, R) -> real, units: seq<seq<R>>) returns (alpha: Result<real, AlphaError>)
    requires AllPairable(units)
    ensures alpha == AlphaOf(metric, units)
  {
    var n := CountValues(units);
    if n == 0 {
      return Failure(NoItemsToCompare);
    }
    TotalLengthOfPairable(units);
    assert n * (n - 1) > 0;
    var observed := Observed(metric, units);
    observed := observed / (n as real);
    if observed == 0.0 {
      return Success(1.0);
    }
    var expected := Expected(metric, units);
    expected := expected / ((n * (n - 1)) as real);
    if observed != 0.0 && expected != 0.0 {
      alpha := Success(1.0 - observed / expected);
    } else {
      alpha := Success(1.0);
    }
  }

  /** The whole computation, step by step as krippendorff_alpha performs it. */
  method ComputeAlpha<V(==), R>(data: seq<Rater<V>>, metric: (R, R) -> real, convert: V -> R, missing: MissingItems<V>)
    returns (alpha: Result<real, AlphaError>)
    ensures alpha == Alpha(data, metric, convert, MaskItems(missing))
  {
    var maskitems := MaskItems(missing);
    var grouped := Group(data, maskitems, convert);
    GroupWellFormed(data, maskitems, convert);
    PairableValues(grouped);
    var units := Values(Pairable(grouped));
    assert units == PairableUnits(data, maskitems, convert);
    alpha := AlphaFromUnits(metric, units);
  }

  /** The string form of missing_items: each of its characters marks a missing value. */
  function MissingCharacters(s: string): (missing: MissingItems<string>)
    ensures forall g :: g in MaskItems(missing) <==> |g| == 1 && g[0] in s
  {
    forall g ensures g in SplitMarkers(s) <==> |g| == 1 && g[0] in s {
      SplitMarkersMasks(s, g);
    }
    Listed(SplitMarkers(s))
  }

  // When alpha is undefined.

  lemma AlphaOfFails<R>(metric: (R, R) -> real, units: seq<seq<R>>)
    requires AllPairable(units)
    ensures AlphaOf(metric, units).Failure? <==> units == []
  {
    TotalLengthOfPairable(units);
  }

  /** Computing alpha fails exactly when no item has two or more values after grouping. */
  lemma AlphaFailsIffNoPairableItem<V, R>(data: seq<Rater<V>>, metric: (R, R) -> real, convert: V -> R, maskitems: seq<V>)
    ensures Alpha(data, metric, convert, maskitems).Failure?
      <==> forall k :: |ListOf(GroupRaters(data, maskitems, convert), k)| <= 1
  {
    var grouped := GroupRaters(data, maskitems, convert);
    var units := PairableUnits(data, maskitems, convert);
    GroupWellFormed(data, maskitems, convert);
    AlphaOfFails(metric, units);
    assert Alpha(data, metric, convert, maskitems) == AlphaOf(metric, units);
    if units != [] {
      UnitIsItem(grouped, 0);
      var first := Pairable(grouped).keys[0];
      assert |ListOf(GroupRaters(data, maskitems, convert), first)| > 1;
    } else {
      forall k ensures |ListOf(grouped, k)| <= 1 {
        if |ListOf(grouped, k)| > 1 {
          var i := ItemIsUnit(grouped, k);
          assert false;
        }
      }
    }
  }

  /** In terms of the raters: computing alpha fails exactly when no item has a non-missing value from two raters. */
  lemma AlphaFailsIffNoItemRatedTwice<V, R>(data: seq<Rater<V>>, metric: (R, R) -> real, convert: V -> R, maskitems: seq<V>)
    requires forall i :: 0 <= i < |data| ==> IsMapping(data[i])
    ensures Alpha(data, metric, convert, maskitems).Failure? <==> forall k :: |Kept(data, k, maskitems)| <= 1
  {
    var grouped := GroupRaters(data, maskitems, convert);
    AlphaFailsIffNoPairableItem(data, metric, convert, maskitems);
    if exists k :: |Kept(data, k, maskitems)| > 1 {
      var k :| |Kept(data, k, maskitems)| > 1;
      GroupByLookupAt(data, maskitems, convert, k);
      assert |ListOf(grouped, k)| > 1;
    }
    if exists k :: |ListOf(grouped, k)| > 1 {
      var k :| |ListOf(grouped, k)| > 1;
      GroupByLookupAt(data, maskitems, convert, k);
      assert |Kept(data, k, maskitems)| > 1;
    }
  }

  // The value of alpha.

  lemma QuotientSigns(x: real, y: real)
    requires x >= 0.0 && y > 0.0
    ensures x / y >= 0.0
    ensures x / y == 0.0 <==> x == 0.0
  {
    var q := x / y;
    assert q * y == x;
    assert q < 0.0 ==> q * y < 0.0;
  }

  /** A non-zero factor cancels. */
  lemma CancelFactor(x: real, y: real, f: real)
    requires f != 0.0 && x * f == y * f
    ensures x == y
  {
    assert (x - y) * f == 0.0;
  }

  lemma QuotientOfShares(o: real, e: real, n: int)
    requires n >= 2 && o != 0.0 && e != 0.0
    ensures n * (n - 1) > 0
    ensures (o / (n as real)) / (e / ((n * (n - 1)) as real)) == ((n - 1) as real) * o / e
  {
    var bigN := n as real;
    var m := (n * (n - 1)) as real;
    assert m == bigN * (bigN - 1.0);
    var a := o / bigN;
    var b := e / m;
    assert a * bigN == o;
    assert b * m == e;
    var q := a / b;
    assert q * b == a;
    assert q * e == (q * b) * m;
    assert a * m == (a * bigN) * (bigN - 1.0);
    var r := ((n - 1) as real) * o / e;
    assert r * e == (bigN - 1.0) * o;
    CancelFactor(q, r, e);
  }

  /**
   * When both sums are non-zero, alpha is the textbook 1 - (n - 1) o / e,
   * with o the observed and e the expected sum before their divisions.
   */
  lemma AlphaFromSumsClosedForm(o: real, e: real, n: nat)
    requires n >= 2 && o != 0.0 && e != 0.0
    ensures AlphaFromSums(o, e, n) == 1.0 - ((n - 1) as real) * o / e
  {
    QuotientOfShares(o, e, n);
    assert (o / (n as real)) * (n as real) == o;
    assert (e / ((n * (n - 1)) as real)) * ((n * (n - 1)) as real) == e;
  }

  /** n (n - 1) > 0, stated apart so that the solver meets this product without the sums around it. */
  lemma PairCountPositive(n: int)
    requires n >= 2
    ensures n * (n - 1) > 0
  {
  }

  /** Once 0 <= o <= e, the result is at most 1, and it is 1 only when o is zero. */
  lemma AlphaFromSumsAtMostOne(o: real, e: real, n: nat)
    requires n >= 2 && 0.0 <= o <= e
    ensures AlphaFromSums(o, e, n) <= 1.0
    ensures AlphaFromSums(o, e, n) == 1.0 ==> o == 0.0
  {
    PairCountPositive(n);
    QuotientSigns(o, n as real);
    QuotientSigns(e, (n * (n - 1)) as real);
    var observed := o / (n as real);
    var expected := e / ((n * (n - 1)) as real);
    if observed != 0.0 {
      assert o > 0.0 && e > 0.0;
      QuotientSigns(observed, expected);
    }
  }

  /** For a non-negative metric alpha is at most 1, and the fallback for a zero expected disagreement is never taken. */
  lemma AlphaAtMostOne<V, R(!new)>(data: seq<Rater<V>>, metric: (R, R) -> real, convert: V -> R, maskitems: seq<V>)
    requires NonNegative(metric)
    ensures Alpha(data, metric, convert, maskitems).Success? ==> Alpha(data, metric, convert, maskitems).value <= 1.0
    ensures Alpha(data, metric, convert, maskitems) == Success(1.0) ==> ObservedSum(metric, PairableUnits(data, maskitems, convert)) == 0.0
  {
    var units := PairableUnits(data, maskitems, convert);
    var n := TotalLength(units);
    if n != 0 {
      TotalLengthOfPairable(units);
      ObservedAtMostExpected(metric, units);
      AlphaFromSumsAtMostOne(ObservedSum(metric, units), ExpectedSum(metric, units, units), n);
    }
  }

  /** There is a unit to compare, and every unit is constant. */
  ghost predicate UnitsAgree<R>(units: seq<seq<R>>)
  {
    units != [] && forall i :: 0 <= i < |units| ==> Constant(units[i])
  }

  /** Some item has non-missing values from two raters, and every such item got one converted value from all of them. */
  ghost predicate RatersAgree<V, R>(data: seq<Rater<V>>, convert: V -> R, maskitems: seq<V>)
  {
    && (exists k :: |Kept(data, k, maskitems)| > 1)
    && (forall k :: |Kept(data, k, maskitems)| > 1 ==> Constant(Converted(convert, Kept(data, k, maskitems))))
  }

  /**
   * For a separating metric alpha is exactly 1 when, and only when, there is
   * something to compare and every pairable item got the same value from all
   * raters who rated it.
   */
  lemma AlphaOneIffPerfectAgreement<V, R(!new)>(data: seq<Rater<V>>, metric: (R, R) -> real, convert: V -> R, maskitems: seq<V>)
    requires Separating(metric)
    ensures Alpha(data, metric, convert, maskitems) == Success(1.0) <==> UnitsAgree(PairableUnits(data, maskitems, convert))
  {
    var units := PairableUnits(data, maskitems, convert);
    assert NonNegative(metric);
    AlphaAtMostOne(data, metric, convert, maskitems);
    ObservedZeroIffConstant(metric, units);
    TotalLengthOfPairable(units);
    if units != [] {
      var n := TotalLength(units);
      ObservedSumZero(metric, units);
      QuotientSigns(ObservedSum(metric, units), n as real);
    }
  }

  lemma SomeUnitIffItemRatedTwice<V, R>(data: seq<Rater<V>>, convert: V -> R, maskitems: seq<V>)
    requires forall i :: 0 <= i < |data| ==> IsMapping(data[i])
    ensures PairableUnits(data, maskitems, convert) != [] <==> exists k :: |Kept(data, k, maskitems)| > 1
  {
    var grouped := GroupRaters(data, maskitems, convert);
    GroupWellFormed(data, maskitems, convert);
    PairableValues(grouped);
    if exists k :: |Kept(data, k, maskitems)| > 1 {
      var k :| |Kept(data, k, maskitems)| > 1;
      GroupByLookupAt(data, maskitems, convert, k);
      assert |ListOf(grouped, k)| > 1;
    }
    if PairableUnits(data, maskitems, convert) != [] {
      var k :| |ListOf(grouped, k)| > 1;
      GroupByLookupAt(data, maskitems, convert, k);
      assert |Kept(data, k, maskitems)| > 1;
    }
  }

  lemma ItemConstantFromUnits<V, R>(data: seq<Rater<V>>, convert: V -> R, maskitems: seq<V>, k: Key)
    requires forall i :: 0 <= i < |data| ==> IsMapping(data[i])
    requires forall i :: 0 <= i < |PairableUnits(data, maskitems, convert)| ==> Constant(PairableUnits(data, maskitems, convert)[i])
    requires |Kept(data, k, maskitems)| > 1
    ensures Constant(Converted(convert, Kept(data, k, maskitems)))
  {
    var grouped := GroupRaters(data, maskitems, convert);
    GroupWellFormed(data, maskitems, convert);
    GroupByLookupAt(data, maskitems, convert, k);
    var i := ItemIsUnit(grouped, k);
    assert PairableUnits(data, maskitems, convert)[i] == ListOf(grouped, k);
  }

  lemma UnitConstantFromItems<V, R>(data: seq<Rater<V>>, convert: V -> R, maskitems: seq<V>, i: nat)
    requires forall i :: 0 <= i < |data| ==> IsMapping(data[i])
    requires forall k :: |Kept(data, k, maskitems)| > 1 ==> Constant(Converted(convert, Kept(data, k, maskitems)))
    requires i < |PairableUnits(data, maskitems, convert)|
    ensures Constant(PairableUnits(data, maskitems, convert)[i])
  {
    var grouped := GroupRaters(data, maskitems, convert);
    GroupWellFormed(data, maskitems, convert);
    UnitIsItem(grouped, i);
    var k := Pairable(grouped).keys[i];
    GroupByLookupAt(data, maskitems, convert, k);
    assert |Kept(data, k, maskitems)| > 1;
  }

  lemma ItemsConstantFromUnits<V, R>(data: seq<Rater<V>>, convert: V -> R, maskitems: seq<V>)
    requires forall i :: 0 <= i < |data| ==> IsMapping(data[i])
    requires forall i :: 0 <= i < |PairableUnits(data, maskitems, convert)| ==> Constant(PairableUnits(data, maskitems, convert)[i])
    ensures forall k :: |Kept(data, k, maskitems)| > 1 ==> Constant(Converted(convert, Kept(data, k, maskitems)))
  {
    forall k | |Kept(data, k, maskitems)| > 1 ensures Constant(Converted(convert, Kept(data, k, maskitems))) {
      ItemConstantFromUnits(data, convert, maskitems, k);
    }
  }

  lemma UnitsConstantFromItems<V, R>(data: seq<Rater<V>>, convert: V -> R, maskitems: seq<V>)
    requires forall i :: 0 <= i < |data| ==> IsMapping(data[i])
    requires forall k :: |Kept(data, k, maskitems)| > 1 ==> Constant(Converted(convert, Kept(data, k, maskitems)))
    ensures forall i :: 0 <= i < |PairableUnits(data, maskitems, convert)| ==> Constant(PairableUnits(data, maskitems, convert)[i])
  {
    forall i | 0 <= i < |PairableUnits(data, maskitems, convert)| ensures Constant(PairableUnits(data, maskitems, convert)[i]) {
      UnitConstantFromItems(data, convert, maskitems, i);
    }
  }

  /** Agreement within the units left by the filter is agreement of the raters on every item rated twice or more. */
  lemma UnitsAgreeIffRatersAgree<V, R>(data: seq<Rater<V>>, convert: V -> R, maskitems: seq<V>)
    requires forall i :: 0 <= i < |data| ==> IsMapping(data[i])
    ensures UnitsAgree(PairableUnits(data, maskitems, convert)) <==> RatersAgree(data, convert, maskitems)
  {
    SomeUnitIffItemRatedTwice(data, convert, maskitems);
    if UnitsAgree(PairableUnits(data, maskitems, convert)) {
      ItemsConstantFromUnits(data, convert, maskitems);
    }
    if RatersAgree(data, convert, maskitems) {
      assert exists k :: |Kept(data, k, maskitems)| > 1;
      UnitsConstantFromItems(data, convert, maskitems);
    }
  }

  /**
   * In terms of the raters: for a separating metric alpha is exactly 1 when,
   * and only when, some item has non-missing values from two raters and every
   * such item got the same converted value from all raters who rated it.
   */
  lemma AlphaOneIffRatersAgree<V, R(!new)>(data: seq<Rater<V>>, metric: (R, R) -> real, convert: V -> R, maskitems: seq<V>)
    requires Separating(metric)
    requires forall i :: 0 <= i < |data| ==> IsMapping(data[i])
    ensures Alpha(data, metric, convert, maskitems) == Success(1.0) <==> RatersAgree(data, convert, maskitems)
  {
    AlphaOneIffPerfectAgreement(data, metric, convert, maskitems);
    UnitsAgreeIffRatersAgree(data, convert, maskitems);
  }

  /**
   * A metric that is zero on equal values, whatever its other values, gives
   * alpha = 1 through the Do == 0 shortcut whenever every item rated twice or
   * more got one converted value from all its raters (or fails when there is
   * no such item).
   */
  lemma AlphaOneWhenRatersAgree<V, R(!new)>(data: seq<Rater<V>>, metric: (R, R) -> real, convert: V -> R, maskitems: seq<V>)
    requires ZeroOnEqual(metric)
    requires forall i :: 0 <= i < |data| ==> IsMapping(data[i])
    requires forall k :: |Kept(data, k, maskitems)| > 1 ==> Constant(Converted(convert, Kept(data, k, maskitems)))
    ensures Alpha(data, metric, convert, maskitems) == Success(1.0)
      || Alpha(data, metric, convert, maskitems) == Failure(NoItemsToCompare)
  {
    var units := PairableUnits(data, maskitems, convert);
    UnitsConstantFromItems(data, convert, maskitems);
    ObservedSumOfConstantUnits(metric, units);
  }

  // Items and raters that do not change alpha.

  /** A rater whose values are all missing does not change alpha. */
  lemma AlphaIgnoresMissingRater<V, R>(data: seq<Rater<V>>, r: Rater<V>, metric: (R, R) -> real, convert: V -> R, maskitems: seq<V>)
    requires forall i :: 0 <= i < |Entries(r)| ==> Entries(r)[i].1 in maskitems
    ensures Alpha(data + [r], metric, convert, maskitems) == Alpha(data, metric, convert, maskitems)
  {
    assert (data + [r])[..|data|] == data;
    GroupEntriesAllMissing(GroupRaters(data, maskitems, convert), Entries(r), maskitems, convert);
  }

  /**
   * An item that at most one rater rated (with a non-missing value) cannot be
   * paired: taking it out of every rater, wherever it sits in their entries,
   * leaves alpha unchanged.
   */
  lemma AlphaIgnoresSingleRatedItem<V, R>(data: seq<Rater<V>>, k: Key, metric: (R, R) -> real, convert: V -> R, maskitems: seq<V>)
    requires forall i :: 0 <= i < |data| ==> IsMapping(data[i])
    requires |Kept(data, k, maskitems)| <= 1
    ensures Alpha(DropItem(data, k), metric, convert, maskitems) == Alpha(data, metric, convert, maskitems)
  {
    GroupRatersDropped(data, maskitems, convert, k);
    GroupByLookupAt(data, maskitems, convert, k);
    PairableDropped(GroupRaters(data, maskitems, convert), GroupRaters(DropItem(data, k), maskitems, convert), k);
  }

  /** A value for an item that no other rater rated cannot be paired, so a rater giving just that value does not change alpha. */
  lemma AlphaIgnoresNewSingleRater<V, R>(data: seq<Rater<V>>, k: Key, g: V, metric: (R, R) -> real, convert: V -> R, maskitems: seq<V>)
    requires forall i :: 0 <= i < |data| ==> IsMapping(data[i])
    requires Kept(data, k, maskitems) == []
    ensures Alpha(data + [Keyed([(k, g)])], metric, convert, maskitems) == Alpha(data, metric, convert, maskitems)
  {
    var grouped := GroupRaters(data, maskitems, convert);
    var es := [(k, g)];
    GroupRatersSnoc(data, Keyed(es), maskitems, convert);
    assert es[..0] == [];
    GroupByLookupAt(data, maskitems, convert, k);
    GroupWellFormed(data, maskitems, convert);
    if g !in maskitems {
      assert k !in grouped.lists;
      assert GroupEntries(grouped, es, maskitems, convert) == Append(grouped, k, convert(g));
      PairableIgnoresNewItem(grouped, k, convert(g));
    }
  }

  // The expected disagreement pools all pairable values.

  /** De compares every pairable value with every other, wherever they come from, over the n values. */
  lemma ExpectedOverPooledValues<V, R>(data: seq<Rater<V>>, metric: (R, R) -> real, convert: V -> R, maskitems: seq<V>)
    ensures var units := PairableUnits(data, maskitems, convert);
      && ExpectedSum(metric, units, units) == CrossSum(metric, Concat(units), Concat(units))
      && |Concat(units)| == TotalLength(units)
  {
    var units := PairableUnits(data, maskitems, convert);
    ExpectedPooled(metric, units, units);
  }

  // The metrics as the engine takes them.

  /** The nominal and interval metrics are separating, so perfect agreement is exactly alpha = 1 under them. */
  lemma MetricsSeparate<T(!new)>()
    ensures Separating((a: T, b: T) => Metrics.Nominal(a, b))
    ensures Separating((a: real, b: real) => Metrics.Interval(a, b))
  {
  }

  /**
   * The set metrics, made total by a distance of 0 between two empty sets,
   * are separating too, so the agreement results hold for multilabel data.
   */
  lemma SetMetricsSeparate<T(!new)>()
    ensures Separating((a: set<T>, b: set<T>) => Metrics.DiceTotal(a, b))
    ensures Separating((a: set<T>, b: set<T>) => Metrics.IouTotal(a, b))
    ensures Separating((a: set<T>, b: set<T>) => Metrics.MasiTotal(a, b))
  {
  }
}
