# Krippendorff's alpha in Dafny

A verified model of `krippendorff_alpha.py`, a Python implementation of
Krippendorff's alpha, the inter-rater reliability coefficient. Several raters
(coders) rate a set of items. Each rater either maps item keys to values or
gives a sequence indexed by item position. The coefficient is one minus the
ratio of the disagreement observed within items to the disagreement expected
among all pairable values. A distance metric, passed in as a function, decides
how far apart two values are.

The model follows the source in five modules:

- `Wrappers` (`wrappers.dfy`): `Option` and `Result`.
- `Metrics` (`metrics.dfy`): the distance metrics, as pure functions over
  exact reals and finite sets:
  - nominal, interval and ratio;
  - dice, iou and masi, for multilabel ratings;
  - with lemmas for symmetry, range, zero exactly on equal arguments, one
    exactly on disjoint sets, and the four masi tiers.
- `Units` (`units.dfy`): normalisation and filtering.
  - The `Group` method mirrors the nested loop that builds the `units`
    dictionary in place. Python's insertion-ordered dict becomes a `Dict` of a
    key order and a map.
  - `Group` is proved equal to the fold `GroupRaters`.
  - `GroupRaters` is related to an item-by-item reference `Kept`: the
    non-missing raw values the raters give an item, in rater order.
  - `Pairable` is the filter that keeps items with two or more values.
  - `DropItem` takes one item out of every rater; grouping the result is the
    full grouping with that item removed, other items in the same order.
- `Disagreement` (`disagreement.dfy`): the `Du`, `Do` and `De` sums.
  - Loop methods (`PairSum`, `Observed`, `Expected`) are proved equal to fold
    functions.
  - Lemmas show that the pair sums are non-negative, zero exactly when every
    pair is at distance zero, bounded by one another, and that the expected
    sum equals the metric summed over all pairs of the pooled values.
- `KrippendorffAlpha` (`alpha.dfy`):
  - `Alpha`, the coefficient as a specification function;
  - `ComputeAlpha`, the whole non-vectorised computation as a method proved
    equal to `Alpha`;
  - the end-to-end properties: when it fails, when it is exactly 1, that it
    is at most 1, its closed form, and which raters and items leave it
    unchanged.

Loose ends that the model fixes:

- Division is Python 3 true division on exact reals; float rounding is not
  modelled.
- A rater mapping is given as its entries in iteration order. `IsMapping`
  states that its keys are distinct.
- Item keys are `IntKey(i)` or `NameKey(s)`. A sequence rater's position `i`
  and a mapping's integer key `i` name the same item, as they do in the
  source's dictionary.
- `missing_items` is `Unset` (None) or `Listed(markers)`. The string form is
  `MissingCharacters(s)`, which splits the string into one-character markers.
- `ComputeAlpha` takes every argument explicitly. The source's defaults are:
  - `interval_metric` as the metric;
  - the identity as `convert_items`;
  - `None` for `missing_items`.

## Model

| member | source | states |
|---|---|---|
| Metrics.Nominal | krippendorff_alpha.py:20-21 | the distance is 0 or 1, and 0 exactly when the two ratings are equal |
| Metrics.NominalSymmetric | krippendorff_alpha.py:20-21 | nominal distance does not depend on argument order |
| Metrics.Interval | krippendorff_alpha.py:24-25 | the squared difference is non-negative and 0 exactly when the ratings are equal |
| Metrics.IntervalSymmetric | krippendorff_alpha.py:24-25 | interval distance does not depend on argument order |
| Metrics.Ratio | krippendorff_alpha.py:28-29 | the squared relative difference is non-negative and 0 exactly when the ratings are equal (for a + b ≠ 0) |
| Metrics.RatioSymmetric | krippendorff_alpha.py:28-29 | ratio distance does not depend on argument order |
| Metrics.RatioAtMostOne | krippendorff_alpha.py:28-29 | on non-negative ratings the ratio distance is at most 1 |
| Metrics.Dice | krippendorff_alpha.py:33-34 | the dice distance lies in [0, 1], is 0 exactly for equal sets and 1 exactly for disjoint sets |
| Metrics.DiceTotal | krippendorff_alpha.py:33-34 | dice with distance 0 between two empty sets: in [0, 1], 0 exactly for equal sets, and dice itself wherever dice is defined |
| Metrics.IouTotal | krippendorff_alpha.py:37-38 | iou with distance 0 between two empty sets: in [0, 1], 0 exactly for equal sets, and iou itself wherever iou is defined |
| Metrics.MasiTotal | krippendorff_alpha.py:41-53 | masi with distance 0 between two empty sets: in [0, 1], 0 exactly for equal sets, and masi itself wherever masi is defined |
| Metrics.DiceSymmetric | krippendorff_alpha.py:33-34 | dice distance does not depend on argument order |
| Metrics.Iou | krippendorff_alpha.py:37-38 | the Jaccard distance lies in [0, 1], is 0 exactly for equal sets and 1 exactly for disjoint sets |
| Metrics.IouSymmetric | krippendorff_alpha.py:37-38 | iou distance does not depend on argument order |
| Metrics.MasiWeight | krippendorff_alpha.py:41-51 | the weight is 1 exactly for equal sets, 0.67 exactly when one set is a proper subset of the other, 0.33 exactly for overlapping sets with neither a subset of the other, 0 exactly for disjoint sets with neither a subset of the other |
| Metrics.Masi | krippendorff_alpha.py:41-53 | the masi distance lies in [0, 1], is 0 exactly for equal sets and 1 exactly for disjoint sets |
| Metrics.MasiSymmetric | krippendorff_alpha.py:41-53 | masi weight and distance do not depend on argument order |
| Metrics.MasiSubsetExample | krippendorff_alpha.py:41-53 | {1, 2} against {1, 2, 3} gets the subset weight 0.67 and distance 1 - 0.67 · 2/3 |
| Units.SplitMarkersMasks | krippendorff_alpha.py:84-85 | a string of markers masks exactly the one-character values made of its characters |
| KrippendorffAlpha.MissingCharacters | krippendorff_alpha.py:82-87 | the string form of missing_items marks exactly the one-character values whose character occurs in it |
| Units.Append | krippendorff_alpha.py:104-109 | looking up or creating an item's list and appending changes only that item's list, which gains the value at its end; a new item goes last in key order; the dictionary invariant is kept |
| Units.AddEntries | krippendorff_alpha.py:102-109 | the inner loop over one rater's entries computes the fold over those entries |
| Units.Group | krippendorff_alpha.py:93-109 | the loops that build the units dictionary compute the fold over raters and entries |
| Units.GroupWellFormed | krippendorff_alpha.py:93-109 | the built dictionary has distinct keys, its key order lists exactly its items, and no item has an empty list |
| Units.GroupEntriesAllMissing | krippendorff_alpha.py:102-103 | a rater whose values are all missing leaves the dictionary unchanged |
| Units.Kept | krippendorff_alpha.py:102-103 | the raw values the raters give an item, skipping missing ones: none of them is a missing marker, and there are no more of them than raters |
| Units.EntriesLookup | krippendorff_alpha.py:95-100 | the entries a rater yields have distinct keys, and looking a key up in them finds what the rater gives that item (a sequence rater keys by position) |
| Units.GroupByLookup | krippendorff_alpha.py:93-109 | every item's list is exactly convert_items applied to the non-missing raw values the raters give it, in rater order; an item is present exactly when some rater gives it a non-missing value |
| Units.Pairable | krippendorff_alpha.py:111 | the filter keeps an item, with its list unchanged, exactly when it has two or more values, and keeps the dictionary invariant |
| Units.PairableValues | krippendorff_alpha.py:111-112 | every retained unit holds at least two values, and there is none exactly when no item has two or more values |
| Units.UnitIsItem | krippendorff_alpha.py:111-112 | each retained unit is the list of an item with two or more values |
| Units.ItemIsUnit | krippendorff_alpha.py:111-112 | the list of each item with two or more values is a retained unit |
| Units.PairableIgnoresNewItem | krippendorff_alpha.py:111 | a first value for a new item leaves the filtered dictionary unchanged |
| Units.DroppedAppendSame | krippendorff_alpha.py:104-109 | appending under the item taken out keeps the dictionary equal, outside that item, to the one built without it |
| Units.DroppedAppendOther | krippendorff_alpha.py:104-109 | appending under any other item keeps the two dictionaries equal outside the item taken out |
| Units.GroupRatersDropped | krippendorff_alpha.py:93-109 | grouping the raters with one item taken out from each gives the full grouping with that item removed from the lists and from the key order, the other items in the same order |
| Units.PairableDropped | krippendorff_alpha.py:111 | when the item taken out has at most one value, the filtered dictionaries, key order included, are equal |
| Units.CountValues | krippendorff_alpha.py:112 | the loop counting pairable values computes n, the sum of the retained lengths |
| Units.TotalLengthOfPairable | krippendorff_alpha.py:112-115 | n is at least twice the number of units, so n is 0 exactly when no unit is left |
| KrippendorffAlpha.PairableUnits | krippendorff_alpha.py:111-112 | the units that reach the disagreement loops all hold two or more values |
| Disagreement.PairSum | krippendorff_alpha.py:124 | the double generator over a unit's values sums the metric over all ordered pairs, self-pairs included |
| Disagreement.Observed | krippendorff_alpha.py:118-126 | the Do loop, before the division by n, computes the sum of each unit's Du over (its size - 1) |
| Disagreement.Expected | krippendorff_alpha.py:131-140 | the De double loop, before the division by n (n - 1), computes the sum over every ordered pair of units of their pair sums |
| Disagreement.ExpectedPooled | krippendorff_alpha.py:131-140 | the expected sum equals the metric summed over all ordered pairs of pooled values, whichever units they come from |
| Disagreement.Concat | krippendorff_alpha.py:112 | the pooled values number exactly n |
| Disagreement.CrossSumZero | krippendorff_alpha.py:124 | for a non-negative metric a pair sum is non-negative, and zero exactly when every pair is at distance zero |
| Disagreement.ObservedSumZero | krippendorff_alpha.py:118-126 | for a non-negative metric the observed sum is non-negative, at most the sum of the units' Du, and zero exactly when every unit's Du is zero |
| Disagreement.ObservedAtMostExpected | krippendorff_alpha.py:118-140 | for a non-negative metric the observed sum never exceeds the expected sum |
| Disagreement.ObservedZeroIffConstant | krippendorff_alpha.py:118-129 | for a metric that is non-negative and zero exactly on equal values, the observed sum is zero exactly when every unit is constant |
| Disagreement.ObservedSumOfConstantUnits | krippendorff_alpha.py:118-126 | for a metric zero on equal values, whatever its other values, constant units give an observed sum of zero |
| KrippendorffAlpha.AlphaFromUnits | krippendorff_alpha.py:112-142 | counting n, the Do loop, the Do == 0 shortcut, the De loop and the final choice compute the result function on the units (that De is skipped when Do is zero is a fact of the method's body, not of its contract) |
| KrippendorffAlpha.ComputeAlpha | krippendorff_alpha.py:56-142 | the whole non-vectorised computation returns exactly the specification result Alpha |
| KrippendorffAlpha.AlphaFromSumsAtMostOne | krippendorff_alpha.py:128-142 | from 0 <= ΣDo <= ΣDe the result is at most 1, and it is 1 only when ΣDo is zero |
| KrippendorffAlpha.AlphaFromSumsClosedForm | krippendorff_alpha.py:118-142 | when both sums are non-zero the result is 1 - (n - 1) · ΣDo / ΣDe |
| KrippendorffAlpha.AlphaFailsIffNoPairableItem | krippendorff_alpha.py:111-115 | the computation fails with the no-items error exactly when no item has two or more values |
| KrippendorffAlpha.AlphaFailsIffNoItemRatedTwice | krippendorff_alpha.py:93-115 | for raters that are mappings, the computation fails exactly when no item has non-missing values from two raters |
| KrippendorffAlpha.AlphaAtMostOne | krippendorff_alpha.py:118-142 | for a non-negative metric alpha is at most 1, and it is 1 only through Do == 0, so the fallback for De == 0 is never taken |
| KrippendorffAlpha.AlphaOneIffPerfectAgreement | krippendorff_alpha.py:118-142 | for a separating metric alpha is 1 exactly when there is a unit and every unit is constant |
| KrippendorffAlpha.UnitsAgreeIffRatersAgree | krippendorff_alpha.py:93-112 | units that are all constant, with at least one unit, is the same as raters agreeing on every item rated at least twice, with at least one such item |
| KrippendorffAlpha.AlphaOneIffRatersAgree | krippendorff_alpha.py:93-142 | for a separating metric alpha is 1 exactly when some item is rated twice and the raters agree on every such item |
| KrippendorffAlpha.AlphaOneWhenRatersAgree | krippendorff_alpha.py:118-129 | for a metric zero on equal values, raters who agree on every item rated twice or more give alpha = 1, or the no-items error |
| KrippendorffAlpha.AlphaIgnoresMissingRater | krippendorff_alpha.py:102-103 | adding a rater whose values are all missing leaves alpha unchanged |
| KrippendorffAlpha.AlphaIgnoresSingleRatedItem | krippendorff_alpha.py:93-112 | an item with a non-missing value from at most one rater does not influence alpha: taking it out of every rater, wherever it sits among that rater's entries, leaves alpha unchanged |
| KrippendorffAlpha.AlphaIgnoresNewSingleRater | krippendorff_alpha.py:111-112 | adding a rater that gives one value, to an item no other rater gave a non-missing value, leaves alpha unchanged |
| KrippendorffAlpha.ExpectedOverPooledValues | krippendorff_alpha.py:131-140 | the expected sum compares every pairable value with every other, taken from the pooled n values |
| KrippendorffAlpha.MetricsSeparate | krippendorff_alpha.py:20-25 | the nominal and interval metrics are non-negative and zero exactly on equal values, so the agreement lemmas apply to them |
| KrippendorffAlpha.SetMetricsSeparate | krippendorff_alpha.py:33-53 | the total dice, iou and masi metrics are non-negative and zero exactly on equal sets, so the agreement lemmas apply to multilabel data |

## Left out

- The numpy branch: the vectorised sums, `force_vecmath` and the masked
  marker appended to `maskitems`. The plain loops define the same sums.
- Floating-point rounding and the `float(...)` casts: all quantities are
  exact reals, and 0.67 and 0.33 are exact constants.
- Division by zero inside the metrics is a precondition, not an exception:
  - `Metrics.Ratio` requires a + b ≠ 0;
  - `Metrics.Dice`, `Metrics.Iou` and `Metrics.Masi` require that the sets
    are not both empty.
- The engine takes the metric as a total function `(R, R) -> real`.
  - A partial metric reaches the engine only through a total wrapper chosen
    by the caller. `DiceTotal`, `IouTotal` and `MasiTotal` are such wrappers,
    with distance 0 between two empty sets.
  - A `ZeroDivisionError` raised by the metric inside the loops is not
    modelled.
- Exceptions raised by `convert_items` are not modelled, because it is a
  total function here.
- Python duck typing between `d.items()` and `enumerate(d)`: a rater is a
  `Keyed` or a `Positional` value instead.
- Item keys other than integers and strings are not modelled. A float or
  bool key such as `1.0` or `True` names the same item as the integer `1` in
  Python; the model has no such keys.
- Invariance of alpha under reordering the raters is not stated. It would need
  permutation reasoning about the dictionary's key order and about
  real-valued sums.
- The `__main__` demo (printing, sample data, and the `eval`-based string
  parser) is I/O and not part of this model.
- Rater mappings whose entry lists repeat a key are not covered by the
  lookup lemmas, since a Python mapping cannot repeat a key.
  - `GroupByLookup`, `AlphaFailsIffNoItemRatedTwice`, `UnitsAgreeIffRatersAgree`,
    `AlphaOneIffRatersAgree`, `AlphaOneWhenRatersAgree`,
    `AlphaIgnoresSingleRatedItem` and `AlphaIgnoresNewSingleRater` require
    `IsMapping`.
