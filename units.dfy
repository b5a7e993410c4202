/**
 * Normalisation and filtering of krippendorff_alpha.py: the rater input is
 * turned into a dictionary from item key to the list of that item's
 * (converted, non-missing) ratings, and items with fewer than two ratings are
 * dropped.
 */
module Units {
  import opened Wrappers

  /**
   * An item key. A rater given as a sequence keys its ratings by position
   * (IntKey); a rater given as a mapping may use integer keys, which then
   * denote the same items as positions do, or named keys.
   */
  datatype Key = IntKey(value: int) | NameKey(name: string)

  /**
   * One rater (coder): either a mapping from item key to raw value, given as
   * its entries in iteration order, or a sequence indexed by item position.
   */
  datatype Rater<V> = Keyed(entries: seq<(Key, V)>) | Positional(values: seq<V>)

  /** The (item, raw value) pairs a rater yields: `d.items()`, or `enumerate(d)` for a sequence. */
  function Entries<V>(r: Rater<V>): seq<(Key, V)>
  {
    match r
    case Keyed(es) => es
    case Positional(vs) => seq(|vs|, i requires 0 <= i < |vs| => (IntKey(i), vs[i]))
  }

  /** The `missing_items` option: None, or a list of marker values. */
  datatype MissingItems<V> = Unset | Listed(markers: seq<V>)

  /** The marker list `maskitems` built from `missing_items`. */
  function MaskItems<V>(missing: MissingItems<V>): seq<V>
  {
    match missing
    case Unset => []
    case Listed(markers) => markers
  }

  /** `list(missing_items)` for a string: each character becomes a one-character marker. */
  function SplitMarkers(s: string): seq<string>
  {
    seq(|s|, i requires 0 <= i < |s| => [s[i]])
  }

  /** A raw value is masked by a split string exactly when it is one of that string's characters. */
  lemma SplitMarkersMasks(s: string, g: string)
    ensures g in SplitMarkers(s) <==> |g| == 1 && g[0] in s
  {
    var m := SplitMarkers(s);
    if |g| == 1 && g[0] in s {
      var i :| 0 <= i < |s| && s[i] == g[0];
      assert m[i] == [s[i]] == g;
    }
  }

  predicate Distinct(s: seq<Key>)
  {
    forall i, j :: 0 <= i < j < |s| ==> s[i] != s[j]
  }

  /**
   * An insertion-ordered dictionary from keys to lists, as Python's dict is:
   * `keys` holds the keys in the order they were first inserted.
   */
  datatype Dict<T> = Dict(keys: seq<Key>, lists: map<Key, seq<T>>)

  /** The keys are distinct and are exactly the map's keys, and no list is empty. */
  ghost predicate WellFormed<T>(d: Dict<T>)
  {
    && Distinct(d.keys)
    && (forall k :: k in d.lists <==> k in d.keys)
    && (forall k :: k in d.lists ==> d.lists[k] != [])
  }

  /** The list stored under k, or the empty list for a key never seen. */
  function ListOf<T>(d: Dict<T>, k: Key): seq<T>
  {
    if k in d.lists then d.lists[k] else []
  }

  /**
   * `its = units[it]` (a new list inserted under it on a KeyError), then
   * `its.append(x)`: only k's list changes, it gains x at its end, and a
   * new key goes after all others.
   */
  function Append<T>(d: Dict<T>, k: Key, x: T): (r: Dict<T>)
    ensures WellFormed(d) ==> WellFormed(r)
    ensures forall k' :: ListOf(r, k') == if k' == k then ListOf(d, k) + [x] else ListOf(d, k')
    ensures r.keys == if k in d.lists then d.keys else d.keys + [k]
  {
    if k in d.lists then Dict(d.keys, d.lists[k := d.lists[k] + [x]])
    else Dict(d.keys + [k], d.lists[k := [x]])
  }

  /** The dictionary after the inner loop has walked entries es of one rater. */
  function GroupEntries<V(==), R>(d: Dict<R>, es: seq<(Key, V)>, maskitems: seq<V>, convert: V -> R): Dict<R>
  {
    if es == [] then d
    else
      var prev := GroupEntries(d, es[..|es| - 1], maskitems, convert);
      var (it, g) := es[|es| - 1];
      if g in maskitems then prev else Append(prev, it, convert(g))
  }

  /** The dictionary `units` after the outer loop has walked the raters of data. */
  function GroupRaters<V(==), R>(data: seq<Rater<V>>, maskitems: seq<V>, convert: V -> R): Dict<R>
  {
    if data == [] then Dict([], map[])
    else GroupEntries(GroupRaters(data[..|data| - 1], maskitems, convert), Entries(data[|data| - 1]), maskitems, convert)
  }

  /** The inner loop over one rater's entries: append each non-missing value, converted, to its item's list. */
  method AddEntries<V(==), R>(units0: Dict<R>, diter: seq<(Key, V)>, maskitems: seq<V>, convert: V -> R) returns (units: Dict<R>)
    ensures units == GroupEntries(units0, diter, maskitems, convert)
  {
    units := units0;
    for e := 0 to |diter|
      invariant units == GroupEntries(units0, diter[..e], maskitems, convert)
    {
      var (it, g) := diter[e];
      assert diter[..e + 1][..e] == diter[..e];
      assert GroupEntries(units0, diter[..e + 1], maskitems, convert)
        == if g in maskitems then units else Append(units, it, convert(g));
      if g !in maskitems {
        ghost var prev := units;
        var its: seq<R>;
        var keys := units.keys;
        if it in units.lists {
          its := units.lists[it];
        } else {
          its := [];
          keys := keys + [it];
          assert its + [convert(g)] == [convert(g)];
        }
        units := Dict(keys, units.lists[it := its + [convert(g)]]);
        assert units == Append(prev, it, convert(g));
      }
    }
    assert diter[..|diter|] == diter;
  }

  /** Builds the dictionary of items in place, rater by rater and entry by entry. */
  method Group<V(==), R>(data: seq<Rater<V>>, maskitems: seq<V>, convert: V -> R) returns (units: Dict<R>)
    ensures units == GroupRaters(data, maskitems, convert)
  {
    units := Dict([], map[]);
    for r := 0 to |data|
      invariant units == GroupRaters(data[..r], maskitems, convert)
    {
      assert data[..r + 1][..r] == data[..r];
      units := AddEntries(units, Entries(data[r]), maskitems, convert);
    }
    assert data[..|data|] == data;
  }

  /** A further rater is grouped on top of the dictionary built from the raters before it. */
  lemma GroupRatersSnoc<V, R>(data: seq<Rater<V>>, r: Rater<V>, maskitems: seq<V>, convert: V -> R)
    ensures GroupRaters(data + [r], maskitems, convert) == GroupEntries(GroupRaters(data, maskitems, convert), Entries(r), maskitems, convert)
  {
    assert (data + [r])[..|data|] == data;
  }

  lemma {:induction false} GroupEntriesWellFormed<V, R>(d: Dict<R>, es: seq<(Key, V)>, maskitems: seq<V>, convert: V -> R)
    requires WellFormed(d)
    ensures WellFormed(GroupEntries(d, es, maskitems, convert))
  {
    if es != [] {
      GroupEntriesWellFormed(d, es[..|es| - 1], maskitems, convert);
    }
  }

  /** Whatever the input, the grouping step yields a well-formed dictionary. */
  lemma {:induction false} GroupWellFormed<V, R>(data: seq<Rater<V>>, maskitems: seq<V>, convert: V -> R)
    ensures WellFormed(GroupRaters(data, maskitems, convert))
  {
    if data != [] {
      GroupWellFormed(data[..|data| - 1], maskitems, convert);
      GroupEntriesWellFormed(GroupRaters(data[..|data| - 1], maskitems, convert), Entries(data[|data| - 1]), maskitems, convert);
    }
  }

  /** A rater all of whose values are missing leaves the dictionary as it was. */
  lemma {:induction false} GroupEntriesAllMissing<V, R>(d: Dict<R>, es: seq<(Key, V)>, maskitems: seq<V>, convert: V -> R)
    requires forall i :: 0 <= i < |es| ==> es[i].1 in maskitems
    ensures GroupEntries(d, es, maskitems, convert) == d
  {
    if es != [] {
      GroupEntriesAllMissing(d, es[..|es| - 1], maskitems, convert);
    }
  }

  // A reference description of the grouping, item by item.

  predicate DistinctKeys<V>(es: seq<(Key, V)>)
  {
    forall i, j :: 0 <= i < j < |es| ==> es[i].0 != es[j].0
  }

  /** Python guarantees that a mapping has each key once. */
  predicate IsMapping<V>(r: Rater<V>)
  {
    r.Keyed? ==> DistinctKeys(r.entries)
  }

  /** The value an entry list gives key k, if any. */
  function Find<V>(es: seq<(Key, V)>, k: Key): Option<V>
  {
    if es == [] then None
    else if es[|es| - 1].0 == k then Some(es[|es| - 1].1)
    else Find(es[..|es| - 1], k)
  }

  /** The raw value rater r gives item k: `d[k]`, or the element at position k of a sequence. */
  function Lookup<V>(r: Rater<V>, k: Key): Option<V>
  {
    match r
    case Keyed(es) => Find(es, k)
    case Positional(vs) => if k.IntKey? && 0 <= k.value < |vs| then Some(vs[k.value]) else None
  }

  /** The raw values the raters of data give item k, in rater order, leaving out the missing ones. */
  function Kept<V(==)>(data: seq<Rater<V>>, k: Key, maskitems: seq<V>): (kept: seq<V>)
    ensures forall g :: g in kept ==> g !in maskitems
    ensures |kept| <= |data|
  {
    if data == [] then []
    else
      var rest := Kept(data[..|data| - 1], k, maskitems);
      match Lookup(data[|data| - 1], k)
      case Some(g) => if g in maskitems then rest else rest + [g]
      case None => rest
  }

  function Converted<V, R>(convert: V -> R, s: seq<V>): seq<R>
  {
    seq(|s|, i requires 0 <= i < |s| => convert(s[i]))
  }

  /** What one entry list adds to key k's list. */
  function Added<V(==), R>(found: Option<V>, maskitems: seq<V>, convert: V -> R): seq<R>
  {
    match found
    case Some(g) => if g in maskitems then [] else [convert(g)]
    case None => []
  }

  lemma {:induction false} FindAbsent<V>(es: seq<(Key, V)>, k: Key)
    requires forall i :: 0 <= i < |es| ==> es[i].0 != k
    ensures Find(es, k) == None
  {
    if es != [] {
      FindAbsent(es[..|es| - 1], k);
    }
  }

  lemma {:induction false} GroupEntriesByFind<V, R>(d: Dict<R>, es: seq<(Key, V)>, maskitems: seq<V>, convert: V -> R, k: Key)
    requires DistinctKeys(es)
    ensures ListOf(GroupEntries(d, es, maskitems, convert), k) == ListOf(d, k) + Added(Find(es, k), maskitems, convert)
  {
    if es != [] {
      var init := es[..|es| - 1];
      GroupEntriesByFind(d, init, maskitems, convert, k);
      if es[|es| - 1].0 == k {
        FindAbsent(init, k);
      }
    }
  }

  lemma {:induction false} FindPositional<V>(vs: seq<V>, k: Key)
    ensures Find(Entries(Positional(vs)), k) == Lookup(Positional(vs), k)
  {
    var es: seq<(Key, V)> := Entries(Positional(vs));
    if vs != [] {
      var init := vs[..|vs| - 1];
      assert es[..|es| - 1] == Entries(Positional(init));
      FindPositional(init, k);
    }
  }

  /** Looking an item up in the entries a rater yields finds what the rater gives that item. */
  lemma EntriesLookup<V>(r: Rater<V>, k: Key)
    requires IsMapping(r)
    ensures DistinctKeys(Entries(r))
    ensures Find(Entries(r), k) == Lookup(r, k)
  {
    if r.Positional? {
      FindPositional(r.values, k);
    }
  }

  lemma {:induction false} GroupByLookupAt<V, R>(data: seq<Rater<V>>, maskitems: seq<V>, convert: V -> R, k: Key)
    requires forall i :: 0 <= i < |data| ==> IsMapping(data[i])
    ensures ListOf(GroupRaters(data, maskitems, convert), k) == Converted(convert, Kept(data, k, maskitems))
  {
    if data != [] {
      var init := data[..|data| - 1];
      var last := data[|data| - 1];
      GroupByLookupAt(init, maskitems, convert, k);
      EntriesLookup(last, k);
      GroupEntriesByFind(GroupRaters(init, maskitems, convert), Entries(last), maskitems, convert, k);
      var rest := Kept(init, k, maskitems);
      match Lookup(last, k)
      case Some(g) =>
        if g !in maskitems {
          assert Converted(convert, rest + [g]) == Converted(convert, rest) + [convert(g)];
        }
      case None =>
    }
  }

  /**
   * The grouping step stores under each item exactly the converted non-missing
   * values the raters give it, in rater order, and keeps an item exactly when
   * at least one rater gives it a non-missing value.
   */
  lemma GroupByLookup<V, R>(data: seq<Rater<V>>, maskitems: seq<V>, convert: V -> R)
    requires forall i :: 0 <= i < |data| ==> IsMapping(data[i])
    ensures forall k :: ListOf(GroupRaters(data, maskitems, convert), k) == Converted(convert, Kept(data, k, maskitems))
    ensures forall k :: k in GroupRaters(data, maskitems, convert).lists <==> Kept(data, k, maskitems) != []
  {
    GroupWellFormed(data, maskitems, convert);
    forall k: Key
      ensures ListOf(GroupRaters(data, maskitems, convert), k) == Converted(convert, Kept(data, k, maskitems))
    {
      GroupByLookupAt(data, maskitems, convert, k);
    }
  }

  // Filtering: only items with two or more ratings can be paired.

  function PairableKeys<T>(keys: seq<Key>, lists: map<Key, seq<T>>): (r: seq<Key>)
    ensures forall k :: k in r <==> k in keys && k in lists && |lists[k]| > 1
    ensures Distinct(keys) ==> Distinct(r)
  {
    if keys == [] then []
    else
      var rest := PairableKeys(keys[..|keys| - 1], lists);
      var k := keys[|keys| - 1];
      assert forall x :: x in keys[..|keys| - 1] ==> x in keys;
      if k in lists && |lists[k]| > 1 then
        assert Distinct(keys) ==> k !in keys[..|keys| - 1];
        rest + [k]
      else rest
  }

  /**
   * `dict((it, d) for it, d in units.items() if len(d) > 1)`: an item is
   * kept, with its list and in its place, exactly when it has two or more
   * values.
   */
  function Pairable<T>(units: Dict<T>): (r: Dict<T>)
    ensures forall k :: k in r.lists <==> k in units.lists && |units.lists[k]| > 1
    ensures forall k :: k in r.lists ==> r.lists[k] == units.lists[k]
    ensures WellFormed(units) ==> WellFormed(r)
  {
    Dict(PairableKeys(units.keys, units.lists), map k | k in units.lists && |units.lists[k]| > 1 :: units.lists[k])
  }

  /** `units.values()`, in key order. */
  function Values<T>(d: Dict<T>): seq<seq<T>>
    requires WellFormed(d)
  {
    seq(|d.keys|, i requires 0 <= i < |d.keys| => d.lists[d.keys[i]])
  }

  /** Every unit can form a pair. */
  predicate AllPairable<T>(units: seq<seq<T>>)
  {
    forall i :: 0 <= i < |units| ==> |units[i]| >= 2
  }

  /** `sum(len(pv) for pv in units.values())`: the number of pairable values n. */
  function TotalLength<T>(units: seq<seq<T>>): nat
  {
    if units == [] then 0 else TotalLength(units[..|units| - 1]) + |units[|units| - 1]|
  }

  /** The generator sum that counts the pairable values. */
  method CountValues<T>(units: seq<seq<T>>) returns (n: nat)
    ensures n == TotalLength(units)
  {
    n := 0;
    for i := 0 to |units|
      invariant n == TotalLength(units[..i])
    {
      assert units[..i + 1][..i] == units[..i];
      n := n + |units[i]|;
    }
    assert units[..|units|] == units;
  }

  /** Units of two or more values hold at least two values each, so n is 0 only when there is no unit. */
  lemma {:induction false} TotalLengthOfPairable<T>(units: seq<seq<T>>)
    requires AllPairable(units)
    ensures TotalLength(units) >= 2 * |units|
    ensures TotalLength(units) == 0 <==> units == []
  {
    if units != [] {
      TotalLengthOfPairable(units[..|units| - 1]);
    }
  }

  /** The values of the filtered dictionary are all pairable, and there are none exactly when no item has two values. */
  lemma PairableValues<T>(units: Dict<T>)
    requires WellFormed(units)
    ensures AllPairable(Values(Pairable(units)))
    ensures Values(Pairable(units)) == [] <==> forall k :: |ListOf(units, k)| <= 1
  {
    var p := Pairable(units);
    var vs := Values(p);
    forall i | 0 <= i < |vs| ensures |vs[i]| >= 2 {
      assert p.keys[i] in p.keys;
    }
    if vs != [] {
      var k := p.keys[0];
      assert k in p.lists;
      assert |ListOf(units, k)| > 1;
    }
    forall k | |ListOf(units, k)| > 1 ensures vs != [] {
      assert k in p.lists && k in p.keys;
    }
  }

  /** The i-th unit left by the filter is the list of the i-th kept item, which has two or more values. */
  lemma UnitIsItem<T>(d: Dict<T>, i: nat)
    requires WellFormed(d) && i < |Values(Pairable(d))|
    ensures |ListOf(d, Pairable(d).keys[i])| > 1
    ensures Values(Pairable(d))[i] == ListOf(d, Pairable(d).keys[i])
  {
    assert Pairable(d).keys[i] in Pairable(d).lists;
  }

  /** The list of an item with two or more values is one of the units left by the filter. */
  lemma ItemIsUnit<T>(d: Dict<T>, k: Key) returns (i: nat)
    requires WellFormed(d) && |ListOf(d, k)| > 1
    ensures i < |Values(Pairable(d))| && Values(Pairable(d))[i] == ListOf(d, k)
  {
    var p := Pairable(d);
    assert k in p.lists && k in p.keys;
    i :| 0 <= i < |p.keys| && p.keys[i] == k;
  }

  // An item rated by a single rater is dropped by the filter.

  lemma {:induction false} PairableKeysIgnores<T>(keys: seq<Key>, lists: map<Key, seq<T>>, k: Key, x: T)
    requires k !in keys
    ensures PairableKeys(keys, lists[k := [x]]) == PairableKeys(keys, lists)
  {
    if keys != [] {
      PairableKeysIgnores(keys[..|keys| - 1], lists, k, x);
    }
  }

  /** Adding a first value for an item not seen before leaves the filtered dictionary unchanged. */
  lemma PairableIgnoresNewItem<T>(units: Dict<T>, k: Key, x: T)
    requires WellFormed(units)
    requires k !in units.lists
    ensures Pairable(Append(units, k, x)) == Pairable(units)
  {
    var lists' := units.lists[k := [x]];
    var keys' := units.keys + [k];
    assert keys'[..|keys'| - 1] == units.keys;
    PairableKeysIgnores(units.keys, units.lists, k, x);
    assert PairableKeys(keys', lists') == PairableKeys(units.keys, units.lists);
    var m1 := map k' | k' in lists' && |lists'[k']| > 1 :: lists'[k'];
    var m2 := map k' | k' in units.lists && |units.lists[k']| > 1 :: units.lists[k'];
    assert m1 == m2;
  }

  // Taking one item out of the input: an item with at most one value never
  // reaches the filtered dictionary, wherever its value sits.

  /** The keys of s other than k, in order. */
  function RemoveKey(s: seq<Key>, k: Key): seq<Key>
  {
    if s == [] then []
    else
      var rest := RemoveKey(s[..|s| - 1], k);
      if s[|s| - 1] == k then rest else rest + [s[|s| - 1]]
  }

  /** The entries of es for items other than k, in order. */
  function WithoutItem<V>(es: seq<(Key, V)>, k: Key): seq<(Key, V)>
  {
    if es == [] then []
    else
      var rest := WithoutItem(es[..|es| - 1], k);
      if es[|es| - 1].0 == k then rest else rest + [es[|es| - 1]]
  }

  /** Every rater of data with item k taken out: each becomes the mapping of its other entries. */
  function DropItem<V>(data: seq<Rater<V>>, k: Key): (dropped: seq<Rater<V>>)
    ensures |dropped| == |data|
  {
    if data == [] then []
    else DropItem(data[..|data| - 1], k) + [Keyed(WithoutItem(Entries(data[|data| - 1]), k))]
  }

  /** d' is d with item k taken out, from the lists and from the key order. */
  ghost predicate Dropped<T>(d: Dict<T>, d': Dict<T>, k: Key)
  {
    d'.lists == d.lists - {k} && d'.keys == RemoveKey(d.keys, k)
  }

  /** Appending under the item taken out changes nothing on the side where it is taken out. */
  lemma DroppedAppendSame<T>(d: Dict<T>, d': Dict<T>, k: Key, x: T)
    requires Dropped(d, d', k)
    ensures Dropped(Append(d, k, x), d', k)
  {
    var keys := d.keys + [k];
    assert keys[..|keys| - 1] == d.keys;
    assert d.lists[k := ListOf(d, k) + [x]] - {k} == d.lists - {k};
  }

  /** Appending under any other item happens alike on both sides. */
  lemma DroppedAppendOther<T>(d: Dict<T>, d': Dict<T>, k: Key, it: Key, x: T)
    requires Dropped(d, d', k) && it != k
    ensures Dropped(Append(d, it, x), Append(d', it, x), k)
  {
    var keys := d.keys + [it];
    assert keys[..|keys| - 1] == d.keys;
    if it in d.lists {
      assert it in d'.lists && d'.lists[it] == d.lists[it];
      assert d'.lists[it := d'.lists[it] + [x]] == d.lists[it := d.lists[it] + [x]] - {k};
    } else {
      assert it !in d'.lists;
      assert d'.lists[it := [x]] == d.lists[it := [x]] - {k};
    }
  }

  lemma {:induction false} GroupEntriesDropped<V, R>(d: Dict<R>, d': Dict<R>, es: seq<(Key, V)>, maskitems: seq<V>, convert: V -> R, k: Key)
    requires Dropped(d, d', k)
    ensures Dropped(GroupEntries(d, es, maskitems, convert), GroupEntries(d', WithoutItem(es, k), maskitems, convert), k)
  {
    if es != [] {
      var init := es[..|es| - 1];
      var (it, g) := es[|es| - 1];
      GroupEntriesDropped(d, d', init, maskitems, convert, k);
      var prev, prev' := GroupEntries(d, init, maskitems, convert), GroupEntries(d', WithoutItem(init, k), maskitems, convert);
      if it != k {
        var w := WithoutItem(init, k) + [es[|es| - 1]];
        assert w[..|w| - 1] == WithoutItem(init, k);
      }
      if g !in maskitems {
        if it == k {
          DroppedAppendSame(prev, prev', k, convert(g));
        } else {
          DroppedAppendOther(prev, prev', k, it, convert(g));
        }
      }
    }
  }

  /** Grouping the raters with item k taken out gives the grouping of all the raters with item k taken out. */
  lemma {:induction false} GroupRatersDropped<V, R>(data: seq<Rater<V>>, maskitems: seq<V>, convert: V -> R, k: Key)
    ensures Dropped(GroupRaters(data, maskitems, convert), GroupRaters(DropItem(data, k), maskitems, convert), k)
  {
    if data != [] {
      var init := data[..|data| - 1];
      var dropped := DropItem(data, k);
      assert dropped[..|dropped| - 1] == DropItem(init, k);
      GroupRatersDropped(init, maskitems, convert, k);
      GroupEntriesDropped(GroupRaters(init, maskitems, convert), GroupRaters(DropItem(init, k), maskitems, convert),
        Entries(data[|data| - 1]), maskitems, convert, k);
    }
  }

  lemma {:induction false} PairableKeysDropped<T>(keys: seq<Key>, lists: map<Key, seq<T>>, k: Key)
    requires k in lists ==> |lists[k]| <= 1
    ensures PairableKeys(RemoveKey(keys, k), lists - {k}) == PairableKeys(keys, lists)
  {
    if keys != [] {
      var init := keys[..|keys| - 1];
      PairableKeysDropped(init, lists, k);
      if keys[|keys| - 1] != k {
        var r := RemoveKey(init, k) + [keys[|keys| - 1]];
        assert r[..|r| - 1] == RemoveKey(init, k);
      }
    }
  }

  /** Taking out an item with at most one value leaves the filtered dictionary unchanged. */
  lemma PairableDropped<T>(d: Dict<T>, d': Dict<T>, k: Key)
    requires Dropped(d, d', k)
    requires |ListOf(d, k)| <= 1
    ensures Pairable(d') == Pairable(d)
  {
    PairableKeysDropped(d.keys, d.lists, k);
    var m1 := map k' | k' in d'.lists && |d'.lists[k']| > 1 :: d'.lists[k'];
    var m2 := map k' | k' in d.lists && |d.lists[k']| > 1 :: d.lists[k'];
    assert m1 == m2;
  }
}
