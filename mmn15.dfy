/**
 * Aggregations over a list of apartments: the average price, the rooftop
 * apartments with a pool, a tally per class, the first most expensive
 * apartment, and the apartments worth more than a million with a view.
 * Each is a loop over the list, proved against a definition of its result.
 */
module Mmn15 {
  import opened Wrappers
  import opened Apartments

  const ThresholdPrice := 1000000

  // average_price

  /** The prices of `apts`, added up. */
  function TotalPrice(apts: seq<Apartment>): int {
    if apts == [] then 0 else TotalPrice(apts[..|apts| - 1]) + Price(apts[|apts| - 1])
  }

  /** The mean price, 0 for no apartments. */
  function MeanPrice(apts: seq<Apartment>): real {
    if apts == [] then 0.0 else TotalPrice(apts) as real / |apts| as real
  }

  /** `average_price`: a running total and count, divided at the end. */
  method AveragePrice(apts: seq<Apartment>) returns (average: real)
    ensures average == MeanPrice(apts)
  {
    var total := 0;
    var count := 0;
    for i := 0 to |apts|
      invariant total == TotalPrice(apts[..i])
      invariant count == i
    {
      assert apts[..i + 1][..i] == apts[..i];
      total := total + Price(apts[i]);
      count := count + 1;
    }
    assert apts[..|apts|] == apts;
    if count == 0 {
      return 0.0;
    }
    average := total as real / count as real;
  }

  /** The total lies between the count times the lowest and the highest price. */
  lemma {:induction false} TotalPriceBounds(apts: seq<Apartment>, lo: int, hi: int)
    requires forall i :: 0 <= i < |apts| ==> lo <= Price(apts[i]) <= hi
    ensures lo * |apts| <= TotalPrice(apts) <= hi * |apts|
  {
    if apts != [] {
      var init := apts[..|apts| - 1];
      assert forall i :: 0 <= i < |init| ==> init[i] == apts[i];
      TotalPriceBounds(init, lo, hi);
      assert lo <= Price(apts[|apts| - 1]) <= hi;
      ScaleStep(lo, |init|);
      ScaleStep(hi, |init|);
    }
  }

  lemma ScaleStep(c: int, n: nat)
    ensures c * (n + 1) == c * n + c
  {
  }

  /** The mean of a non-empty list lies between its lowest and its highest price. */
  lemma MeanPriceBounds(apts: seq<Apartment>, lo: int, hi: int)
    requires apts != []
    requires forall i :: 0 <= i < |apts| ==> lo <= Price(apts[i]) <= hi
    ensures lo as real <= MeanPrice(apts) <= hi as real
  {
    TotalPriceBounds(apts, lo, hi);
    QuotientBounds(TotalPrice(apts), |apts|, lo, hi);
  }

  /** Dividing bounds `lo * n <= t <= hi * n` by a positive `n`. */
  lemma QuotientBounds(t: int, n: int, lo: int, hi: int)
    requires n > 0
    requires lo * n <= t <= hi * n
    ensures lo as real <= t as real / n as real <= hi as real
  {
    assert (lo * n) as real == lo as real * n as real;
    assert (hi * n) as real == hi as real * n as real;
  }

  /** The total is additive over concatenation. */
  lemma {:induction false} TotalPriceAppend(a: seq<Apartment>, b: seq<Apartment>)
    ensures TotalPrice(a + b) == TotalPrice(a) + TotalPrice(b)
    decreases |b|
  {
    if b != [] {
      var b' := b[..|b| - 1];
      assert (a + b)[..|a + b| - 1] == a + b';
      TotalPriceAppend(a, b');
    } else {
      assert a + b == a;
    }
  }

  // how_many_rooftop

  predicate IsRoofWithPool(a: Apartment) {
    IsInstance(a, RoofAptKind) && HasPool(a)
  }

  /** The positions, below `n`, of rooftop apartments with a pool. */
  function PoolRoofIndices(apts: seq<Apartment>, n: int): set<int> {
    set i | 0 <= i < n && i < |apts| && IsRoofWithPool(apts[i])
  }

  lemma PoolRoofIndicesStep(apts: seq<Apartment>, n: nat)
    requires n < |apts|
    ensures |PoolRoofIndices(apts, n + 1)|
            == |PoolRoofIndices(apts, n)| + (if IsRoofWithPool(apts[n]) then 1 else 0)
  {
    if IsRoofWithPool(apts[n]) {
      assert PoolRoofIndices(apts, n + 1) == PoolRoofIndices(apts, n) + {n};
    } else {
      assert PoolRoofIndices(apts, n + 1) == PoolRoofIndices(apts, n);
    }
  }

  /** `how_many_rooftop`: exactly the rooftop apartments with a pool are counted. */
  method HowManyRooftop(apts: seq<Apartment>) returns (count: nat)
    ensures count == |PoolRoofIndices(apts, |apts|)|
  {
    count := 0;
    for i := 0 to |apts|
      invariant count == |PoolRoofIndices(apts, i)|
    {
      PoolRoofIndicesStep(apts, i);
      var apt := apts[i];
      if IsInstance(apt, RoofAptKind) {
        if HasPool(apt) {
          count := count + 1;
        }
      }
    }
  }

  /** So the count never exceeds the length, and is the length when every apartment qualifies. */
  lemma {:induction false} PoolRoofCountBounds(apts: seq<Apartment>, n: nat)
    requires n <= |apts|
    ensures |PoolRoofIndices(apts, n)| <= n
    ensures (forall i :: 0 <= i < n ==> IsRoofWithPool(apts[i])) ==> |PoolRoofIndices(apts, n)| == n
  {
    if n > 0 {
      PoolRoofCountBounds(apts, n - 1);
      PoolRoofIndicesStep(apts, n - 1);
    } else {
      assert PoolRoofIndices(apts, n) == {};
    }
  }

  // how_many_apt_type

  /** The positions, below `n`, of apartments whose class is exactly `k`. */
  function IndicesOfKind(apts: seq<Apartment>, k: Kind, n: int): set<int> {
    set i | 0 <= i < n && i < |apts| && KindOf(apts[i]) == k
  }

  lemma IndicesOfKindStep(apts: seq<Apartment>, k: Kind, n: nat)
    requires n < |apts|
    ensures |IndicesOfKind(apts, k, n + 1)|
            == |IndicesOfKind(apts, k, n)| + (if KindOf(apts[n]) == k then 1 else 0)
  {
    if KindOf(apts[n]) == k {
      assert IndicesOfKind(apts, k, n + 1) == IndicesOfKind(apts, k, n) + {n};
    } else {
      assert IndicesOfKind(apts, k, n + 1) == IndicesOfKind(apts, k, n);
    }
  }

  /** The keys of the tally, one per class name. */
  const KindNames: set<string> := {"Apt", "SpecialApt", "GardenApt", "RoofApt"}

  /** The tally holds, under every class name, the number of apartments of exactly that class. */
  predicate TalliesUpTo(counts: map<string, int>, apts: seq<Apartment>, n: int) {
    counts.Keys == KindNames
    && forall k: Kind :: KindName(k) in counts && counts[KindName(k)] == |IndicesOfKind(apts, k, n)|
  }

  /**
   * `how_many_apt_type`: each apartment is counted once, under its most
   * specific class (the subclasses are tested first), so the four counts add
   * up to the length of the list.
   */
  method HowManyAptType(apts: seq<Apartment>) returns (counts: map<string, int>)
    ensures TalliesUpTo(counts, apts, |apts|)
    ensures counts["Apt"] + counts["SpecialApt"] + counts["GardenApt"] + counts["RoofApt"] == |apts|
  {
    counts := map["Apt" := 0, "SpecialApt" := 0, "GardenApt" := 0, "RoofApt" := 0];
    assert forall k: Kind :: IndicesOfKind(apts, k, 0) == {};
    for i := 0 to |apts|
      invariant TalliesUpTo(counts, apts, i)
      invariant counts["Apt"] + counts["SpecialApt"] + counts["GardenApt"] + counts["RoofApt"] == i
    {
      forall k: Kind
        ensures |IndicesOfKind(apts, k, i + 1)|
                == |IndicesOfKind(apts, k, i)| + (if KindOf(apts[i]) == k then 1 else 0)
      {
        IndicesOfKindStep(apts, k, i);
      }
      var apt := apts[i];
      if IsInstance(apt, GardenAptKind) {
        counts := counts["GardenApt" := counts["GardenApt"] + 1];
      } else if IsInstance(apt, RoofAptKind) {
        counts := counts["RoofApt" := counts["RoofApt"] + 1];
      } else if IsInstance(apt, SpecialAptKind) {
        counts := counts["SpecialApt" := counts["SpecialApt"] + 1];
      } else if IsInstance(apt, AptKind) {
        counts := counts["Apt" := counts["Apt"] + 1];
      }
    }
  }

  // top_price

  /** Position `i` holds the first of the highest prices, and that price is above 0. */
  predicate IsFirstTop(apts: seq<Apartment>, i: int) {
    0 <= i < |apts|
    && Price(apts[i]) > 0
    && (forall j :: 0 <= j < |apts| ==> Price(apts[j]) <= Price(apts[i]))
    && (forall j :: 0 <= j < i ==> Price(apts[j]) < Price(apts[i]))
  }

  /** At most one position is the first top one, so the answer is determined. */
  lemma FirstTopUnique(apts: seq<Apartment>, i: int, j: int)
    requires IsFirstTop(apts, i) && IsFirstTop(apts, j)
    ensures i == j
  {
  }

  /**
   * `top_price`: the first apartment with the highest price, since a later
   * one replaces it only when strictly dearer.  The running top starts at 0,
   * so a list whose prices are all at most 0, for instance the empty list,
   * gives `None`.
   */
  method TopPrice(apts: seq<Apartment>) returns (res: Option<Apartment>)
    ensures res.None? <==> forall j :: 0 <= j < |apts| ==> Price(apts[j]) <= 0
    ensures res.Some? ==> exists i :: IsFirstTop(apts, i) && apts[i] == res.value
  {
    var top := 0;
    res := None;
    ghost var at := -1;
    for i := 0 to |apts|
      invariant res.None? ==> top == 0 && forall j :: 0 <= j < i ==> Price(apts[j]) <= 0
      invariant res.Some? ==> 0 <= at < i && apts[at] == res.value && top == Price(apts[at]) && top > 0
      invariant res.Some? ==> forall j :: 0 <= j < i ==> Price(apts[j]) <= top
      invariant res.Some? ==> forall j :: 0 <= j < at ==> Price(apts[j]) < top
    {
      var price := Price(apts[i]);
      if price > top {
        top := price;
        res := Some(apts[i]);
        at := i;
      }
    }
    if res.Some? {
      assert IsFirstTop(apts, at);
    }
  }

  // only_valid_apts

  /** A `SpecialApt` (or subclass) with a view, priced above the threshold. */
  predicate Qualifies(a: Apartment) {
    IsInstance(a, SpecialAptKind) && HasView(a) && Price(a) > ThresholdPrice
  }

  /** The qualifying apartments, in their order in `apts`. */
  function ValidApts(apts: seq<Apartment>): seq<Apartment> {
    if apts == [] then []
    else
      var last := apts[|apts| - 1];
      ValidApts(apts[..|apts| - 1]) + (if Qualifies(last) then [last] else [])
  }

  /** `only_valid_apts`: the qualifying apartments in order, or `None` when there are none. */
  method OnlyValidApts(apts: seq<Apartment>) returns (res: Option<seq<Apartment>>)
    ensures res == if ValidApts(apts) == [] then None else Some(ValidApts(apts))
  {
    var kept: seq<Apartment> := [];
    for i := 0 to |apts|
      invariant kept == ValidApts(apts[..i])
    {
      assert apts[..i + 1][..i] == apts[..i];
      var apt := apts[i];
      if IsInstance(apt, SpecialAptKind) {
        if HasView(apt) && Price(apt) > ThresholdPrice {
          kept := kept + [apt];
        }
      }
    }
    assert apts[..|apts|] == apts;
    res := if kept != [] then Some(kept) else None;
  }

  /** Exactly the qualifying apartments are kept, so never a garden apartment. */
  lemma {:induction false} ValidAptsMeaning(apts: seq<Apartment>)
    ensures forall a :: a in ValidApts(apts) <==> a in apts && Qualifies(a)
    ensures forall a :: a in ValidApts(apts) ==> !a.GardenApt?
    ensures |ValidApts(apts)| <= |apts|
  {
    if apts != [] {
      var init := apts[..|apts| - 1];
      ValidAptsMeaning(init);
      assert apts == init + [apts[|apts| - 1]];
    }
  }

  /** Filtering keeps order: it distributes over concatenation. */
  lemma {:induction false} ValidAptsAppend(a: seq<Apartment>, b: seq<Apartment>)
    ensures ValidApts(a + b) == ValidApts(a) + ValidApts(b)
    decreases |b|
  {
    if b == [] {
      assert a + b == a;
    } else {
      var b' := b[..|b| - 1];
      assert (a + b)[..|a + b| - 1] == a + b';
      assert (a + b)[|a + b| - 1] == b[|b| - 1];
      ValidAptsAppend(a, b');
    }
  }
}
