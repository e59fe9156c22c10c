/** The numbers `updateDeformationStats` shows: computed over the matched
    records only. */
module Statistics {
  import opened Wrappers
  import opened Geometry
  import opened Matching

  /** A deformation counts as significant when strictly above this value. */
  const SignificanceThreshold: real := 0.1

  /** `maxDeformation` is `None` where the source's `Math.max()` of no values
      gives `-Infinity`, and `avgDeformation` is `None` where `0 / 0` gives
      `NaN`; `processedCount` is the number of matched records. */
  datatype Stats = Stats(
    maxDeformation: Option<real>,
    avgDeformation: Option<real>,
    significantCount: nat,
    processedCount: nat)

  /** The deformations of the matched records, in record order
      (`filter(d => d.matched).map(d => d.deformation)`). */
  function MatchedValues(ds: seq<Deformation>): (vs: seq<real>)
    ensures |vs| <= |ds|
    ensures vs == [] <==> forall i :: 0 <= i < |ds| ==> !ds[i].matched
  {
    if ds == [] then []
    else (if ds[0].matched then [ds[0].deformation] else []) + MatchedValues(ds[1..])
  }

  /** The indices of the matched records whose deformation is significant. */
  ghost function SignificantRecords(ds: seq<Deformation>): set<int> {
    set i | 0 <= i < |ds| && ds[i].matched && ds[i].deformation > SignificanceThreshold
  }

  /** The indices of the matched records. */
  ghost function MatchedIndices(ds: seq<Deformation>): set<int> {
    set i | 0 <= i < |ds| && ds[i].matched
  }

  /** Filtering a concatenation filters each part in turn: the matched
      values keep the records' order. */
  lemma {:induction false} MatchedValuesAppend(a: seq<Deformation>, b: seq<Deformation>)
    ensures MatchedValues(a + b) == MatchedValues(a) + MatchedValues(b)
  {
    if a == [] {
      assert a + b == b;
    } else {
      var head := if a[0].matched then [a[0].deformation] else [];
      MatchedValuesAppend(a[1..], b);
      assert (a + b)[0] == a[0] && (a + b)[1..] == a[1..] + b;
      assert MatchedValues(a + b) == head + MatchedValues(a[1..] + b);
      assert MatchedValues(a) == head + MatchedValues(a[1..]);
      assert head + (MatchedValues(a[1..]) + MatchedValues(b)) == (head + MatchedValues(a[1..])) + MatchedValues(b);
    }
  }

  /** There is one matched value per matched record. */
  lemma {:induction false} MatchedValuesCount(ds: seq<Deformation>)
    ensures |MatchedValues(ds)| == |MatchedIndices(ds)|
  {
    if ds != [] {
      var n := |ds| - 1;
      var init := ds[..n];
      MatchedValuesCount(init);
      assert ds == init + [ds[n]];
      MatchedValuesAppend(init, [ds[n]]);
      assert MatchedValues([ds[n]]) == if ds[n].matched then [ds[n].deformation] else [] by {
        assert [ds[n]][1..] == [];
      }
      assert forall i :: 0 <= i < n ==> init[i] == ds[i];
      if ds[n].matched {
        assert MatchedIndices(ds) == MatchedIndices(init) + {n};
      } else {
        assert MatchedIndices(ds) == MatchedIndices(init);
      }
    }
  }

  /** A value is among the matched values exactly when some matched record
      carries it. */
  lemma {:induction false} MatchedValuesMembership(ds: seq<Deformation>)
    ensures forall v :: v in MatchedValues(ds) <==> exists i :: 0 <= i < |ds| && ds[i].matched && ds[i].deformation == v
  {
    if ds != [] {
      MatchedValuesMembership(ds[1..]);
      var rest := MatchedValues(ds[1..]);
      assert MatchedValues(ds) == (if ds[0].matched then [ds[0].deformation] else []) + rest;
      forall v | v in rest
        ensures exists i :: 0 <= i < |ds| && ds[i].matched && ds[i].deformation == v
      {
        var i :| 0 <= i < |ds[1..]| && ds[1..][i].matched && ds[1..][i].deformation == v;
        assert ds[i + 1] == ds[1..][i];
      }
      forall i | 1 <= i < |ds| && ds[i].matched
        ensures ds[i].deformation in rest
      {
        assert ds[1..][i - 1] == ds[i];
      }
    }
  }

  /** `Math.max` over the values; `None` for no values (`-Infinity`). */
  function MaxOf(xs: seq<real>): (m: Option<real>)
    ensures m.None? <==> xs == []
    ensures m.Some? ==> m.value in xs
    ensures m.Some? ==> forall x :: x in xs ==> x <= m.value
  {
    if xs == [] then None
    else
      assert forall x :: x in xs ==> x == xs[0] || x in xs[1..];
      match MaxOf(xs[1..])
      case None => Some(xs[0])
      case Some(rest) => Some(if xs[0] < rest then rest else xs[0])
  }

  /** The left fold `reduce((a, b) => a + b, 0)`. */
  function Sum(xs: seq<real>): real {
    if xs == [] then 0.0 else Sum(xs[..|xs| - 1]) + xs[|xs| - 1]
  }

  /** The sum of a concatenation is the sum of the parts. */
  lemma {:induction false} SumAppend(a: seq<real>, b: seq<real>)
    ensures Sum(a + b) == Sum(a) + Sum(b)
  {
    if b == [] {
      assert a + b == a;
    } else {
      var n := |b| - 1;
      SumAppend(a, b[..n]);
      assert (a + b)[..|a + b| - 1] == a + b[..n];
    }
  }

  /** Values in `[0, bound]` sum to between 0 and `|xs| * bound`. */
  lemma {:induction false} SumBounds(xs: seq<real>, bound: real)
    requires forall i :: 0 <= i < |xs| ==> 0.0 <= xs[i] <= bound
    ensures 0.0 <= Sum(xs) <= |xs| as real * bound
  {
    if xs != [] {
      SumBounds(xs[..|xs| - 1], bound);
    }
  }

  /** The arithmetic mean; `None` for no values (`0 / 0` is `NaN`). */
  function Mean(xs: seq<real>): (m: Option<real>)
    ensures m.None? <==> xs == []
    ensures m.Some? ==> m.value * |xs| as real == Sum(xs)
  {
    if xs == [] then None else Some(Sum(xs) / |xs| as real)
  }

  /** The mean of values in `[0, bound]` lies in `[0, bound]`. */
  lemma MeanBounds(xs: seq<real>, bound: real)
    requires xs != []
    requires forall i :: 0 <= i < |xs| ==> 0.0 <= xs[i] <= bound
    ensures 0.0 <= Mean(xs).value <= bound
  {
    SumBounds(xs, bound);
    var n := |xs| as real;
    var a := Mean(xs).value;
    assert a * n == Sum(xs);
    if a > bound {
      PositiveProduct(a - bound, n);
    }
    if a < 0.0 {
      PositiveProduct(-a, n);
    }
  }

  /** The number of values strictly above the significance threshold. */
  function CountSignificant(xs: seq<real>): (n: nat)
    ensures n <= |xs|
  {
    if xs == [] then 0
    else (if xs[0] > SignificanceThreshold then 1 else 0) + CountSignificant(xs[1..])
  }

  /** The indices of the values above the threshold. */
  ghost function SignificantIndices(xs: seq<real>): set<int> {
    set i | 0 <= i < |xs| && xs[i] > SignificanceThreshold
  }

  /** Counting a concatenation counts each part. */
  lemma {:induction false} CountSignificantAppend(a: seq<real>, b: seq<real>)
    ensures CountSignificant(a + b) == CountSignificant(a) + CountSignificant(b)
  {
    if a == [] {
      assert a + b == b;
    } else {
      CountSignificantAppend(a[1..], b);
      assert (a + b)[0] == a[0] && (a + b)[1..] == a[1..] + b;
    }
  }

  /** The count is the number of values strictly above the threshold. */
  lemma {:induction false} CountSignificantIsSize(xs: seq<real>)
    ensures CountSignificant(xs) == |SignificantIndices(xs)|
  {
    if xs != [] {
      var n := |xs| - 1;
      var init := xs[..n];
      CountSignificantIsSize(init);
      assert xs == init + [xs[n]];
      CountSignificantAppend(init, [xs[n]]);
      assert CountSignificant([xs[n]]) == if xs[n] > SignificanceThreshold then 1 else 0 by {
        assert [xs[n]][1..] == [];
      }
      assert forall i :: 0 <= i < n ==> init[i] == xs[i];
      if xs[n] > SignificanceThreshold {
        assert SignificantIndices(xs) == SignificantIndices(init) + {n};
      } else {
        assert SignificantIndices(xs) == SignificantIndices(init);
      }
    }
  }

  /** No value is counted exactly when none exceeds the threshold, and all
      are counted exactly when all exceed it. */
  lemma {:induction false} CountSignificantExtremes(xs: seq<real>)
    ensures CountSignificant(xs) == 0 <==> forall i :: 0 <= i < |xs| ==> xs[i] <= SignificanceThreshold
    ensures CountSignificant(xs) == |xs| <==> forall i :: 0 <= i < |xs| ==> xs[i] > SignificanceThreshold
  {
    if xs != [] {
      CountSignificantExtremes(xs[1..]);
      assert forall i :: 1 <= i < |xs| ==> xs[i] == xs[1..][i - 1];
    }
  }

  /** Counting the significant matched values counts the matched records
      whose deformation is above the threshold. */
  lemma {:induction false} SignificantMatchedCount(ds: seq<Deformation>)
    ensures CountSignificant(MatchedValues(ds)) == |SignificantRecords(ds)|
  {
    if ds != [] {
      var n := |ds| - 1;
      var init, r := ds[..n], ds[n];
      SignificantMatchedCount(init);
      assert ds == init + [r];
      MatchedValuesAppend(init, [r]);
      var last := if r.matched then [r.deformation] else [];
      assert MatchedValues([r]) == last by {
        assert [r][1..] == [];
      }
      CountSignificantAppend(MatchedValues(init), last);
      assert CountSignificant(last) == if r.matched && r.deformation > SignificanceThreshold then 1 else 0 by {
        if r.matched {
          assert last[1..] == [];
        }
      }
      SignificantRecordsSnoc(init, r);
    }
  }

  /** Appending a record adds its index to the significant records exactly
      when it is matched and above the threshold. */
  lemma SignificantRecordsSnoc(init: seq<Deformation>, r: Deformation)
    ensures |SignificantRecords(init + [r])| ==
      |SignificantRecords(init)| + if r.matched && r.deformation > SignificanceThreshold then 1 else 0
  {
    var ds := init + [r];
    var n := |init|;
    assert forall i :: 0 <= i < n ==> ds[i] == init[i];
    if r.matched && r.deformation > SignificanceThreshold {
      assert SignificantRecords(ds) == SignificantRecords(init) + {n};
    } else {
      assert SignificantRecords(ds) == SignificantRecords(init);
    }
  }

  /** The maximum of the matched values bounds every matched record's
      deformation and is carried by one of them. */
  lemma MatchedMaximum(ds: seq<Deformation>)
    ensures var m := MaxOf(MatchedValues(ds));
      && (m.Some? ==> forall i :: 0 <= i < |ds| && ds[i].matched ==> ds[i].deformation <= m.value)
      && (m.Some? ==> exists i :: 0 <= i < |ds| && ds[i].matched && ds[i].deformation == m.value)
  {
    var values := MatchedValues(ds);
    var m := MaxOf(values);
    MatchedValuesMembership(ds);
    if m.Some? {
      forall i | 0 <= i < |ds| && ds[i].matched
        ensures ds[i].deformation <= m.value
      {
        assert ds[i].deformation in values;
      }
      assert m.value in values;
    }
  }

  /** The statistics over the matched records. */
  function DeformationStats(ds: seq<Deformation>): (s: Stats)
    ensures s.significantCount <= s.processedCount <= |ds|
    ensures s.processedCount == |MatchedIndices(ds)|
    ensures s.significantCount == |SignificantRecords(ds)|
    ensures s.processedCount == 0 <==> forall i :: 0 <= i < |ds| ==> !ds[i].matched
    ensures s.maxDeformation.Some? <==> s.processedCount > 0
    ensures s.avgDeformation.Some? <==> s.processedCount > 0
    ensures s.maxDeformation.Some? ==>
      forall i :: 0 <= i < |ds| && ds[i].matched ==> ds[i].deformation <= s.maxDeformation.value
    ensures s.maxDeformation.Some? ==>
      exists i :: 0 <= i < |ds| && ds[i].matched && ds[i].deformation == s.maxDeformation.value
  {
    var values := MatchedValues(ds);
    MatchedMaximum(ds);
    MatchedValuesCount(ds);
    SignificantMatchedCount(ds);
    Stats(MaxOf(values), Mean(values), CountSignificant(values), |values|)
  }

  /** The reported average times the number of processed records is the
      sum of the matched deformations. */
  lemma AverageTimesCountIsSum(ds: seq<Deformation>)
    ensures var s := DeformationStats(ds);
      s.avgDeformation.Some? ==> s.avgDeformation.value * s.processedCount as real == Sum(MatchedValues(ds))
  {
    AverageOfMean(DeformationStats(ds), MatchedValues(ds));
  }

  /** Lets the solver see the statistics record only through its two fields
      that matter here; stated directly on `DeformationStats`, the product
      runs out of resource. */
  lemma AverageOfMean(s: Stats, values: seq<real>)
    requires s.avgDeformation == Mean(values) && s.processedCount == |values|
    ensures s.avgDeformation.Some? ==> s.avgDeformation.value * s.processedCount as real == Sum(values)
  {
  }

  /** The statistics of a matcher run: the maximum lies below the matching
      radius and the mean between 0 and the maximum; against an empty second
      cloud nothing is processed and maximum and mean are non-finite. */
  lemma MatcherStatsBounds(dist: (Point, Point) -> real, ds: seq<Deformation>, points1: seq<Point>, points2: seq<Point>)
    requires IsEuclidean(dist)
    requires |ds| == |points1|
    requires forall i :: 0 <= i < |ds| ==> Describes(dist, ds[i], points1[i], points2)
    ensures var s := DeformationStats(ds);
      && (s.maxDeformation.Some? ==> 0.0 <= s.maxDeformation.value < MaxDistance)
      && (s.avgDeformation.Some? ==> 0.0 <= s.avgDeformation.value <= s.maxDeformation.value)
      && (points2 == [] ==> s == Stats(None, None, 0, 0))
  {
    var s := DeformationStats(ds);
    var values := MatchedValues(ds);
    forall i | 0 <= i < |ds|
      ensures 0.0 <= ds[i].deformation < MaxDistance
    {
      DeformationIsInRangeMinimum(dist, ds[i], points1[i], points2);
    }
    if s.maxDeformation.Some? {
      var m := s.maxDeformation.value;
      MatchedValuesMembership(ds);
      forall i | 0 <= i < |values|
        ensures 0.0 <= values[i] <= m
      {
        assert values[i] in values;
      }
      MeanBounds(values, m);
    }
    if points2 == [] {
      forall i | 0 <= i < |ds|
        ensures !ds[i].matched
      {
        EmptyCloudLeavesUnmatched(dist, ds[i], points1[i]);
      }
    }
  }
}
