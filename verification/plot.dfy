/**
  `Plot`: a series of points, each the average of `data_per_point`
  consecutive data.  Data are counted and summed until the group is
  complete; then one point is pushed, placed at the `x` of the datum that
  completed the group, and both counters start again from zero.  Exporting
  the plot as JSON after each new point is output and is not modelled.
 */
module Plots {
  import opened IntArith

  /** A datum or a point: an `(x, y)` pair. */
  type Datum = (real, real)

  datatype Plot = Plot(points: seq<Datum>, currentN: nat, currentSum: real, dataPerPoint: nat)

  /** The sum of the `y` components. */
  function SumY(ds: seq<Datum>): real
    decreases |ds|
  {
    if |ds| == 0 then 0.0 else SumY(ds[..|ds| - 1]) + ds[|ds| - 1].1
  }

  lemma SumYSnoc(ds: seq<Datum>, d: Datum)
    ensures SumY(ds + [d]) == SumY(ds) + d.1
  {
    assert (ds + [d])[..|ds|] == ds;
  }

  /** `Plot::new`: no points and both counters at zero. */
  function NewPlot(dataPerPoint: nat): (p: Plot)
    ensures p.points == [] && p.currentN == 0 && p.currentSum == 0.0 && p.dataPerPoint == dataPerPoint
  {
    Plot([], 0, 0.0, dataPerPoint)
  }

  /**
    `add_datum`.  With a group size of zero the count never meets it, so
    no point is ever pushed.
   */
  function AddDatum(p: Plot, d: Datum): (p': Plot)
    ensures p'.dataPerPoint == p.dataPerPoint
    ensures p.currentN < p.dataPerPoint ==> p'.currentN < p'.dataPerPoint
    ensures |p'.points| == |p.points| || (|p'.points| == |p.points| + 1 && p'.points[..|p.points|] == p.points)
    ensures |p'.points| == |p.points| + 1 ==> p'.currentN == 0 && p'.currentSum == 0.0
    ensures |p'.points| == |p.points| ==> p'.currentN == p.currentN + 1 && p'.currentSum == p.currentSum + d.1
  {
    var n, sum := p.currentN + 1, p.currentSum + d.1;
    if n == p.dataPerPoint then
      var average := sum / p.dataPerPoint as real;
      Plot(p.points + [(d.0, average)], 0, 0.0, p.dataPerPoint)
    else
      p.(currentN := n, currentSum := sum)
  }

  /** Adds every datum in order. */
  function AddAll(p: Plot, data: seq<Datum>): (p': Plot)
    ensures p'.dataPerPoint == p.dataPerPoint
    ensures p.currentN < p.dataPerPoint ==> p'.currentN < p'.dataPerPoint
    ensures p.dataPerPoint == 0 ==> p'.points == p.points && p'.currentN == p.currentN + |data|
    decreases |data|
  {
    if |data| == 0 then p else AddDatum(AddAll(p, data[..|data| - 1]), data[|data| - 1])
  }

  /**
    Point `k` of a plot of `data` in groups of `m`: it sits at the `x` of
    the last datum of group `k` and its `y` is the group's mean.
   */
  predicate GroupPoint(data: seq<Datum>, m: nat, k: nat, pt: Datum) {
    0 < m && k * m + m <= |data| && pt == (data[k * m + m - 1].0, SumY(data[k * m..k * m + m]) / m as real)
  }

  /** Each of `points` is the point of its group of `data`. */
  ghost predicate GroupPoints(points: seq<Datum>, data: seq<Datum>, m: nat) {
    forall k :: 0 <= k < |points| ==> GroupPoint(data, m, k, points[k])
  }

  /**
    `p` is the plot of `data` in groups of `m >= 1`: there are `N / m`
    points for `N` data, point `k` is the mean of data `k m` to
    `k m + m - 1` placed at the `x` of the last of them, and the counters
    hold the `N mod m` data of the unfinished group.
   */
  ghost predicate Summarises(p: Plot, data: seq<Datum>, m: nat) {
    && m >= 1 && p.dataPerPoint == m
    && |p.points| == |data| / m && p.currentN == |data| % m
    && p.currentSum == SumY(data[|data| - |data| % m..])
    && GroupPoints(p.points, data, m)
  }

  /** A new plot summarises no data, and each datum added keeps the summary exact. */
  lemma {:induction false} PlotAverages(m: nat, data: seq<Datum>)
    requires m >= 1
    ensures Summarises(AddAll(NewPlot(m), data), data, m)
    decreases |data|
  {
    if |data| > 0 {
      var n := |data| - 1;
      var init, d := data[..n], data[n];
      assert data == init + [d];
      PlotAverages(m, init);
      var p0 := AddAll(NewPlot(m), init);
      assert AddAll(NewPlot(m), data) == AddDatum(p0, d);
      if p0.currentN + 1 == m {
        AddDatumCompletes(p0, init, d, m);
      } else {
        AddDatumContinues(p0, init, d, m);
      }
    }
  }

  /** The points already there keep describing their groups when a datum is added. */
  lemma GroupPointsExtend(points: seq<Datum>, init: seq<Datum>, d: Datum, m: nat)
    requires GroupPoints(points, init, m)
    ensures GroupPoints(points, init + [d], m)
  {
    forall k | 0 <= k < |points|
      ensures GroupPoint(init + [d], m, k, points[k])
    {
      GroupPointExtend(init, d, m, k, points[k]);
    }
  }

  /** A datum that completes the unfinished group pushes its point and empties the counters. */
  lemma AddDatumCompletes(p0: Plot, init: seq<Datum>, d: Datum, m: nat)
    requires Summarises(p0, init, m) && p0.currentN + 1 == m
    ensures Summarises(AddDatum(p0, d), init + [d], m)
  {
    var data, n := init + [d], |init|;
    var p := AddDatum(p0, d);
    DivModStep(n, m);
    var lo := n - n % m;
    assert data[lo..n + 1] == init[lo..] + [d];
    SumYSnoc(init[lo..], d);
    GroupPointsExtend(p0.points, init, d, m);
    assert p.points == p0.points + [p.points[n / m]];
    assert lo + m == n + 1;
    assert GroupPoint(data, m, n / m, p.points[n / m]);
    assert data[|data| - |data| % m..] == [];
  }

  /** A datum that leaves the group unfinished joins the counters. */
  lemma AddDatumContinues(p0: Plot, init: seq<Datum>, d: Datum, m: nat)
    requires Summarises(p0, init, m) && p0.currentN + 1 != m
    ensures Summarises(AddDatum(p0, d), init + [d], m)
  {
    var data, n := init + [d], |init|;
    var p := AddDatum(p0, d);
    DivModStep(n, m);
    var lo := n - n % m;
    assert data[lo..n + 1] == init[lo..] + [d];
    SumYSnoc(init[lo..], d);
    GroupPointsExtend(p0.points, init, d, m);
    assert data[|data| - |data| % m..] == data[lo..n + 1];
  }

  /** A point of a group already complete stays that group's point when data are added. */
  lemma GroupPointExtend(init: seq<Datum>, d: Datum, m: nat, k: nat, pt: Datum)
    requires GroupPoint(init, m, k, pt)
    ensures GroupPoint(init + [d], m, k, pt)
  {
    var data := init + [d];
    assert data[k * m..k * m + m] == init[k * m..k * m + m];
  }

  /** How one more datum moves the quotient and remainder of a count by `m`. */
  lemma DivModStep(n: nat, m: nat)
    requires m >= 1
    ensures n == (n / m) * m + n % m && n % m < m
    ensures n % m + 1 == m ==> (n + 1) / m == n / m + 1 && (n + 1) % m == 0
    ensures n % m + 1 < m ==> (n + 1) / m == n / m && (n + 1) % m == n % m + 1
  {
    if n % m + 1 == m {
      DivUnique(n + 1, m, n / m + 1, 0);
    } else {
      DivUnique(n + 1, m, n / m, n % m + 1);
    }
  }
}
