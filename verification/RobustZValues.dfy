/** The median and the robust score as the numbers they are, apart from how they are computed. */
module RobustZValues {
  import opened RobustZ

  // m is the middle sample in order, or the mean of the two middle ones; nothing has median 0.
  ghost predicate IsMedian(xs: seq<real>, m: real) {
    exists s :: Sorted(s) && multiset(s) == multiset(xs) && m ==
      if |s| == 0 then 0.0
      else if |s| % 2 == 1 then s[(|s| - 1) / 2]
      else (s[|s| / 2 - 1] + s[|s| / 2]) * 0.5
  }

  /** The median of a list is its middle sample in order, or the mean of the two middle ones. */
  lemma {:induction false} MedianExactly(xs: seq<real>, m: real)
    ensures IsMedian(xs, m) <==> Median(xs) == m
  {
    hide Sort;
    SortSorts(xs);
    forall s | Sorted(s) && multiset(s) == multiset(xs) ensures s == Sort(xs) {
      SortedUnique(s, Sort(xs));
    }
  }

  ghost predicate IsMean(xs: seq<real>, m: real) {
    xs != [] && m * |xs| as real == Sum(xs)
  }

  // The score: how many scales the value lies above the center, and no less than nothing.
  ghost predicate IsScore(z: real, v: real, center: real, scale: real) {
    scale > 0.0 && if v <= center then z == 0.0 else z * scale == v - center
  }

  /** Without samples there is no score. */
  lemma {:induction false} NoSamples(v: real, sqrt: real -> real)
    ensures PositiveRobustZ(v, [], sqrt) == 0.0
  {
  }

  lemma {:induction false} ScoreIs(v: real, center: real, scale: real)
    requires scale > 0.0
    ensures var z := (v - center) / scale; IsScore(if z < 0.0 then 0.0 else z, v, center, scale)
  {
    var z := (v - center) / scale;
    assert z * scale == v - center;
    if v <= center {
      DivideMonotone(v - center, 0.0, scale);
    } else {
      Positive(v - center, scale);
    }
  }

  // The samples' distances from a point.
  ghost predicate Distances(xs: seq<real>, m: real, ds: seq<real>) {
    |ds| == |xs| && forall i :: 0 <= i < |xs| ==> ds[i] >= 0.0 && (ds[i] == xs[i] - m || ds[i] == m - xs[i])
  }

  lemma {:induction false} DeviationsExactly(xs: seq<real>, m: real, ds: seq<real>)
    requires Distances(xs, m, ds)
    ensures ds == Deviations(xs, m)
  {
  }

  /** With a median m and a median distance d of which 1.4826 d exceeds 1e-9, the score is measured from m in
      1.4826 d. */
  lemma {:induction false} ScoreFromMedian(v: real, series: seq<real>, sqrt: real -> real, m: real, ds: seq<real>,
                                           d: real)
    requires series != [] && IsMedian(series, m) && Distances(series, m, ds) && IsMedian(ds, d)
    requires 1.4826 * d > 0.000000001
    ensures IsScore(PositiveRobustZ(v, series, sqrt), v, m, 1.4826 * d)
  {
    hide Median, IsMedian, Deviations;
    MedianExactly(series, m);
    DeviationsExactly(series, m, ds);
    MedianExactly(ds, d);
    ScoreIs(v, m, 1.4826 * d);
  }

  /** Otherwise it is measured from the mean, in the standard deviation, or in ones when that is at most 1e-9. */
  lemma {:induction false} ScoreFromMean(v: real, series: seq<real>, sqrt: real -> real, m: real, ds: seq<real>,
                                         d: real, mean: real, variance: real)
    requires IsMedian(series, m) && Distances(series, m, ds) && IsMedian(ds, d) && 1.4826 * d <= 0.000000001
    requires IsMean(series, mean) && variance * |series| as real == Squares(series, mean)
    ensures IsScore(PositiveRobustZ(v, series, sqrt), v, mean,
                    if sqrt(variance) > 0.000000001 then sqrt(variance) else 1.0)
  {
    hide Median, IsMedian, Deviations, Sum, Squares;
    MedianExactly(series, m);
    DeviationsExactly(series, m, ds);
    MedianExactly(ds, d);
    var n := |series| as real;
    QuotientIs(Sum(series), mean, n);
    QuotientIs(Squares(series, mean), variance, n);
    ScoreIs(v, mean, if sqrt(variance) > 0.000000001 then sqrt(variance) else 1.0);
  }

  lemma {:induction false} QuotientIs(a: real, q: real, n: real)
    requires n > 0.0 && q * n == a
    ensures a / n == q
  {
  }
}
