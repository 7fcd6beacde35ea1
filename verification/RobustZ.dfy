/** The median and the positive robust z-score of abuse detection, over exact reals. */
module RobustZ {

  // ---- sorting ----

  ghost predicate Sorted(s: seq<real>) {
    forall i, j :: 0 <= i <= j < |s| ==> s[i] <= s[j]
  }

  function Insert(x: real, s: seq<real>): (r: seq<real>)
    ensures multiset(r) == multiset{x} + multiset(s)
  {
    if s == [] || x <= s[0] then [x] + s
    else
      assert s == [s[0]] + s[1..];
      [s[0]] + Insert(x, s[1..])
  }

  // sorted(xs)
  function Sort(xs: seq<real>): (r: seq<real>)
    ensures multiset(r) == multiset(xs) && |r| == |xs|
  {
    if xs == [] then []
    else
      assert xs == [xs[0]] + xs[1..];
      var r := Insert(xs[0], Sort(xs[1..]));
      assert |multiset(r)| == |r| && |multiset(xs)| == |xs|;
      r
  }

  lemma {:induction false} InsertSorted(x: real, s: seq<real>)
    requires Sorted(s)
    ensures Sorted(Insert(x, s))
  {
    if s != [] && x > s[0] {
      InsertSorted(x, s[1..]);
      var rest := Insert(x, s[1..]);
      forall i | 0 <= i < |rest| ensures s[0] <= rest[i] {
        assert rest[i] in multiset(rest);
      }
    }
  }

  lemma {:induction false} SortSorts(xs: seq<real>)
    ensures Sorted(Sort(xs))
  {
    if xs != [] {
      SortSorts(xs[1..]);
      InsertSorted(xs[0], Sort(xs[1..]));
    }
  }

  lemma {:induction false} HeadIsLeast(s: seq<real>, x: real)
    requires Sorted(s) && x in multiset(s)
    ensures s[0] <= x
  {
  }

  lemma {:induction false} HeadOff(s: seq<real>)
    requires s != []
    ensures multiset(s) == multiset{s[0]} + multiset(s[1..])
  {
    assert s == [s[0]] + s[1..];
  }

  lemma {:induction false} SortedUnique(a: seq<real>, b: seq<real>)
    requires Sorted(a) && Sorted(b) && multiset(a) == multiset(b)
    ensures a == b
    decreases |a|, 1
  {
    assert |multiset(a)| == |a| && |multiset(b)| == |b|;
    if a != [] {
      assert a[0] in multiset(a) && b[0] in multiset(b);
      HeadIsLeast(a, b[0]);
      HeadIsLeast(b, a[0]);
      HeadOff(a);
      HeadOff(b);
      TailsUnique(a, b);
    }
  }

  lemma {:induction false} TailsUnique(a: seq<real>, b: seq<real>)
    requires a != [] && b != [] && a[0] == b[0] && Sorted(a) && Sorted(b)
    requires multiset{a[0]} + multiset(a[1..]) == multiset{b[0]} + multiset(b[1..])
    ensures a == b
    decreases |a|, 0
  {
    assert multiset(a[1..]) == (multiset{a[0]} + multiset(a[1..])) - multiset{a[0]};
    assert multiset(b[1..]) == (multiset{b[0]} + multiset(b[1..])) - multiset{b[0]};
    SortedUnique(a[1..], b[1..]);
    assert a == [a[0]] + a[1..] && b == [b[0]] + b[1..];
  }

  // ---- the median ----

  function Middle(s: seq<real>): real {
    if s == [] then 0.0
    else if |s| % 2 == 1 then s[|s| / 2]
    else (s[|s| / 2 - 1] + s[|s| / 2]) / 2.0
  }

  function Median(values: seq<real>): real {
    Middle(Sort(values))
  }

  /** The median depends only on the multiset of samples. */
  lemma {:induction false} MedianOfMultiset(xs: seq<real>, ys: seq<real>)
    requires multiset(xs) == multiset(ys)
    ensures Median(xs) == Median(ys)
  {
    hide Sort;
    SortSorts(xs);
    SortSorts(ys);
    SortedUnique(Sort(xs), Sort(ys));
  }

  function AtMost(xs: seq<real>, m: real): nat {
    if xs == [] then 0 else (if xs[0] <= m then 1 else 0) + AtMost(xs[1..], m)
  }

  function AtLeast(xs: seq<real>, m: real): nat {
    if xs == [] then 0 else (if xs[0] >= m then 1 else 0) + AtLeast(xs[1..], m)
  }

  lemma {:induction false} InsertCounts(x: real, s: seq<real>, m: real)
    ensures AtMost(Insert(x, s), m) == AtMost([x] + s, m)
    ensures AtLeast(Insert(x, s), m) == AtLeast([x] + s, m)
  {
    assert ([x] + s)[1..] == s;
    if s != [] && x > s[0] {
      InsertCounts(x, s[1..], m);
      assert ([x] + s[1..])[1..] == s[1..];
      assert Insert(x, s)[1..] == Insert(x, s[1..]);
    }
  }

  lemma {:induction false} SortCounts(xs: seq<real>, m: real)
    ensures AtMost(Sort(xs), m) == AtMost(xs, m)
    ensures AtLeast(Sort(xs), m) == AtLeast(xs, m)
  {
    hide Insert;
    if xs != [] {
      SortCounts(xs[1..], m);
      InsertCounts(xs[0], Sort(xs[1..]), m);
      assert ([xs[0]] + Sort(xs[1..]))[1..] == Sort(xs[1..]);
    }
  }

  lemma {:induction false} FirstAtMost(s: seq<real>, m: real, k: nat)
    requires k <= |s| && forall i :: 0 <= i < k ==> s[i] <= m
    ensures AtMost(s, m) >= k
  {
    if k > 0 {
      FirstAtMost(s[1..], m, k - 1);
    }
  }

  lemma {:induction false} LastAtLeast(s: seq<real>, m: real, k: nat)
    requires k <= |s| && forall i :: |s| - k <= i < |s| ==> s[i] >= m
    ensures AtLeast(s, m) >= k
  {
    if k > 0 {
      if k == |s| {
        LastAtLeast(s[1..], m, k - 1);
      } else {
        LastAtLeast(s[1..], m, k);
      }
    }
  }

  /** At least half the samples lie on each side of the median. */
  lemma {:induction false} HalfOnEachSide(xs: seq<real>)
    ensures 2 * AtMost(xs, Median(xs)) >= |xs| && 2 * AtLeast(xs, Median(xs)) >= |xs|
  {
    hide Sort, AtMost, AtLeast;
    var s, m := Sort(xs), Median(xs);
    SortSorts(xs);
    SortCounts(xs, m);
    var k := (|xs| + 1) / 2;
    FirstAtMost(s, m, k);
    LastAtLeast(s, m, k);
  }

  // ---- the score ----

  function Abs(x: real): real {
    if x < 0.0 then -x else x
  }

  function Deviations(xs: seq<real>, center: real): (r: seq<real>)
    ensures |r| == |xs| && forall i :: 0 <= i < |xs| ==> r[i] == Abs(xs[i] - center)
  {
    seq(|xs|, i requires 0 <= i < |xs| => Abs(xs[i] - center))
  }

  function Sum(xs: seq<real>): real {
    if xs == [] then 0.0 else xs[0] + Sum(xs[1..])
  }

  function Squares(xs: seq<real>, center: real): real {
    if xs == [] then 0.0 else (xs[0] - center) * (xs[0] - center) + Squares(xs[1..], center)
  }

  function Mean(xs: seq<real>): real
    requires xs != []
  {
    Sum(xs) / |xs| as real
  }

  function MadScale(series: seq<real>): real {
    1.4826 * Median(Deviations(series, Median(series)))
  }

  // The spread is wide enough for the median's own scale; otherwise mean and standard deviation are used.
  predicate UsesMad(series: seq<real>) {
    MadScale(series) > 0.000000001
  }

  function Center(series: seq<real>): real
    requires series != []
  {
    if UsesMad(series) then Median(series) else Mean(series)
  }

  function Scale(series: seq<real>, sqrt: real -> real): (r: real)
    requires series != []
    ensures r > 0.0
  {
    if UsesMad(series) then MadScale(series)
    else
      var std := sqrt(Squares(series, Mean(series)) / |series| as real);
      if std > 0.000000001 then std else 1.0
  }

  // sqrt stands for the library's square root; nothing is taken for granted about it.
  function PositiveRobustZ(value: real, series: seq<real>, sqrt: real -> real): real {
    if series == [] then 0.0
    else
      var z := (value - Center(series)) / Scale(series, sqrt);
      if z < 0.0 then 0.0 else z
  }

  lemma {:induction false} DivideMonotone(a: real, b: real, d: real)
    requires a <= b && d > 0.0
    ensures a / d <= b / d
  {
    assert b / d - a / d == (b - a) / d;
  }

  /** A larger value never scores lower. */
  lemma {:induction false} MonotoneInValue(v: real, w: real, series: seq<real>, sqrt: real -> real)
    requires v <= w
    ensures 0.0 <= PositiveRobustZ(v, series, sqrt) <= PositiveRobustZ(w, series, sqrt)
  {
    hide Center, Scale;
    if series != [] {
      DivideMonotone(v - Center(series), w - Center(series), Scale(series, sqrt));
    }
  }

  /** With the median's scale, exactly the values up to the median score zero, so at least half the samples do. */
  lemma {:induction false} ZeroUpToMedian(v: real, series: seq<real>, sqrt: real -> real)
    requires series != [] && UsesMad(series)
    ensures PositiveRobustZ(v, series, sqrt) == 0.0 <==> v <= Median(series)
    ensures 2 * AtMost(series, Median(series)) >= |series|
  {
    hide UsesMad, Median, AtMost;
    HalfOnEachSide(series);
    var d := Scale(series, sqrt);
    if v <= Median(series) {
      DivideMonotone(v - Median(series), 0.0, d);
    } else {
      Positive(v - Median(series), d);
    }
  }

  lemma {:induction false} Positive(a: real, d: real)
    requires a > 0.0 && d > 0.0
    ensures a / d > 0.0
  {
    Larger(d, a / d, 0.0);
    assert d * (a / d) == a;
  }

  // ---- moving and stretching the samples ----

  function Fit(k: real, c: real, x: real): real {
    k * x + c
  }

  // k x + c for every sample.
  function Moved(xs: seq<real>, k: real, c: real): (r: seq<real>)
    ensures |r| == |xs| && forall i :: 0 <= i < |xs| ==> r[i] == Fit(k, c, xs[i])
  {
    seq(|xs|, i requires 0 <= i < |xs| => Fit(k, c, xs[i]))
  }

  lemma {:induction false} Larger(k: real, x: real, y: real)
    requires k > 0.0
    ensures k * x <= k * y <==> x <= y
  {
    assert k * y - k * x == k * (y - x);
  }

  lemma {:induction false} FitGrows(k: real, c: real, x: real, y: real)
    requires k > 0.0
    ensures Fit(k, c, x) <= Fit(k, c, y) <==> x <= y
  {
    Larger(k, x, y);
  }

  lemma {:induction false} MovedCons(x: real, s: seq<real>, k: real, c: real)
    ensures Moved([x] + s, k, c) == [Fit(k, c, x)] + Moved(s, k, c)
  {
    hide Moved, Fit;
  }

  lemma {:induction false} InsertAt(y: real, t: seq<real>)
    ensures Insert(y, t) == if t == [] || y <= t[0] then [y] + t else [t[0]] + Insert(y, t[1..])
  {
  }

  lemma {:induction false} InsertMoved(x: real, s: seq<real>, k: real, c: real)
    requires k > 0.0
    ensures Insert(Fit(k, c, x), Moved(s, k, c)) == Moved(Insert(x, s), k, c)
  {
    hide Moved, Fit, Insert;
    InsertAt(x, s);
    InsertAt(Fit(k, c, x), Moved(s, k, c));
    if s == [] || x <= s[0] {
      MovedCons(x, s, k, c);
      if s != [] {
        FitGrows(k, c, x, s[0]);
      }
    } else {
      FitGrows(k, c, x, s[0]);
      InsertMoved(x, s[1..], k, c);
      MovedCons(s[0], Insert(x, s[1..]), k, c);
      assert Moved(s, k, c)[1..] == Moved(s[1..], k, c);
    }
  }

  lemma {:induction false} SortMoved(xs: seq<real>, k: real, c: real)
    requires k > 0.0
    ensures Sort(Moved(xs, k, c)) == Moved(Sort(xs), k, c)
  {
    hide Moved, Insert, Fit;
    if xs != [] {
      SortMoved(xs[1..], k, c);
      InsertMoved(xs[0], Sort(xs[1..]), k, c);
      assert Moved(xs, k, c)[1..] == Moved(xs[1..], k, c);
    }
  }

  lemma {:induction false} FitMean(k: real, c: real, x: real, y: real)
    ensures (Fit(k, c, x) + Fit(k, c, y)) / 2.0 == Fit(k, c, (x + y) / 2.0)
  {
    assert k * x + k * y == k * (x + y);
  }

  lemma {:induction false} MedianMoved(xs: seq<real>, k: real, c: real)
    requires xs != [] && k > 0.0
    ensures Median(Moved(xs, k, c)) == Fit(k, c, Median(xs))
  {
    hide Sort, Moved, Fit;
    SortMoved(xs, k, c);
    var s := Sort(xs);
    if |s| % 2 == 0 {
      FitMean(k, c, s[|s| / 2 - 1], s[|s| / 2]);
    }
  }

  lemma {:induction false} DeviationMoved(k: real, c: real, x: real, med: real)
    requires k > 0.0
    ensures Abs(Fit(k, c, x) - Fit(k, c, med)) == Fit(k, 0.0, Abs(x - med))
  {
    AbsScaled(k, x - med);
    assert k * x - k * med == k * (x - med);
  }

  lemma {:induction false} MadMoved(xs: seq<real>, k: real, c: real)
    requires xs != [] && k > 0.0
    ensures MadScale(Moved(xs, k, c)) == k * MadScale(xs)
  {
    hide Median, Moved, Deviations, Fit, Abs;
    var med := Median(xs);
    MedianMoved(xs, k, c);
    var devs := Deviations(xs, med);
    var moved := Deviations(Moved(xs, k, c), Fit(k, c, med));
    forall i | 0 <= i < |xs| ensures moved[i] == Fit(k, 0.0, devs[i]) {
      DeviationMoved(k, c, xs[i], med);
    }
    assert moved == Moved(devs, k, 0.0);
    MedianMoved(devs, k, 0.0);
    FitIs(k, 0.0, Median(devs));
  }

  lemma {:induction false} FitIs(k: real, c: real, x: real)
    ensures Fit(k, c, x) == k * x + c
  {
  }

  lemma {:induction false} AbsScaled(k: real, x: real)
    requires k > 0.0
    ensures Abs(k * x) == k * Abs(x)
  {
    Larger(k, 0.0, x);
    assert k * -x == -(k * x);
  }

  lemma {:induction false} SumShifted(xs: seq<real>, c: real)
    ensures Sum(Moved(xs, 1.0, c)) == Sum(xs) + |xs| as real * c
  {
    hide Moved;
    if xs != [] {
      SumShifted(xs[1..], c);
      assert Moved(xs, 1.0, c)[1..] == Moved(xs[1..], 1.0, c);
      assert |xs| as real * c == |xs[1..]| as real * c + c;
    }
  }

  lemma {:induction false} SquaresShifted(xs: seq<real>, center: real, c: real)
    ensures Squares(Moved(xs, 1.0, c), center + c) == Squares(xs, center)
  {
    hide Moved;
    if xs != [] {
      SquaresShifted(xs[1..], center, c);
      assert Moved(xs, 1.0, c)[1..] == Moved(xs[1..], 1.0, c);
      assert Moved(xs, 1.0, c)[0] - (center + c) == xs[0] - center;
    }
  }

  lemma {:induction false} QuotientShifted(a: real, n: real, c: real)
    requires n > 0.0
    ensures (a + n * c) / n == a / n + c
  {
    assert a + n * c == (a / n + c) * n;
  }

  lemma {:induction false} MeanShifted(xs: seq<real>, c: real)
    requires xs != []
    ensures Mean(Moved(xs, 1.0, c)) == Mean(xs) + c
  {
    hide Sum, Moved;
    SumShifted(xs, c);
    QuotientShifted(Sum(xs), |xs| as real, c);
  }

  /** Shifting the value and all samples together leaves the score unchanged, whichever scale is used. */
  lemma {:induction false} ShiftInvariant(v: real, series: seq<real>, c: real, sqrt: real -> real)
    ensures PositiveRobustZ(v + c, Moved(series, 1.0, c), sqrt) == PositiveRobustZ(v, series, sqrt)
  {
    hide Median, MadScale, Moved, Mean, Squares;
    if series != [] {
      MedianMoved(series, 1.0, c);
      MadMoved(series, 1.0, c);
      MeanShifted(series, c);
      SquaresShifted(series, Mean(series), c);
      assert v + c - Center(Moved(series, 1.0, c)) == v - Center(series);
    }
  }

  lemma {:induction false} QuotientScaled(k: real, a: real, d: real)
    requires k > 0.0 && d > 0.0
    ensures k * d > 0.0 && (k * a) / (k * d) == a / d
  {
    Larger(k, 0.0, d);
    assert k * a == (a / d) * (k * d);
  }

  /** Stretching the value and all samples together leaves it unchanged while both sides use the median's scale. */
  lemma {:induction false} ScaleInvariant(v: real, series: seq<real>, k: real, sqrt: real -> real)
    requires series != [] && k > 0.0 && UsesMad(series) && UsesMad(Moved(series, k, 0.0))
    ensures PositiveRobustZ(k * v, Moved(series, k, 0.0), sqrt) == PositiveRobustZ(v, series, sqrt)
  {
    hide Median, MadScale, Moved;
    MedianMoved(series, k, 0.0);
    MadMoved(series, k, 0.0);
    QuotientScaled(k, v - Median(series), MadScale(series));
    assert k * v - Fit(k, 0.0, Median(series)) == k * (v - Median(series));
  }
}
