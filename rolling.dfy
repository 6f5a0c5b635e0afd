/** The rolling deviation-percentile indicator of `compute_deviation_percentile`:
    a trailing moving average of the close price, the relative deviation of the
    price from it, and the average-tie percentile rank of the newest deviation
    inside a trailing window of deviations. Prices are reals; "undefined"
    (pandas' NaN) is `None`. */
module Rolling {

  datatype Option<T> = None | Some(value: T)

  /** Default moving-average window (200 trading days). */
  const DefaultMaWindow: nat := 200
  /** Default percentile window (1260 trading days, about five years). */
  const DefaultRankWindow: nat := 1260

  predicate AllPositive(p: seq<real>)
  {
    forall i :: 0 <= i < |p| ==> p[i] > 0.0
  }

  /** Sum of a sequence, peeled from the back so that a window growing on the right is one step. */
  function Sum(s: seq<real>): real
  {
    if s == [] then 0.0 else Sum(s[..|s| - 1]) + s[|s| - 1]
  }

  lemma {:induction false} SumBounds(s: seq<real>, lo: real, hi: real)
    requires forall j :: 0 <= j < |s| ==> lo <= s[j] <= hi
    ensures |s| as real * lo <= Sum(s) <= |s| as real * hi
  {
    if s != [] {
      SumBounds(s[..|s| - 1], lo, hi);
    }
  }

  lemma {:induction false} SumPositive(s: seq<real>)
    requires |s| >= 1 && AllPositive(s)
    ensures Sum(s) > 0.0
  {
    if |s| > 1 {
      SumPositive(s[..|s| - 1]);
    }
  }

  // ---------------------------------------------------------------- moving average

  /** MA[i]: the mean of the `w` prices ending at `i`; undefined while fewer than
      `w` prices have been seen (pandas' `min_periods` defaults to the window). */
  function MovingAverageAt(p: seq<real>, w: nat, i: nat): (r: Option<real>)
    requires w >= 1 && i < |p|
    ensures r.Some? <==> i + 1 >= w
  {
    if i + 1 < w then None else Some(Sum(p[i + 1 - w .. i + 1]) / w as real)
  }

  /** With positive prices the moving average is positive. */
  lemma MovingAveragePositive(p: seq<real>, w: nat, i: nat)
    requires AllPositive(p) && w >= 1 && w <= i + 1 <= |p|
    ensures MovingAverageAt(p, w, i).value > 0.0
  {
    SumPositive(p[i + 1 - w .. i + 1]);
  }

  /** The mean lies between any lower and upper bound of the prices in its window. */
  lemma MovingAverageBounds(p: seq<real>, w: nat, i: nat, lo: real, hi: real)
    requires w >= 1 && w <= i + 1 <= |p|
    requires forall j :: i + 1 - w <= j <= i ==> lo <= p[j] <= hi
    ensures lo <= MovingAverageAt(p, w, i).value <= hi
  {
    var window := p[i + 1 - w .. i + 1];
    SumBounds(window, lo, hi);
    DivBetween(Sum(window), w as real, lo, hi);
  }

  function MovingAverageSeries(p: seq<real>, w: nat): (ma: seq<Option<real>>)
    requires w >= 1
    ensures |ma| == |p|
    ensures forall i :: 0 <= i < |p| ==> ma[i] == MovingAverageAt(p, w, i)
  {
    seq(|p|, i requires 0 <= i < |p| => MovingAverageAt(p, w, i))
  }

  // ---------------------------------------------------------------- deviation

  /** dev[i] = (p[i] - MA[i]) / MA[i] where MA[i] is defined. The price is
      recovered from the deviation (p = MA * (1 + dev)), the deviation is
      above -1, and its sign is the sign of p[i] - MA[i]. */
  function DeviationAt(p: seq<real>, w: nat, i: nat): (r: Option<real>)
    requires AllPositive(p) && w >= 1 && i < |p|
    ensures r.Some? <==> i + 1 >= w
    ensures r.Some? ==> p[i] == MovingAverageAt(p, w, i).value * (1.0 + r.value)
    ensures r.Some? ==> r.value > -1.0
    ensures r.Some? ==> (r.value >= 0.0 <==> p[i] >= MovingAverageAt(p, w, i).value)
  {
    match MovingAverageAt(p, w, i)
    case None => None
    case Some(ma) =>
      MovingAveragePositive(p, w, i);
      var d := (p[i] - ma) / ma;
      assert d * ma == p[i] - ma;
      assert p[i] / ma > 0.0;
      Some(d)
  }

  function DeviationSeries(p: seq<real>, w: nat): (dev: seq<Option<real>>)
    requires AllPositive(p) && w >= 1
    ensures |dev| == |p|
    ensures forall i :: 0 <= i < |p| ==> dev[i] == DeviationAt(p, w, i)
  {
    seq(|p|, i requires 0 <= i < |p| => DeviationAt(p, w, i))
  }

  // ---------------------------------------------------------------- average-tie rank

  /** Number of entries of `s` strictly below `x`. */
  function CountLess(s: seq<real>, x: real): nat
  {
    if s == [] then 0
    else CountLess(s[..|s| - 1], x) + (if s[|s| - 1] < x then 1 else 0)
  }

  /** Number of entries of `s` equal to `x`. */
  function CountEqual(s: seq<real>, x: real): nat
  {
    if s == [] then 0
    else CountEqual(s[..|s| - 1], x) + (if s[|s| - 1] == x then 1 else 0)
  }

  /** 100 * (m + (e + 1) / 2) / n for m values below, e values equal (the newest
      included) in a window of n. */
  function PercentFromCounts(less: nat, equal: nat, n: nat): real
    requires n >= 1
  {
    100.0 * (less as real + (equal as real + 1.0) / 2.0) / n as real
  }

  /** pandas' `rank(pct=True) * 100` with the default `method='average'`, for the
      newest (last) value of a full window. */
  function PercentileOfNewest(s: seq<real>): (r: real)
    requires |s| >= 1
    ensures 100.0 / |s| as real <= r <= 100.0
  {
    var x := s[|s| - 1];
    CountsBound(s, x);
    CountEqualNewest(s);
    var m, e, n := CountLess(s, x) as real, CountEqual(s, x) as real, |s| as real;
    var rank := m + (e + 1.0) / 2.0;
    assert 1.0 <= rank <= n;
    DivBetween(100.0 * rank, n, 100.0 / n, 100.0);
    PercentFromCounts(CountLess(s, x), CountEqual(s, x), |s|)
  }

  lemma {:induction false} CountsBound(s: seq<real>, x: real)
    ensures CountLess(s, x) + CountEqual(s, x) <= |s|
  {
    if s != [] {
      CountsBound(s[..|s| - 1], x);
    }
  }

  lemma CountEqualNewest(s: seq<real>)
    requires |s| >= 1
    ensures CountEqual(s, s[|s| - 1]) >= 1
  {
  }

  lemma {:induction false} CountLessAll(s: seq<real>, x: real)
    ensures CountLess(s, x) == |s| <==> forall j :: 0 <= j < |s| ==> s[j] < x
  {
    if s != [] {
      var t := s[..|s| - 1];
      CountLessAll(t, x);
      CountsBound(t, x);
      if CountLess(s, x) == |s| {
        forall j | 0 <= j < |s| ensures s[j] < x {
          if j < |s| - 1 {
            assert s[j] == t[j];
          }
        }
      }
      if forall j :: 0 <= j < |s| ==> s[j] < x {
        assert forall j :: 0 <= j < |t| ==> t[j] < x by {
          forall j | 0 <= j < |t| ensures t[j] < x {
            assert t[j] == s[j];
          }
        }
      }
    }
  }

  lemma {:induction false} CountConstant(s: seq<real>, x: real)
    requires forall j :: 0 <= j < |s| ==> s[j] == x
    ensures CountLess(s, x) == 0 && CountEqual(s, x) == |s|
  {
    if s != [] {
      var t := s[..|s| - 1];
      assert forall j :: 0 <= j < |t| ==> t[j] == s[j];
      CountConstant(t, x);
    }
  }

  /** The newest value scores exactly 100 iff it is strictly above every other
      value of the window (not 100 * (K - 0.5) / K). */
  lemma PercentileHundredIff(s: seq<real>)
    requires |s| >= 1
    ensures PercentileOfNewest(s) == 100.0 <==> forall j :: 0 <= j < |s| - 1 ==> s[j] < s[|s| - 1]
  {
    var x, t := s[|s| - 1], s[..|s| - 1];
    assert CountLess(s, x) == CountLess(t, x);
    assert CountEqual(s, x) == CountEqual(t, x) + 1;
    CountsBound(t, x);
    CountLessAll(t, x);
    var m, e, n := CountLess(s, x) as real, CountEqual(s, x) as real, |s| as real;
    var rank := m + (e + 1.0) / 2.0;
    assert PercentileOfNewest(s) == 100.0 * rank / n;
    DivEq(100.0 * rank, n, 100.0);
    assert forall j :: 0 <= j < |t| ==> t[j] == s[j];
  }

  /** A window of K equal values scores 100 * (K + 1) / (2K) (not 50). */
  lemma PercentileAllEqual(s: seq<real>)
    requires |s| >= 1
    requires forall j :: 0 <= j < |s| ==> s[j] == s[0]
    ensures PercentileOfNewest(s) == 100.0 * (|s| as real + 1.0) / (2.0 * |s| as real)
  {
    var x := s[|s| - 1];
    CountConstant(s, x);
    var n := |s| as real;
    assert PercentileOfNewest(s) == 100.0 * ((n + 1.0) / 2.0) / n;
  }

  lemma {:induction false} HalfScoreMonotone(t: seq<real>, x: real, y: real)
    requires x <= y
    ensures CountLess(t, x) as real + CountEqual(t, x) as real / 2.0
         <= CountLess(t, y) as real + CountEqual(t, y) as real / 2.0
  {
    if t != [] {
      HalfScoreMonotone(t[..|t| - 1], x, y);
    }
  }

  /** Partial ties, hand-computed for K = 4: in [1, 2, 1, 2] the newest 2 has
      two values below and two equal (rank 3.5), in [2, 1, 2, 1] the newest 1
      has none below and two equal (rank 1.5). */
  lemma PercentilePartialTies()
    ensures PercentileOfNewest([1.0, 2.0, 1.0, 2.0]) == 87.5
    ensures PercentileOfNewest([2.0, 1.0, 2.0, 1.0]) == 37.5
  {
    var a, b := [1.0, 2.0, 1.0, 2.0], [2.0, 1.0, 2.0, 1.0];
    assert a[..3] == [1.0, 2.0, 1.0] && a[..3][..2] == [1.0, 2.0] && a[..3][..2][..1] == [1.0];
    assert b[..3] == [2.0, 1.0, 2.0] && b[..3][..2] == [2.0, 1.0] && b[..3][..2][..1] == [2.0];
    assert [1.0][..0] == [] && [2.0][..0] == [];
    assert CountLess([1.0], 2.0) == 1 && CountEqual([1.0], 2.0) == 0;
    assert CountLess([1.0, 2.0], 2.0) == 1 && CountEqual([1.0, 2.0], 2.0) == 1;
    assert CountLess([1.0, 2.0, 1.0], 2.0) == 2 && CountEqual([1.0, 2.0, 1.0], 2.0) == 1;
    assert CountLess(a, 2.0) == 2 && CountEqual(a, 2.0) == 2;
    assert CountLess([2.0], 1.0) == 0 && CountEqual([2.0], 1.0) == 0;
    assert CountLess([2.0, 1.0], 1.0) == 0 && CountEqual([2.0, 1.0], 1.0) == 1;
    assert CountLess([2.0, 1.0, 2.0], 1.0) == 0 && CountEqual([2.0, 1.0, 2.0], 1.0) == 1;
    assert CountLess(b, 1.0) == 0 && CountEqual(b, 1.0) == 2;
  }

  /** With the other K - 1 values fixed, the percentile of the newest value is
      non-decreasing in that value. */
  lemma PercentileMonotone(t: seq<real>, x: real, y: real)
    requires x <= y
    ensures PercentileOfNewest(t + [x]) <= PercentileOfNewest(t + [y])
  {
    var sx, sy := t + [x], t + [y];
    assert sx[..|sx| - 1] == t && sy[..|sy| - 1] == t;
    HalfScoreMonotone(t, x, y);
    var n := |sx| as real;
    var rx := CountLess(t, x) as real + CountEqual(t, x) as real / 2.0 + 1.0;
    var ry := CountLess(t, y) as real + CountEqual(t, y) as real / 2.0 + 1.0;
    assert PercentileOfNewest(sx) == 100.0 * rx / n;
    assert PercentileOfNewest(sy) == 100.0 * ry / n;
    DivMonotone(100.0 * rx, 100.0 * ry, n);
  }

  // ---------------------------------------------------------------- rolling percentile

  predicate AllDefined(s: seq<Option<real>>)
  {
    forall j :: 0 <= j < |s| ==> s[j].Some?
  }

  function Values(s: seq<Option<real>>): (v: seq<real>)
    requires AllDefined(s)
    ensures |v| == |s| && forall j :: 0 <= j < |s| ==> v[j] == s[j].value
  {
    seq(|s|, j requires 0 <= j < |s| => s[j].value)
  }

  /** pct[i]: the percentile of d[i] among the `k` deviations ending at `i`;
      undefined unless all `k` of them are defined. Every defined value lies in
      [100 / k, 100]. */
  function PercentileAt(d: seq<Option<real>>, k: nat, i: nat): (r: Option<real>)
    requires k >= 1 && i < |d|
    ensures r.Some? <==> i + 1 >= k && AllDefined(d[i + 1 - k .. i + 1])
    ensures r.Some? ==> 100.0 / k as real <= r.value <= 100.0
  {
    if i + 1 < k then None
    else
      var window := d[i + 1 - k .. i + 1];
      if AllDefined(window) then Some(PercentileOfNewest(Values(window))) else None
  }

  function PercentileSeries(d: seq<Option<real>>, k: nat): (pct: seq<Option<real>>)
    requires k >= 1
    ensures |pct| == |d|
    ensures forall i :: 0 <= i < |d| ==> pct[i] == PercentileAt(d, k, i)
  {
    seq(|d|, i requires 0 <= i < |d| => PercentileAt(d, k, i))
  }

  /** The percentile is defined exactly from index w + k - 2 on. */
  lemma PercentileDefinedIff(p: seq<real>, w: nat, k: nat, i: nat)
    requires AllPositive(p) && w >= 1 && k >= 1 && i < |p|
    ensures PercentileAt(DeviationSeries(p, w), k, i).Some? <==> i + 2 >= w + k
  {
    var d := DeviationSeries(p, w);
    if i + 1 >= k {
      var window := d[i + 1 - k .. i + 1];
      if i + 2 >= w + k {
        forall j | 0 <= j < k ensures window[j].Some? {
          assert window[j] == d[i + 1 - k + j];
        }
      } else {
        assert window[0] == d[i + 1 - k];
        assert window[0].None?;
      }
    }
  }

  /** A defined window whose newest deviation is strictly above the other
      k - 1 scores exactly 100. */
  lemma NewHighScoresHundred(d: seq<Option<real>>, k: nat, i: nat)
    requires k >= 1 && k <= i + 1 <= |d|
    requires forall j :: i + 1 - k <= j <= i ==> d[j].Some?
    requires forall j :: i + 1 - k <= j < i ==> d[j].value < d[i].value
    ensures PercentileAt(d, k, i) == Some(100.0)
  {
    var window := d[i + 1 - k .. i + 1];
    assert AllDefined(window) by {
      forall j | 0 <= j < k ensures window[j].Some? {
        assert window[j] == d[i + 1 - k + j];
      }
    }
    var vs := Values(window);
    assert vs[k - 1] == d[i].value;
    forall j | 0 <= j < k - 1 ensures vs[j] < vs[k - 1] {
      assert vs[j] == d[i + 1 - k + j].value;
    }
    PercentileHundredIff(vs);
  }

  // ---------------------------------------------------------------- the indicator

  datatype Indicators = Indicators(ma: seq<Option<real>>, deviation: seq<Option<real>>, percentile: seq<Option<real>>)

  /** `compute_deviation_percentile(close, ma_window, rolling_window)`: the three
      series, aligned with the prices. MA is defined from index w - 1 on, the
      deviation exactly where MA is, and the percentile from index w + k - 2 on,
      always within [100 / k, 100]. */
  function ComputeDeviationPercentile(p: seq<real>, w: nat, k: nat): (r: Indicators)
    requires AllPositive(p) && w >= 1 && k >= 1
    ensures |r.ma| == |p| && |r.deviation| == |p| && |r.percentile| == |p|
    ensures forall i :: 0 <= i < |p| ==> (r.ma[i].Some? <==> i + 1 >= w)
    ensures forall i :: 0 <= i < |p| ==> (r.deviation[i].Some? <==> r.ma[i].Some?)
    ensures forall i :: 0 <= i < |p| && r.ma[i].Some? ==> r.ma[i].value > 0.0
    ensures forall i :: 0 <= i < |p| && r.ma[i].Some? ==>
              r.deviation[i].value == (p[i] - r.ma[i].value) / r.ma[i].value
    ensures forall i :: 0 <= i < |p| ==> (r.percentile[i].Some? <==> i + 2 >= w + k)
    ensures forall i :: 0 <= i < |p| && r.percentile[i].Some? ==>
              100.0 / k as real <= r.percentile[i].value <= 100.0
  {
    var ma := MovingAverageSeries(p, w);
    var dev := DeviationSeries(p, w);
    assert forall i :: 0 <= i < |p| && ma[i].Some? ==> ma[i].value > 0.0 by {
      forall i | 0 <= i < |p| && ma[i].Some? ensures ma[i].value > 0.0 {
        MovingAveragePositive(p, w, i);
      }
    }
    var pct := PercentileSeries(dev, k);
    assert forall i :: 0 <= i < |p| ==> (pct[i].Some? <==> i + 2 >= w + k) by {
      forall i | 0 <= i < |p| ensures pct[i].Some? <==> i + 2 >= w + k {
        PercentileDefinedIff(p, w, k, i);
      }
    }
    Indicators(ma, dev, pct)
  }

  /** A constant positive price gives MA = price, deviation 0 and, in the active
      phase, the all-ties percentile 100 * (k + 1) / (2k). */
  lemma FlatSeries(p: seq<real>, w: nat, k: nat, i: nat)
    requires |p| >= 1 && AllPositive(p) && w >= 1 && k >= 1
    requires forall j :: 0 <= j < |p| ==> p[j] == p[0]
    requires w + k <= i + 2 && i < |p|
    ensures ComputeDeviationPercentile(p, w, k).deviation[i] == Some(0.0)
    ensures ComputeDeviationPercentile(p, w, k).percentile[i]
            == Some(100.0 * (k as real + 1.0) / (2.0 * k as real))
  {
    var d := DeviationSeries(p, w);
    var window := d[i + 1 - k .. i + 1];
    forall j | 0 <= j < k ensures window[j] == Some(0.0) {
      assert window[j] == d[i + 1 - k + j];
      FlatDeviation(p, w, i + 1 - k + j);
    }
    FlatDeviation(p, w, i);
    var vs := Values(window);
    assert forall j :: 0 <= j < |vs| ==> vs[j] == vs[0];
    PercentileAllEqual(vs);
  }

  lemma FlatDeviation(p: seq<real>, w: nat, j: nat)
    requires AllPositive(p) && w >= 1 && w <= j + 1 <= |p|
    requires forall q :: 0 <= q < |p| ==> p[q] == p[0]
    ensures DeviationAt(p, w, j) == Some(0.0)
  {
    MovingAverageBounds(p, w, j, p[0], p[0]);
  }

  // ---------------------------------------------------------------- real arithmetic helpers

  lemma MulStrict(a: real, b: real, n: real)
    requires a < b && n > 0.0
    ensures a * n < b * n
  {
  }

  lemma DivBetween(s: real, n: real, lo: real, hi: real)
    requires n > 0.0 && n * lo <= s <= n * hi
    ensures lo <= s / n <= hi
  {
    var q := s / n;
    assert q * n == s;
    if q < lo { MulStrict(q, lo, n); }
    if q > hi { MulStrict(hi, q, n); }
  }

  lemma DivMonotone(a: real, b: real, n: real)
    requires a <= b && n > 0.0
    ensures a / n <= b / n
  {
  }

  lemma DivEq(a: real, n: real, c: real)
    requires n > 0.0
    ensures a / n == c <==> a == c * n
  {
  }
}
