/** Step-by-step evaluation of the rolling statistics. The mean keeps a running
    sum that gains the entering price and loses the leaving one, as pandas'
    rolling mean does. The rank is this model's own evaluation: it rescans the
    window at each step (O(K) per step), where pandas keeps the window in a
    skiplist; both yield the same average-tie rank. Each method is proved equal
    to the series defined in `Rolling`. */
module RollingLoops {
  import opened Rolling

  lemma SumSnoc(p: seq<real>, a: nat, b: nat)
    requires a <= b < |p|
    ensures Sum(p[a .. b + 1]) == Sum(p[a .. b]) + p[b]
  {
    assert p[a .. b + 1][.. b - a] == p[a .. b];
  }

  lemma {:induction false} SumDropFirst(s: seq<real>)
    requires |s| >= 1
    ensures Sum(s) == s[0] + Sum(s[1..])
  {
    if |s| > 1 {
      var t := s[..|s| - 1];
      SumDropFirst(t);
      assert t[1..] == s[1..][..|s| - 2];
    } else {
      assert s[1..] == [];
    }
  }

  /** Start of the prices the running sum covers before index `i`. */
  function SumStart(i: nat, w: nat): nat
  {
    if i < w then 0 else i - w
  }

  /** Dropping the first price of a slice takes it off the sum. */
  lemma SlideOut(p: seq<real>, a: nat, b: nat)
    requires a < b <= |p|
    ensures Sum(p[a + 1 .. b]) == Sum(p[a .. b]) - p[a]
  {
    SumDropFirst(p[a .. b]);
    assert p[a .. b][1..] == p[a + 1 .. b];
  }

  /** Rolling mean with a running sum: before index `i` the sum covers the (at
      most `w`) prices before `i`. */
  method RollingMean(p: seq<real>, w: nat) returns (ma: seq<Option<real>>)
    requires w >= 1
    ensures ma == MovingAverageSeries(p, w)
  {
    ma := [];
    var sum := 0.0;
    var i := 0;
    while i < |p|
      invariant 0 <= i <= |p|
      invariant |ma| == i
      invariant forall j :: 0 <= j < i ==> ma[j] == MovingAverageAt(p, w, j)
      invariant sum == Sum(p[SumStart(i, w) .. i])
    {
      var next := sum + p[i] - (if i >= w then p[i - w] else 0.0);
      MeanStep(p, w, i);
      ma := ma + [if i + 1 >= w then Some(next / w as real) else None];
      sum := next;
      i := i + 1;
    }
    assert ma == MovingAverageSeries(p, w);
  }

  /** One step of the running sum: add the entering price, drop the leaving one. */
  lemma MeanStep(p: seq<real>, w: nat, i: nat)
    requires w >= 1 && i < |p|
    ensures Sum(p[SumStart(i + 1, w) .. i + 1])
            == Sum(p[SumStart(i, w) .. i]) + p[i] - (if i >= w then p[i - w] else 0.0)
    ensures MovingAverageAt(p, w, i)
            == if i + 1 >= w then Some(Sum(p[SumStart(i + 1, w) .. i + 1]) / w as real) else None
  {
    SumSnoc(p, SumStart(i, w), i);
    if i >= w {
      SlideOut(p, i - w, i + 1);
    }
  }

  /** One scan of a window: None as soon as an undefined entry is met, otherwise
      the average-tie percentile of its last entry. */
  method WindowRank(window: seq<Option<real>>) returns (r: Option<real>)
    requires |window| >= 1
    ensures r == if AllDefined(window) then Some(PercentileOfNewest(Values(window))) else None
  {
    var n := |window|;
    if window[n - 1].None? {
      return None;
    }
    var x := window[n - 1].value;
    var less, equal := 0, 0;
    var j := 0;
    while j < n
      invariant 0 <= j <= n
      invariant AllDefined(window[..j])
      invariant less == CountLess(Values(window[..j]), x)
      invariant equal == CountEqual(Values(window[..j]), x)
    {
      if window[j].None? {
        assert !AllDefined(window) by {
          assert window[j].None?;
        }
        return None;
      }
      var v := window[j].value;
      assert Values(window[..j + 1])[..j] == Values(window[..j]);
      if v < x {
        less := less + 1;
      }
      if v == x {
        equal := equal + 1;
      }
      j := j + 1;
    }
    assert window[..n] == window;
    r := Some(PercentFromCounts(less, equal, n));
  }

  /** The rolling percentile series, one window scan per index. */
  method RollingRank(d: seq<Option<real>>, k: nat) returns (pct: seq<Option<real>>)
    requires k >= 1
    ensures pct == PercentileSeries(d, k)
  {
    pct := [];
    var i := 0;
    while i < |d|
      invariant 0 <= i <= |d|
      invariant |pct| == i
      invariant forall j :: 0 <= j < i ==> pct[j] == PercentileAt(d, k, j)
    {
      var r: Option<real>;
      if i + 1 < k {
        r := None;
      } else {
        r := WindowRank(d[i + 1 - k .. i + 1]);
      }
      pct := pct + [r];
      i := i + 1;
    }
  }
}
