/** The web dashboard's use of the indicator: the reading it reports (the last
    defined percentile at or after the chosen start, with the last close and the
    last moving average) and the hot / neutral / cold status of that reading. */
module Dashboard {
  import opened Rolling

  /** Above this reading the status is hot. */
  const HighThreshold: real := 80.0
  /** Below this reading the status is cold. */
  const LowThreshold: real := 20.0

  /** The Streamlit message box a status is shown in. */
  datatype Level = Error | Success | Info

  datatype Status = Status(name: string, message: string, level: Level)

  const Hot: Status := Status("偏热", "⚠️ 警告：偏离偏热（相对近5年偏高）", Error)
  const Cold: Status := Status("偏冷", "💎 机会：偏离偏冷（相对近5年偏低）", Success)
  const Neutral: Status := Status("中性", "⚖️ 中性：趋势正常，价格贴近长期均线", Info)

  /** `status_from_value`: hot strictly above 80, cold strictly below 20, and
      neutral on the closed band [20, 80], so exactly one of the three applies. */
  function StatusFromValue(v: real): (r: Status)
    ensures r == Hot <==> v > HighThreshold
    ensures r == Cold <==> v < LowThreshold
    ensures r == Neutral <==> LowThreshold <= v <= HighThreshold
    ensures r.level == Error <==> v > HighThreshold
    ensures r.level == Success <==> v < LowThreshold
  {
    if v > HighThreshold then Hot
    else if v < LowThreshold then Cold
    else Neutral
  }

  // ---------------------------------------------------------------- selection of the reading

  /** An entry of a series that survives `dropna()`: its position and value. */
  datatype Point = Point(index: nat, value: real)

  /** `series.loc[start:].dropna()`, the date cutoff taken as an index cutoff:
      the defined entries at or after `start`, in their original order, and all
      of them. */
  function DefinedFrom(s: seq<Option<real>>, start: nat): (r: seq<Point>)
    decreases |s| - start
    ensures forall q :: 0 <= q < |r| ==>
              start <= r[q].index < |s| && s[r[q].index] == Some(r[q].value)
    ensures forall q1, q2 :: 0 <= q1 < q2 < |r| ==> r[q1].index < r[q2].index
  {
    if start >= |s| then []
    else
      var rest := DefinedFrom(s, start + 1);
      if s[start].Some? then [Point(start, s[start].value)] + rest else rest
  }

  /** Nothing defined at or after the cutoff is dropped. */
  lemma {:induction false} DefinedFromComplete(s: seq<Option<real>>, start: nat, j: nat)
    requires start <= j < |s| && s[j].Some?
    decreases |s| - start
    ensures Point(j, s[j].value) in DefinedFrom(s, start)
  {
    if start < j {
      DefinedFromComplete(s, start + 1, j);
    }
  }

  /** A series defined exactly from index `a` on keeps, after the cutoff, one
      point per index from max(start, a) to the end. */
  lemma {:induction false} DefinedFromSuffix(s: seq<Option<real>>, start: nat, a: nat)
    requires forall j :: 0 <= j < |s| ==> (s[j].Some? <==> j >= a)
    decreases |s| - start
    ensures var b := if start < a then a else start;
            |DefinedFrom(s, start)| == (if b < |s| then |s| - b else 0) &&
            forall q :: 0 <= q < |DefinedFrom(s, start)| ==> DefinedFrom(s, start)[q].index == b + q
  {
    if start < |s| {
      DefinedFromSuffix(s, start + 1, a);
    }
  }

  /** The chart's error when the cutoff leaves no defined entry. */
  datatype ChartError = NoValidData

  datatype Result<T> = Ok(value: T) | Err(error: ChartError)

  /** The last defined entry at or after `start`; an error exactly when there is none. */
  function LatestReading(s: seq<Option<real>>, start: nat): (r: Result<Point>)
    ensures r.Err? <==> forall j :: start <= j < |s| ==> s[j].None?
    ensures r.Ok? ==> start <= r.value.index < |s| && s[r.value.index] == Some(r.value.value)
    ensures r.Ok? ==> forall j :: r.value.index < j < |s| ==> s[j].None?
  {
    var subset := DefinedFrom(s, start);
    if |subset| == 0 then
      assert forall j :: start <= j < |s| ==> s[j].None? by {
        forall j | start <= j < |s| && s[j].Some? ensures false {
          DefinedFromComplete(s, start, j);
        }
      }
      Err(NoValidData)
    else
      var last := subset[|subset| - 1];
      assert forall j :: last.index < j < |s| ==> s[j].None? by {
        forall j | last.index < j < |s| && s[j].Some? ensures false {
          DefinedFromComplete(s, start, j);
        }
      }
      Ok(last)
  }

  /** What `make_chart` / `make_plotly_chart` report besides the figure. */
  datatype ChartReading = ChartReading(lastIndex: nat, lastValue: real, lastPrice: real, lastMa: Option<real>)

  /** The reading shown for prices `p`: an error exactly when the cutoff is past
      the end or the series is too short to define any percentile; otherwise the
      percentile of the final day (within [100 / k, 100]), the final close and a
      defined final moving average. */
  function ChartReadingFor(p: seq<real>, w: nat, k: nat, start: nat): (r: Result<ChartReading>)
    requires AllPositive(p) && w >= 1 && k >= 1
    ensures r.Err? <==> |p| <= start || |p| + 1 < w + k
    ensures r.Ok? ==> |p| >= 1 && r.value.lastIndex == |p| - 1 && r.value.lastPrice == p[|p| - 1]
    ensures r.Ok? ==> Some(r.value.lastValue) == ComputeDeviationPercentile(p, w, k).percentile[|p| - 1]
    ensures r.Ok? ==> 100.0 / k as real <= r.value.lastValue <= 100.0
    ensures r.Ok? ==> r.value.lastMa.Some? && r.value.lastMa == MovingAverageAt(p, w, |p| - 1)
  {
    var ind := ComputeDeviationPercentile(p, w, k);
    var pct := ind.percentile;
    match LatestReading(pct, start)
    case Err(e) =>
      assert start < |p| && |p| + 1 >= w + k ==> pct[|p| - 1].Some?;
      Err(e)
    case Ok(pt) =>
      assert pct[pt.index].Some?;
      assert pct[|p| - 1].Some?;
      assert pt.index == |p| - 1;
      Ok(ChartReading(pt.index, pt.value, p[|p| - 1], ind.ma[|p| - 1]))
  }

  // ---------------------------------------------------------------- scenarios

  /** A constant price is reported neutral whenever the percentile window holds
      at least two values (with one value the window scores 100 and is hot).
      The final percentile is the reading `ChartReadingFor` reports. */
  lemma FlatSeriesIsNeutral(p: seq<real>, w: nat, k: nat)
    requires |p| >= 1 && AllPositive(p) && w >= 1 && k >= 2 && w + k <= |p| + 1
    requires forall j :: 0 <= j < |p| ==> p[j] == p[0]
    ensures StatusFromValue(ComputeDeviationPercentile(p, w, k).percentile[|p| - 1].value) == Neutral
  {
    FlatSeries(p, w, k, |p| - 1);
    AllTiesInNeutralBand(k);
  }

  /** The all-ties score 100 * (k + 1) / (2k) lies in the neutral band once k >= 2. */
  lemma AllTiesInNeutralBand(k: nat)
    requires k >= 2
    ensures LowThreshold <= 100.0 * (k as real + 1.0) / (2.0 * k as real) <= HighThreshold
  {
    var kr := k as real;
    DivBetween(100.0 * (kr + 1.0), 2.0 * kr, LowThreshold, HighThreshold);
  }

  /** When the final deviation is strictly above the k - 1 before it, the final
      percentile is exactly 100 and the status is hot. */
  lemma NewHighIsHot(p: seq<real>, w: nat, k: nat)
    requires AllPositive(p) && w >= 1 && k >= 1 && w + k <= |p| + 1
    requires var d := DeviationSeries(p, w);
             forall j :: |p| - k <= j < |p| - 1 ==> d[j].value < d[|p| - 1].value
    ensures ComputeDeviationPercentile(p, w, k).percentile[|p| - 1] == Some(100.0)
    ensures StatusFromValue(ComputeDeviationPercentile(p, w, k).percentile[|p| - 1].value) == Hot
  {
    var d := DeviationSeries(p, w);
    forall j | |p| - k <= j < |p| ensures d[j].Some? {
      assert j + 1 >= w;
    }
    NewHighScoresHundred(d, k, |p| - 1);
  }
}
