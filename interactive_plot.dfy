/** The indicator part of `make_interactive_chart`: the same moving average,
    deviation and rolling percentile with the windows fixed at 200 and 1260,
    the plotted series (the defined percentiles), and the marker and status text
    put on the latest value. */
module InteractivePlot {
  import opened Rolling
  import opened Dashboard

  const MaWindow: nat := 200
  const RollingWindow: nat := 1260

  /** First index at which the percentile is defined: 200 + 1260 - 2. */
  const FirstDefined: nat := 1458

  /** `deviation_index`: the dashboard's percentile series with its default
      windows, defined exactly from index 1458 on. */
  function DeviationIndex(close: seq<real>): (r: seq<Option<real>>)
    requires AllPositive(close)
    ensures r == ComputeDeviationPercentile(close, DefaultMaWindow, DefaultRankWindow).percentile
    ensures |r| == |close|
    ensures forall i :: 0 <= i < |close| ==> (r[i].Some? <==> i >= FirstDefined)
  {
    PercentileSeries(DeviationSeries(close, MaWindow), RollingWindow)
  }

  /** `deviation_plot = deviation_index.dropna()`: the defined percentiles in
      their original order; one point per day from index 1458 to the end. */
  function PlotSeries(close: seq<real>): (r: seq<Point>)
    requires AllPositive(close)
    ensures |r| == if |close| > FirstDefined then |close| - FirstDefined else 0
    ensures forall q :: 0 <= q < |r| ==> r[q].index == FirstDefined + q
    ensures forall q :: 0 <= q < |r| ==> Some(r[q].value) == DeviationIndex(close)[r[q].index]
  {
    var s := DeviationIndex(close);
    DefinedFromSuffix(s, 0, FirstDefined);
    DefinedFrom(s, 0)
  }

  const HotColor: string := "#e74c3c"
  const ColdColor: string := "green"
  const NeutralColor: string := "#2980b9"

  const HotText: string := "警告：偏热"
  const ColdText: string := "机会：偏冷"
  const NeutralText: string := "中性：趋势正常"

  /** Marker colour of the latest value; it names the same band as
      `status_from_value`. */
  function MarkerColor(v: real): (c: string)
    ensures c == HotColor <==> StatusFromValue(v) == Hot
    ensures c == ColdColor <==> StatusFromValue(v) == Cold
    ensures c == NeutralColor <==> StatusFromValue(v) == Neutral
  {
    if v > 80.0 then HotColor else if v < 20.0 then ColdColor else NeutralColor
  }

  /** Status text of the annotation, written with the neutral test first; for
      every reading it agrees with `status_from_value`. */
  function StatusText(v: real): (t: string)
    ensures t == HotText <==> StatusFromValue(v) == Hot
    ensures t == ColdText <==> StatusFromValue(v) == Cold
    ensures t == NeutralText <==> StatusFromValue(v) == Neutral
  {
    if 20.0 <= v <= 80.0 then NeutralText else if v > 80.0 then HotText else ColdText
  }

  datatype Marker = Marker(index: nat, value: real, color: string, text: string)

  /** The marker and annotation on the last plotted value; none when nothing is
      plotted, that is when the series has at most 1458 prices. */
  function LatestMarker(close: seq<real>): (r: Option<Marker>)
    requires AllPositive(close)
    ensures r.None? <==> |close| <= FirstDefined
    ensures r.Some? ==> r.value.index == |close| - 1
    ensures r.Some? ==> Some(r.value.value) == DeviationIndex(close)[|close| - 1]
    ensures r.Some? ==> r.value.color == MarkerColor(r.value.value) && r.value.text == StatusText(r.value.value)
    ensures r.Some? ==> (r.value.color == HotColor <==> StatusFromValue(r.value.value) == Hot)
    ensures r.Some? ==> (r.value.color == ColdColor <==> StatusFromValue(r.value.value) == Cold)
    ensures r.Some? ==> (r.value.color == NeutralColor <==> StatusFromValue(r.value.value) == Neutral)
    ensures r.Some? ==> (r.value.color == HotColor <==> r.value.text == HotText)
    ensures r.Some? ==> (r.value.color == ColdColor <==> r.value.text == ColdText)
    ensures r.Some? ==> (r.value.color == NeutralColor <==> r.value.text == NeutralText)
  {
    var plot := PlotSeries(close);
    if |plot| == 0 then None
    else
      var last := plot[|plot| - 1];
      Some(Marker(last.index, last.value, MarkerColor(last.value), StatusText(last.value)))
  }

  /** A series of at most 1458 closes, such as the roughly 252 daily closes of
      a one-year download, plots no percentile and gets no marker. */
  lemma ShortSeriesHasNoMarker(close: seq<real>)
    requires AllPositive(close) && |close| <= FirstDefined
    ensures |PlotSeries(close)| == 0 && LatestMarker(close).None?
  {
  }
}
