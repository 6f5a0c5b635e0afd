# Trend-deviation percentile indicator, modelled in Dafny

This project models how the QQQ dashboard computes its "deviation percentile" indicator. It takes the closing prices and computes:

1. a 200-day moving average (MA);
2. the relative deviation of the price from that MA;
3. the percentile rank of today's deviation within the trailing 1260 deviations (about five years).

The rank follows pandas' `rolling(K).rank(pct=True) * 100` with its default average-tie rule. Let m be the number of window values strictly below the newest value and e the number equal to it, the newest included. The rank is m + (e + 1) / 2 and the percentile is 100 · rank / K.

The model also covers what the two front ends do with the series:

- The Streamlit page reports the last defined percentile at or after a start point, or raises an error when there is none. It classifies that reading as hot, neutral or cold.
- The Plotly script plots the defined percentiles and marks the latest one with a colour and a status text.

Prices are `real`s. "Undefined" (pandas' NaN) is `None`.

Modules:

- `Rolling` (`rolling.dfy`): the moving average, the deviation and the rolling average-tie percentile, as functions over `seq`, plus the properties proved about them.
- `RollingLoops` (`rolling_loops.dfy`): step-by-step evaluation of the series. The mean keeps a running sum, as pandas' rolling mean does. The rank rescans the window at every step; this is the model's own O(K)-per-step evaluation, not pandas' skiplist. Each method is proved equal to the functional series, so it yields the value the skiplist yields.
- `Dashboard` (`dashboard.dfy`): `status_from_value`, the `loc[start:].dropna()` selection and the reading that `make_chart` and `make_plotly_chart` return.
- `InteractivePlot` (`interactive_plot.dfy`): the same pipeline with its windows fixed at 200 and 1260, the plotted series, and the latest-value marker.

The rank convention follows the code. A strictly largest newest value scores exactly 100, not 100 · (K − 0.5) / K. A window of K equal values scores 100 · (K + 1) / (2K), not 50. So every defined percentile lies in [100 / K, 100], not [0, 100]. The code has no guard against a zero moving average; the model requires positive prices instead.

## Model

| member | source | states |
|---|---|---|
| `Rolling.MovingAverageAt` | qqq_web/app.py:86 | MA[i] is defined iff i ≥ W − 1 (pandas' `min_periods` equals the window). |
| `Rolling.MovingAveragePositive` | qqq_web/app.py:86-87 | With positive prices a defined MA is positive, so the division in the deviation is safe. |
| `Rolling.MovingAverageBounds` | qqq_web/app.py:86 | MA[i] lies between any lower and upper bound of the W prices ending at i. |
| `Rolling.MovingAverageSeries` | qqq_web/app.py:86 | The MA series has one entry per price, aligned with the prices. |
| `Rolling.DeviationAt` | qqq_web/app.py:87 | dev[i] is defined exactly where MA[i] is. The price is recovered from it as p[i] = MA[i] · (1 + dev[i]). It is above −1, and it is ≥ 0 iff p[i] ≥ MA[i]. |
| `Rolling.DeviationSeries` | qqq_web/app.py:87 | The deviation series has one entry per price, aligned with the prices. |
| `Rolling.PercentileOfNewest` | qqq_web/app.py:88 | The average-tie percentile of the newest value of a window of K lies in [100 / K, 100]. |
| `Rolling.PercentileHundredIff` | qqq_web/app.py:88 | The percentile is exactly 100 iff the newest value is strictly above every other value in the window (both directions). |
| `Rolling.PercentileAllEqual` | qqq_web/app.py:88 | A window of K equal values scores 100 · (K + 1) / (2K). |
| `Rolling.PercentilePartialTies` | qqq_web/app.py:88 | Hand-computed partial ties for K = 4: [1, 2, 1, 2] scores 87.5 (rank 3.5) and [2, 1, 2, 1] scores 37.5 (rank 1.5). |
| `Rolling.PercentileMonotone` | qqq_web/app.py:88 | With the other K − 1 values fixed, the percentile never decreases as the newest value grows. |
| `Rolling.PercentileAt` | qqq_web/app.py:88 | pct[i] is defined iff i ≥ K − 1 and all K deviations ending at i are defined. A defined pct[i] lies in [100 / K, 100]. |
| `Rolling.PercentileSeries` | qqq_web/app.py:88 | The percentile series has one entry per deviation, aligned with the deviations. |
| `Rolling.NewHighScoresHundred` | qqq_web/app.py:88 | A fully defined window whose newest deviation is strictly above the other K − 1 gives pct[i] = 100. |
| `Rolling.PercentileDefinedIff` | qqq_web/app.py:86-88 | With positive prices, the percentile is defined exactly from index W + K − 2 on. |
| `Rolling.ComputeDeviationPercentile` | qqq_web/app.py:82-89 | The three series are as long as the input. MA is defined iff i ≥ W − 1 and is then positive. The deviation is defined exactly where MA is and equals (p − MA) / MA. pct is defined iff i ≥ W + K − 2 and then lies in [100 / K, 100]. |
| `Rolling.FlatSeries` | qqq_web/app.py:82-89 | A constant positive price gives deviation 0 and, once the percentile is defined, the all-ties value 100 · (K + 1) / (2K). |
| `RollingLoops.RollingMean` | qqq_web/app.py:86 | A running-sum loop (add the entering price, subtract the leaving one) returns exactly the MA series. |
| `RollingLoops.WindowRank` | qqq_web/app.py:88 | The model's own evaluation, not pandas' skiplist: one scan of a window counts the values below and equal to the newest. It returns the window's percentile, or undefined if any entry is undefined. |
| `RollingLoops.RollingRank` | qqq_web/app.py:88 | A loop with one window scan per index returns exactly the percentile series. |
| `Dashboard.StatusFromValue` | qqq_web/app.py:212-217 | Hot ("偏热", level error) iff v > 80. Cold ("偏冷", level success) iff v < 20. Neutral ("中性", level info) iff 20 ≤ v ≤ 80. So exactly one applies, and 80 and 20 are neutral. |
| `Dashboard.DefinedFrom` | qqq_web/app.py:96 | `pct.loc[start:].dropna()`: every point is a defined entry at or after the cutoff, with its own value, and the points keep their original order. |
| `Dashboard.DefinedFromComplete` | qqq_web/app.py:96 | Every defined entry at or after the cutoff appears among the selected points. |
| `Dashboard.DefinedFromSuffix` | qqq_web/app.py:96 | For a series defined exactly from index a on, the selection has one point per index from max(start, a) to the end. |
| `Dashboard.LatestReading` | qqq_web/app.py:96-98 | The result is an error iff no entry at or after the cutoff is defined. Otherwise it is a defined entry at or after the cutoff, and no later entry is defined. |
| `Dashboard.ChartReadingFor` | qqq_web/app.py:121-124 | `make_chart` and `make_plotly_chart` (the same selection at 153-155 and 182-185) fail iff start ≥ len or len < W + K − 1. Otherwise the reading is the final day's percentile, within [100 / K, 100], with the final close and a defined final MA. |
| `Dashboard.FlatSeriesIsNeutral` | qqq_web/app.py:265 | For a constant price and K ≥ 2, the reported reading is classified neutral. |
| `Dashboard.AllTiesInNeutralBand` | qqq_web/app.py:212-217 | The all-ties score 100 · (K + 1) / (2K) lies in [20, 80] for K ≥ 2. |
| `Dashboard.NewHighIsHot` | qqq_web/app.py:88 | If the final deviation is strictly above the K − 1 before it, the final percentile is exactly 100 and the status is hot. |
| `InteractivePlot.DeviationIndex` | interactive_plot.py:32-35 | The series is the dashboard's percentile series with W = 200 and K = 1260. It is defined exactly from index 1458 on. |
| `InteractivePlot.PlotSeries` | interactive_plot.py:42 | `deviation_index.dropna()` holds exactly the defined percentiles, in order: one point per index from 1458 to the end, each carrying that day's value. |
| `InteractivePlot.MarkerColor` | interactive_plot.py:110 | The marker is red iff the reading is hot, green iff cold and blue iff neutral, all according to `status_from_value`. |
| `InteractivePlot.StatusText` | interactive_plot.py:111 | The inline test (neutral iff 20 ≤ v ≤ 80, else hot iff v > 80, else cold) agrees with `status_from_value` for every v. |
| `InteractivePlot.LatestMarker` | interactive_plot.py:107-112 | There is no marker iff nothing is plotted, that is iff there are at most 1458 prices. Otherwise the marker sits on the final day with that day's percentile. Its colour is `MarkerColor` and its text `StatusText` of that value, both naming the band `status_from_value` gives. |
| `InteractivePlot.ShortSeriesHasNoMarker` | interactive_plot.py:107 | A series of at most 1458 closes plots nothing and gets no marker. The script's default `--period 1y` (interactive_plot.py:120) downloads about 252 daily closes, so with default arguments no percentile is drawn; this follows from the contracts and was not executed. |

## Left out

- Market-data download (`fetch_close_price`, `fetch_data`), the one-hour result cache, font discovery, every matplotlib and Plotly figure element, the Streamlit page (`main`), and the command-line entry point. They are I/O or presentation and compute nothing about the indicator.
- Time-zone and daily-date normalisation of the index (interactive_plot.py:17-27). Dates are not modelled: `pct.loc[start:]` is an index cutoff `start`, and a reading's date is its index.
- Floating point. Values are exact reals. pandas' compensated running sum, rounding, and the bit-level equality used for ties are not modelled.
- Missing prices. Every price is present: the dashboard drops NaN closes before computing, and the script's closes are assumed complete.
- `Rolling.DeviationAt`: requires positive prices. The code has no guard, and a zero moving average would give inf or NaN there.
- `Rolling.MovingAverageAt`: requires W ≥ 1. `Rolling.PercentileAt` requires K ≥ 1. Every caller passes 200 and 1260, and pandas' handling of a zero window is not modelled.
- `Dashboard.ChartReadingFor`: returns the numbers the chart functions return (last index, value, price, MA), not the figure. The date string is the last index.
- `InteractivePlot.LatestMarker`: the annotation holds the status text without the `{last_val:.1f}` formatted number. Display formatting is not modelled.
- `RollingLoops.RollingRank`: pandas' rolling rank keeps the window in a skiplist (remove the leaving value, insert the entering one, read the newest value's rank). The model does not capture that data structure or its O(log K) cost; it rescans each window, and only its result is proved equal to the average-tie rank.
