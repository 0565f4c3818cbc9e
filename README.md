# Market Climate chart: data pipeline model

This project models the logic behind the portfolio site's "Market Climate"
chart (`MetricsChart.jsx`). The model covers the component's data
transformations: the pivot, the asset list, the streak, the background, the
colours, the labels, and the tooltip's filter and sort. It leaves out the
rendering and the legend's and tooltip's display fallbacks and formatting
(see "## Left out").

- **Pivot.** Long CSV rows (date, asset, price) become one wide record per
  date. Rows without a date or asset are skipped, and a later row for the
  same date and asset overwrites an earlier one. The records are then sorted
  by date.
- **Asset list.** The assets to draw are the distinct `Asset` values of all
  rows, in first-occurrence order.
- **Streak.** The S&P 500 series has an up/down streak at the hovered point
  (or at the last point). A tie counts as an up step.
- **Background.** The streak chooses one of four backgrounds: sunny, very
  sunny, rainy or very rainy.
- **Colours.** Each line takes its colour from a 20-entry palette. After the
  palette runs out, the hue rotates by the golden angle.
- **Labels.** A series key is cleaned for the legend and the tooltip:
  `S&P_500_Price` is shown as `S&P 500`.
- **Tooltip.** The tooltip lists the entries that have a name and a finite
  value. The highest value comes first, and entries with equal values keep
  their order.

Modules:

- `Table`: the shared data model. It has the parsed `Row`, the wide
  `WideRecord`, a price `Cell` that is either a finite number or blank, and
  property lookup.
- `Sorting`: the host's stable `Array.prototype.sort` with a numeric
  comparator. It is a functional insertion sort. The model proves that it
  returns an ordered permutation of its input, and that it is stable per key.
- `Streak`, `Pivot`, `Palette`, `Labels`, `Tooltip`: one module per part of
  the component.

The streak loop (`getStreak`) and the row loop of the pivot (`forEach`) are
imperative methods. Each is proved against a specification function:
`Streak.GetStreak` against `Streak.Streak`, and `Pivot.Group` against
`Pivot.KeptDates`, `Pivot.LastPrice` and the distinct kept-date column
`Pivot.Distinct(Pivot.KeptDateColumn(rows))`. Everything else in the component is
expression code and is modelled with functions.

Ties count as up steps. For the S&P 500 values 10, 12, 11, 9, 8, 8, the code
gives a streak of +1 at the last point. That point is an 8 → 8 tie, and the
step 9 → 8 before it goes down, as `Streak.TieStreakExample` shows.

## Model

| member | source | states |
|---|---|---|
| Table.Truthy | portfolio/src/components/MetricsChart.jsx:141 | A text field is truthy exactly when it is not the empty string, as `!row.Date` and `entry.name` test it. |
| Table.Lookup | portfolio/src/components/MetricsChart.jsx:61-64 | `record[key]` gives the stored cell exactly when the key is present, and `undefined` (`None`) otherwise. |
| Streak.IsUp | portfolio/src/components/MetricsChart.jsx:61-64 | A step goes up exactly when both sides are finite numbers and the later one is at least the earlier one, so a tie is up. A step with a missing or blank side is down. |
| Streak.RunFrom | portfolio/src/components/MetricsChart.jsx:62-67 | The backward walk counts a maximal run. Every counted step goes in the given direction. The walk stops either at the first point or at a step that goes the other way. |
| Streak.Streak | portfolio/src/components/MetricsChart.jsx:59-69 | The streak is 0 at or before the first point. Otherwise it is nonzero, and it is positive exactly when the step into `index` goes up. Its magnitude is the length of the longest run of same-direction steps ending at `index`. |
| Streak.GetStreak | portfolio/src/components/MetricsChart.jsx:59-69 | The loop with its early `break` returns exactly the maximal-run streak of `Streak.Streak`. |
| Streak.PickBackground | portfolio/src/components/MetricsChart.jsx:72-76 | Four-way iff: sunny for a streak of 0 or 1, very sunny for 2 or more, rainy for -1, and very rainy for -2 or less. |
| Streak.MoodOfStreak | portfolio/src/components/MetricsChart.jsx:59-76 | The background depends only on the last two steps. The strong variants need two steps in the same direction. The mild ones cover the first step and direction changes. |
| Streak.IndexToUse | portfolio/src/components/MetricsChart.jsx:158-159 | Uses the hovered point if there is one, and the last point otherwise. |
| Streak.Background | portfolio/src/components/MetricsChart.jsx:158-164 | There is no background exactly when the chart has fewer than two points. At or before the first point it is sunny. Otherwise it is the background for the reference series' streak at the point in use. |
| Streak.BackgroundFollowsLastPoint | portfolio/src/components/MetricsChart.jsx:158-164 | With nothing hovered, a chart of two or more points is sunny (either variant) exactly when the reference series' last step goes up. |
| Streak.TieStreakExample | portfolio/src/components/MetricsChart.jsx:59-69 | For 10, 12, 11, 9, 8, 8 the streak at the last point is +1, because a tie is an up step. |
| Sorting.SortBy | portfolio/src/components/MetricsChart.jsx:146-148 | The sort returns a permutation of its input (same multiset), ordered by the key. |
| Sorting.SortByStable | portfolio/src/components/MetricsChart.jsx:267-269 | The sort is stable: for every key, the elements with that key keep their relative order. |
| Sorting.SortByTieOrder | portfolio/src/components/MetricsChart.jsx:146-148 | Two sorted elements with equal keys occur in the input in the same relative order. |
| Sorting.SortByMembers | portfolio/src/components/MetricsChart.jsx:146-148 | Sorting neither adds nor drops any element. |
| Sorting.SortByDistinct | portfolio/src/components/MetricsChart.jsx:146-148 | Elements that are pairwise distinct under a projection stay distinct after sorting. |
| Pivot.Kept | portfolio/src/components/MetricsChart.jsx:141 | A row takes part in the pivot exactly when both its date and its asset are truthy. |
| Pivot.KeptDateColumn | portfolio/src/components/MetricsChart.jsx:140-142 | The dates of the kept rows in row order, repetitions included, which is the order the `forEach` meets them; its length is at most the number of rows. |
| Pivot.KeptDates | portfolio/src/components/MetricsChart.jsx:141-142 | A date is in the set exactly when some row with a truthy date and asset carries it. |
| Pivot.LastPrice | portfolio/src/components/MetricsChart.jsx:140-143 | There is no price exactly when no kept row matches the date and asset. Otherwise the price is that of the last matching row, so later rows overwrite earlier ones. |
| Pivot.Group | portfolio/src/components/MetricsChart.jsx:139-144 | The dictionary has one entry per kept date. Its insertion order is exactly the kept dates in the order the row loop first meets them, each once (`Distinct` of the kept-date column). For every date and asset, the stored price is the last matching row's price, and an asset no row gave for that date is absent. |
| Pivot.DayKey | portfolio/src/components/MetricsChart.jsx:147 | Records are compared by the day their date stands for, as the comparator `new Date(a.date) - new Date(b.date)` does. |
| Pivot.Values | portfolio/src/components/MetricsChart.jsx:146 | There is one record per dictionary key, in insertion order, with pairwise different dates. |
| Pivot.Pivot | portfolio/src/components/MetricsChart.jsx:139-148 | The result is sorted by day, and no date appears twice. Its dates are exactly the dates of the kept rows. Each record's prices are the last kept row's price per asset. Records whose dates fall on the same day keep the order in which their dates first occur among the kept rows. |
| Pivot.Distinct | portfolio/src/components/MetricsChart.jsx:149 | Built like a `Set` filled in input order: an element is appended the first time it occurs and later repeats change nothing. Its length is at most the input's. |
| Pivot.DistinctProperties | portfolio/src/components/MetricsChart.jsx:149 | `Distinct` has no repetitions, has the same members as its input, and lists them in the order of their first occurrence. |
| Pivot.DistinctSnoc | portfolio/src/components/MetricsChart.jsx:149 | Adding an element to a `Set` built in insertion order appends it if it is new and changes nothing otherwise. |
| Pivot.KeptDateColumnMembers | portfolio/src/components/MetricsChart.jsx:141-142 | The kept-date column (the dates of the kept rows, in row order) holds exactly the kept dates. |
| Pivot.GroupOrderStep | portfolio/src/components/MetricsChart.jsx:141-142 | A kept row with a date not seen before appends that date to the insertion order. Any other row leaves the order unchanged. |
| Pivot.SortedTiesKeepOrder | portfolio/src/components/MetricsChart.jsx:146-148 | After the sort by day, records on the same day appear in the order in which their dates were first inserted. |
| Pivot.AssetColumn | portfolio/src/components/MetricsChart.jsx:149 | `data.map((r) => r.Asset)`: one entry per row, in row order, each that row's asset. |
| Pivot.UniqueAssets | portfolio/src/components/MetricsChart.jsx:149 | Every row's asset appears exactly once, including rows the pivot skipped, and nothing else appears. The assets are listed in order of their first occurrence in the `Asset` column. That order decides each line's colour (lines 326-331). |
| Palette.GetColor | portfolio/src/components/MetricsChart.jsx:167-176 | A palette colour exactly when the index is below 20, and then it is that palette entry. Otherwise the colour is an HSL colour with a hue in [0, 360), saturation 70% and lightness 55%. |
| Palette.ColorsDistinct | portfolio/src/components/MetricsChart.jsx:167-172 | The palette has 20 pairwise different colours. |
| Palette.GetColorInjectiveOnPalette | portfolio/src/components/MetricsChart.jsx:173-175 | Different indices below 20 get different colours. |
| Palette.HueIsGoldenAngleModTurn | portfolio/src/components/MetricsChart.jsx:176 | The hue equals `index * 137.5` minus a whole number of 360° turns, and lies in [0, 360). |
| Palette.HuePeriod | portfolio/src/components/MetricsChart.jsx:176 | Beyond the palette, indices 144 apart get the same colour. |
| Palette.HueDistinctWithinPeriod | portfolio/src/components/MetricsChart.jsx:176 | Beyond the palette, any two indices less than 144 apart get different colours. |
| Labels.StripSuffix | portfolio/src/components/MetricsChart.jsx:93 | Where `_[^_]+$` matches, the result is the text before the match. Where it does not match, the text is unchanged. |
| Labels.Spaced | portfolio/src/components/MetricsChart.jsx:94 | Each underscore becomes a space. Every other character and the length stay the same. |
| Labels.CleanLabel | portfolio/src/components/MetricsChart.jsx:92-94 | A cleaned label contains no underscore and is no longer than the key. |
| Labels.CleanLabelNoUnderscore | portfolio/src/components/MetricsChart.jsx:283-285 | A key without underscores is shown unchanged. |
| Labels.CleanLabelIdempotent | portfolio/src/components/MetricsChart.jsx:283-285 | Cleaning a cleaned label changes nothing. |
| Labels.CleanLabelShape | portfolio/src/components/MetricsChart.jsx:92-94 | The label is the key up to its last underscore, with underscores spaced. A key that ends in an underscore keeps everything. |
| Labels.CleanLabelSP500 | portfolio/src/components/MetricsChart.jsx:92-94 | `S&P_500_Price` is shown as `S&P 500`. |
| Labels.CleanLabelTrailingUnderscore | portfolio/src/components/MetricsChart.jsx:283-285 | `Oil_` is shown as `Oil `, because the pattern needs at least one character after the underscore. |
| Tooltip.Shown | portfolio/src/components/MetricsChart.jsx:263 | An entry passes the filter exactly when its name is truthy and its value is a finite number. |
| Tooltip.ShownEntries | portfolio/src/components/MetricsChart.jsx:262-264 | The result keeps exactly the payload entries that have a truthy name and a finite value. |
| Tooltip.ShownEntriesSingle | portfolio/src/components/MetricsChart.jsx:262-264 | The filter keeps a single entry exactly when it has a truthy name and a finite value. |
| Tooltip.ShownEntriesAppend | portfolio/src/components/MetricsChart.jsx:262-264 | Filtering a concatenation concatenates the filtered parts. Together with the single-entry case, this means the filter keeps payload order and the number of occurrences. |
| Tooltip.Rank | portfolio/src/components/MetricsChart.jsx:267-269 | The sort key of the comparator `b.value - a.value`: a higher value gives a lower key, so it sorts first. |
| Tooltip.TooltipEntries | portfolio/src/components/MetricsChart.jsx:261-269 | The tooltip shows nothing exactly when the chart is inactive or no entry passes the filter. Otherwise it lists a non-empty permutation of the filtered entries, with values non-increasing. |
| Tooltip.SortedByValue | portfolio/src/components/MetricsChart.jsx:267-269 | Sorting by the comparator `b.value - a.value` puts higher values first and keeps only shown entries. |
| Tooltip.TooltipStable | portfolio/src/components/MetricsChart.jsx:267-269 | Entries of equal value appear in payload order. |
| Tooltip.TooltipExample | portfolio/src/components/MetricsChart.jsx:261-269 | With X = 5, Y not a number and Z = 9, the tooltip lists Z, then X. |

## Left out

- React state, effects and event handlers are not modelled, and neither is the JSX rendering. This covers the images, logos, styles, `ResponsiveContainer` and the lines drawn. The chart's input and the hovered index are parameters instead.
- Fetching and parsing `/data.csv` with Papa.parse is not modelled. The model starts from the parsed rows, and a missing `Date` or `Asset` column is the empty string.
- `new Date(...)` is not modelled. `Pivot.Pivot` takes a `dayOf` function that maps a date string to a day number. An unparseable date, which makes the comparator return NaN, is not modelled.
- Prices are integers. Floating point is not modelled: a `Cell` is either a finite number (`Num`) or anything else (`Blank`).
- Streak.IsUp: a step where either price is missing or not a finite number counts as down. JavaScript agrees for `undefined` and `NaN` but not for four other cell values, which the model does not distinguish: `null` compares as 0; `true` and `false` compare as 1 and 0; an infinity compares as a number (`Infinity >= 5` holds); and a price that typed parsing left as a string (`"5,100.25"`, with a thousands separator) compares with another such string in dictionary order. In each of these cases the source can count a step as up where the model counts it as down.
- Pivot.Kept: `Date` and `Asset` are text, and only the empty string is falsy. Typed parsing can also make them numbers or booleans. A field of `0`, `-0` or `false` is falsy in the source, so the source skips the row, but the model keeps it.
- Pivot.UniqueAssets: assets are compared as text. In the source's `Set`, numerals that parse to the same number (`1` and `1.0`) are one asset, which the model lists twice. A row with no `Asset` field at all (`undefined`, as from a short last line) and a row with an empty `Asset` cell are two different members there, each with its own line and colour index. The model merges them into one empty string, which shifts the colour index of every later asset.
- Pivot.Group: an asset literally named `date` would overwrite the record's `date` field in the source. The model keeps the date and the prices apart, so it does not capture that collision.
- Pivot.Values: JavaScript lists integer-like object keys (`"2024"`, say) before all others in `Object.values`. The model lists dates in insertion order only.
- Sorting.SortBy: the host sorts the freshly built array in place. The model sorts a value. No other reference to that array exists, so nothing observable is lost.
- Streak.Background: requires the hovered index to be a point of the chart (below the number of points), as the chart library supplies it.
- Palette.GetColor: the model returns the colour as an RGB code or an HSL triple, not as the CSS string (`#e6194b`, `hsl(...)`). The hue is kept in half degrees, so `(index * 137.5) % 360` is exact.
- The legend's fallbacks (`entry?.value ?? entry?.payload?.dataKey ?? ""`, the colour fallbacks) and `String(...)` conversion are not modelled. `Labels.CleanLabel` starts from the key string.
- `toLocaleString` formatting of tooltip values is not modelled.
