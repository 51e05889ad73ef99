# Cardiff net-zero co-benefits dashboard: the rules behind the charts and maps

The dashboard shows, for each LSOA (a small statistical neighbourhood) in
Cardiff, the monetised co-benefits of net-zero pathways next to the area's
Welsh Index of Multiple Deprivation (WIMD) quintile. Most of it is plotting
and file loading. This project models the small rules written inline in
`streamlit_app/utils.py` and the page scripts, and proves what those rules
promise:

- **Continuous colour ramp** (`colour_ramp.dfy`). Values are normalised to
  [0, 1] against the column's minimum and maximum, with guards for
  all-missing and constant columns. Each channel is interpolated across
  five fixed colour stops and truncated to an integer; missing values get
  a grey. The `utils.py` copy and the `4_Maps.py` copy are both modelled.
- **Quintile colours** (`quintile_palette.dfy`). WIMD quintile 1..5 is
  looked up in a fixed palette with a grey fallback. Four pages do this,
  with different alphas and one reversed palette. The model includes
  pandas' `to_numeric(...).astype("Int64")` cleaning, which raises on a
  non-integral quintile.
- **Map layers** (`map_layers.dfy`):
  - year-column choice (`_pick_year_col`);
  - whitespace-stripped join keys;
  - the WIMD layer, which keeps the first non-missing value per LSOA code
    and then left-joins onto the shapefile;
  - the co-benefit layer: filter by type, then sum or mean per LSOA.
- **The interactive map page** (`maps_page.dfy`). A class `MapFrame` holds
  the merged frame, whose columns the page assigns in place:
  - area group;
  - WIMD colour;
  - metric value per 1,000 people;
  - metric colour.

  The page's pure rules are modelled beside it:
  - metric list and default;
  - span-to-zoom step function;
  - mismatch filter;
  - CSS colours;
  - top-5 and worst-5 tables.
- **Area names** (`area_names.dfy`). Name-column detection, and the regex
  `\s+\d+$` that turns "Adamsdown 1" into the area group "Adamsdown".
- **The second-generation map pages** (`mapv2_pages.dfy`). Class
  `Mapv2Frame`, covering `4_mapv2.py` and `5_mapv2.py`.
- **Co-benefit charts** (`cobenefit_charts.dfy`):
  - navigation anchors and links;
  - `format_value`;
  - sign classification and inside/outside label placement;
  - the positive/negative trace split;
  - the yearly series: grouping, excluded types, renaming `sum` to
    `Total`, sign partition of types, and labels every fifth year.
- **Social deprivation page** (`deprivation_page.dfy`):
  - neighbourhood selector;
  - `#RRGGBB` decoding;
  - gradient endpoint choice;
  - rounding of the tooltip column to two decimals (`DeprivationFrame`).
- **Histogram grid** (`histogram_grid.dfy`). `histogram_totals`, present
  in `utils.py` and `6_Summary_View.py`:
  - row count by ceiling division;
  - placement of subplot i;
  - titles and default labels;
  - colour-scale choice;
  - figure height.

  Also the box-plot label and colour index.
- **Data quality** (`data_quality.dfy`):
  - per co-benefit type, counts of rows, of zero values per year, and of
    missing values per column;
  - the `zeros_` column selection;
  - percentages;
  - column renaming (`PercentageTable`).

Shared pieces live in `common.dfy`:
- Option and Result;
- colour types;
- the Python string operations the rules use: `lower`, `capitalize`,
  `title`, `replace`, `strip`, `startswith`, `str(int)`;
- the rows one `groupby` key collects.

`sorting.dfy` holds:
- Python's string order;
- `sorted(unique(dropna()))`;
- `sort_values` followed by `head(k)`.

Numbers are `real`, and a missing value (NaN or NA) is `None`. An
exception the code raises is an `Err` of the matching Python exception.
Only the exception's kind and the key or index it names are modelled,
not its message: a missing column gives `KeyError` of that column (or of
the year, for a year column), whatever text the code or pandas attaches.

## Model

| member | source | states |
|---|---|---|
| Common.Capitalize | streamlit_app/utils.py:31 | the first character is upper-cased and the rest lower-cased; the length is unchanged |
| Common.ReplaceChar | streamlit_app/utils.py:31 | every occurrence of one character is replaced and every other character is kept |
| Common.Present | streamlit_app/pages/4_Maps.py:54 | `dropna()` keeps exactly the non-missing values of the column |
| Common.CountWhere | streamlit_app/pages/4_Data_Quality.py:16 | a boolean-mask sum is at most the row count, and zero exactly when no row matches |
| Common.GroupRows | streamlit_app/pages/4_Data_Quality.py:13 | a group holds exactly the rows whose key is that group (shared by the data-quality summary and the yearly co-benefit sums) |
| Sorting.StrLessIrreflexive | streamlit_app/pages/4_Maps.py:54 | Python's string order never puts a string before itself |
| Sorting.StrLessTransitive | streamlit_app/pages/4_Maps.py:54 | Python's string order is transitive |
| Sorting.StrLessTotal | streamlit_app/pages/4_Maps.py:54 | any two different strings are ordered one way or the other |
| Sorting.SortedUniqueSpec | streamlit_app/pages/4_mapv2.py:97 | `sorted(col.dropna().unique())` is strictly increasing (sorted, no repeats) and holds exactly the non-missing values |
| Sorting.SortDescSpec | streamlit_app/pages/4_Maps.py:364 | a descending sort gives a non-increasing permutation of its input |
| Sorting.TopK | streamlit_app/pages/4_Maps.py:363-365 | `head(k)` after a sort returns k rows, or all rows when there are fewer than k |
| Sorting.BottomK | streamlit_app/pages/4_Maps.py:370-372 | the same count for the ascending sort |
| Sorting.TopKSpec | streamlit_app/pages/4_Maps.py:363-365 | the top k are non-increasing, drawn from the input, and none is smaller than any row left out |
| Sorting.BottomKSpec | streamlit_app/pages/4_Maps.py:370-372 | the bottom k are non-decreasing, drawn from the input, and none is larger than any row left out |
| QuintilePalette.Lookup | streamlit_app/utils.py:279-287 | quintiles 1..5 get their palette entry with the page's alpha; any other or missing value gets the grey |
| QuintilePalette.GreyIffNotQuintile | streamlit_app/utils.py:286-287 | the grey appears exactly for rows that are not quintiles 1..5 (no palette entry is grey) |
| QuintilePalette.PageColours | streamlit_app/pages/4_Maps.py:64-77 | on all four pages, grey means "not a quintile"; the alphas are 120 (utils), 140 (4_Maps) and 110 (both mapv2 pages), and the missing-value grey has alpha 70 or 80 |
| QuintilePalette.ReversedPalette | streamlit_app/pages/5_mapv2.py:72-78 | the reversed palette gives quintile q the colour the forward palette gives 6 - q |
| QuintilePalette.DarkToLightOrdered | streamlit_app/utils.py:278-285 | the palette runs from dark (quintile 1, most deprived) to light (quintile 5), and no two quintiles share a colour |
| QuintilePalette.ToInt64 | streamlit_app/utils.py:276 | a missing value stays missing, a whole number converts, and a fractional value raises |
| QuintilePalette.ToInt64Column | streamlit_app/utils.py:276 | a column converts cell by cell and fails exactly when some cell is fractional |
| ColourRamp.Clip01 | streamlit_app/utils.py:198 | `clip(0, 1)` lands in [0,1] and leaves values already there unchanged |
| ColourRamp.Normalise | streamlit_app/utils.py:197-198 | the normalised, clipped value is in [0,1] |
| ColourRamp.NormaliseEnds | streamlit_app/utils.py:197 | the minimum normalises to 0 and the maximum to 1 |
| ColourRamp.MinOf | streamlit_app/utils.py:191 | `nanmin` is one of the present values and no present value is below it |
| ColourRamp.MaxOf | streamlit_app/utils.py:192 | `nanmax` is one of the present values and no present value is above it |
| ColourRamp.Guard | streamlit_app/utils.py:193-194 | after the constant-column guard the domain is never empty, and it is unchanged when min < max |
| ColourRamp.UtilsDomain | streamlit_app/utils.py:189-194 | for a non-empty column the domain is never empty, and an all-missing column falls back to [0, 1] |
| ColourRamp.MapsDomain | streamlit_app/pages/4_Maps.py:100-103 | the page's domain is never empty |
| ColourRamp.InterpFrom | streamlit_app/utils.py:213-220 | every colour the stop search returns carries the requested alpha |
| ColourRamp.LerpBetween | streamlit_app/utils.py:210-211 | `int(a + (b - a) * x)` for x in [0,1] lies between a and b |
| ColourRamp.InterpFromBetween | streamlit_app/utils.py:213-220 | within the stops' range, the search finds the two stops around x, and each channel lies between theirs |
| ColourRamp.RampInRange | streamlit_app/utils.py:202-219 | for five increasing stops with byte channels, every interpolated channel is a byte between two neighbouring stops |
| ColourRamp.InterpInRange | streamlit_app/utils.py:202-219 | on the fixed stops, every t in [0,1] gives byte channels, the requested alpha, and a colour between two neighbouring stops |
| ColourRamp.InterpEndpoints | streamlit_app/utils.py:202-208 | t = 0 gives the first stop (68,1,84) and t = 1 the last stop (253,231,37) |
| ColourRamp.EqualStopRuleIrrelevant | streamlit_app/utils.py:216-217 | the two copies' different rules for equal stop positions give the same colours on these stops |
| ColourRamp.ValueToRgbaContinuous | streamlit_app/utils.py:189-222 | raises the ValueError of `np.nanmin` exactly when the column is empty; otherwise one colour per row, and missing rows get [200,200,200,70] |
| ColourRamp.ValueToRgbaBounds | streamlit_app/utils.py:197-222 | a missing row is grey; any other row has the given alpha and byte channels between two neighbouring stops |
| ColourRamp.ValueToRgbaEndpoints | streamlit_app/utils.py:191-219 | the column minimum maps exactly to (68,1,84), and the maximum (when different) to (253,231,37) |
| ColourRamp.ValueToRgbaDegenerate | streamlit_app/utils.py:191-194 | a constant column maps every present row to the first stop; a non-empty all-missing column comes out all grey |
| ColourRamp.ConstantGetsLow | streamlit_app/utils.py:193-194 | with vmax = vmin + 1 a constant column normalises to 0 and gets the first stop |
| ColourRamp.ToRgbaContinuous | streamlit_app/pages/4_Maps.py:97-98 | one colour per row; missing rows get [200,200,200,80] |
| ColourRamp.ToRgbaBounds | streamlit_app/pages/4_Maps.py:105-125 | the page's copy keeps byte channels between two neighbouring stops and the given alpha |
| ColourRamp.ToRgbaEndpoints | streamlit_app/pages/4_Maps.py:100-123 | the page's copy maps the minimum and maximum exactly to the end stops |
| ColourRamp.ToRgbaDegenerate | streamlit_app/pages/4_Maps.py:97-103 | with no numeric value the page returns a same-length list of grey; a constant column gets the first stop |
| ColourRamp.CopiesAgree | streamlit_app/pages/4_Maps.py:95-125 | for every present value the page's copy and the utils copy give the same colour |
| MapLayers.PickYearCol | streamlit_app/utils.py:171-177 | the int key if present, else the string key if present, else KeyError; the chosen key is a column |
| MapLayers.IntStrInjective | streamlit_app/utils.py:175 | different years give different `str(year)` keys |
| MapLayers.PickedColumnIsTheYear | streamlit_app/utils.py:171-177 | two different years never pick the same column |
| MapLayers.StripTrimmed | streamlit_app/utils.py:181 | `str.strip()` leaves no whitespace at either end |
| MapLayers.EnsureStrIdempotent | streamlit_app/utils.py:180-181 | `_ensure_str` gives a trimmed string, and applying it again changes nothing |
| MapLayers.FirstQuintileIsEarliest | streamlit_app/utils.py:269-274 | groupby-first takes the earliest non-missing quintile of the code, and is missing only if all of the code's quintiles are |
| MapLayers.FirstNameIsEarliest | streamlit_app/utils.py:268-272 | the same for the English name |
| MapLayers.LeftJoin | streamlit_app/utils.py:275 | the left merge keeps one row per shapefile area, in order |
| MapLayers.ColourRows | streamlit_app/utils.py:276-287 | each row's quintile is its cleaned value and its fill is its palette colour; the step fails exactly when some quintile is fractional |
| MapLayers.MissingWimdColumn | streamlit_app/utils.py:268-270 | nothing is missing exactly when the table has both the "LSOA code" and the "WIMD 2025 overall quintile" columns; a reported column is one of those two and absent from the table |
| MapLayers.BuildWimdGdfSpec | streamlit_app/utils.py:266-288 | a WIMD table without the "LSOA code" or "WIMD 2025 overall quintile" column raises KeyError naming it; otherwise one row per area carrying its first quintile; fill is grey exactly for non-quintiles, alpha 120 otherwise; the build fails exactly when a column is missing or some area's first quintile is fractional |
| MapLayers.Aggregate | streamlit_app/utils.py:313-316 | "mean" is missing exactly when no value is present; any other choice sums and is always present |
| MapLayers.MeanWithinRange | streamlit_app/utils.py:313-314 | the mean of the present values lies between their minimum and maximum |
| MapLayers.BuildCobenefitGdf | streamlit_app/utils.py:303-304 | a missing `co_benefit_type` column raises KeyError; a result has one value and one colour per area |
| MapLayers.BuildCobenefitGdfSpec | streamlit_app/utils.py:291-326 | fails exactly when the type column or the year column is absent or there is no geometry row, the last with the ValueError of `np.nanmin` on the empty value column; the fill is the utils ramp at alpha 120 of the value column; names the value `cobenefit_{type}_{year}`; an area with no rows is missing; otherwise each value is the mean (if agg is "mean") or the sum of that area's present values |
| AreaNames.NameColumnMaps | streamlit_app/pages/4_Maps.py:27 | "LSOA name (Eng)" when that column exists, otherwise "small_area" |
| AreaNames.NameColumnV2Spec | streamlit_app/pages/4_mapv2.py:60-65 | the first column whose lower-cased name contains "lsoa" and "name", or "small_area" when none does |
| AreaNames.EnglishNameLooksLikeName | streamlit_app/pages/5_mapv2.py:56 | "LSOA name (Eng)" is detected by that rule |
| AreaNames.MatchIffRuns | streamlit_app/pages/4_mapv2.py:71 | `\s+\d+$` matches exactly when the string ends in digits preceded by whitespace |
| AreaNames.StripTrailingNumberSpec | streamlit_app/pages/4_mapv2.py:71 | the replacement changes the name exactly when the regex matches, and then removes the leftmost match |
| AreaNames.AreaGroupExample | streamlit_app/pages/4_Maps.py:29-35 | "Adamsdown 1" becomes "Adamsdown" on both page variants |
| AreaNames.AreaGroupRemovesOneNumber | streamlit_app/pages/5_mapv2.py:63-67 | only the last number goes: "Cathays 1 2" becomes "Cathays 1" |
| AreaNames.GroupsSpec | streamlit_app/pages/5_mapv2.py:90 | the group list is sorted, has no repeats, and holds exactly the area groups |
| MapsPage.KeepPresentSpec | streamlit_app/pages/4_Maps.py:46 | the metric list keeps exactly the candidates that are columns, in candidate order |
| MapsPage.DefaultMetricIndex | streamlit_app/pages/4_Maps.py:51 | when "sum" is listed, the default index points at it |
| MapsPage.DefaultMetricIsFirst | streamlit_app/pages/4_Maps.py:40-51 | the default index is 0, and the first metric is "sum" exactly when the frame has a "sum" column |
| MapsPage.MetricValue | streamlit_app/pages/4_Maps.py:82-89 | without normalising the value is the raw metric; a normalised value exists only when the metric and a non-zero population do |
| MapsPage.MetricValueRoundTrip | streamlit_app/pages/4_Maps.py:86 | the per-1,000 value times population / 1000 gives back the raw metric |
| MapsPage.SpanToZoomMonotone | streamlit_app/pages/4_Maps.py:144-149 | the zoom is in 9..13 and never increases as the span grows |
| MapsPage.SpanToZoomDoubling | streamlit_app/pages/4_Maps.py:144-149 | zoom z covers spans up to 0.01·2^(13-z) and above 0.01·2^(12-z): thresholds 0.01, 0.02, 0.04, 0.08 |
| MapsPage.MismatchRows | streamlit_app/pages/4_Maps.py:160-161 | the mismatch rows are row indices of the frame |
| MapsPage.MismatchRowsSpec | streamlit_app/pages/4_Maps.py:160-161 | a row is selected exactly when its quintile is 1 or 2 and its value is at most the threshold; the order is kept |
| MapsPage.RgbaToCssSpec | streamlit_app/pages/4_Maps.py:173-175 | the legend colour keeps the channels, and its three-decimal opacity is in [0,1] and within half a thousandth of a/255 |
| MapsPage.OpacityDeterminesAlpha | streamlit_app/pages/4_Maps.py:173-175 | two alphas print the same opacity exactly when they are equal |
| MapsPage.TruncatedReadBack | streamlit_app/pages/4_Maps.py:173-175 | the printed opacity scaled by 255 and truncated gives the alpha or one less, for every alpha; one less is reached (alpha 140 prints as 0.549, read back as 139) |
| MapsPage.Rankable | streamlit_app/pages/4_Maps.py:361 | every rankable row carries its own non-missing value |
| MapsPage.RankableComplete | streamlit_app/pages/4_Maps.py:361 | every row with a value is rankable |
| MapsPage.Top5Spec | streamlit_app/pages/4_Maps.py:363-368 | at most 5 rows, each a real row with its value, in non-increasing order, none below any rankable row left out |
| MapsPage.Worst5Spec | streamlit_app/pages/4_Maps.py:370-375 | at most 5 rows, in non-decreasing order, none above any rankable row left out |
| MapsPage.TableColumns | streamlit_app/pages/4_Maps.py:351-356 | the table always shows the code and value, shows the name exactly when the frame has it, and shows population exactly when it exists and values are normalised |
| MapsPage.MapFrame.constructor | streamlit_app/pages/4_Maps.py:24 | the merged frame starts with the given columns and no derived ones |
| MapsPage.MapFrame.AssignAreaGroup | streamlit_app/pages/4_Maps.py:30-35 | each row's area group is its name with the trailing number stripped and trimmed; nothing else changes |
| MapsPage.MapFrame.AssignWimdColours | streamlit_app/pages/4_Maps.py:72-77 | cleans the quintiles and colours each row with alpha 140 and grey 80; a fractional quintile raises and changes nothing |
| MapsPage.MapFrame.AssignMetricValue | streamlit_app/pages/4_Maps.py:82-90 | each row's metric value is the raw metric, or per 1,000 of population when normalising |
| MapsPage.MapFrame.AssignMetricRgba | streamlit_app/pages/4_Maps.py:127 | the metric colours are the page's ramp over the metric values, alpha 140 |
| MapsPage.MapFrame.Mismatch | streamlit_app/pages/4_Maps.py:158-161 | returns exactly the rows in quintile 1 or 2 at or below the threshold |
| MapsPage.MapFrame.Rankings | streamlit_app/pages/4_Maps.py:358-375 | the top-5 and worst-5 tables, sorted, at most five rows each, leaving the frame unchanged |
| MapV2Pages.Records | streamlit_app/pages/4_mapv2.py:15 | every CSV code is stringified and stripped before grouping |
| MapV2Pages.MergeSpec | streamlit_app/pages/4_mapv2.py:18-50 | each shapefile row gets the first non-missing quintile among the CSV rows with its key, or none |
| MapV2Pages.UnstrippedKeyUnmatched | streamlit_app/pages/5_mapv2.py:31-45 | on the page that does not strip the shapefile key, a key with surrounding whitespace matches no CSV row |
| MapV2Pages.Mapv2Frame.constructor | streamlit_app/pages/4_mapv2.py:40-50 | the frame holds the merged codes, raw quintiles and names, with no derived columns yet; its "small_area" text column is the join codes and its "LSOA name (Eng)" column, when merged, the first names; the rows are `Merge`'s result, so each code is the page's join key of its geometry row |
| MapV2Pages.Mapv2Frame.CleanQuintile | streamlit_app/pages/4_mapv2.py:53-55 | the quintile column is cleaned to integers; a fractional value raises and changes nothing |
| MapV2Pages.Mapv2Frame.AssignAreaGroup | streamlit_app/pages/4_mapv2.py:60-72 | each row's group is its detected name with the trailing number stripped (no final trim); with the "small_area" fallback that name is the row's code, and with "LSOA name (Eng)" its merged name |
| MapV2Pages.Mapv2Frame.AssignFill | streamlit_app/pages/4_mapv2.py:87-92 | each row's fill is its page's palette colour, grey for anything else; the frame stays well-formed |
| MapV2Pages.Mapv2Frame.Groups | streamlit_app/pages/4_mapv2.py:97 | the group list is sorted, has no repeats, and holds exactly the groups of the frame |
| MapV2Pages.FillSpec | streamlit_app/pages/5_mapv2.py:72-85 | grey exactly for non-quintiles on both pages, and page 5's palette is page 4's reversed |
| CobenefitCharts.LowerTitle | streamlit_app/pages/2_Co-Benefits_Analysis.py:79-81 | lower-casing a title-cased name gives the lower-cased name |
| CobenefitCharts.SlugSpec | streamlit_app/pages/2_Co-Benefits_Analysis.py:79-84 | the slug of a co-benefit key is the key lower-cased with '_' turned into '-' |
| CobenefitCharts.AnchorSpec | streamlit_app/pages/2_Co-Benefits_Analysis.py:80-85 | the anchor is the slug plus "-co-benefits", except for hassle_costs, which gets the bare slug |
| CobenefitCharts.AnchorIsSlug | streamlit_app/pages/2_Co-Benefits_Analysis.py:81-84 | anchors never contain a space or an upper-case letter |
| CobenefitCharts.NavLinks | streamlit_app/pages/2_Co-Benefits_Analysis.py:77-85 | the loop builds the concatenation of one link line per co-benefit |
| CobenefitCharts.NavLineShape | streamlit_app/pages/3_Co-Benefits_Analysis.py:28-36 | every link ends in "](#anchor)" and a newline; the "Jump to " text is 8 characters longer |
| CobenefitCharts.FormatValue | streamlit_app/pages/2_Co-Benefits_Analysis.py:120-128 | sign '+' exactly for positive values; 5 decimals for 0 < \|v\| < 0.001, 4 for \|v\| < 0.1 including 0, 2 otherwise |
| CobenefitCharts.FormatValueReadsBack | streamlit_app/pages/3_Co-Benefits_Analysis.py:107-115 | sign and magnitude read back to the value, and smaller non-zero magnitudes never get fewer decimals |
| CobenefitCharts.ColourCategory | streamlit_app/pages/2_Co-Benefits_Analysis.py:111-113 | 'Positive Co-benefits' exactly when the value is positive, 'Negative Costs' otherwise (including 0) |
| CobenefitCharts.Position | streamlit_app/pages/2_Co-Benefits_Analysis.py:136-138 | the label goes inside exactly when \|value\| > 50 |
| CobenefitCharts.WithoutTotal | streamlit_app/pages/2_Co-Benefits_Analysis.py:107 | exactly the rows whose type is not 'Total' |
| CobenefitCharts.LabelRows | streamlit_app/pages/2_Co-Benefits_Analysis.py:133-138 | each trace holds only values of its sign |
| CobenefitCharts.LabelRowsMembers | streamlit_app/pages/2_Co-Benefits_Analysis.py:157-162 | a labelled bar is in a trace exactly when its row is in the input with that trace's sign |
| CobenefitCharts.SortedAscendingSpec | streamlit_app/pages/2_Co-Benefits_Analysis.py:116 | the ascending sort is a non-decreasing permutation of the rows |
| CobenefitCharts.TracesSpec | streamlit_app/pages/3_Co-Benefits_Analysis.py:98-144 | the costs trace holds exactly the non-Total rows below 0 and the co-benefits trace those above 0, so a zero row is in neither; the traces' categories agree |
| CobenefitCharts.TracesAscending | streamlit_app/pages/2_Co-Benefits_Analysis.py:116-157 | both traces keep the ascending order |
| CobenefitCharts.YearCols | streamlit_app/pages/2_Co-Benefits_Analysis.py:231 | 26 year columns, "2025" to "2050" |
| CobenefitCharts.KeptRows | streamlit_app/pages/3_Co-Benefits_Analysis.py:221 | noise, congestion, road_repairs and road_safety rows are dropped; all others, including rows with no type, are kept |
| CobenefitCharts.GroupedSumsSpec | streamlit_app/pages/3_Co-Benefits_Analysis.py:221 | one series per non-excluded type present, in sorted order; each year's entry is the sum of that year over the type's rows |
| CobenefitCharts.RenameSum | streamlit_app/pages/3_Co-Benefits_Analysis.py:224-225 | 'sum' is renamed 'Total'; every other series is untouched |
| CobenefitCharts.SeriesMin | streamlit_app/pages/2_Co-Benefits_Analysis.py:244 | `min()` is one of the values and below none; missing for an empty series |
| CobenefitCharts.SeriesMinSign | streamlit_app/pages/2_Co-Benefits_Analysis.py:244-245 | min >= 0 exactly when no year is negative |
| CobenefitCharts.PositiveTypesSpec | streamlit_app/pages/2_Co-Benefits_Analysis.py:244 | the positive list holds exactly the non-Total types never below zero |
| CobenefitCharts.NegativeTypesSpec | streamlit_app/pages/2_Co-Benefits_Analysis.py:245 | the negative list holds exactly the non-Total types below zero in some year |
| CobenefitCharts.SignPartition | streamlit_app/pages/2_Co-Benefits_Analysis.py:244-245 | together the two lists cover exactly the non-Total types |
| CobenefitCharts.SignPartitionDisjoint | streamlit_app/pages/2_Co-Benefits_Analysis.py:244-245 | no type is in both lists |
| CobenefitCharts.BarTypes | streamlit_app/pages/3_Co-Benefits_Analysis.py:231-232 | every non-Total type gets a bar, whatever its sign |
| CobenefitCharts.TotalTextLabels | streamlit_app/pages/2_Co-Benefits_Analysis.py:279-284 | the year gets the net total as its label exactly when i % 5 == 0 or it is the last year, and an empty label otherwise |
| CobenefitCharts.LabelledYears | streamlit_app/pages/3_Co-Benefits_Analysis.py:249-254 | over 2025..2050 the labelled indices are 0, 5, 10, 15, 20 and 25 |
| CobenefitCharts.LabelGaps | streamlit_app/pages/2_Co-Benefits_Analysis.py:281 | the last year is always labelled, and some year within every five is |
| DeprivationPage.SelectorOptions | streamlit_app/pages/3_Social_Deprivation_Analysis.py:130 | the selector starts with "None" |
| DeprivationPage.SelectorOptionsSpec | streamlit_app/pages/3_Social_Deprivation_Analysis.py:130 | after "None", the names are sorted, without repeats, and exactly the non-missing names |
| DeprivationPage.ParseHexPair | streamlit_app/pages/3_Social_Deprivation_Analysis.py:223 | `int(t, 16)` of two hex digits is 16·high + low, a byte |
| DeprivationPage.DecodeEncode | streamlit_app/pages/3_Social_Deprivation_Analysis.py:222-223 | decoding the `#RRGGBB` spelling of any colour gives that colour back |
| DeprivationPage.DecodeWellFormed | streamlit_app/pages/3_Social_Deprivation_Analysis.py:223 | every well-formed `#RRGGBB` decodes, to byte channels |
| DeprivationPage.DecodeParts | streamlit_app/pages/3_Social_Deprivation_Analysis.py:223 | channel k is read from characters 1+2k and 2+2k |
| DeprivationPage.DecodeExample | streamlit_app/pages/3_Social_Deprivation_Analysis.py:222 | '#94CBEC' gives (148, 203, 236) |
| DeprivationPage.DecodeShort | streamlit_app/pages/3_Social_Deprivation_Analysis.py:223 | a string of five characters or fewer raises (an empty slice is not a number) |
| DeprivationPage.ColourKey | streamlit_app/pages/3_Social_Deprivation_Analysis.py:206-218 | a known display name maps to its key; any other name falls back to "total" |
| DeprivationPage.ChooseGradient | streamlit_app/pages/3_Social_Deprivation_Analysis.py:218-234 | KeyError when the key has no colour; the decoding error, unchanged, when its colour is not well-formed hex; otherwise hassle costs run from the key's colour to white, the total ends in (0,153,51), and every other metric ends in its own colour with no low colour |
| DeprivationPage.GradientCases | streamlit_app/pages/3_Social_Deprivation_Analysis.py:218-232 | only the total and unknown names use the "total" colour key, and hassle costs use their own |
| DeprivationPage.RoundHalfEven | streamlit_app/pages/3_Social_Deprivation_Analysis.py:237 | the rounded integer is within 0.5 of the value |
| DeprivationPage.Round2 | streamlit_app/pages/3_Social_Deprivation_Analysis.py:237 | missing stays missing and present stays present |
| DeprivationPage.Round2Spec | streamlit_app/pages/3_Social_Deprivation_Analysis.py:237 | the result is within 0.005, has at most two decimals, and rounding it again changes nothing |
| DeprivationPage.DeprivationFrame.constructor | streamlit_app/pages/3_Social_Deprivation_Analysis.py:237 | the frame starts with the given columns |
| DeprivationPage.DeprivationFrame.AddRounded | streamlit_app/pages/3_Social_Deprivation_Analysis.py:237 | adds `{metric}_rounded` with each cell rounded and changes nothing else; a missing metric raises KeyError and changes nothing |
| HistogramGrid.NoRowsIffNoColumns | streamlit_app/utils.py:26 | the grid has no rows exactly when there is nothing to plot |
| HistogramGrid.NumRowsIsCeiling | streamlit_app/pages/6_Summary_View.py:20 | the row count is the ceiling of n / num_cols |
| HistogramGrid.PlacementInGrid | streamlit_app/utils.py:48-50 | subplot i lands inside [1, rows] × [1, num_cols] |
| HistogramGrid.PlacementInjective | streamlit_app/pages/6_Summary_View.py:42-44 | no two subplots share a cell |
| HistogramGrid.ColumnLabelShape | streamlit_app/utils.py:31 | the label has no '_', starts with no lower-case letter, and has no upper-case letter after the first |
| HistogramGrid.Titles | streamlit_app/pages/6_Summary_View.py:23-26 | the loop makes one title per column: "Distribution of " and the column's label |
| HistogramGrid.DefaultXLabels | streamlit_app/pages/6_Summary_View.py:29-30 | the default x labels are each column's label, one per column |
| HistogramGrid.DefaultColours | streamlit_app/utils.py:39-40 | the default palette is the first n of Plotly's ten colours (all ten when n > 10) |
| HistogramGrid.TraceAt | streamlit_app/utils.py:48-91 | a trace sits at its placement and plots its own column |
| HistogramGrid.TraceAtFails | streamlit_app/pages/6_Summary_View.py:47-80 | a trace fails exactly when the frame lacks its column (KeyError, checked first), or it needs a solid colour past the palette or a label past the list; it uses a colour scale exactly when one is given at i and is not None |
| HistogramGrid.BuildTraces | streamlit_app/utils.py:48-91 | the loop builds every trace in order, or stops at the first one that raises |
| HistogramGrid.HistogramTotals | streamlit_app/utils.py:9-105 | ZeroDivisionError for 0 grid columns, ValueError for a negative grid-column count or an empty column list; otherwise a figure with ceiling rows, height 400·rows, one title and trace per column, or the first trace error, a column missing from the frame giving KeyError |
| HistogramGrid.DefaultsNeverFail | streamlit_app/utils.py:35-40 | with the defaults and at most ten columns no trace of a column the frame holds fails |
| HistogramGrid.DefaultColoursRunOut | streamlit_app/utils.py:40 | with the defaults, an eleventh solid histogram of a column the frame holds raises IndexError |
| HistogramGrid.FigureLayout | streamlit_app/utils.py:42-50 | in a built figure every trace lies inside the grid, in a cell of its own |
| HistogramGrid.BoxValueLabel | streamlit_app/utils.py:116-119 | "sum" is shown as "Total", another column by its label; no value column (None) raises |
| HistogramGrid.BoxColourIndex | streamlit_app/utils.py:133 | a colour index that succeeds is inside Plotly's palette |
| HistogramGrid.BoxColours | streamlit_app/utils.py:126-133 | quintile q takes colour q - 1, so the five quintiles differ; quintile 0 wraps to the last colour, and 12 raises IndexError |
| DataQuality.ZeroSources | streamlit_app/pages/4_Data_Quality.py:16-42 | 27 zero-count sources: the 26 years and sum |
| DataQuality.Stats | streamlit_app/pages/4_Data_Quality.py:14-50 | the 35 statistics in order: total_rows, the 27 zero counts, the 7 null counts |
| DataQuality.Labels | streamlit_app/pages/4_Data_Quality.py:15-49 | the 35 column labels, each the label of its statistic |
| DataQuality.RequiredSources | streamlit_app/pages/4_Data_Quality.py:16-49 | the 34 columns the summary reads, in reading order |
| DataQuality.FirstAbsent | streamlit_app/pages/4_Data_Quality.py:16-49 | finds the first required column that is absent, or none |
| DataQuality.Evaluate | streamlit_app/pages/4_Data_Quality.py:15-49 | every count is at most the group size, and total_rows is the group size |
| DataQuality.SummaryCounts | streamlit_app/pages/4_Data_Quality.py:14-50 | 35 counts, none above total_rows |
| DataQuality.GroupsNonEmpty | streamlit_app/pages/4_Data_Quality.py:13 | there is a group exactly when some row has a type |
| DataQuality.SummaryErr | streamlit_app/pages/4_Data_Quality.py:13-51 | the summary raises KeyError exactly when there is a group and a required column is missing |
| DataQuality.SummarySpec | streamlit_app/pages/4_Data_Quality.py:13-51 | one row per type in sorted order; total_rows counts that type's rows and is at least 1; every other count is at most it |
| DataQuality.SummaryRow | streamlit_app/pages/4_Data_Quality.py:13-50 | each summary row holds the counts of its own group |
| DataQuality.SummaryRowBounds | streamlit_app/pages/4_Data_Quality.py:43-49 | the missing_* and zeros_* counts of a group never exceed its row count |
| DataQuality.ZerosPositionsSpec | streamlit_app/pages/4_Data_Quality.py:54 | the selected positions are exactly the columns starting "zeros_", in order |
| DataQuality.ZerosColumns | streamlit_app/pages/4_Data_Quality.py:54 | the selection keeps exactly the "zeros_" columns, in order |
| DataQuality.OtherLabel | streamlit_app/pages/4_Data_Quality.py:43-49 | total_rows and the missing_* columns are not selected |
| DataQuality.ZerosColumnsSpec | streamlit_app/pages/4_Data_Quality.py:54 | on the summary's columns the selection is the 27 columns "zeros_" + source |
| DataQuality.Percent | streamlit_app/pages/4_Data_Quality.py:55 | zeros / total × 100 is in [0,100], is 0 exactly for no zeros, 100 exactly for all zeros, and missing when the total is 0 |
| DataQuality.PercentagesErr | streamlit_app/pages/4_Data_Quality.py:13-55 | the percentage step fails exactly when the summary does or when no row has a type and the table has no total_rows column, then with KeyError('total_rows'); otherwise one row of percentages per group |
| DataQuality.PercentagesSpec | streamlit_app/pages/4_Data_Quality.py:55 | once the summary succeeds the percentage step succeeds; each group's 27 percentages are present, in [0,100], and each is its zero count over its row count |
| DataQuality.Renamed | streamlit_app/pages/4_Data_Quality.py:58 | each new name is the old one with every "zeros_" removed |
| DataQuality.DropPrefix | streamlit_app/pages/4_Data_Quality.py:58 | "zeros_" + source renames to source |
| DataQuality.RenamedColumns | streamlit_app/pages/4_Data_Quality.py:58 | the renamed columns are exactly the sources: "2025".."2050" and "sum" |
| DataQuality.PercentageTable.constructor | streamlit_app/pages/4_Data_Quality.py:54-55 | the table holds the selected columns and their percentages, one row per group |
| DataQuality.PercentageTable.RenameColumns | streamlit_app/pages/4_Data_Quality.py:58 | only the column names change, to their renamed form |

## Left out

- Rendering. Streamlit widgets and markdown, Plotly figures and layers,
  pydeck decks and the HTML legend builders are display calls. The model
  keeps only the values they are given: colours, titles, labels, grid
  positions, heights.
- File and network I/O. CSV and shapefile loaders and the cached loader
  functions are left out. Their outputs are parameters: a frame's columns
  and rows. The data-preparation and StatsWales download scripts are not
  part of this model.
- Geometry. CRS reprojection, `dissolve` and `total_bounds` are GIS
  library calls. The span that feeds `span_to_zoom` is an input.
- Pandas' quantile interpolation. The 0.2-quantile threshold of the
  mismatch filter is an input (`Option<real>`, missing when the column
  is empty).
- Floating point and string formatting. Values are exact reals, so
  IEEE rounding, infinities and `:.2f`-style digits are left out.
  `format_value` is modelled as the sign, magnitude and number of
  decimals it chooses. The CSS opacity is a whole number of
  thousandths, not its printed digits. `round(2)` is modelled as round-half-to-even
  on exact reals.
- Session-state navigation between sections is UI state.
- `make_deck` in `utils.py` reads names that the module never defines,
  so it cannot run as written.
- Helpers the pages import but whose bodies are not in the repository:
  - `choropleth_map`;
  - `Top3_Bottom3_LSOAs`;
  - the ANOVA/Tukey tests;
  - `create_cobenefit_timeline`;
  - `bottom_line_message`;
  - `style_expanders`.

  `cobenefit_colors` is a parameter (`lineColours`) of
  `DeprivationPage.ChooseGradient`.
- Narrative pages and the matplotlib-only map page are not part of this
  model.
- Sorting.SortDesc: pandas' default sort is not stable, so the order among
  equal values in the top-5 and worst-5 tables is not specified by the
  source. The model sorts stably and proves nothing about the order of
  ties.
- MapsPage.MetricValue: a zero population gives a missing value. In pandas
  it gives ±inf (or NaN for 0/0), which the ramp then treats as a number;
  infinities are left out.
- CobenefitCharts.GroupedSumsSpec: yearly values are exact sums. The
  order in which pandas adds floats does not matter here.
- The statistical comparison, the legend binning and the top-3/bottom-3
  selector described for the wider repository live in the helpers
  without bodies. The model follows the code actually present:
  - the five-stop ramp with `int()` truncation, rather than a two-colour
    ramp with rounding;
  - the top-5 / worst-5 tables of the map page, rather than a
    top-3 / bottom-3 ranking.
- Unicode character classes. Letter case is modelled for ASCII letters
  only, in `Common.Lower`, `Common.Capitalize` and `Common.Title`, and so
  in everything built on them: the area names, `HistogramGrid.ColumnLabel`,
  `CobenefitCharts.DisplayName` and `CobenefitCharts.Slug`. Digits are
  the ASCII digits: in `AreaNames` (Python's `\d` also matches other
  Unicode decimal digits) and in `DeprivationPage.ParseHex` (`int(t, 16)`
  also accepts them).
- MapsPage.Top5Spec, MapsPage.Worst5Spec and MapsPage.MapFrame.Rankings:
  the shown values are not rounded to four decimals (`round(4)` at the
  end of the ranking); the tables hold the exact values.
- DataQuality.PercentageTable.constructor: the class is built only from a
  summary whose first column is `total_rows`. The `KeyError('total_rows')`
  raised for a table with no co-benefit type is modelled by
  `DataQuality.Percentages`, not by the class.
