/**
 * The 4_Maps page: WIMD deprivation next to one co-benefit metric, per
 * LSOA. The page script keeps one GeoDataFrame, `gdf`, and adds columns
 * to it step by step; `MapFrame` is that frame, with one field per column
 * the rules read or write. The pure rules the page uses (metric choice,
 * per-capita value, zoom, mismatch mask, CSS colour, rankings) are
 * functions beside it.
 */
module MapsPage {
  import opened Common
  import opened QuintilePalette
  import ColourRamp
  import Sorting
  import AreaNames

  // ---------------------------------------------------------------------
  // Metric choice

  /** The co-benefit columns the page offers, in the order listed. */
  const Candidates: seq<string> := [
    "sum",
    "air_quality", "congestion", "dampness", "diet_change",
    "excess_cold", "excess_heat", "hassle_costs", "noise",
    "physical_activity", "road_repairs", "road_safety"
  ]

  /** `[c for c in cands if c in columns]` */
  function KeepPresent(cands: seq<string>, columns: seq<string>): (r: seq<string>)
    ensures |r| <= |cands|
  {
    if cands == [] then []
    else (if cands[0] in columns then [cands[0]] else []) + KeepPresent(cands[1..], columns)
  }

  /** `xs` appears in `ys` in the same order, possibly with gaps. */
  predicate Subsequence(xs: seq<string>, ys: seq<string>)
    decreases |ys|
  {
    xs == [] || (ys != [] && ((xs[0] == ys[0] && Subsequence(xs[1..], ys[1..])) || Subsequence(xs, ys[1..])))
  }

  /** The kept list is the candidates present in the frame, in the candidates' order. */
  lemma {:induction false} KeepPresentSpec(cands: seq<string>, columns: seq<string>)
    ensures forall c :: c in KeepPresent(cands, columns) <==> c in cands && c in columns
    ensures Subsequence(KeepPresent(cands, columns), cands)
  {
    if cands != [] {
      KeepPresentSpec(cands[1..], columns);
      var rest := KeepPresent(cands[1..], columns);
      assert cands == [cands[0]] + cands[1..];
      if cands[0] in columns {
        assert KeepPresent(cands, columns) == [cands[0]] + rest;
        assert KeepPresent(cands, columns)[1..] == rest;
      } else {
        assert KeepPresent(cands, columns) == rest;
        if rest != [] {
          assert Subsequence(rest, cands[1..]);
        }
      }
    }
  }

  /** `cobenefit_cols` */
  function CobenefitCols(columns: seq<string>): seq<string>
  {
    KeepPresent(Candidates, columns)
  }

  /** `cobenefit_cols.index("sum") if "sum" in cobenefit_cols else 0` */
  function DefaultMetricIndex(cols: seq<string>): (k: nat)
    ensures "sum" in cols ==> k < |cols| && cols[k] == "sum"
  {
    if cols == [] then 0
    else if cols[0] == "sum" then 0
    else if "sum" in cols[1..] then 1 + DefaultMetricIndex(cols[1..])
    else 0
  }

  /**
   * The metric offered first is "sum" when the frame has it, and the
   * default index is 0 in every case: "sum" heads the candidate list.
   */
  lemma DefaultMetricIsFirst(columns: seq<string>)
    ensures var cols := CobenefitCols(columns);
            && DefaultMetricIndex(cols) == 0
            && ("sum" in columns <==> |cols| > 0 && cols[0] == "sum")
  {
    KeepPresentSpec(Candidates, columns);
    var cols := CobenefitCols(columns);
    assert Candidates[0] == "sum";
    assert cols == (if "sum" in columns then ["sum"] else []) + KeepPresent(Candidates[1..], columns);
    if "sum" !in columns && "sum" in cols {
      assert false;
    }
  }

  // ---------------------------------------------------------------------
  // Per-capita value

  /**
   * `metric_raw / pop * 1000` when normalising, else the raw value; a
   * missing operand gives a missing value.
   */
  function MetricValue(raw: Option<real>, pop: Option<real>, normalise: bool): (v: Option<real>)
    ensures !normalise ==> v == raw
    ensures normalise && v.Some? ==> raw.Some? && pop.Some? && pop.value != 0.0
  {
    if !normalise then raw
    else if raw.None? || pop.None? || pop.value == 0.0 then None
    else Some(raw.value / pop.value * 1000.0)
  }

  /** The per-1,000 value scales back to the raw value, so the ranking by it is a ranking per head. */
  lemma MetricValueRoundTrip(raw: real, pop: real)
    requires pop != 0.0
    ensures MetricValue(Some(raw), Some(pop), true).Some?
    ensures MetricValue(Some(raw), Some(pop), true).value * pop / 1000.0 == raw
  {
  }

  // ---------------------------------------------------------------------
  // Zoom

  /** `span_to_zoom` */
  function SpanToZoom(span: real): int
  {
    if span <= 0.01 then 13
    else if span <= 0.02 then 12
    else if span <= 0.04 then 11
    else if span <= 0.08 then 10
    else 9
  }

  function Pow2(n: nat): real
  {
    if n == 0 then 1.0 else 2.0 * Pow2(n - 1)
  }

  /**
   * The zoom takes only the values 9..13 and never increases with the
   * span: a wider area is never shown closer in.
   */
  lemma SpanToZoomMonotone(a: real, b: real)
    requires a <= b
    ensures 9 <= SpanToZoom(a) <= 13 && 9 <= SpanToZoom(b) <= 13
    ensures SpanToZoom(a) >= SpanToZoom(b)
  {
  }

  /**
   * The thresholds double from 0.01: zoom z (above 9) fits spans up to
   * 0.01 * 2^(13 - z), and zoom z (below 13) is only chosen for spans
   * beyond 0.01 * 2^(12 - z), so each zoom step out doubles the span shown.
   */
  lemma SpanToZoomDoubling(span: real)
    ensures var z := SpanToZoom(span);
            && (z > 9 ==> span <= 0.01 * Pow2(13 - z))
            && (z < 13 ==> span > 0.01 * Pow2(12 - z))
  {
    assert Pow2(1) == 2.0 && Pow2(2) == 4.0 && Pow2(3) == 8.0;
  }

  // ---------------------------------------------------------------------
  // Mismatch mask

  /**
   * `quintile.isin([1, 2]) & (metric_value <= low_thresh)`: a missing
   * quintile is not in the list and every comparison with a missing value
   * is false.
   */
  predicate IsMismatch(q: Option<int>, v: Option<real>, threshold: Option<real>)
  {
    q.Some? && (q.value == 1 || q.value == 2) && v.Some? && threshold.Some? && v.value <= threshold.value
  }

  /** The row positions `gdf[mismatch_mask]` keeps, in frame order. */
  function MismatchRows(qs: seq<Option<int>>, vs: seq<Option<real>>, threshold: Option<real>): (rows: seq<nat>)
    requires |qs| == |vs|
    ensures forall k :: 0 <= k < |rows| ==> rows[k] < |qs|
  {
    if qs == [] then []
    else
      var n := |qs| - 1;
      MismatchRows(qs[..n], vs[..n], threshold) + (if IsMismatch(qs[n], vs[n], threshold) then [n] else [])
  }

  /**
   * A row is kept exactly when it is in quintile 1 or 2 and its metric is
   * at most the threshold; the kept rows stay in frame order.
   */
  lemma {:induction false} MismatchRowsSpec(qs: seq<Option<int>>, vs: seq<Option<real>>, threshold: Option<real>)
    requires |qs| == |vs|
    ensures forall i :: i in MismatchRows(qs, vs, threshold) <==> 0 <= i < |qs| && IsMismatch(qs[i], vs[i], threshold)
    ensures forall a, b :: 0 <= a < b < |MismatchRows(qs, vs, threshold)| ==>
              MismatchRows(qs, vs, threshold)[a] < MismatchRows(qs, vs, threshold)[b]
  {
    if qs != [] {
      var n := |qs| - 1;
      MismatchRowsSpec(qs[..n], vs[..n], threshold);
      var init := MismatchRows(qs[..n], vs[..n], threshold);
      var last: seq<nat> := if IsMismatch(qs[n], vs[n], threshold) then [n] else [];
      var rows := MismatchRows(qs, vs, threshold);
      assert rows == init + last;
      forall i ensures i in rows <==> 0 <= i < |qs| && IsMismatch(qs[i], vs[i], threshold) {
        if 0 <= i < n {
          assert qs[..n][i] == qs[i] && vs[..n][i] == vs[i];
        }
      }
      forall a, b | 0 <= a < b < |rows| ensures rows[a] < rows[b] {
        if b < |init| {
          assert rows[a] == init[a] && rows[b] == init[b];
        } else {
          assert last == [n] && rows[b] == n;
          assert rows[a] == init[a] && init[a] < n;
        }
      }
    }
  }

  // ---------------------------------------------------------------------
  // Legend colours

  /**
   * `rgba(r,g,b,{a/255:.3f})`: the CSS colour, its opacity printed to three
   * decimals and held here as a whole number of thousandths.
   */
  datatype CssColour = CssColour(r: int, g: int, b: int, thousandths: int)

  /**
   * `a/255` to the nearest thousandth: `(2000a + 255) / 510` is
   * `1000a/255 + 1/2` rounded down. No byte alpha lies exactly halfway, so
   * the tie rule of the formatting never matters.
   */
  function Thousandths(a: int): int
  {
    (2000 * a + 255) / 510
  }

  function RgbaToCss(c: Rgba): CssColour
  {
    CssColour(c.r, c.g, c.b, Thousandths(c.a))
  }

  /**
   * The legend keeps the three channels, and a byte alpha gives an opacity
   * in [0, 1] within half a thousandth of the exact `a/255`.
   */
  lemma RgbaToCssSpec(c: Rgba)
    requires IsByte(c.a)
    ensures var css := RgbaToCss(c);
            && css.r == c.r && css.g == c.g && css.b == c.b
            && 0 <= css.thousandths <= 1000
            && Abs(css.thousandths as real / 1000.0 - c.a as real / 255.0) <= 0.0005
  {
    var t := Thousandths(c.a);
    assert 510 * t <= 2000 * c.a + 255 < 510 * t + 510;
    assert t as real / 1000.0 - c.a as real / 255.0 == (510 * t - 2000 * c.a) as real / 510000.0;
  }

  /** A larger alpha prints a larger opacity: each step of 1/255 moves it by at least three thousandths. */
  lemma ThousandthsStep(a: int, b: int)
    requires a < b
    ensures Thousandths(a) + 3 <= Thousandths(b)
  {
    var ta, tb := Thousandths(a), Thousandths(b);
    assert 510 * ta <= 2000 * a + 255 && 2000 * b + 255 < 510 * tb + 510;
  }

  /**
   * The three printed decimals still tell every alpha apart, even though
   * scaling them back by 255 and truncating does not always give the alpha
   * again (see `TruncatedReadBack`).
   */
  lemma OpacityDeterminesAlpha(a: int, b: int)
    ensures Thousandths(a) == Thousandths(b) <==> a == b
  {
    if a < b {
      ThousandthsStep(a, b);
    } else if b < a {
      ThousandthsStep(b, a);
    }
  }

  /**
   * Reading the printed opacity back as `int(opacity * 255)` gives the
   * alpha or one less, never anything else; the lower value is reached,
   * e.g. alpha 140 prints as 0.549 and 0.549 * 255 = 139.995 truncates to 139.
   */
  lemma TruncatedReadBack(a: int)
    ensures a - 1 <= (Thousandths(a) * 255) / 1000 <= a
    ensures a == 140 ==> (Thousandths(a) * 255) / 1000 == a - 1
  {
    var t := Thousandths(a);
    assert 510 * t <= 2000 * a + 255 < 510 * t + 510;
    assert 1000 * (a - 1) <= 255 * t < 1000 * (a + 1);
  }

  // ---------------------------------------------------------------------
  // Top 5 / Worst 5

  /** A rankable row: its position in the frame and its metric value. */
  datatype Ranked = Ranked(row: nat, value: real)

  /** `base.dropna(subset=[value_col])`: the rows with a value, in frame order. */
  function Rankable(vs: seq<Option<real>>): (r: seq<Ranked>)
    ensures forall k :: 0 <= k < |r| ==> r[k].row < |vs| && vs[r[k].row] == Some(r[k].value)
  {
    if vs == [] then []
    else
      var n := |vs| - 1;
      var init := Rankable(vs[..n]);
      assert forall k :: 0 <= k < |init| ==> vs[..n][init[k].row] == vs[init[k].row];
      init + (match vs[n] case Some(v) => [Ranked(n, v)] case None => [])
  }

  /** Every row with a value is rankable. */
  lemma {:induction false} RankableComplete(vs: seq<Option<real>>, i: nat)
    requires i < |vs| && vs[i].Some?
    ensures Ranked(i, vs[i].value) in Rankable(vs)
  {
    var n := |vs| - 1;
    if i < n {
      assert vs[..n][i] == vs[i];
      RankableComplete(vs[..n], i);
    }
  }

  function RankValue(r: Ranked): real { r.value }

  /** Rows drawn from the rankable rows carry their own frame value. */
  lemma RankedRowsAreRows(vs: seq<Option<real>>, picked: seq<Ranked>)
    requires multiset(picked) <= multiset(Rankable(vs))
    ensures forall k :: 0 <= k < |picked| ==> picked[k].row < |vs| && vs[picked[k].row] == Some(picked[k].value)
  {
    var rs := Rankable(vs);
    forall k | 0 <= k < |picked|
      ensures picked[k].row < |vs| && vs[picked[k].row] == Some(picked[k].value)
    {
      assert picked[k] in multiset(rs);
    }
  }

  /** `rankable.sort_values(value_col, ascending=False).head(5)` */
  function Top5(vs: seq<Option<real>>): seq<Ranked>
  {
    Sorting.TopK(Rankable(vs), RankValue, 5)
  }

  /** `rankable.sort_values(value_col, ascending=True).head(5)` */
  function Worst5(vs: seq<Option<real>>): seq<Ranked>
  {
    Sorting.BottomK(Rankable(vs), RankValue, 5)
  }

  /**
   * Top 5 holds at most five rows, all with a value, largest first, and no
   * row with a value outside it beats a row inside it.
   */
  lemma Top5Spec(vs: seq<Option<real>>)
    ensures var top := Top5(vs);
            && |top| <= 5
            && (forall k :: 0 <= k < |top| ==> top[k].row < |vs| && vs[top[k].row] == Some(top[k].value))
            && (forall a, b :: 0 <= a < b < |top| ==> top[a].value >= top[b].value)
            && forall x, y :: x in top && y in multiset(Rankable(vs)) - multiset(top) ==> x.value >= y.value
  {
    var rs := Rankable(vs);
    var top := Top5(vs);
    Sorting.TopKSpec(rs, RankValue, 5);
    RankedRowsAreRows(vs, top);
    forall a, b | 0 <= a < b < |top| ensures top[a].value >= top[b].value {
      assert RankValue(top[a]) >= RankValue(top[b]);
    }
    forall x, y | x in top && y in multiset(rs) - multiset(top) ensures x.value >= y.value {
      assert RankValue(x) >= RankValue(y);
    }
  }

  /** Worst 5 holds at most five rows, all with a value, smallest first, and none left out is smaller. */
  lemma Worst5Spec(vs: seq<Option<real>>)
    ensures var worst := Worst5(vs);
            && |worst| <= 5
            && (forall k :: 0 <= k < |worst| ==> worst[k].row < |vs| && vs[worst[k].row] == Some(worst[k].value))
            && (forall a, b :: 0 <= a < b < |worst| ==> worst[a].value <= worst[b].value)
            && forall x, y :: x in worst && y in multiset(Rankable(vs)) - multiset(worst) ==> x.value <= y.value
  {
    var rs := Rankable(vs);
    var worst := Worst5(vs);
    Sorting.BottomKSpec(rs, RankValue, 5);
    RankedRowsAreRows(vs, worst);
    forall a, b | 0 <= a < b < |worst| ensures worst[a].value <= worst[b].value {
      assert RankValue(worst[a]) <= RankValue(worst[b]);
    }
    forall x, y | x in worst && y in multiset(rs) - multiset(worst) ensures x.value <= y.value {
      assert RankValue(x) <= RankValue(y);
    }
  }

  /** The columns shown in the two tables. */
  function TableColumns(hasName: bool, hasPopulation: bool, normalise: bool): (cols: seq<string>)
    ensures "metric_value" in cols && "small_area" in cols
    ensures "population" in cols <==> hasPopulation && normalise
    ensures "LSOA name (Eng)" in cols <==> hasName
  {
    (if hasName then ["LSOA name (Eng)"] else [])
    + ["small_area", "WIMD 2025 overall quintile", "metric_value"]
    + (if hasPopulation && normalise then ["population"] else [])
  }

  // ---------------------------------------------------------------------
  // The page's frame

  class MapFrame {
    var smallArea: seq<string>
    /** The English name column, when the merged frame has one. */
    var names: Option<seq<Option<string>>>
    /** The quintile column as merged, before `astype("Int64")`. */
    var quintileRaw: seq<Option<real>>
    var metrics: map<string, seq<Option<real>>>
    var population: Option<seq<Option<real>>>
    var quintile: seq<Option<int>>
    var areaGroup: seq<string>
    var wimdRgba: seq<Rgba>
    var metricValue: seq<Option<real>>
    var metricRgba: seq<Rgba>

    /** Every input column has one cell per row. */
    ghost predicate Valid()
      reads this
    {
      && (names.Some? ==> |names.value| == |smallArea|)
      && |quintileRaw| == |smallArea|
      && (forall m :: m in metrics ==> |metrics[m]| == |smallArea|)
      && (population.Some? ==> |population.value| == |smallArea|)
    }

    /** The merged frame, before the page adds its columns. */
    constructor (smallArea: seq<string>, names: Option<seq<Option<string>>>, quintileRaw: seq<Option<real>>,
                 metrics: map<string, seq<Option<real>>>, population: Option<seq<Option<real>>>)
      requires names.Some? ==> |names.value| == |smallArea|
      requires |quintileRaw| == |smallArea|
      requires forall m :: m in metrics ==> |metrics[m]| == |smallArea|
      requires population.Some? ==> |population.value| == |smallArea|
      ensures Valid()
      ensures this.smallArea == smallArea && this.names == names && this.quintileRaw == quintileRaw
      ensures this.metrics == metrics && this.population == population
      ensures quintile == [] && areaGroup == [] && wimdRgba == [] && metricValue == [] && metricRgba == []
    {
      this.smallArea := smallArea;
      this.names := names;
      this.quintileRaw := quintileRaw;
      this.metrics := metrics;
      this.population := population;
      quintile := [];
      areaGroup := [];
      wimdRgba := [];
      metricValue := [];
      metricRgba := [];
    }

    /** The cell of `name_col` in row i: the English name if the column exists, else the code. */
    function NameCell(i: nat): Option<string>
      reads this
      requires Valid() && i < |smallArea|
    {
      if names.Some? then names.value[i] else Some(smallArea[i])
    }

    /** `gdf["area_group"] = gdf[name_col].astype(str).str.replace(...).str.strip()` */
    method AssignAreaGroup()
      requires Valid()
      modifies this
      ensures Valid()
      ensures |areaGroup| == |smallArea|
      ensures forall i :: 0 <= i < |smallArea| ==> areaGroup[i] == AreaNames.AreaGroupMaps(NameCell(i))
      ensures smallArea == old(smallArea) && names == old(names) && quintileRaw == old(quintileRaw)
      ensures metrics == old(metrics) && population == old(population) && quintile == old(quintile)
      ensures wimdRgba == old(wimdRgba) && metricValue == old(metricValue) && metricRgba == old(metricRgba)
    {
      areaGroup := seq(|smallArea|, i requires 0 <= i < |smallArea| && Valid() reads this => AreaNames.AreaGroupMaps(NameCell(i)));
    }

    /**
     * The quintile column becomes nullable Int64 (a non-integral value
     * raises and leaves the frame as it was) and `wimd_rgba` is its
     * palette colour with alpha 140, grey with alpha 80 otherwise.
     */
    method AssignWimdColours() returns (r: Result<()>)
      requires Valid()
      modifies this
      ensures Valid()
      ensures r.Err? <==> ToInt64Column(old(quintileRaw)).Err?
      ensures r.Ok? ==> quintile == ToInt64Column(old(quintileRaw)).value
                        && |wimdRgba| == |quintile|
                        && forall i :: 0 <= i < |quintile| ==> wimdRgba[i] == MapsQuintileColour(quintile[i])
      ensures r.Err? ==> quintile == old(quintile) && wimdRgba == old(wimdRgba)
      ensures smallArea == old(smallArea) && names == old(names) && quintileRaw == old(quintileRaw)
      ensures metrics == old(metrics) && population == old(population) && areaGroup == old(areaGroup)
      ensures metricValue == old(metricValue) && metricRgba == old(metricRgba)
    {
      var converted := ToInt64Column(quintileRaw);
      if converted.Err? {
        return Err(converted.error);
      }
      var qs := converted.value;
      quintile := qs;
      wimdRgba := seq(|qs|, i requires 0 <= i < |qs| => MapsQuintileColour(qs[i]));
      r := Ok(());
    }

    /** The population cell of row i; a frame without the column reads as all missing. */
    function PopulationCell(i: nat): Option<real>
      reads this
      requires Valid() && i < |smallArea|
    {
      if population.Some? then population.value[i] else None
    }

    /** `gdf["metric_value"] = metric_raw / pop * 1000` when normalising, else `metric_raw`. */
    method AssignMetricValue(metric: string, normalise: bool)
      requires Valid() && metric in metrics
      modifies this
      ensures Valid()
      ensures smallArea == old(smallArea) && names == old(names) && quintileRaw == old(quintileRaw)
      ensures metrics == old(metrics) && population == old(population) && quintile == old(quintile)
      ensures areaGroup == old(areaGroup) && wimdRgba == old(wimdRgba) && metricRgba == old(metricRgba)
      ensures |metricValue| == |smallArea|
      ensures forall i :: 0 <= i < |smallArea| ==>
                metricValue[i] == MetricValue(metrics[metric][i], PopulationCell(i), normalise)
    {
      var raw := metrics[metric];
      var pop := population;
      metricValue := seq(|raw|, i requires 0 <= i < |raw| && (pop.Some? ==> |pop.value| == |raw|) =>
                           MetricValue(raw[i], if pop.Some? then pop.value[i] else None, normalise));
    }

    /** `gdf["metric_rgba"] = to_rgba_continuous(gdf["metric_value"], alpha=140)` */
    method AssignMetricRgba()
      requires Valid()
      modifies this
      ensures Valid()
      ensures metricRgba == ColourRamp.ToRgbaContinuous(metricValue, 140)
      ensures |metricRgba| == |metricValue|
      ensures smallArea == old(smallArea) && names == old(names) && quintileRaw == old(quintileRaw)
      ensures metrics == old(metrics) && population == old(population) && quintile == old(quintile)
      ensures areaGroup == old(areaGroup) && wimdRgba == old(wimdRgba) && metricValue == old(metricValue)
    {
      metricRgba := ColourRamp.ToRgbaContinuous(metricValue, 140);
    }

    /** `mismatch_gdf = gdf[mismatch_mask].copy()`: the positions of the mismatch rows. */
    method Mismatch(threshold: Option<real>) returns (rows: seq<nat>)
      requires |quintile| == |metricValue|
      ensures forall i :: i in rows <==> 0 <= i < |quintile| && IsMismatch(quintile[i], metricValue[i], threshold)
    {
      rows := MismatchRows(quintile, metricValue, threshold);
      MismatchRowsSpec(quintile, metricValue, threshold);
    }

    /** The Top 5 / Worst 5 tables, computed on a copy: the frame is not modified. */
    method Rankings() returns (top: seq<Ranked>, worst: seq<Ranked>)
      ensures top == Top5(metricValue) && worst == Worst5(metricValue)
      ensures |top| <= 5 && |worst| <= 5
      ensures forall a, b :: 0 <= a < b < |top| ==> top[a].value >= top[b].value
      ensures forall a, b :: 0 <= a < b < |worst| ==> worst[a].value <= worst[b].value
    {
      top := Top5(metricValue);
      worst := Worst5(metricValue);
      Top5Spec(metricValue);
      Worst5Spec(metricValue);
    }
  }
}
