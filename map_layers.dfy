/**
 * The map-layer builders of utils.py: `_pick_year_col`, `_ensure_str`,
 * `build_wimd_gdf` (one WIMD quintile per LSOA, joined onto the geometry
 * and coloured by quintile) and `build_cobenefit_gdf` (one co-benefit value
 * per LSOA for a type and year, summed or averaged, coloured by the
 * continuous ramp).
 *
 * A table is a sequence of records; the geometry table is the sequence of
 * its `small_area` codes, in order. A left merge on a key that is unique on
 * the right keeps the geometry's rows and order, which is how `LeftJoin`
 * and `BuildCobenefitGdf` are written.
 */
module MapLayers {
  import opened Common
  import opened QuintilePalette
  import ColourRamp

  // ---------------------------------------------------------------------
  // _pick_year_col

  /** A pandas column label: the year columns may be ints or strings. */
  datatype ColumnKey = IntKey(n: int) | StrKey(s: string)

  /** The int label if present, else the string label, else `KeyError`. */
  function PickYearCol(columns: seq<ColumnKey>, year: int): (r: Result<ColumnKey>)
    ensures r.Ok? ==> r.value in columns
    ensures r.Ok? <==> IntKey(year) in columns || StrKey(IntStr(year)) in columns
    ensures IntKey(year) in columns ==> r == Ok(IntKey(year))
  {
    if IntKey(year) in columns then Ok(IntKey(year))
    else if StrKey(IntStr(year)) in columns then Ok(StrKey(IntStr(year)))
    else Err(KeyError(IntStr(year)))
  }

  lemma {:induction false} NatStrLength(n: nat)
    ensures n >= 10 ==> |NatStr(n)| >= 2
    ensures forall k :: 0 <= k < |NatStr(n)| ==> IsDigit(NatStr(n)[k])
  {
    if n >= 10 {
      NatStrLength(n / 10);
    }
  }

  lemma {:induction false} NatStrInjective(a: nat, b: nat)
    requires NatStr(a) == NatStr(b)
    ensures a == b
  {
    NatStrLength(a);
    NatStrLength(b);
    if a >= 10 && b >= 10 {
      var sa, sb := NatStr(a), NatStr(b);
      assert sa[|sa| - 1] == DigitChar(a % 10) && sb[|sb| - 1] == DigitChar(b % 10);
      assert sa[..|sa| - 1] == NatStr(a / 10) && sb[..|sb| - 1] == NatStr(b / 10);
      NatStrInjective(a / 10, b / 10);
    }
  }

  lemma IntStrSign(n: int)
    ensures IntStr(n)[0] == '-' <==> n < 0
  {
    NatStrLength(if n < 0 then -n else n);
    if n >= 0 {
      assert IsDigit(NatStr(n)[0]);
    }
  }

  /** `str` is injective on ints, so distinct years name distinct string labels. */
  lemma IntStrInjective(a: int, b: int)
    requires IntStr(a) == IntStr(b)
    ensures a == b
  {
    IntStrSign(a);
    IntStrSign(b);
    if a < 0 {
      assert IntStr(a)[1..] == NatStr(-a) && IntStr(b)[1..] == NatStr(-b);
      NatStrInjective(-a, -b);
    } else {
      NatStrInjective(a, b);
    }
  }

  /**
   * The picked column belongs to the year asked for: two different years
   * never resolve to the same column.
   */
  lemma PickedColumnIsTheYear(columns: seq<ColumnKey>, y1: int, y2: int)
    requires PickYearCol(columns, y1).Ok? && PickYearCol(columns, y2).Ok?
    requires PickYearCol(columns, y1) == PickYearCol(columns, y2)
    ensures y1 == y2
  {
    var c := PickYearCol(columns, y1).value;
    if c.StrKey? {
      IntStrInjective(y1, y2);
    }
  }

  // ---------------------------------------------------------------------
  // _ensure_str

  /** `series.astype(str).str.strip()` on one cell. */
  function EnsureStr(cell: Option<string>): string
  {
    Strip(CellStr(cell))
  }

  predicate Trimmed(s: string)
  {
    |s| > 0 ==> !IsSpace(s[0]) && !IsSpace(s[|s| - 1])
  }

  lemma {:induction false} LStripNoLeading(s: string)
    ensures |LStrip(s)| > 0 ==> !IsSpace(LStrip(s)[0])
    ensures LStrip(s) == s[|s| - |LStrip(s)|..]
  {
    if |s| > 0 && IsSpace(s[0]) {
      LStripNoLeading(s[1..]);
    }
  }

  lemma {:induction false} RStripIsPrefix(s: string)
    ensures RStrip(s) == s[..|RStrip(s)|]
    ensures |RStrip(s)| > 0 ==> !IsSpace(RStrip(s)[|RStrip(s)| - 1])
  {
    if |s| > 0 && IsSpace(s[|s| - 1]) {
      RStripIsPrefix(s[..|s| - 1]);
    }
  }

  lemma StripTrimmed(s: string)
    ensures Trimmed(Strip(s))
  {
    LStripNoLeading(s);
    RStripIsPrefix(LStrip(s));
  }

  /** `_ensure_str` leaves no surrounding whitespace and applying it twice changes nothing. */
  lemma EnsureStrIdempotent(cell: Option<string>)
    ensures Trimmed(EnsureStr(cell))
    ensures EnsureStr(Some(EnsureStr(cell))) == EnsureStr(cell)
  {
    var t := EnsureStr(cell);
    StripTrimmed(CellStr(cell));
    assert LStrip(t) == t;
    assert RStrip(t) == t;
  }

  // ---------------------------------------------------------------------
  // build_wimd_gdf

  /** A row of the WIMD table: LSOA code, raw quintile, English name. */
  datatype WimdRecord = WimdRecord(code: string, quintile: Option<real>, name: Option<string>)

  /** `groupby("LSOA code").agg("first")` on the quintile: the first non-null quintile of that code. */
  function FirstQuintile(records: seq<WimdRecord>, code: string): (q: Option<real>)
  {
    if records == [] then None
    else if records[0].code == code && records[0].quintile.Some? then records[0].quintile
    else FirstQuintile(records[1..], code)
  }

  /** The same aggregation on the name column. */
  function FirstName(records: seq<WimdRecord>, code: string): (n: Option<string>)
  {
    if records == [] then None
    else if records[0].code == code && records[0].name.Some? then records[0].name
    else FirstName(records[1..], code)
  }

  /**
   * `first` skips nulls: the kept quintile is the one of the earliest record
   * of that code that has a quintile, and it is missing only when no
   * record of that code has one.
   */
  lemma {:induction false} FirstQuintileIsEarliest(records: seq<WimdRecord>, code: string)
    ensures FirstQuintile(records, code).None?
            <==> forall j :: 0 <= j < |records| && records[j].code == code ==> records[j].quintile.None?
    ensures FirstQuintile(records, code).Some? ==>
              exists j :: 0 <= j < |records| && records[j].code == code
                          && records[j].quintile == FirstQuintile(records, code)
                          && forall k :: 0 <= k < j && records[k].code == code ==> records[k].quintile.None?
  {
    if records != [] {
      FirstQuintileIsEarliest(records[1..], code);
      if !(records[0].code == code && records[0].quintile.Some?) {
        if FirstQuintile(records, code).Some? {
          var j :| 0 <= j < |records[1..]| && records[1..][j].code == code
                   && records[1..][j].quintile == FirstQuintile(records[1..], code)
                   && forall k :: 0 <= k < j && records[1..][k].code == code ==> records[1..][k].quintile.None?;
          assert records[j + 1] == records[1..][j];
          forall k | 0 <= k < j + 1 && records[k].code == code
            ensures records[k].quintile.None?
          {
            if k > 0 { assert records[k] == records[1..][k - 1]; }
          }
        }
        forall j | 0 < j < |records| ensures records[j] == records[1..][j - 1] { }
      }
    }
  }

  /** The name column keeps the first non-null name of each code, independently of the quintile. */
  lemma {:induction false} FirstNameIsEarliest(records: seq<WimdRecord>, code: string)
    ensures FirstName(records, code).None?
            <==> forall j :: 0 <= j < |records| && records[j].code == code ==> records[j].name.None?
    ensures FirstName(records, code).Some? ==>
              exists j :: 0 <= j < |records| && records[j].code == code
                          && records[j].name == FirstName(records, code)
                          && forall k :: 0 <= k < j && records[k].code == code ==> records[k].name.None?
  {
    if records != [] {
      FirstNameIsEarliest(records[1..], code);
      if !(records[0].code == code && records[0].name.Some?) {
        if FirstName(records, code).Some? {
          var j :| 0 <= j < |records[1..]| && records[1..][j].code == code
                   && records[1..][j].name == FirstName(records[1..], code)
                   && forall k :: 0 <= k < j && records[1..][k].code == code ==> records[1..][k].name.None?;
          assert records[j + 1] == records[1..][j];
          forall k | 0 <= k < j + 1 && records[k].code == code
            ensures records[k].name.None?
          {
            if k > 0 { assert records[k] == records[1..][k - 1]; }
          }
        }
        forall j | 0 < j < |records| ensures records[j] == records[1..][j - 1] { }
      }
    }
  }

  /** A geometry row after the left merge with the grouped WIMD table. */
  datatype Joined = Joined(area: string, quintile: Option<real>, name: Option<string>)

  function LeftJoin(areas: seq<string>, records: seq<WimdRecord>): (rows: seq<Joined>)
    ensures |rows| == |areas|
    ensures forall i :: 0 <= i < |areas| ==> rows[i].area == areas[i]
  {
    seq(|areas|, i requires 0 <= i < |areas| =>
      Joined(areas[i], FirstQuintile(records, areas[i]), FirstName(records, areas[i])))
  }

  /** A row of the returned GeoDataFrame: quintile as nullable Int64 and its fill colour. */
  datatype WimdRow = WimdRow(area: string, quintile: Option<int>, name: Option<string>, fill: Rgba)

  /** The quintile conversion and colour lookup of `build_wimd_gdf`, row by row; the first bad quintile raises. */
  function ColourRows(rows: seq<Joined>): (r: Result<seq<WimdRow>>)
    ensures r.Ok? ==> |r.value| == |rows|
    ensures r.Ok? ==> forall i :: 0 <= i < |rows| ==>
              && r.value[i].area == rows[i].area && r.value[i].name == rows[i].name
              && ToInt64(rows[i].quintile) == Ok(r.value[i].quintile)
              && r.value[i].fill == UtilsQuintileColour(r.value[i].quintile)
    ensures r.Err? <==> exists i :: 0 <= i < |rows| && ToInt64(rows[i].quintile).Err?
  {
    if rows == [] then Ok([])
    else
      match ToInt64(rows[0].quintile)
      case Err(e) => Err(e)
      case Ok(q) =>
        var head := WimdRow(rows[0].area, q, rows[0].name, UtilsQuintileColour(q));
        match ColourRows(rows[1..])
        case Err(e) => Err(e)
        case Ok(tail) =>
          assert forall i :: 1 <= i < |rows| ==> rows[i] == rows[1..][i - 1];
          Ok([head] + tail)
  }

  /** The WIMD table's quintile column, which `build_wimd_gdf` selects unconditionally. */
  const WimdQuintileColumn := "WIMD 2025 overall quintile"

  /**
   * `wimd_df[keep]`: the code and quintile columns are always selected, so
   * the first of them the table lacks raises `KeyError`; the name column is
   * only selected when present and never raises.
   */
  function MissingWimdColumn(wimdColumns: set<string>): (r: Option<string>)
    ensures r.None? <==> "LSOA code" in wimdColumns && WimdQuintileColumn in wimdColumns
    ensures r.Some? ==> r.value in ["LSOA code", WimdQuintileColumn] && r.value !in wimdColumns
  {
    if "LSOA code" !in wimdColumns then Some("LSOA code")
    else if WimdQuintileColumn !in wimdColumns then Some(WimdQuintileColumn)
    else None
  }

  /**
   * `build_wimd_gdf(cardiff_gdf, wimd_df)`: `wimdColumns` are the WIMD
   * table's column names and `records` its rows (a record's name is
   * missing when the table has no "LSOA name (Eng)" column).
   */
  function BuildWimdGdf(areas: seq<string>, wimdColumns: set<string>, records: seq<WimdRecord>): Result<seq<WimdRow>>
  {
    match MissingWimdColumn(wimdColumns)
    case Some(c) => Err(KeyError(c))
    case None => ColourRows(LeftJoin(areas, records))
  }

  /**
   * A table without the code or quintile column raises `KeyError` naming
   * it. Otherwise every geometry row is kept, in order; it carries the
   * first non-null quintile of its code, and its fill is that quintile's
   * palette entry with alpha 120, or [200, 200, 200, 70] when the quintile
   * is missing or not in 1..5. A non-integral quintile raises.
   */
  lemma BuildWimdGdfSpec(areas: seq<string>, wimdColumns: set<string>, records: seq<WimdRecord>)
    ensures var r := BuildWimdGdf(areas, wimdColumns, records);
            && (r.Err? <==> "LSOA code" !in wimdColumns || WimdQuintileColumn !in wimdColumns
                            || exists i :: 0 <= i < |areas| && ToInt64(FirstQuintile(records, areas[i])).Err?)
            && ("LSOA code" !in wimdColumns ==> r == Err(KeyError("LSOA code")))
            && ("LSOA code" in wimdColumns && WimdQuintileColumn !in wimdColumns ==> r == Err(KeyError(WimdQuintileColumn)))
            && (r.Ok? ==> |r.value| == |areas| && forall i :: 0 <= i < |areas| ==>
                  && r.value[i].area == areas[i]
                  && ToInt64(FirstQuintile(records, areas[i])) == Ok(r.value[i].quintile)
                  && (r.value[i].fill == Grey(70) <==> !IsQuintile(r.value[i].quintile))
                  && (IsQuintile(r.value[i].quintile) ==> r.value[i].fill.a == 120))
  {
    var r := BuildWimdGdf(areas, wimdColumns, records);
    if r.Ok? {
      forall i | 0 <= i < |areas|
        ensures r.value[i].fill == Grey(70) <==> !IsQuintile(r.value[i].quintile)
        ensures IsQuintile(r.value[i].quintile) ==> r.value[i].fill.a == 120
      {
        PageColours(r.value[i].quintile);
      }
    }
  }

  // ---------------------------------------------------------------------
  // build_cobenefit_gdf

  /** A row of the co-benefit table: its LSOA, its co-benefit type and its cells by column label. */
  datatype CobRecord = CobRecord(area: string, cobType: Option<string>, cells: map<ColumnKey, Option<real>>)

  /** The result: the value column's name, one value per geometry row, and the ramp colours. */
  datatype CobenefitLayer = CobenefitLayer(valueName: string, values: seq<Option<real>>, fill: seq<Rgba>)

  function Cell(r: CobRecord, col: ColumnKey): Option<real>
  {
    if col in r.cells then r.cells[col] else None
  }

  /** The year values of the rows of one type and one area (after `pd.to_numeric(errors="coerce")`), in table order. */
  function AreaValues(records: seq<CobRecord>, cobType: string, area: string, col: ColumnKey): (vs: seq<Option<real>>)
    ensures |vs| <= |records|
    ensures vs == [] <==> forall j :: 0 <= j < |records| ==> !(records[j].cobType == Some(cobType) && records[j].area == area)
    ensures forall v :: v in vs ==>
              exists j :: 0 <= j < |records| && records[j].cobType == Some(cobType) && records[j].area == area
                          && v == Cell(records[j], col)
    ensures forall j :: 0 <= j < |records| && records[j].cobType == Some(cobType) && records[j].area == area
              ==> Cell(records[j], col) in vs
  {
    if records == [] then []
    else
      (if records[0].cobType == Some(cobType) && records[0].area == area then [Cell(records[0], col)] else [])
      + AreaValues(records[1..], cobType, area, col)
  }

  function SumOf(xs: seq<real>): real
  {
    if xs == [] then 0.0 else xs[0] + SumOf(xs[1..])
  }

  /** `groupby(...).sum()` skips nulls (an all-null group sums to 0); `.mean()` is null for an all-null group. */
  function Aggregate(vs: seq<Option<real>>, agg: string): (r: Option<real>)
    ensures agg != "mean" ==> r.Some?
    ensures agg == "mean" ==> (r.None? <==> Present(vs) == [])
  {
    var p := Present(vs);
    if agg == "mean" then (if p == [] then None else Some(SumOf(p) / |p| as real))
    else Some(SumOf(p))
  }

  /** `build_cobenefit_gdf(cardiff_gdf, cob_df, cobenefit_type, year, agg)` */
  function BuildCobenefitGdf(areas: seq<string>, columns: seq<ColumnKey>, records: seq<CobRecord>,
                             cobType: string, year: int, agg: string): (r: Result<CobenefitLayer>)
    ensures StrKey("co_benefit_type") !in columns ==> r == Err(KeyError("co_benefit_type"))
    ensures r.Ok? ==> |r.value.values| == |areas| && |r.value.fill| == |areas|
  {
    if StrKey("co_benefit_type") !in columns then Err(KeyError("co_benefit_type"))
    else
      match PickYearCol(columns, year)
      case Err(e) => Err(e)
      case Ok(col) =>
        var values := seq(|areas|, i requires 0 <= i < |areas| =>
          var vs := AreaValues(records, cobType, areas[i], col);
          if vs == [] then None else Aggregate(vs, agg));
        match ColourRamp.ValueToRgbaContinuous(values, 120)
        case Err(e) => Err(e)
        case Ok(fill) => Ok(CobenefitLayer("cobenefit_" + cobType + "_" + IntStr(year), values, fill))
  }

  /** `n` copies of `x` added up. */
  function Repeated(n: nat, x: real): real
  {
    if n == 0 then 0.0 else x + Repeated(n - 1, x)
  }

  /** Adding up `n` copies of `x` gives `n * x`. */
  lemma {:induction false} RepeatedIsProduct(n: nat, x: real)
    ensures Repeated(n, x) == n as real * x
  {
    if n > 0 {
      RepeatedIsProduct(n - 1, x);
      assert n as real * x == (n - 1) as real * x + x;
    }
  }

  /** Values between `lo` and `hi` add up to between `|xs|` copies of each. */
  lemma {:induction false} SumBounds(xs: seq<real>, lo: real, hi: real)
    requires forall x :: x in xs ==> lo <= x <= hi
    ensures Repeated(|xs|, lo) <= SumOf(xs) <= Repeated(|xs|, hi)
  {
    if xs != [] {
      assert forall x :: x in xs[1..] ==> x in xs;
      SumBounds(xs[1..], lo, hi);
      assert xs[0] in xs;
    }
  }

  lemma DivBounds(p: seq<real>, lo: real, hi: real)
    requires p != []
    requires |p| as real * lo <= SumOf(p) <= |p| as real * hi
    ensures lo <= SumOf(p) / |p| as real <= hi
  {
  }

  /** The mean of a group lies between its smallest and largest present value. */
  lemma MeanWithinRange(vs: seq<Option<real>>)
    requires Present(vs) != []
    ensures Aggregate(vs, "mean").Some?
    ensures ColourRamp.MinOf(Present(vs)) <= Aggregate(vs, "mean").value <= ColourRamp.MaxOf(Present(vs))
  {
    var p := Present(vs);
    MeanBounds(p);
  }

  lemma MeanBounds(p: seq<real>)
    requires p != []
    ensures ColourRamp.MinOf(p) <= SumOf(p) / |p| as real <= ColourRamp.MaxOf(p)
  {
    var lo, hi := ColourRamp.MinOf(p), ColourRamp.MaxOf(p);
    SumProductBounds(p, lo, hi);
    DivBounds(p, lo, hi);
  }

  /** Values between `lo` and `hi` add up to between `|xs| * lo` and `|xs| * hi`. */
  lemma SumProductBounds(xs: seq<real>, lo: real, hi: real)
    requires forall x :: x in xs ==> lo <= x <= hi
    ensures |xs| as real * lo <= SumOf(xs) <= |xs| as real * hi
  {
    SumBounds(xs, lo, hi);
    RepeatedIsProduct(|xs|, lo);
    RepeatedIsProduct(|xs|, hi);
  }

  /**
   * The aggregation averages only when `agg` is exactly "mean" and sums for
   * any other value; an LSOA absent from the filtered rows stays missing;
   * the column is named `cobenefit_{type}_{year}`; and the errors are a
   * `KeyError` for a missing type column or year column and, when there
   * is no geometry row at all, the `ValueError` of `np.nanmin` on the
   * empty value column.
   */
  lemma BuildCobenefitGdfSpec(areas: seq<string>, columns: seq<ColumnKey>, records: seq<CobRecord>,
                              cobType: string, year: int, agg: string)
    ensures var r := BuildCobenefitGdf(areas, columns, records, cobType, year, agg);
            && (r.Err? <==> StrKey("co_benefit_type") !in columns || PickYearCol(columns, year).Err? || areas == [])
            && (StrKey("co_benefit_type") in columns && PickYearCol(columns, year).Ok? && areas == [] ==>
                  r == Err(ColourRamp.EmptyReduction))
            && (r.Ok? ==>
                  var col := PickYearCol(columns, year).value;
                  && r.value.valueName == "cobenefit_" + cobType + "_" + IntStr(year)
                  && ColourRamp.ValueToRgbaContinuous(r.value.values, 120) == Ok(r.value.fill)
                  && forall i :: 0 <= i < |areas| ==>
                       var vs := AreaValues(records, cobType, areas[i], col);
                       && (vs == [] ==> r.value.values[i].None?)
                       && (vs != [] && agg == "mean" ==>
                             r.value.values[i] == (if Present(vs) == [] then None
                                                   else Some(SumOf(Present(vs)) / |Present(vs)| as real)))
                       && (vs != [] && agg != "mean" ==> r.value.values[i] == Some(SumOf(Present(vs)))))
  {
  }
}
