/**
 * `histogram_totals` (utils.py, with an identical local copy on the
 * Summary View page) and the labelling of
 * `deprivation_quintiles_boxplots_totals`: the subplot grid arithmetic,
 * the default titles, axis labels and colours, and the per-column choice
 * between a colour-scaled bar chart and a plain histogram.
 *
 * The figure itself is reduced to what the code decides: the number of
 * grid rows, the subplot titles, one trace plan per column and the height.
 */
module HistogramGrid {
  import opened Common

  // ---------------------------------------------------------------------
  // Grid arithmetic

  /** `num_rows = (len(columns_to_plot) + num_cols - 1) // num_cols` */
  function NumRows(n: nat, numCols: int): int
    requires numCols >= 1
  {
    (n + numCols - 1) / numCols
  }

  /** `row = i // num_cols + 1`, `col_pos = i % num_cols + 1` */
  function Placement(i: nat, numCols: int): (int, int)
    requires numCols >= 1
  {
    (i / numCols + 1, i % numCols + 1)
  }

  /** `height = 400 * num_rows` */
  function Height(rows: int): int
  {
    400 * rows
  }

  /** The grid has no rows exactly when there is no column to plot. */
  lemma NoRowsIffNoColumns(n: nat, numCols: int)
    requires numCols >= 1
    ensures n == 0 <==> NumRows(n, numCols) == 0
  {
    NumRowsIsCeiling(n, numCols);
  }

  /** The row count is the ceiling of n / num_cols: the smallest grid with room for every column. */
  lemma NumRowsIsCeiling(n: nat, numCols: int)
    requires numCols >= 1
    ensures NumRows(n, numCols) >= 0
    ensures NumRows(n, numCols) * numCols >= n
    ensures (NumRows(n, numCols) - 1) * numCols < n
    ensures n == 0 <==> NumRows(n, numCols) == 0
  {
    var q, m := (n + numCols - 1) / numCols, (n + numCols - 1) % numCols;
    assert n + numCols - 1 == q * numCols + m && 0 <= m < numCols;
    assert (q - 1) * numCols == q * numCols - numCols;
  }

  lemma DivBelow(i: nat, q: int, c: int)
    requires c >= 1 && i < q * c
    ensures i / c < q
  {
  }

  /** Every column lands inside the rows x cols grid, counting from 1. */
  lemma PlacementInGrid(i: nat, n: nat, numCols: int)
    requires numCols >= 1 && i < n
    ensures 1 <= Placement(i, numCols).0 <= NumRows(n, numCols)
    ensures 1 <= Placement(i, numCols).1 <= numCols
  {
    NumRowsIsCeiling(n, numCols);
    DivBelow(i, NumRows(n, numCols), numCols);
  }

  /** Two different columns never share a subplot. */
  lemma PlacementInjective(i: nat, j: nat, numCols: int)
    requires numCols >= 1 && Placement(i, numCols) == Placement(j, numCols)
    ensures i == j
  {
    assert i == (i / numCols) * numCols + i % numCols;
    assert j == (j / numCols) * numCols + j % numCols;
  }

  // ---------------------------------------------------------------------
  // Titles, labels and colours

  /** `col.replace("_", " ").capitalize()` */
  function ColumnLabel(column: string): string
  {
    Capitalize(ReplaceChar(column, '_', ' '))
  }

  /**
   * The label keeps the name's length, has no underscores left, starts
   * with no lower-case letter and has no upper-case letter after that.
   */
  lemma ColumnLabelShape(column: string)
    ensures |ColumnLabel(column)| == |column|
    ensures forall k :: 0 <= k < |column| ==> ColumnLabel(column)[k] != '_'
    ensures |column| > 0 ==> !IsLower(ColumnLabel(column)[0])
    ensures forall k :: 1 <= k < |column| ==> !IsUpper(ColumnLabel(column)[k])
  {
    var r := ReplaceChar(column, '_', ' ');
    var shown := ColumnLabel(column);
    forall k | 1 <= k < |column|
      ensures !IsUpper(shown[k]) && shown[k] != '_'
    {
      assert shown[k] == Lower(r[1..])[k - 1];
    }
  }

  /** The subplot titles, appended one per column. */
  method Titles(columns: seq<string>) returns (titles: seq<string>)
    ensures |titles| == |columns|
    ensures forall i :: 0 <= i < |columns| ==> titles[i] == "Distribution of " + ColumnLabel(columns[i])
  {
    titles := [];
    for k := 0 to |columns|
      invariant |titles| == k
      invariant forall i :: 0 <= i < k ==> titles[i] == "Distribution of " + ColumnLabel(columns[i])
    {
      titles := titles + ["Distribution of " + ColumnLabel(columns[k])];
    }
  }

  /** The x-axis labels used when none are given. */
  function DefaultXLabels(columns: seq<string>): (labels: seq<string>)
    ensures |labels| == |columns|
    ensures forall i :: 0 <= i < |columns| ==> labels[i] == ColumnLabel(columns[i])
  {
    seq(|columns|, i requires 0 <= i < |columns| => ColumnLabel(columns[i]))
  }

  /** `px.colors.qualitative.Plotly` */
  const PlotlyQualitative: seq<string> := [
    "#636EFA", "#EF553B", "#00CC96", "#AB63FA", "#FFA15A",
    "#19D3F3", "#FF6692", "#B6E880", "#FF97FF", "#FECB52"
  ]

  /** `px.colors.qualitative.Plotly[:len(columns_to_plot)]`: the slice stops at the palette's ten colours. */
  function DefaultColours(n: nat): (colours: seq<string>)
    ensures |colours| == if n < 10 then n else 10
    ensures forall k :: 0 <= k < |colours| ==> colours[k] == PlotlyQualitative[k]
  {
    if n < 10 then PlotlyQualitative[..n] else PlotlyQualitative
  }

  // ---------------------------------------------------------------------
  // Traces

  /** What a subplot draws: value counts coloured by a colour scale, or a one-colour histogram. */
  datatype Bars = ColourScaleBars(scale: string) | SolidHistogram(colour: string)

  datatype Trace = Trace(column: string, row: int, col: int, bars: Bars, xTitle: string)

  datatype Figure = Figure(rows: int, titles: seq<string>, traces: seq<Trace>, height: int)

  /** `colorscales is not None and i < len(colorscales) and colorscales[i] is not None` */
  predicate UsesColourScale(colorscales: Option<seq<Option<string>>>, i: nat)
  {
    colorscales.Some? && i < |colorscales.value| && colorscales.value[i].Some?
  }

  /**
   * One iteration of the trace loop. `data[col]` is read first in both
   * branches (before `colors[i]` among the histogram's keyword arguments)
   * and raises for a column the frame lacks; `colors[i]` and `x_labels[i]`
   * raise when the list is too short.
   */
  function TraceAt(dataColumns: set<string>, columns: seq<string>, numCols: int, colours: seq<string>, xLabels: seq<string>,
                   colorscales: Option<seq<Option<string>>>, i: nat): (r: Result<Trace>)
    requires numCols >= 1 && i < |columns|
    ensures r.Ok? ==> (r.value.row, r.value.col) == Placement(i, numCols) && r.value.column == columns[i]
  {
    if columns[i] !in dataColumns then Err(KeyError(columns[i]))
    else
    var bars :=
      if UsesColourScale(colorscales, i) then Ok(ColourScaleBars(colorscales.value[i].value))
      else if i < |colours| then Ok(SolidHistogram(colours[i]))
      else Err(IndexError(i));
    if bars.Err? then Err(bars.error)
    else if i >= |xLabels| then Err(IndexError(i))
    else Ok(Trace(columns[i], i / numCols + 1, i % numCols + 1, bars.value, xLabels[i]))
  }

  /** A column's trace fails exactly when the frame lacks the column or a list it needs is too short. */
  lemma TraceAtFails(dataColumns: set<string>, columns: seq<string>, numCols: int, colours: seq<string>, xLabels: seq<string>,
                     colorscales: Option<seq<Option<string>>>, i: nat)
    requires numCols >= 1 && i < |columns|
    ensures TraceAt(dataColumns, columns, numCols, colours, xLabels, colorscales, i).Err?
            <==> columns[i] !in dataColumns || (!UsesColourScale(colorscales, i) && i >= |colours|) || i >= |xLabels|
    ensures columns[i] !in dataColumns ==>
              TraceAt(dataColumns, columns, numCols, colours, xLabels, colorscales, i) == Err(KeyError(columns[i]))
    ensures TraceAt(dataColumns, columns, numCols, colours, xLabels, colorscales, i).Ok? ==>
              var t := TraceAt(dataColumns, columns, numCols, colours, xLabels, colorscales, i).value;
              && t.xTitle == xLabels[i]
              && (t.bars.ColourScaleBars? <==> UsesColourScale(colorscales, i))
  {
  }

  /**
   * `histogram_totals(num_cols, columns_to_plot, data, x_labels, colors, colorscales)`:
   * the row count, the titles, the defaults and one trace per column, in
   * column order; the first failing column's error is raised. The frame
   * `data` is represented by its set of column names.
   */
  method HistogramTotals(numCols: int, columns: seq<string>, dataColumns: set<string>, xLabels: Option<seq<string>>,
                         colours: Option<seq<string>>, colorscales: Option<seq<Option<string>>>)
    returns (r: Result<Figure>)
    ensures numCols == 0 ==> r == Err(ZeroDivisionError)
    ensures numCols < 0 || (numCols > 0 && columns == []) ==> r.Err? && r.error.ValueError?
    ensures numCols >= 1 && columns != [] ==>
              var labels := if xLabels.Some? then xLabels.value else DefaultXLabels(columns);
              var palette := if colours.Some? then colours.value else DefaultColours(|columns|);
              && (r.Ok? <==> forall i :: 0 <= i < |columns| ==> TraceAt(dataColumns, columns, numCols, palette, labels, colorscales, i).Ok?)
              && (r.Ok? ==>
                    && r.value.rows == NumRows(|columns|, numCols)
                    && r.value.height == Height(r.value.rows)
                    && |r.value.titles| == |columns|
                    && (forall i :: 0 <= i < |columns| ==> r.value.titles[i] == "Distribution of " + ColumnLabel(columns[i]))
                    && |r.value.traces| == |columns|
                    && (forall i :: 0 <= i < |columns| ==>
                          TraceAt(dataColumns, columns, numCols, palette, labels, colorscales, i) == Ok(r.value.traces[i])))
              && (r.Err? ==> exists i :: 0 <= i < |columns|
                               && TraceAt(dataColumns, columns, numCols, palette, labels, colorscales, i) == Err(r.error)
                               && forall j :: 0 <= j < i ==> TraceAt(dataColumns, columns, numCols, palette, labels, colorscales, j).Ok?)
  {
    if numCols == 0 {
      return Err(ZeroDivisionError);
    }
    if numCols < 0 {
      return Err(ValueError("cols must be an int greater than 0"));
    }
    var rows := NumRows(|columns|, numCols);
    var titles := Titles(columns);
    var labels := if xLabels.Some? then xLabels.value else DefaultXLabels(columns);
    var palette := if colours.Some? then colours.value else DefaultColours(|columns|);
    NoRowsIffNoColumns(|columns|, numCols);
    if rows == 0 {
      return Err(ValueError("rows must be an int greater than 0"));
    }
    var traces := BuildTraces(dataColumns, columns, numCols, palette, labels, colorscales);
    if traces.Err? {
      return Err(traces.error);
    }
    r := Ok(Figure(rows, titles, traces.value, Height(rows)));
  }

  /** The traces of the columns in order, or the error of the first column whose trace fails. */
  method BuildTraces(dataColumns: set<string>, columns: seq<string>, numCols: int, palette: seq<string>, labels: seq<string>,
                     colorscales: Option<seq<Option<string>>>) returns (r: Result<seq<Trace>>)
    requires numCols >= 1
    ensures r.Ok? <==> forall i :: 0 <= i < |columns| ==> TraceAt(dataColumns, columns, numCols, palette, labels, colorscales, i).Ok?
    ensures r.Ok? ==> |r.value| == |columns|
                      && forall i :: 0 <= i < |columns| ==> TraceAt(dataColumns, columns, numCols, palette, labels, colorscales, i) == Ok(r.value[i])
    ensures r.Err? ==> exists i :: 0 <= i < |columns|
                          && TraceAt(dataColumns, columns, numCols, palette, labels, colorscales, i) == Err(r.error)
                          && forall j :: 0 <= j < i ==> TraceAt(dataColumns, columns, numCols, palette, labels, colorscales, j).Ok?
  {
    var traces: seq<Trace> := [];
    var i := 0;
    while i < |columns|
      invariant 0 <= i <= |columns|
      invariant |traces| == i
      invariant forall j :: 0 <= j < i ==> TraceAt(dataColumns, columns, numCols, palette, labels, colorscales, j) == Ok(traces[j])
    {
      var t := TraceAt(dataColumns, columns, numCols, palette, labels, colorscales, i);
      if t.Err? {
        return Err(t.error);
      }
      traces := traces + [t.value];
      i := i + 1;
    }
    r := Ok(traces);
  }

  /**
   * With the default labels and colours, a plot of at most ten columns
   * never fails on a column the frame holds: every column gets a label
   * and, unless it uses a colour scale, one of the ten palette colours.
   */
  lemma DefaultsNeverFail(dataColumns: set<string>, columns: seq<string>, numCols: int,
                          colorscales: Option<seq<Option<string>>>, i: nat)
    requires numCols >= 1 && i < |columns| <= 10 && columns[i] in dataColumns
    ensures TraceAt(dataColumns, columns, numCols, DefaultColours(|columns|), DefaultXLabels(columns), colorscales, i).Ok?
  {
    TraceAtFails(dataColumns, columns, numCols, DefaultColours(|columns|), DefaultXLabels(columns), colorscales, i);
  }

  /**
   * With more than ten columns and default colours, the eleventh column,
   * when the frame holds it, fails with an index error unless it has a
   * colour scale: the default palette has only ten entries.
   */
  lemma DefaultColoursRunOut(dataColumns: set<string>, columns: seq<string>, numCols: int,
                             colorscales: Option<seq<Option<string>>>)
    requires numCols >= 1 && |columns| > 10 && columns[10] in dataColumns && !UsesColourScale(colorscales, 10)
    ensures TraceAt(dataColumns, columns, numCols, DefaultColours(|columns|), DefaultXLabels(columns), colorscales, 10)
            == Err(IndexError(10))
  {
  }

  /** A successful figure places its traces in distinct cells of its grid, and is 400 pixels per row. */
  lemma FigureLayout(dataColumns: set<string>, numCols: int, columns: seq<string>, fig: Figure, palette: seq<string>,
                     labels: seq<string>, colorscales: Option<seq<Option<string>>>, i: nat, j: nat)
    requires numCols >= 1 && fig.rows == NumRows(|columns|, numCols) && |fig.traces| == |columns|
    requires forall k :: 0 <= k < |columns| ==> TraceAt(dataColumns, columns, numCols, palette, labels, colorscales, k) == Ok(fig.traces[k])
    requires i < |columns| && j < |columns| && i != j
    ensures 1 <= fig.traces[i].row <= fig.rows && 1 <= fig.traces[i].col <= numCols
    ensures (fig.traces[i].row, fig.traces[i].col) != (fig.traces[j].row, fig.traces[j].col)
  {
    assert TraceAt(dataColumns, columns, numCols, palette, labels, colorscales, i) == Ok(fig.traces[i]);
    assert TraceAt(dataColumns, columns, numCols, palette, labels, colorscales, j) == Ok(fig.traces[j]);
    PlacementInGrid(i, |columns|, numCols);
    if Placement(i, numCols) == Placement(j, numCols) {
      PlacementInjective(i, j, numCols);
    }
  }

  // ---------------------------------------------------------------------
  // deprivation_quintiles_boxplots_totals

  /** `'Total'` for the column "sum", else the capitalised name; a missing column name cannot be `replace`d. */
  function BoxValueLabel(valueCol: Option<string>): (r: Result<string>)
    ensures valueCol == Some("sum") ==> r == Ok("Total")
    ensures valueCol.None? ==> r.Err?
    ensures valueCol.Some? && valueCol.value != "sum" ==> r == Ok(ColumnLabel(valueCol.value))
  {
    match valueCol
    case None => Err(AttributeError("'NoneType' object has no attribute 'replace'"))
    case Some(c) => if c == "sum" then Ok("Total") else Ok(ColumnLabel(c))
  }

  /** The chart title built around the value label. */
  function BoxTitle(valueLabel: string): string
  {
    valueLabel + " Co-Benefits Distribution by WIMD Quintile"
  }

  /**
   * `colors[int(quintile) - 1]` on the ten-colour Plotly palette: `int`
   * truncates, Python indexing wraps negative indices, a missing quintile
   * cannot be converted.
   */
  function BoxColourIndex(quintile: Option<real>): (r: Result<nat>)
    ensures r.Ok? ==> r.value < |PlotlyQualitative|
  {
    match quintile
    case None => Err(ValueError("cannot convert float NaN to integer"))
    case Some(q) =>
      var k := Trunc(q) - 1;
      if 0 <= k < 10 then Ok(k)
      else if -10 <= k < 0 then Ok(k + 10)
      else Err(IndexError(k))
  }

  /**
   * Quintiles 1..5 take the first five palette colours, all distinct;
   * quintile 0 wraps round to the last colour and 12 is out of range.
   */
  lemma BoxColours(q1: int, q2: int)
    requires 1 <= q1 <= 5 && 1 <= q2 <= 5 && q1 != q2
    ensures BoxColourIndex(Some(q1 as real)) == Ok(q1 - 1)
    ensures PlotlyQualitative[q1 - 1] != PlotlyQualitative[q2 - 1]
    ensures BoxColourIndex(Some(0.0)) == Ok(9)
    ensures BoxColourIndex(Some(12.0)) == Err(IndexError(11))
  {
    assert Trunc(q1 as real) == q1;
    assert Trunc(12.0) == 12;
  }
}
