/**
 * The data-quality page. The LSOA table is grouped by co-benefit type and
 * each group is summarised by its size, the number of zero values in
 * each year column and in `sum`, and the number of missing values in
 * seven descriptive columns. The zero counts are then turned into
 * percentages of the group size, and their column names lose the
 * `zeros_` prefix.
 */
module DataQuality {
  import opened Common
  import Sorting
  import CobenefitCharts

  /** A cell of the LSOA table as pandas holds it. */
  datatype Cell = Num(v: real) | Text(s: string) | Missing

  /** One row: its co-benefit type (the grouping key) and its other cells by column name. */
  datatype Row = Row(cobenefitType: Option<string>, cells: map<string, Cell>)

  /** The table: its column names and its rows. */
  datatype Table = Table(columns: set<string>, rows: seq<Row>)

  /** Every row has a cell in exactly the table's columns, as in any data frame. */
  predicate Rectangular(t: Table)
  {
    forall r :: r in t.rows ==> r.cells.Keys == t.columns
  }

  // ---------------------------------------------------------------------
  // The summary columns

  /** What one summary column counts. */
  datatype Stat =
    | TotalRows
    | ZeroCount(source: string)
    | NullCount(column: Described)

  function StatLabel(s: Stat): string
  {
    match s
    case TotalRows => "total_rows"
    case ZeroCount(source) => "zeros_" + source
    case NullCount(column) => "missing_" + Suffix(column)
  }

  /** The columns whose zeros are counted: the 26 years, then `sum`. */
  function ZeroSources(): (r: seq<string>)
    ensures |r| == 27
  {
    CobenefitCharts.YearCols() + ["sum"]
  }

  /** The descriptive columns whose missing values are counted. */
  datatype Described =
    | Population | Households | LsoaCode | LsoaName | WimdRank | WimdDecile | WimdQuintile

  /** The column's name in the table. */
  function Source(c: Described): string
  {
    match c
    case Population => "population"
    case Households => "households"
    case LsoaCode => "LSOA code"
    case LsoaName => "LSOA name (Eng)"
    case WimdRank => "WIMD 2025 overall rank "
    case WimdDecile => "WIMD 2025 overall decile"
    case WimdQuintile => "WIMD 2025 overall quintile"
  }

  /** What follows `missing_` in the summary column's name. */
  function Suffix(c: Described): string
  {
    match c
    case Population => "population"
    case Households => "households"
    case LsoaCode => "LSOA_code"
    case LsoaName => "LSOA_name"
    case WimdRank => "WIMD_rank"
    case WimdDecile => "WIMD_decile"
    case WimdQuintile => "WIMD_quintile"
  }

  const DescribedColumns: seq<Described> :=
    [Population, Households, LsoaCode, LsoaName, WimdRank, WimdDecile, WimdQuintile]

  /** The summary's columns, in the order the per-group dictionary lists them. */
  function Stats(): (r: seq<Stat>)
    ensures |r| == 35
    ensures r[0] == TotalRows
    ensures forall j :: 1 <= j < 28 ==> r[j] == ZeroCount(ZeroSources()[j - 1])
    ensures forall j :: 28 <= j < 35 ==> r[j] == NullCount(DescribedColumns[j - 28])
  {
    [TotalRows]
    + seq(27, i requires 0 <= i < 27 => ZeroCount(ZeroSources()[i]))
    + seq(7, i requires 0 <= i < 7 => NullCount(DescribedColumns[i]))
  }

  /** The summary's column names. */
  function Labels(): (r: seq<string>)
    ensures |r| == 35
    ensures forall j :: 0 <= j < 35 ==> r[j] == StatLabel(Stats()[j])
  {
    seq(35, j requires 0 <= j < 35 => StatLabel(Stats()[j]))
  }

  /** The table columns a group's summary reads, in the order it reads them. */
  function RequiredSources(): (r: seq<string>)
    ensures |r| == 34
    ensures forall j :: 0 <= j < 27 ==> r[j] == ZeroSources()[j]
    ensures forall j :: 27 <= j < 34 ==> r[j] == Source(DescribedColumns[j - 27])
  {
    ZeroSources() + seq(7, i requires 0 <= i < 7 => Source(DescribedColumns[i]))
  }

  /**
   * The position, from `from` on, of the first of `names` that is not a
   * column: the key of the KeyError a summary raises.
   */
  function FirstAbsent(names: seq<string>, columns: set<string>, from: nat): (r: Option<nat>)
    ensures r.None? <==> forall j :: from <= j < |names| ==> names[j] in columns
    ensures r.Some? ==> from <= r.value < |names| && names[r.value] !in columns
                        && forall j :: from <= j < r.value ==> names[j] in columns
    decreases |names| - from
  {
    if from >= |names| then None
    else if names[from] !in columns then Some(from)
    else FirstAbsent(names, columns, from + 1)
  }

  // ---------------------------------------------------------------------
  // Counting within a group

  /** `x == 0` on a cell: only a number equal to zero; text and missing values compare unequal. */
  predicate IsZero(c: Cell) { c == Num(0.0) }

  /** `isnull()` on a cell. */
  predicate IsNull(c: Cell) { c.Missing? }

  /** The cells of one column, row by row. */
  function Column(rows: seq<Row>, col: string): (r: seq<Cell>)
    requires forall i :: 0 <= i < |rows| ==> col in rows[i].cells
    ensures |r| == |rows|
    ensures forall i :: 0 <= i < |rows| ==> r[i] == rows[i].cells[col]
  {
    seq(|rows|, i requires 0 <= i < |rows| => rows[i].cells[col])
  }

  /** Whether every column a statistic reads is present in every row. */
  predicate Readable(s: Stat, rows: seq<Row>)
  {
    match s
    case TotalRows => true
    case ZeroCount(source) => forall i :: 0 <= i < |rows| ==> source in rows[i].cells
    case NullCount(column) => forall i :: 0 <= i < |rows| ==> Source(column) in rows[i].cells
  }

  /** One statistic of one group. */
  function Evaluate(s: Stat, rows: seq<Row>): (n: nat)
    requires Readable(s, rows)
    ensures n <= |rows|
    ensures s.TotalRows? ==> n == |rows|
  {
    match s
    case TotalRows => |rows|
    case ZeroCount(source) => CountWhere(Column(rows, source), IsZero)
    case NullCount(column) => CountWhere(Column(rows, Source(column)), IsNull)
  }

  /** A row's co-benefit type, the key the summary groups by. */
  function RowType(x: Row): Option<string> { x.cobenefitType }

  /** The rows of one co-benefit type, in table order. */
  function Members(rows: seq<Row>, group: string): seq<Row>
  {
    GroupRows(rows, RowType, group)
  }

  /** The grouping keys of the rows; missing keys are dropped by the grouping. */
  function Keys(rows: seq<Row>): (r: seq<Option<string>>)
    ensures |r| == |rows|
    ensures forall i :: 0 <= i < |rows| ==> r[i] == rows[i].cobenefitType
  {
    seq(|rows|, i requires 0 <= i < |rows| => rows[i].cobenefitType)
  }

  /** One row of the summary: the group and its counts, aligned with `Labels()`. */
  datatype GroupSummary = GroupSummary(group: string, counts: seq<nat>)

  /**
   * `groupby('co-benefit_type').apply(...)`: one summary per co-benefit
   * type, in sorted order. A column the summary reads that the table lacks
   * raises KeyError, naming the first such column in reading order, as
   * soon as there is a group to summarise.
   */
  function Summary(t: Table): (r: Result<seq<GroupSummary>>)
    requires Rectangular(t)
  {
    var groups := Sorting.SortedUnique(Keys(t.rows));
    if groups == [] then Ok([])
    else
      match FirstAbsent(RequiredSources(), t.columns, 0)
      case Some(j) => Err(KeyError(RequiredSources()[j]))
      case None =>
        Ok(seq(|groups|, i requires 0 <= i < |groups| =>
          GroupSummary(groups[i], SummaryCounts(Members(t.rows, groups[i]), t.columns))))
  }

  /** The 35 counts of one group. */
  function SummaryCounts(members: seq<Row>, columns: set<string>): (r: seq<nat>)
    requires forall m :: m in members ==> m.cells.Keys == columns
    requires forall j :: 0 <= j < |RequiredSources()| ==> RequiredSources()[j] in columns
    ensures |r| == 35
    ensures forall j :: 0 <= j < 35 ==> r[j] <= r[0]
  {
    seq(35, j requires 0 <= j < 35 =>
      assert Readable(Stats()[j], members) by { ReadableStat(members, columns, j); }
      Evaluate(Stats()[j], members))
  }

  lemma ReadableStat(members: seq<Row>, columns: set<string>, j: nat)
    requires j < 35
    requires forall m :: m in members ==> m.cells.Keys == columns
    requires forall k :: 0 <= k < |RequiredSources()| ==> RequiredSources()[k] in columns
    ensures Readable(Stats()[j], members)
  {
    if 1 <= j < 28 {
      assert RequiredSources()[j - 1] == ZeroSources()[j - 1];
    } else if 28 <= j {
      assert RequiredSources()[j - 1] == Source(DescribedColumns[j - 28]);
    }
  }

  /** The groups a summary lists, in order. */
  function GroupNames(s: seq<GroupSummary>): (r: seq<string>)
    ensures |r| == |s|
    ensures forall i :: 0 <= i < |s| ==> r[i] == s[i].group
  {
    seq(|s|, i requires 0 <= i < |s| => s[i].group)
  }

  /** There is a group to summarise exactly when some row has a co-benefit type. */
  lemma GroupsNonEmpty(rows: seq<Row>)
    ensures Sorting.SortedUnique(Keys(rows)) != [] <==> exists i :: 0 <= i < |rows| && rows[i].cobenefitType.Some?
  {
    var groups := Sorting.SortedUnique(Keys(rows));
    Sorting.SortedUniqueSpec(Keys(rows));
    if groups != [] {
      assert Some(groups[0]) in Keys(rows);
    }
  }

  /** The summary raises exactly when there is a group and a column it reads is absent. */
  lemma SummaryErr(t: Table)
    requires Rectangular(t)
    ensures Summary(t).Err? <==>
              (exists i :: 0 <= i < |t.rows| && t.rows[i].cobenefitType.Some?)
              && exists j :: 0 <= j < |RequiredSources()| && RequiredSources()[j] !in t.columns
  {
    GroupsNonEmpty(t.rows);
  }

  /** The counts of a group that occurs in the table. */
  lemma GroupCounts(t: Table, g: string)
    requires Rectangular(t) && Some(g) in Keys(t.rows)
    requires forall j :: 0 <= j < |RequiredSources()| ==> RequiredSources()[j] in t.columns
    ensures forall m :: m in Members(t.rows, g) ==> m.cells.Keys == t.columns
    ensures SummaryCounts(Members(t.rows, g), t.columns)[0] == CountWhere(Keys(t.rows), (k: Option<string>) => k == Some(g))
    ensures SummaryCounts(Members(t.rows, g), t.columns)[0] >= 1
  {
    var members := Members(t.rows, g);
    MembersCount(t.rows, g);
    var k :| 0 <= k < |t.rows| && Keys(t.rows)[k] == Some(g);
    assert t.rows[k] in members;
  }

  /**
   * A summary that does not raise has one row per distinct non-missing
   * type, in strictly increasing order. Each row's `total_rows` is the
   * number of table rows of that type, at least one. Every zero and
   * missing count is at most `total_rows`.
   */
  lemma SummarySpec(t: Table)
    requires Rectangular(t) && Summary(t).Ok?
    ensures Sorting.StrictlyIncreasing(GroupNames(Summary(t).value))
    ensures forall g :: g in GroupNames(Summary(t).value) <==> Some(g) in Keys(t.rows)
    ensures forall i :: 0 <= i < |Summary(t).value| ==>
              && |Summary(t).value[i].counts| == 35
              && Summary(t).value[i].counts[0] == CountWhere(Keys(t.rows), (k: Option<string>) => k == Some(Summary(t).value[i].group))
              && Summary(t).value[i].counts[0] >= 1
              && forall j :: 0 <= j < 35 ==> Summary(t).value[i].counts[j] <= Summary(t).value[i].counts[0]
  {
    var groups := Sorting.SortedUnique(Keys(t.rows));
    Sorting.SortedUniqueSpec(Keys(t.rows));
    var s := Summary(t).value;
    assert GroupNames(s) == groups;
    forall i | 0 <= i < |s|
      ensures s[i].counts[0] == CountWhere(Keys(t.rows), (k: Option<string>) => k == Some(s[i].group))
      ensures s[i].counts[0] >= 1
    {
      assert groups[i] in groups;
      GroupCounts(t, groups[i]);
    }
  }

  /** One row of a summary that does not raise, unfolded. */
  lemma SummaryRow(t: Table, i: nat)
    requires Rectangular(t) && Summary(t).Ok? && i < |Summary(t).value|
    ensures forall j :: 0 <= j < |RequiredSources()| ==> RequiredSources()[j] in t.columns
    ensures forall m :: m in Members(t.rows, Summary(t).value[i].group) ==> m.cells.Keys == t.columns
    ensures Summary(t).value[i].counts == SummaryCounts(Members(t.rows, Summary(t).value[i].group), t.columns)
  {
  }

  /** A group's size is the number of rows whose key is that group. */
  lemma {:induction false} MembersCount(rows: seq<Row>, group: string)
    ensures |Members(rows, group)| == CountWhere(Keys(rows), (k: Option<string>) => k == Some(group))
  {
    if rows != [] {
      MembersCount(rows[1..], group);
      assert Keys(rows)[1..] == Keys(rows[1..]);
    }
  }

  // ---------------------------------------------------------------------
  // Zero percentages

  /**
   * `[col for col in columns if col.startswith('zeros_')]`, as positions
   * into `columns`, from position `from` on.
   */
  function ZerosPositions(columns: seq<string>, from: nat): (r: seq<nat>)
    ensures forall k :: 0 <= k < |r| ==> from <= r[k] < |columns|
    decreases |columns| - from
  {
    if from >= |columns| then []
    else (if StartsWith(columns[from], "zeros_") then [from] else []) + ZerosPositions(columns, from + 1)
  }

  /** The selected positions are exactly those whose name starts with `zeros_`, in increasing order. */
  lemma {:induction false} ZerosPositionsSpec(columns: seq<string>, from: nat)
    ensures forall p :: p in ZerosPositions(columns, from) <==> from <= p < |columns| && StartsWith(columns[p], "zeros_")
    ensures forall a, b :: 0 <= a < b < |ZerosPositions(columns, from)| ==>
              ZerosPositions(columns, from)[a] < ZerosPositions(columns, from)[b]
    decreases |columns| - from
  {
    if from < |columns| {
      ZerosPositionsSpec(columns, from + 1);
    }
  }

  /** `zeros_cols`: the names of the selected columns, in order. */
  function ZerosColumns(columns: seq<string>): (r: seq<string>)
    ensures forall c :: c in r <==> c in columns && StartsWith(c, "zeros_")
    ensures |r| == |ZerosPositions(columns, 0)|
    ensures forall k :: 0 <= k < |r| ==> r[k] == columns[ZerosPositions(columns, 0)[k]]
  {
    var positions := ZerosPositions(columns, 0);
    ZerosPositionsSpec(columns, 0);
    var r := seq(|positions|, k requires 0 <= k < |positions| => columns[positions[k]]);
    assert forall c :: c in columns && StartsWith(c, "zeros_") ==> c in r by {
      forall c | c in columns && StartsWith(c, "zeros_") ensures c in r {
        var p :| 0 <= p < |columns| && columns[p] == c;
        var k :| 0 <= k < |positions| && positions[k] == p;
        assert r[k] == c;
      }
    }
    r
  }

  /** What the selection needs to know of a list of column names: the layout of the summary's. */
  predicate ZerosShaped(columns: seq<string>)
  {
    && |columns| == 35
    && !StartsWith(columns[0], "zeros_")
    && (forall j :: 1 <= j < 28 ==> columns[j] == "zeros_" + ZeroSources()[j - 1])
    && (forall j :: 28 <= j < 35 ==> !StartsWith(columns[j], "zeros_"))
  }

  /** The summary's columns: `total_rows`, the 27 `zeros_` columns, then the `missing_` columns. */
  lemma LabelsZerosShaped()
    ensures ZerosShaped(Labels())
  {
    OtherLabel(0);
    forall j | 1 <= j < 28 ensures Labels()[j] == "zeros_" + ZeroSources()[j - 1] {
      assert Stats()[j] == ZeroCount(ZeroSources()[j - 1]);
    }
    forall j | 28 <= j < 35 ensures !StartsWith(Labels()[j], "zeros_") {
      OtherLabel(j);
    }
  }

  lemma OtherLabel(j: nat)
    requires j == 0 || 28 <= j < 35
    ensures !StartsWith(Labels()[j], "zeros_")
  {
    if j == 0 {
      assert Labels()[j][0] == 't';
    } else {
      assert Stats()[j] == NullCount(DescribedColumns[j - 28]);
      assert Labels()[j][0] == 'm';
    }
  }

  lemma PrefixStarts(prefix: string, rest: string)
    ensures StartsWith(prefix + rest, prefix)
  {
    assert (prefix + rest)[..|prefix|] == prefix;
  }

  /** On columns laid out like the summary's, the selection is positions 1 to 27. */
  lemma ZerosColumnsOfSummary(columns: seq<string>)
    requires ZerosShaped(columns)
    ensures |ZerosPositions(columns, 0)| == 27
    ensures forall k :: 0 <= k < 27 ==> ZerosPositions(columns, 0)[k] == k + 1
  {
    ZerosRun(columns, 1);
    assert ZerosPositions(columns, 0) == ZerosPositions(columns, 1);
  }

  lemma {:induction false} NoZerosAfter(columns: seq<string>, from: nat)
    requires ZerosShaped(columns) && 28 <= from
    ensures ZerosPositions(columns, from) == []
    decreases 35 - from
  {
    if from < 35 {
      NoZerosAfter(columns, from + 1);
    }
  }

  lemma {:induction false} ZerosRun(columns: seq<string>, from: nat)
    requires ZerosShaped(columns) && 1 <= from <= 28
    ensures ZerosPositions(columns, from) == seq(28 - from, k requires 0 <= k < 28 - from => from + k)
    decreases 28 - from
  {
    if from == 28 {
      NoZerosAfter(columns, 28);
    } else {
      ZerosRun(columns, from + 1);
      PrefixStarts("zeros_", ZeroSources()[from - 1]);
      assert ZerosPositions(columns, from) == [from] + ZerosPositions(columns, from + 1);
      ConsecutiveStep(from, 28);
    }
  }

  lemma ConsecutiveStep(from: nat, to: nat)
    requires from < to
    ensures seq(to - from, k requires 0 <= k < to - from => from + k)
         == [from] + seq(to - from - 1, k requires 0 <= k < to - from - 1 => from + 1 + k)
  {
  }

  /** The selected names of such columns are `zeros_` followed by each year, then by `sum`. */
  lemma ZerosColumnsSpec(columns: seq<string>)
    requires ZerosShaped(columns)
    ensures |ZerosColumns(columns)| == 27
    ensures forall k :: 0 <= k < 27 ==> ZerosColumns(columns)[k] == "zeros_" + ZeroSources()[k]
  {
    ZerosColumnsOfSummary(columns);
  }

  /** `zeros / total_rows * 100`; a group of size zero would give NaN or infinity, modelled as missing. */
  function Percent(zeros: nat, total: nat): (r: Option<real>)
    ensures r.None? <==> total == 0
    ensures r.Some? && zeros <= total ==> 0.0 <= r.value <= 100.0
    ensures r.Some? ==> (r.value == 0.0 <==> zeros == 0)
    ensures r.Some? ==> (r.value == 100.0 <==> zeros == total)
    ensures r.Some? ==> r.value * (total as real) == (zeros as real) * 100.0
  {
    if total == 0 then None else Some((zeros as real) / (total as real) * 100.0)
  }

  /**
   * `missing_by_cobenefit[zeros_cols].div(missing_by_cobenefit['total_rows'], axis=0) * 100`:
   * one row per group, one entry per `zeros_` column. `total_rows` is the
   * first of the summary's columns.
   */
  function PercentageZeros(columns: seq<string>, summary: seq<GroupSummary>): (r: seq<seq<Option<real>>>)
    requires |columns| > 0 && columns[0] == "total_rows"
    requires forall g :: 0 <= g < |summary| ==> |summary[g].counts| == |columns|
    ensures |r| == |summary|
  {
    var positions := ZerosPositions(columns, 0);
    seq(|summary|, g requires 0 <= g < |summary| =>
      seq(|positions|, k requires 0 <= k < |positions| =>
        Percent(summary[g].counts[positions[k]], summary[g].counts[0])))
  }

  /** The counts of one group of a summary that does not raise. */
  lemma SummaryRowBounds(t: Table, i: nat)
    requires Rectangular(t) && Summary(t).Ok? && i < |Summary(t).value|
    ensures |Summary(t).value[i].counts| == 35
    ensures Summary(t).value[i].counts[0] >= 1
    ensures forall j :: 0 <= j < 35 ==> Summary(t).value[i].counts[j] <= Summary(t).value[i].counts[0]
  {
    var groups := Sorting.SortedUnique(Keys(t.rows));
    Sorting.SortedUniqueSpec(Keys(t.rows));
    assert groups[i] in groups;
    SummaryRow(t, i);
    GroupCounts(t, groups[i]);
  }

  /** Every row of a summary that does not raise has one count per summary column. */
  lemma SummaryShape(t: Table)
    requires Rectangular(t) && Summary(t).Ok?
    ensures forall g :: 0 <= g < |Summary(t).value| ==> |Summary(t).value[g].counts| == |Labels()|
  {
    forall g | 0 <= g < |Summary(t).value| ensures |Summary(t).value[g].counts| == 35 {
      SummaryRow(t, g);
    }
  }

  /**
   * For a summary built from a table, the percentage step gives the
   * division of its rows, and every group's row has 27 entries;
   * each is present and lies in [0, 100], and the k-th is `Percent` of
   * the group's number of zeros in the k-th year (or `sum`) and its size.
   */
  lemma PercentagesSpec(t: Table, columns: seq<string>, i: nat, k: nat)
    requires Rectangular(t) && Summary(t).Ok? && i < |Summary(t).value| && k < 27
    requires columns == Labels()
    ensures forall g :: 0 <= g < |Summary(t).value| ==> |Summary(t).value[g].counts| == |columns|
    ensures Percentages(t) == Ok(PercentageZeros(columns, Summary(t).value))
    ensures |PercentageZeros(columns, Summary(t).value)[i]| == 27
    ensures PercentageZeros(columns, Summary(t).value)[i][k].Some?
    ensures 0.0 <= PercentageZeros(columns, Summary(t).value)[i][k].value <= 100.0
    ensures Readable(ZeroCount(ZeroSources()[k]), Members(t.rows, Summary(t).value[i].group))
    ensures Summary(t).value[i].counts[k + 1]
              == Evaluate(ZeroCount(ZeroSources()[k]), Members(t.rows, Summary(t).value[i].group))
    ensures PercentageZeros(columns, Summary(t).value)[i][k]
              == Percent(Summary(t).value[i].counts[k + 1], Summary(t).value[i].counts[0])
  {
    SummaryShape(t);
    SummaryRowBounds(t, i);
    SummaryRow(t, i);
    ZeroCountEntry(Members(t.rows, Summary(t).value[i].group), t.columns, k);
    LabelsZerosShaped();
    PercentEntry(columns, Summary(t).value, i, k);
  }

  /** Count k + 1 of a group is its number of zeros in the k-th year (or `sum`). */
  lemma ZeroCountEntry(members: seq<Row>, columns: set<string>, k: nat)
    requires forall m :: m in members ==> m.cells.Keys == columns
    requires forall j :: 0 <= j < |RequiredSources()| ==> RequiredSources()[j] in columns
    requires k < 27
    ensures Readable(ZeroCount(ZeroSources()[k]), members)
    ensures SummaryCounts(members, columns)[k + 1] == Evaluate(ZeroCount(ZeroSources()[k]), members)
  {
    ReadableStat(members, columns, k + 1);
    assert Stats()[k + 1] == ZeroCount(ZeroSources()[k]);
  }

  /** On columns laid out like the summary's, entry k of a row divides the count in column k + 1 by the first. */
  lemma PercentEntry(columns: seq<string>, summary: seq<GroupSummary>, i: nat, k: nat)
    requires ZerosShaped(columns) && columns[0] == "total_rows"
    requires forall g :: 0 <= g < |summary| ==> |summary[g].counts| == |columns|
    requires i < |summary| && k < 27
    ensures |PercentageZeros(columns, summary)[i]| == 27
    ensures PercentageZeros(columns, summary)[i][k] == Percent(summary[i].counts[k + 1], summary[i].counts[0])
  {
    ZerosColumnsOfSummary(columns);
  }

  /**
   * The summary followed by the percentage step (lines 13-55). With no
   * group to summarise `apply` never runs, and the summary is an empty
   * frame keeping the table's own columns, so the lookup of `total_rows`
   * raises KeyError unless the table itself has such a column.
   */
  function Percentages(t: Table): (r: Result<seq<seq<Option<real>>>>)
    requires Rectangular(t)
  {
    match Summary(t)
    case Err(e) => Err(e)
    case Ok(s) =>
      if s == [] then (if "total_rows" in t.columns then Ok([]) else Err(KeyError("total_rows")))
      else
        assert Labels()[0] == "total_rows";
        assert forall g :: 0 <= g < |s| ==> |s[g].counts| == |Labels()| by { SummaryShape(t); }
        Ok(PercentageZeros(Labels(), s))
  }

  /**
   * The percentage step fails exactly when the summary does, or when no
   * row has a co-benefit type and the table has no `total_rows` column,
   * and then with `KeyError('total_rows')`; otherwise it has one row of
   * percentages per group of the summary.
   */
  lemma PercentagesErr(t: Table)
    requires Rectangular(t)
    ensures Percentages(t).Err? <==>
              Summary(t).Err?
              || ((forall i :: 0 <= i < |t.rows| ==> t.rows[i].cobenefitType.None?) && "total_rows" !in t.columns)
    ensures ((forall i :: 0 <= i < |t.rows| ==> t.rows[i].cobenefitType.None?) && "total_rows" !in t.columns)
            ==> Percentages(t) == Err(KeyError("total_rows"))
    ensures Percentages(t).Ok? ==> Summary(t).Ok? && |Percentages(t).value| == |Summary(t).value|
  {
    GroupsNonEmpty(t.rows);
  }

  // ---------------------------------------------------------------------
  // Renaming the percentage columns

  /** `[col.replace('zeros_', '') for col in columns]` */
  function Renamed(columns: seq<string>): (r: seq<string>)
    ensures |r| == |columns|
    ensures forall k :: 0 <= k < |columns| ==> r[k] == RemoveAll(columns[k], "zeros_")
  {
    seq(|columns|, k requires 0 <= k < |columns| => RemoveAll(columns[k], "zeros_"))
  }

  /** Removing a pattern from text that never contains its first character changes nothing. */
  lemma {:induction false} RemoveAllAbsent(s: string, pat: string)
    requires |pat| > 0
    requires forall i :: 0 <= i < |s| ==> s[i] != pat[0]
    ensures RemoveAll(s, pat) == s
    decreases |s|
  {
    if |s| > 0 {
      assert !StartsWith(s, pat) by {
        if |pat| <= |s| { assert s[..|pat|][0] == s[0]; }
      }
      RemoveAllAbsent(s[1..], pat);
    }
  }

  lemma {:induction false} NatStrDigits(n: nat)
    ensures forall i :: 0 <= i < |NatStr(n)| ==> IsDigit(NatStr(n)[i])
  {
    if n >= 10 {
      NatStrDigits(n / 10);
    }
  }

  /** A name that is the prefix followed by text without a `z` loses exactly the prefix. */
  lemma DropPrefix(source: string)
    requires forall i :: 0 <= i < |source| ==> source[i] != 'z'
    ensures RemoveAll("zeros_" + source, "zeros_") == source
  {
    var s := "zeros_" + source;
    assert StartsWith(s, "zeros_");
    assert s[6..] == source;
    RemoveAllAbsent(source, "zeros_");
  }

  /** The renamed percentage columns are the 26 years in order, then `sum`. */
  lemma RenamedColumns(columns: seq<string>)
    requires columns == Labels()
    ensures Renamed(ZerosColumns(columns)) == ZeroSources()
  {
    LabelsZerosShaped();
    RenamedShaped(columns);
  }

  lemma RenamedShaped(columns: seq<string>)
    requires ZerosShaped(columns)
    ensures Renamed(ZerosColumns(columns)) == ZeroSources()
  {
    ZerosColumnsSpec(columns);
    forall k | 0 <= k < 27 ensures Renamed(ZerosColumns(columns))[k] == ZeroSources()[k] {
      SourceLosesPrefix(k);
    }
  }

  /** Each year and `sum` is exactly what renaming leaves of its `zeros_` column. */
  lemma SourceLosesPrefix(k: nat)
    requires k < 27
    ensures RemoveAll("zeros_" + ZeroSources()[k], "zeros_") == ZeroSources()[k]
  {
    if k < 26 {
      assert ZeroSources()[k] == NatStr(CobenefitCharts.FirstYear + k);
      NatStrDigits(CobenefitCharts.FirstYear + k);
    } else {
      assert ZeroSources()[k] == "sum";
    }
    DropPrefix(ZeroSources()[k]);
  }

  /** The percentage table as displayed: groups down, columns across. */
  class PercentageTable {
    var groups: seq<string>
    var columns: seq<string>
    var values: seq<seq<Option<real>>>

    /** The selection and division, from the summary's columns and rows, before the renaming. */
    constructor (summaryColumns: seq<string>, summary: seq<GroupSummary>)
      requires |summaryColumns| > 0 && summaryColumns[0] == "total_rows"
      requires forall g :: 0 <= g < |summary| ==> |summary[g].counts| == |summaryColumns|
      ensures columns == ZerosColumns(summaryColumns)
      ensures groups == GroupNames(summary) && values == PercentageZeros(summaryColumns, summary)
    {
      groups := GroupNames(summary);
      columns := ZerosColumns(summaryColumns);
      values := PercentageZeros(summaryColumns, summary);
    }

    /** `percentage_zeros.columns = [...]`: only the column names change. */
    method RenameColumns()
      modifies this
      ensures columns == Renamed(old(columns))
      ensures groups == old(groups) && values == old(values)
    {
      columns := Renamed(columns);
    }
  }
}
