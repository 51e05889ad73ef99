/**
 * The two co-benefit analysis pages (2_ and 3_Co-Benefits_Analysis): the
 * quick-navigation links to each co-benefit's section, the labels and
 * sign split of the diverging bar chart of totals, and the yearly time
 * series (which types become bars, which years carry a label on the net
 * total line).
 *
 * Number formatting is modelled as the choice it makes (sign, magnitude,
 * number of decimals), not as the digits printed.
 */
module CobenefitCharts {
  import opened Common
  import Sorting

  // ---------------------------------------------------------------------
  // Navigation links

  /** `cobenefit.replace('_', ' ').title()` */
  function DisplayName(cobenefit: string): (r: string)
    ensures |r| == |cobenefit|
  {
    Title(ReplaceChar(cobenefit, '_', ' '))
  }

  /** The heading slug: the display name lower-cased, spaces turned into '-'. */
  function Slug(cobenefit: string): string
  {
    ReplaceChar(Lower(DisplayName(cobenefit)), ' ', '-')
  }

  /** The Markdown anchor of a co-benefit's section heading. */
  function Anchor(cobenefit: string): string
  {
    if cobenefit == "hassle_costs" then Slug(cobenefit) else Slug(cobenefit) + "-co-benefits"
  }

  /** Lower-casing a title-cased string undoes the title casing. */
  lemma {:induction false} LowerTitle(s: string, prevCased: bool)
    ensures Lower(TitleAfter(s, prevCased)) == Lower(s)
  {
    if s != [] {
      LowerTitle(s[1..], IsCased(s[0]));
      var t := TitleAfter(s, prevCased);
      assert t[1..] == TitleAfter(s[1..], IsCased(s[0]));
      assert Lower(t) == [ToLower(t[0])] + Lower(t[1..]);
      assert Lower(s) == [ToLower(s[0])] + Lower(s[1..]);
    }
  }

  /**
   * For a co-benefit name without spaces, the slug is the name in lower
   * case with '_' turned into '-': the title casing leaves no trace.
   */
  lemma SlugSpec(cobenefit: string)
    requires forall i :: 0 <= i < |cobenefit| ==> cobenefit[i] != ' '
    ensures Slug(cobenefit) == Lower(ReplaceChar(cobenefit, '_', '-'))
  {
    var spaced := ReplaceChar(cobenefit, '_', ' ');
    LowerTitle(spaced, false);
    var low := Lower(spaced);
    var dashed := ReplaceChar(cobenefit, '_', '-');
    var a := ReplaceChar(low, ' ', '-');
    var b := Lower(dashed);
    forall i | 0 <= i < |cobenefit| ensures a[i] == b[i] {
      SlugChar(cobenefit[i]);
    }
    assert a == b;
  }

  /** One character of the slug: '_' ends up as '-', anything else but a space as its lower case. */
  lemma SlugChar(c: char)
    requires c != ' '
    ensures var low := ToLower(if c == '_' then ' ' else c);
            (if low == ' ' then '-' else low) == ToLower(if c == '_' then '-' else c)
  {
  }

  /**
   * Every co-benefit's anchor is its slug followed by "-co-benefits",
   * except hassle costs, whose section heading has no suffix.
   */
  lemma AnchorSpec(cobenefit: string)
    requires forall i :: 0 <= i < |cobenefit| ==> cobenefit[i] != ' '
    ensures cobenefit != "hassle_costs" ==> Anchor(cobenefit) == Lower(ReplaceChar(cobenefit, '_', '-')) + "-co-benefits"
    ensures cobenefit == "hassle_costs" ==> Anchor(cobenefit) == Lower(ReplaceChar(cobenefit, '_', '-'))
  {
    SlugSpec(cobenefit);
  }

  /** The anchor has no spaces and no upper-case letters, as Markdown heading anchors are written. */
  lemma AnchorIsSlug(cobenefit: string)
    ensures forall i :: 0 <= i < |Anchor(cobenefit)| ==> Anchor(cobenefit)[i] != ' ' && !IsUpper(Anchor(cobenefit)[i])
  {
    var slug := Slug(cobenefit);
    assert forall i :: 0 <= i < |slug| ==> slug[i] != ' ' && !IsUpper(slug[i]);
    var suffix := "-co-benefits";
    assert forall i :: 0 <= i < |suffix| ==> suffix[i] != ' ' && !IsUpper(suffix[i]);
  }

  /** Which page the links are for: page 3 prefixes each link text with "Jump to ". */
  datatype NavStyle = Plain | JumpTo

  /** The link text in brackets, after the list bullet. */
  function LinkText(style: NavStyle, cobenefit: string): string
  {
    var prefix := if style == JumpTo then "Jump to " else "";
    if cobenefit == "hassle_costs" then prefix + DisplayName(cobenefit) else prefix + DisplayName(cobenefit) + " Co-Benefits"
  }

  /** The link target in parentheses, up to the end of the line. */
  function LinkTarget(cobenefit: string): string
  {
    "](#" + Anchor(cobenefit) + ")\n"
  }

  /** One Markdown list item linking to a co-benefit's section. */
  function NavLine(style: NavStyle, cobenefit: string): string
  {
    "- [" + LinkText(style, cobenefit) + LinkTarget(cobenefit)
  }

  /** The links for a list of co-benefits, one line each, in list order. */
  function NavLinksOf(style: NavStyle, cobenefits: seq<string>): string
  {
    if cobenefits == [] then "" else NavLinksOf(style, cobenefits[..|cobenefits| - 1]) + NavLine(style, cobenefits[|cobenefits| - 1])
  }

  /** The `nav_links +=` loop. */
  method NavLinks(style: NavStyle, cobenefits: seq<string>) returns (links: string)
    ensures links == NavLinksOf(style, cobenefits)
  {
    links := "";
    for k := 0 to |cobenefits|
      invariant links == NavLinksOf(style, cobenefits[..k])
    {
      var next := cobenefits[..k + 1];
      assert next[..k] == cobenefits[..k] && next[k] == cobenefits[k];
      links := links + NavLine(style, cobenefits[k]);
    }
    assert cobenefits[..|cobenefits|] == cobenefits;
  }

  /** Each link ends with its co-benefit's anchor as target; the "Jump to " style only adds text before the name. */
  lemma NavLineShape(style: NavStyle, cobenefit: string)
    ensures var line := NavLine(style, cobenefit);
            var target := "](#" + Anchor(cobenefit) + ")\n";
            |target| <= |line| && line[|line| - |target|..] == target
    ensures |LinkText(JumpTo, cobenefit)| == |LinkText(Plain, cobenefit)| + 8
  {
    EndsWithSecond("- [" + LinkText(style, cobenefit), LinkTarget(cobenefit));
  }

  lemma EndsWithSecond(a: string, b: string)
    ensures (a + b)[|a + b| - |b|..] == b
  {
  }

  // ---------------------------------------------------------------------
  // Bar labels

  /** `format_value`: the sign shown, the magnitude and how many decimals it is printed with. */
  datatype Money = Money(sign: char, magnitude: real, decimals: nat)

  function FormatValue(v: real): (m: Money)
    ensures m.sign == '+' <==> v > 0.0
    ensures m.sign == '+' || m.sign == '-'
    ensures m.magnitude == Abs(v)
    ensures m.decimals == 5 <==> 0.0 < Abs(v) < 0.001
    ensures m.decimals == 4 <==> Abs(v) == 0.0 || 0.001 <= Abs(v) < 0.1
    ensures m.decimals == 2 <==> Abs(v) >= 0.1
  {
    var a := Abs(v);
    var sign := if v > 0.0 then '+' else '-';
    if a < 0.001 && a > 0.0 then Money(sign, a, 5)
    else if a < 0.1 then Money(sign, a, 4)
    else Money(sign, a, 2)
  }

  /** The value the label reads as. */
  function Reading(m: Money): real
  {
    if m.sign == '+' then m.magnitude else -m.magnitude
  }

  /**
   * The label reads back as the value itself (a zero reads "-£0.0000M",
   * which is still zero), and smaller non-zero magnitudes never get fewer
   * decimals.
   */
  lemma FormatValueReadsBack(v: real, w: real)
    ensures Reading(FormatValue(v)) == v
    ensures v != 0.0 && w != 0.0 && Abs(v) <= Abs(w) ==> FormatValue(v).decimals >= FormatValue(w).decimals
  {
  }

  /** `'Positive Co-benefits' if x > 0 else 'Negative Costs'` */
  function ColourCategory(v: real): (c: string)
    ensures c == "Positive Co-benefits" <==> v > 0.0
    ensures c != "Positive Co-benefits" ==> c == "Negative Costs"
  {
    if v > 0.0 then "Positive Co-benefits" else "Negative Costs"
  }

  datatype TextPosition = Inside | Outside

  /** `'inside' if abs(x) > 50 else 'outside'` */
  function Position(v: real): (p: TextPosition)
    ensures p == Inside <==> v > 50.0 || v < -50.0
  {
    if Abs(v) > 50.0 then Inside else Outside
  }

  /** One row of `column_sums`: a benefit type and its total over all years. */
  datatype BenefitSum = BenefitSum(benefitType: string, value: real)

  /** A bar of the diverging chart with its label columns. */
  datatype LabelledBar = LabelledBar(benefitType: string, value: real, text: Money, position: TextPosition)

  function SumValue(b: BenefitSum): real { b.value }

  /** `column_sums[column_sums['benefit_type'] != 'Total']` */
  function WithoutTotal(sums: seq<BenefitSum>): (r: seq<BenefitSum>)
    ensures forall b :: b in r <==> b in sums && b.benefitType != "Total"
  {
    if sums == [] then []
    else (if sums[0].benefitType != "Total" then [sums[0]] else []) + WithoutTotal(sums[1..])
  }

  /** `sort_values('value', ascending=True)` */
  function SortedAscending(sums: seq<BenefitSum>): seq<BenefitSum>
  {
    Sorting.BottomK(sums, SumValue, |sums|)
  }

  /** The bar drawn for a row: its value with the `format_value` label and the inside/outside position. */
  function Bar(t: string, v: real): LabelledBar
  {
    LabelledBar(t, v, FormatValue(v), Position(v))
  }

  /** The rows of one sign, in order, with `formatted_text` and `text_position` added. */
  function LabelRows(sums: seq<BenefitSum>, negative: bool): (r: seq<LabelledBar>)
    ensures forall k :: 0 <= k < |r| ==> (if negative then r[k].value < 0.0 else r[k].value > 0.0)
  {
    if sums == [] then []
    else
      var b := sums[0];
      var keep := if negative then b.value < 0.0 else b.value > 0.0;
      (if keep then [Bar(b.benefitType, b.value)] else []) + LabelRows(sums[1..], negative)
  }

  /** The 'Costs' and 'Co-benefits' traces. */
  function Traces(sums: seq<BenefitSum>): (seq<LabelledBar>, seq<LabelledBar>)
  {
    var sorted := SortedAscending(WithoutTotal(sums));
    (LabelRows(sorted, true), LabelRows(sorted, false))
  }

  /** A bar is in the trace exactly when its row is in the input with the trace's sign. */
  lemma LabelRowsMembers(sums: seq<BenefitSum>, negative: bool)
    ensures forall t, v :: Bar(t, v) in LabelRows(sums, negative)
                           <==> BenefitSum(t, v) in sums && (if negative then v < 0.0 else v > 0.0)
  {
    LabelRowsComplete(sums, negative);
    LabelRowsSound(sums, negative);
  }

  /** Every row of the trace's sign gets its bar. */
  lemma {:induction false} LabelRowsComplete(sums: seq<BenefitSum>, negative: bool)
    ensures forall t, v :: BenefitSum(t, v) in sums && (if negative then v < 0.0 else v > 0.0) ==>
                           Bar(t, v) in LabelRows(sums, negative)
  {
    if sums != [] {
      LabelRowsComplete(sums[1..], negative);
      var b := sums[0];
      var keep := if negative then b.value < 0.0 else b.value > 0.0;
      var head: seq<LabelledBar> := if keep then [Bar(b.benefitType, b.value)] else [];
      assert LabelRows(sums, negative) == head + LabelRows(sums[1..], negative);
      forall t, v | BenefitSum(t, v) in sums && (if negative then v < 0.0 else v > 0.0)
        ensures Bar(t, v) in LabelRows(sums, negative)
      {
        if BenefitSum(t, v) != b {
          assert BenefitSum(t, v) in sums[1..];
        }
      }
    }
  }

  /** Every bar of the trace comes from a row of the trace's sign. */
  lemma {:induction false} LabelRowsSound(sums: seq<BenefitSum>, negative: bool)
    ensures forall t, v :: Bar(t, v) in LabelRows(sums, negative) ==>
                           BenefitSum(t, v) in sums && (if negative then v < 0.0 else v > 0.0)
  {
    if sums != [] {
      LabelRowsSound(sums[1..], negative);
      var b := sums[0];
      var keep := if negative then b.value < 0.0 else b.value > 0.0;
      var head: seq<LabelledBar> := if keep then [Bar(b.benefitType, b.value)] else [];
      assert LabelRows(sums, negative) == head + LabelRows(sums[1..], negative);
      forall t, v | Bar(t, v) in LabelRows(sums, negative)
        ensures BenefitSum(t, v) in sums && (if negative then v < 0.0 else v > 0.0)
      {
        if Bar(t, v) !in head {
          assert BenefitSum(t, v) in sums[1..];
        }
      }
    }
  }

  /**
   * The 'Costs' trace holds exactly the non-Total rows with a negative
   * value and the 'Co-benefits' trace exactly those with a positive one,
   * each labelled by `format_value` and the inside/outside rule; a row
   * whose value is zero is classed 'Negative Costs' yet appears in
   * neither trace.
   */
  lemma TracesSpec(sums: seq<BenefitSum>)
    ensures var (neg, pos) := Traces(sums);
            && (forall t, v :: Bar(t, v) in neg
                               <==> BenefitSum(t, v) in sums && t != "Total" && v < 0.0)
            && (forall t, v :: Bar(t, v) in pos
                               <==> BenefitSum(t, v) in sums && t != "Total" && v > 0.0)
            && (forall k :: 0 <= k < |neg| ==> ColourCategory(neg[k].value) == "Negative Costs")
            && (forall k :: 0 <= k < |pos| ==> ColourCategory(pos[k].value) == "Positive Co-benefits")
  {
    var filtered := WithoutTotal(sums);
    var sorted := SortedAscending(filtered);
    SortedAscendingSpec(filtered);
    forall b ensures b in sorted <==> b in filtered {
      assert b in sorted <==> b in multiset(sorted);
      assert b in filtered <==> b in multiset(filtered);
    }
    LabelRowsMembers(sorted, true);
    LabelRowsMembers(sorted, false);
  }

  /** Sorting by value keeps every row, as often as it occurs, and puts them in non-decreasing order. */
  lemma SortedAscendingSpec(sums: seq<BenefitSum>)
    ensures multiset(SortedAscending(sums)) == multiset(sums)
    ensures forall a, b :: 0 <= a < b < |SortedAscending(sums)| ==>
              SortedAscending(sums)[a].value <= SortedAscending(sums)[b].value
  {
    var sorted := SortedAscending(sums);
    Sorting.BottomKSpec(sums, SumValue, |sums|);
    assert |sorted| == |sums|;
    assert |multiset(sorted)| == |multiset(sums)|;
    MultisetSubsetSameSize(multiset(sorted), multiset(sums));
    forall a, b | 0 <= a < b < |sorted| ensures sorted[a].value <= sorted[b].value {
      assert SumValue(sorted[a]) <= SumValue(sorted[b]);
    }
  }

  /** A sub-multiset of the same size is the whole multiset. */
  lemma MultisetSubsetSameSize<T>(a: multiset<T>, b: multiset<T>)
    requires a <= b && |a| == |b|
    ensures a == b
  {
    var d := b - a;
    assert b == a + d;
    assert |d| == 0;
  }

  /** A lower bound on the input's values bounds the kept rows too. */
  lemma {:induction false} LabelRowsBound(sums: seq<BenefitSum>, negative: bool, lo: real)
    requires forall j :: 0 <= j < |sums| ==> sums[j].value >= lo
    ensures forall k :: 0 <= k < |LabelRows(sums, negative)| ==> LabelRows(sums, negative)[k].value >= lo
  {
    if sums != [] {
      LabelRowsBound(sums[1..], negative, lo);
    }
  }

  /** Keeping the rows of one sign keeps their order. */
  lemma {:induction false} LabelRowsOrdered(sums: seq<BenefitSum>, negative: bool)
    requires forall a, b :: 0 <= a < b < |sums| ==> sums[a].value <= sums[b].value
    ensures forall a, b :: 0 <= a < b < |LabelRows(sums, negative)| ==>
              LabelRows(sums, negative)[a].value <= LabelRows(sums, negative)[b].value
  {
    if sums != [] {
      var tail := sums[1..];
      LabelRowsOrdered(tail, negative);
      LabelRowsBound(tail, negative, sums[0].value);
      var rest := LabelRows(tail, negative);
      var r := LabelRows(sums, negative);
      forall a, b | 0 <= a < b < |r| ensures r[a].value <= r[b].value {
        var shift := |r| - |rest|;
        if a < shift {
          assert r[a].value == sums[0].value && r[b] == rest[b - 1];
        } else {
          assert r[a] == rest[a - shift] && r[b] == rest[b - shift];
        }
      }
    }
  }

  /** Both traces list their bars by value, smallest first, as the sorted frame does. */
  lemma TracesAscending(sums: seq<BenefitSum>)
    ensures forall a, b :: 0 <= a < b < |Traces(sums).0| ==> Traces(sums).0[a].value <= Traces(sums).0[b].value
    ensures forall a, b :: 0 <= a < b < |Traces(sums).1| ==> Traces(sums).1[a].value <= Traces(sums).1[b].value
  {
    var filtered := WithoutTotal(sums);
    var sorted := SortedAscending(filtered);
    SortedAscendingSpec(filtered);
    LabelRowsOrdered(sorted, true);
    LabelRowsOrdered(sorted, false);
    assert Traces(sums) == (LabelRows(sorted, true), LabelRows(sorted, false));
  }

  // ---------------------------------------------------------------------
  // Time series

  const FirstYear: int := 2025
  const LastYear: int := 2050

  /** `[str(year) for year in range(2025, 2051)]` */
  function YearCols(): (r: seq<string>)
    ensures |r| == 26
    ensures forall i :: 0 <= i < 26 ==> r[i] == IntStr(FirstYear + i)
  {
    seq(LastYear - FirstYear + 1, i requires 0 <= i => IntStr(FirstYear + i))
  }

  /** The co-benefit types left out of the time series. */
  predicate ExcludedType(t: string)
  {
    t == "noise" || t == "congestion" || t == "road_repairs" || t == "road_safety"
  }

  /** One row of the grouped time series: a type and its totals per year. */
  datatype TypeSeries = TypeSeries(name: string, yearly: seq<real>)

  /** One row of the yearly co-benefit table: its type and its value per year (missing = `None`). */
  datatype YearRow = YearRow(cobenefitType: Option<string>, yearly: seq<Option<real>>)

  /** `~df['co-benefit_type'].isin([...])`: a missing type is not in the list, so it is kept. */
  function KeptRows(rows: seq<YearRow>): (r: seq<YearRow>)
    ensures forall x :: x in r <==> x in rows && !(x.cobenefitType.Some? && ExcludedType(x.cobenefitType.value))
  {
    if rows == [] then []
    else
      var x := rows[0];
      (if x.cobenefitType.Some? && ExcludedType(x.cobenefitType.value) then [] else [x]) + KeptRows(rows[1..])
  }

  /** A row's co-benefit type, the key of the grouping. */
  function YearRowType(x: YearRow): Option<string> { x.cobenefitType }

  /** The rows of one group. */
  function RowsOfType(rows: seq<YearRow>, t: string): seq<YearRow>
  {
    GroupRows(rows, YearRowType, t)
  }

  /** `sum()` of one year column: missing values are skipped, so an all-missing group sums to 0. */
  function YearSum(rows: seq<YearRow>, y: nat): real
    requires forall x :: x in rows ==> y < |x.yearly|
  {
    if rows == [] then 0.0
    else
      (match rows[0].yearly[y] case None => 0.0 case Some(v) => v) + YearSum(rows[1..], y)
  }

  /** The group keys of `groupby('co-benefit_type')`: sorted, unique, missing keys dropped. */
  function TypeKeys(rows: seq<YearRow>): seq<string>
  {
    Sorting.SortedUnique(seq(|rows|, i requires 0 <= i < |rows| => rows[i].cobenefitType))
  }

  /** `df[~excluded].groupby('co-benefit_type')[year_cols].sum()` */
  function GroupedSums(rows: seq<YearRow>, years: nat): seq<TypeSeries>
    requires forall x :: x in rows ==> |x.yearly| == years
  {
    var kept := KeptRows(rows);
    var types := TypeKeys(kept);
    seq(|types|, k requires 0 <= k < |types| =>
      TypeSeries(types[k], seq(years, y requires 0 <= y < years => YearSum(RowsOfType(kept, types[k]), y))))
  }

  /**
   * The grouped table has one series per type that occurs on a row and
   * is not excluded, in sorted order without repeats; each series has
   * one entry per year, the sum of that year over exactly the rows of
   * its type.
   */
  lemma GroupedSumsSpec(rows: seq<YearRow>, years: nat)
    requires forall x :: x in rows ==> |x.yearly| == years
    ensures var g := GroupedSums(rows, years);
            && (forall a, b :: 0 <= a < b < |g| ==> Sorting.StrLess(g[a].name, g[b].name))
            && (forall t :: (exists k :: 0 <= k < |g| && g[k].name == t)
                              <==> !ExcludedType(t) && exists i :: 0 <= i < |rows| && rows[i].cobenefitType == Some(t))
            && forall k :: 0 <= k < |g| ==>
                 |g[k].yearly| == years
                 && forall y :: 0 <= y < years ==>
                      g[k].yearly[y] == YearSum(RowsOfType(rows, g[k].name), y)
  {
    GroupedSumsOrdered(rows, years);
    GroupedSumsNames(rows, years);
    GroupedSumsYearly(rows, years);
  }

  lemma GroupedSumsOrdered(rows: seq<YearRow>, years: nat)
    requires forall x :: x in rows ==> |x.yearly| == years
    ensures var g := GroupedSums(rows, years);
            forall a, b :: 0 <= a < b < |g| ==> Sorting.StrLess(g[a].name, g[b].name)
  {
    var kept := KeptRows(rows);
    Sorting.SortedUniqueSpec(seq(|kept|, i requires 0 <= i < |kept| => kept[i].cobenefitType));
  }

  lemma GroupedSumsNames(rows: seq<YearRow>, years: nat)
    requires forall x :: x in rows ==> |x.yearly| == years
    ensures var g := GroupedSums(rows, years);
            forall t :: (exists k :: 0 <= k < |g| && g[k].name == t)
                          <==> !ExcludedType(t) && exists i :: 0 <= i < |rows| && rows[i].cobenefitType == Some(t)
  {
    var g := GroupedSums(rows, years);
    forall t ensures (exists k :: 0 <= k < |g| && g[k].name == t)
                     <==> !ExcludedType(t) && exists i :: 0 <= i < |rows| && rows[i].cobenefitType == Some(t)
    {
      if exists k :: 0 <= k < |g| && g[k].name == t {
        var k :| 0 <= k < |g| && g[k].name == t;
        GroupNameOccurs(rows, years, k);
      }
      if !ExcludedType(t) && exists i :: 0 <= i < |rows| && rows[i].cobenefitType == Some(t) {
        var i :| 0 <= i < |rows| && rows[i].cobenefitType == Some(t);
        OccurringTypeGrouped(rows, years, i);
      }
    }
  }

  /** Every group comes from a kept row of its type. */
  lemma GroupNameOccurs(rows: seq<YearRow>, years: nat, k: nat)
    requires forall x :: x in rows ==> |x.yearly| == years
    requires k < |GroupedSums(rows, years)|
    ensures var t := GroupedSums(rows, years)[k].name;
            !ExcludedType(t) && exists i :: 0 <= i < |rows| && rows[i].cobenefitType == Some(t)
  {
    var kept := KeptRows(rows);
    var keys := seq(|kept|, i requires 0 <= i < |kept| => kept[i].cobenefitType);
    Sorting.SortedUniqueSpec(keys);
    var t := TypeKeys(kept)[k];
    assert GroupedSums(rows, years)[k].name == t;
    assert Some(t) in keys;
    var j :| 0 <= j < |kept| && keys[j] == Some(t);
    assert kept[j] in rows;
    var i :| 0 <= i < |rows| && rows[i] == kept[j];
  }

  /** Every row whose type is not excluded has a group. */
  lemma OccurringTypeGrouped(rows: seq<YearRow>, years: nat, i: nat)
    requires forall x :: x in rows ==> |x.yearly| == years
    requires i < |rows| && rows[i].cobenefitType.Some? && !ExcludedType(rows[i].cobenefitType.value)
    ensures var g := GroupedSums(rows, years);
            exists k :: 0 <= k < |g| && g[k].name == rows[i].cobenefitType.value
  {
    var t := rows[i].cobenefitType.value;
    var kept := KeptRows(rows);
    var keys := seq(|kept|, i requires 0 <= i < |kept| => kept[i].cobenefitType);
    Sorting.SortedUniqueSpec(keys);
    assert rows[i] in kept;
    var j :| 0 <= j < |kept| && kept[j] == rows[i];
    assert keys[j] == Some(t);
    var k :| 0 <= k < |TypeKeys(kept)| && TypeKeys(kept)[k] == t;
    assert GroupedSums(rows, years)[k].name == t;
  }

  lemma GroupedSumsYearly(rows: seq<YearRow>, years: nat)
    requires forall x :: x in rows ==> |x.yearly| == years
    ensures var g := GroupedSums(rows, years);
            forall k :: 0 <= k < |g| ==>
              |g[k].yearly| == years
              && forall y :: 0 <= y < years ==> g[k].yearly[y] == YearSum(RowsOfType(rows, g[k].name), y)
  {
    var kept := KeptRows(rows);
    var keys := seq(|kept|, i requires 0 <= i < |kept| => kept[i].cobenefitType);
    Sorting.SortedUniqueSpec(keys);
    var g := GroupedSums(rows, years);
    forall k | 0 <= k < |g|
      ensures forall y :: 0 <= y < years ==> g[k].yearly[y] == YearSum(RowsOfType(rows, g[k].name), y)
    {
      var t := g[k].name;
      assert Some(t) in keys;
      var j :| 0 <= j < |kept| && keys[j] == Some(t);
      assert kept[j] in rows;
      KeptOfType(rows, t);
    }
  }

  /** A type that survives the filter keeps all of its rows. */
  lemma {:induction false} KeptOfType(rows: seq<YearRow>, t: string)
    requires !ExcludedType(t)
    ensures RowsOfType(KeptRows(rows), t) == RowsOfType(rows, t)
  {
    if rows != [] {
      KeptOfType(rows[1..], t);
      var x := rows[0];
      var head := if x.cobenefitType == Some(t) then [x] else [];
      assert RowsOfType(rows, t) == head + RowsOfType(rows[1..], t);
      if x.cobenefitType.Some? && ExcludedType(x.cobenefitType.value) {
        assert KeptRows(rows) == KeptRows(rows[1..]);
      } else {
        var kept := [x] + KeptRows(rows[1..]);
        assert KeptRows(rows) == kept;
        assert kept[0] == x && kept[1..] == KeptRows(rows[1..]);
        assert RowsOfType(kept, t) == head + RowsOfType(KeptRows(rows[1..]), t);
      }
    }
  }

  /** `rename(index={'sum': 'Total'})` */
  function RenameSum(index: seq<TypeSeries>): (r: seq<TypeSeries>)
    ensures |r| == |index|
    ensures forall k :: 0 <= k < |r| ==>
              r[k].yearly == index[k].yearly && r[k].name == (if index[k].name == "sum" then "Total" else index[k].name)
  {
    seq(|index|, k requires 0 <= k < |index| =>
      if index[k].name == "sum" then TypeSeries("Total", index[k].yearly) else index[k])
  }

  /** `series.min()`: missing (NaN) for an empty series. */
  function SeriesMin(xs: seq<real>): (m: Option<real>)
    ensures m.None? <==> xs == []
    ensures m.Some? ==> (forall k :: 0 <= k < |xs| ==> m.value <= xs[k]) && m.value in xs
  {
    if xs == [] then None
    else
      match SeriesMin(xs[1..])
      case None => Some(xs[0])
      case Some(rest) => Some(if xs[0] <= rest then xs[0] else rest)
  }

  /** `[cb for cb in index if cb != 'Total' and sums.loc[cb].min() >= 0]` */
  function PositiveTypes(index: seq<TypeSeries>): seq<string>
  {
    if index == [] then []
    else
      var s := index[0];
      var m := SeriesMin(s.yearly);
      (if s.name != "Total" && m.Some? && m.value >= 0.0 then [s.name] else []) + PositiveTypes(index[1..])
  }

  /** `[cb for cb in index if cb != 'Total' and sums.loc[cb].min() < 0]` */
  function NegativeTypes(index: seq<TypeSeries>): seq<string>
  {
    if index == [] then []
    else
      var s := index[0];
      var m := SeriesMin(s.yearly);
      (if s.name != "Total" && m.Some? && m.value < 0.0 then [s.name] else []) + NegativeTypes(index[1..])
  }

  /** Page 3: a bar for every type except 'Total', whatever its sign. */
  function BarTypes(index: seq<TypeSeries>): (r: seq<string>)
    ensures forall t :: t in r <==> t != "Total" && exists k :: 0 <= k < |index| && index[k].name == t
  {
    if index == [] then []
    else
      var rest := BarTypes(index[1..]);
      assert forall k :: 1 <= k < |index| ==> index[1..][k - 1] == index[k];
      (if index[0].name != "Total" then [index[0].name] else []) + rest
  }

  /** No year of the series is below zero. */
  predicate NeverNegative(xs: seq<real>)
  {
    forall y :: 0 <= y < |xs| ==> xs[y] >= 0.0
  }

  /** Every year of a type is at least zero exactly when its minimum is. */
  lemma SeriesMinSign(xs: seq<real>)
    requires xs != []
    ensures SeriesMin(xs).value >= 0.0 <==> NeverNegative(xs)
  {
    var m := SeriesMin(xs).value;
    if m < 0.0 {
      var k :| 0 <= k < |xs| && xs[k] == m;
    }
  }

  /** The stacked-bar list holds exactly the non-Total types none of whose years is below zero. */
  lemma {:induction false} PositiveTypesSpec(index: seq<TypeSeries>)
    requires forall k :: 0 <= k < |index| ==> index[k].yearly != []
    ensures forall t :: t in PositiveTypes(index) <==>
              exists k :: 0 <= k < |index| && index[k].name == t && t != "Total" && NeverNegative(index[k].yearly)
  {
    if index != [] {
      var tail := index[1..];
      PositiveTypesSpec(tail);
      SeriesMinSign(index[0].yearly);
      forall t ensures t in PositiveTypes(index) <==>
              exists k :: 0 <= k < |index| && index[k].name == t && t != "Total" && NeverNegative(index[k].yearly)
      {
        if exists k :: 0 <= k < |index| && index[k].name == t && t != "Total" && NeverNegative(index[k].yearly) {
          var k :| 0 <= k < |index| && index[k].name == t && t != "Total" && NeverNegative(index[k].yearly);
          if k > 0 { assert tail[k - 1] == index[k]; }
        }
        if t in PositiveTypes(tail) {
          var k :| 0 <= k < |tail| && tail[k].name == t && t != "Total" && NeverNegative(tail[k].yearly);
          assert index[k + 1] == tail[k];
        }
      }
    }
  }

  /** The separate-bar list holds exactly the non-Total types with some year below zero. */
  lemma {:induction false} NegativeTypesSpec(index: seq<TypeSeries>)
    requires forall k :: 0 <= k < |index| ==> index[k].yearly != []
    ensures forall t :: t in NegativeTypes(index) <==>
              exists k :: 0 <= k < |index| && index[k].name == t && t != "Total" && !NeverNegative(index[k].yearly)
  {
    if index != [] {
      var tail := index[1..];
      NegativeTypesSpec(tail);
      SeriesMinSign(index[0].yearly);
      forall t ensures t in NegativeTypes(index) <==>
              exists k :: 0 <= k < |index| && index[k].name == t && t != "Total" && !NeverNegative(index[k].yearly)
      {
        if exists k :: 0 <= k < |index| && index[k].name == t && t != "Total" && !NeverNegative(index[k].yearly) {
          var k :| 0 <= k < |index| && index[k].name == t && t != "Total" && !NeverNegative(index[k].yearly);
          if k > 0 { assert tail[k - 1] == index[k]; }
        }
        if t in NegativeTypes(tail) {
          var k :| 0 <= k < |tail| && tail[k].name == t && t != "Total" && !NeverNegative(tail[k].yearly);
          assert index[k + 1] == tail[k];
        }
      }
    }
  }

  /**
   * Page 2 splits the non-Total types into those that never go below zero
   * (stacked bars) and those that do in some year (separate bars); as
   * every series has a value per year, together they are exactly page 3's
   * bars.
   */
  lemma SignPartition(index: seq<TypeSeries>)
    requires forall k :: 0 <= k < |index| ==> index[k].yearly != []
    ensures forall t :: t in PositiveTypes(index) <==>
              exists k :: 0 <= k < |index| && index[k].name == t && t != "Total" && NeverNegative(index[k].yearly)
    ensures forall t :: t in NegativeTypes(index) <==>
              exists k :: 0 <= k < |index| && index[k].name == t && t != "Total" && !NeverNegative(index[k].yearly)
    ensures forall t :: t in BarTypes(index) <==> t in PositiveTypes(index) || t in NegativeTypes(index)
  {
    PositiveTypesSpec(index);
    NegativeTypesSpec(index);
  }

  /** When each type has one series, no type is both in the positive and in the negative list. */
  lemma SignPartitionDisjoint(index: seq<TypeSeries>, t: string)
    requires forall k :: 0 <= k < |index| ==> index[k].yearly != []
    requires forall a, b :: 0 <= a < b < |index| ==> index[a].name != index[b].name
    ensures !(t in PositiveTypes(index) && t in NegativeTypes(index))
  {
    PositiveTypesSpec(index);
    NegativeTypesSpec(index);
    if t in PositiveTypes(index) {
      var a :| 0 <= a < |index| && index[a].name == t && t != "Total" && NeverNegative(index[a].yearly);
      forall b | 0 <= b < |index| && index[b].name == t ensures NeverNegative(index[b].yearly) {
        assert a == b;
      }
    }
  }

  /** `i % 5 == 0 or i == len(year_cols) - 1` */
  predicate Labelled(i: int, n: int)
  {
    i % 5 == 0 || i == n - 1
  }

  /** The `text_labels` loop: the net total at the labelled years, an empty label elsewhere. */
  method TotalTextLabels(years: seq<string>, total: seq<real>) returns (labels: seq<Option<real>>)
    requires |total| == |years|
    ensures |labels| == |years|
    ensures forall i :: 0 <= i < |years| ==> labels[i] == if Labelled(i, |years|) then Some(total[i]) else None
  {
    labels := [];
    for i := 0 to |years|
      invariant |labels| == i
      invariant forall k :: 0 <= k < i ==> labels[k] == if Labelled(k, |years|) then Some(total[k]) else None
    {
      if i % 5 == 0 || i == |years| - 1 {
        labels := labels + [Some(total[i])];
      } else {
        labels := labels + [None];
      }
    }
  }

  /**
   * Over the 26 years 2025..2050 the labelled positions are 0, 5, 10,
   * 15, 20 and 25: every fifth year from 2025, whose last one is 2050.
   */
  lemma LabelledYears(i: int)
    requires 0 <= i < |YearCols()|
    ensures Labelled(i, |YearCols()|) <==> i in {0, 5, 10, 15, 20, 25}
  {
  }

  /** Whatever the number of years, the last one is labelled and no two labels are more than five years apart. */
  lemma LabelGaps(n: nat, i: nat)
    requires i < n
    ensures Labelled(n - 1, n)
    ensures exists j :: i <= j < n && j <= i + 4 && Labelled(j, n)
  {
    var j := if i + (5 - i % 5) % 5 < n then i + (5 - i % 5) % 5 else n - 1;
    assert Labelled(j, n);
  }
}
