/**
 * The two interactive WIMD map pages, 4_mapv2 and 5_mapv2. Both read the
 * WIMD table, keep one quintile (and name) per LSOA code, left-join it
 * onto the LSOA geometries, convert the quintile to a nullable integer,
 * derive an area group from the detected name column, colour each LSOA
 * by its quintile and list the area groups. They differ in two places:
 * 4_mapv2 also strips the geometry's join key and colours darkest-first,
 * 5_mapv2 joins on the geometry key as read and uses the reversed palette.
 */
module MapV2Pages {
  import opened Common
  import opened QuintilePalette
  import MapLayers
  import AreaNames
  import Sorting

  datatype Page = MapV2 | MapV2Reversed

  /** One row of the WIMD table as read. */
  datatype WimdCsvRow = WimdCsvRow(code: Option<string>, quintile: Option<real>, name: Option<string>)

  /**
   * `df_wimd["LSOA code"].astype(str).str.strip()`, then the grouping by
   * code; the name is only aggregated when the table has the name column.
   */
  function Records(csv: seq<WimdCsvRow>, csvHasName: bool): (r: seq<MapLayers.WimdRecord>)
    ensures |r| == |csv|
    ensures forall i :: 0 <= i < |csv| ==> r[i].code == MapLayers.EnsureStr(csv[i].code) && r[i].quintile == csv[i].quintile
  {
    seq(|csv|, i requires 0 <= i < |csv| =>
      MapLayers.WimdRecord(MapLayers.EnsureStr(csv[i].code), csv[i].quintile, if csvHasName then csv[i].name else None))
  }

  /** The geometry's join key: stripped on 4_mapv2, as read on 5_mapv2. */
  function JoinKey(page: Page, key: string): string
  {
    if page == MapV2 then Strip(key) else key
  }

  /** The left merge of the grouped table onto the geometries, one row per geometry. */
  function Merge(page: Page, shapeKeys: seq<string>, csv: seq<WimdCsvRow>, csvHasName: bool): (rows: seq<MapLayers.Joined>)
    ensures |rows| == |shapeKeys|
  {
    MapLayers.LeftJoin(seq(|shapeKeys|, i requires 0 <= i < |shapeKeys| => JoinKey(page, shapeKeys[i])), Records(csv, csvHasName))
  }

  /**
   * Each geometry row gets the first non-missing quintile among the table
   * rows whose stripped code equals its join key, and none when no such
   * row has one.
   */
  lemma MergeSpec(page: Page, shapeKeys: seq<string>, csv: seq<WimdCsvRow>, csvHasName: bool, i: nat)
    requires i < |shapeKeys|
    ensures var row := Merge(page, shapeKeys, csv, csvHasName)[i];
            && row.area == JoinKey(page, shapeKeys[i])
            && (row.quintile.None? <==>
                  forall j :: 0 <= j < |csv| && MapLayers.EnsureStr(csv[j].code) == row.area ==> csv[j].quintile.None?)
            && (row.quintile.Some? ==>
                  exists j :: 0 <= j < |csv| && MapLayers.EnsureStr(csv[j].code) == row.area && csv[j].quintile == row.quintile
                              && forall k :: 0 <= k < j && MapLayers.EnsureStr(csv[k].code) == row.area ==> csv[k].quintile.None?)
  {
    var recs := Records(csv, csvHasName);
    MapLayers.FirstQuintileIsEarliest(recs, JoinKey(page, shapeKeys[i]));
  }

  /**
   * On 5_mapv2 a geometry key with surrounding whitespace matches no
   * table row, since every table code is stripped: it gets no quintile.
   */
  lemma UnstrippedKeyUnmatched(shapeKeys: seq<string>, csv: seq<WimdCsvRow>, csvHasName: bool, i: nat)
    requires i < |shapeKeys| && !MapLayers.Trimmed(shapeKeys[i])
    ensures Merge(MapV2Reversed, shapeKeys, csv, csvHasName)[i].quintile.None?
    ensures MapLayers.Trimmed(JoinKey(MapV2, shapeKeys[i]))
  {
    var recs := Records(csv, csvHasName);
    forall j | 0 <= j < |recs| ensures recs[j].code != shapeKeys[i] {
      MapLayers.EnsureStrIdempotent(csv[j].code);
    }
    MapLayers.FirstQuintileIsEarliest(recs, shapeKeys[i]);
    MapLayers.StripTrimmed(shapeKeys[i]);
  }

  /** The page's merged frame and the columns it adds. */
  class Mapv2Frame {
    var smallArea: seq<string>
    /** The merged "LSOA name (Eng)" values, missing where no table row matched. */
    var lsoaName: seq<Option<string>>
    /** The merged frame's column names, in order. */
    var columnOrder: seq<string>
    /** Its text columns by name, "small_area" among them. */
    var textColumns: map<string, seq<Option<string>>>
    var quintileRaw: seq<Option<real>>
    var quintile: seq<Option<int>>
    var areaGroup: seq<string>
    var fill: seq<Rgba>

    /**
     * Every column has one cell per row, the detected name column is a text
     * column, the "small_area" column holds the join codes and the merged
     * "LSOA name (Eng)" column, when there is one, holds the merged names.
     */
    ghost predicate Valid()
      reads this
    {
      && |quintileRaw| == |smallArea| && |lsoaName| == |smallArea|
      && "small_area" in textColumns
      && AreaNames.NameColumnV2(columnOrder) in textColumns
      && (forall c :: c in textColumns ==> |textColumns[c]| == |smallArea|)
      && (forall i :: 0 <= i < |smallArea| ==> textColumns["small_area"][i] == Some(smallArea[i]))
      && ("LSOA name (Eng)" in textColumns ==>
            forall i :: 0 <= i < |smallArea| ==> textColumns["LSOA name (Eng)"][i] == lsoaName[i])
    }

    /** The frame read from the page's left merge: `merged` is `Merge`'s result on the page's inputs. */
    constructor (page: Page, shapeKeys: seq<string>, csv: seq<WimdCsvRow>, csvHasName: bool,
                 columnOrder: seq<string>, textColumns: map<string, seq<Option<string>>>, merged: seq<MapLayers.Joined>)
      requires merged == Merge(page, shapeKeys, csv, csvHasName)
      requires "small_area" in textColumns && AreaNames.NameColumnV2(columnOrder) in textColumns
      requires forall c :: c in textColumns ==> |textColumns[c]| == |merged|
      requires forall i :: 0 <= i < |merged| ==> textColumns["small_area"][i] == Some(merged[i].area)
      requires "LSOA name (Eng)" in textColumns ==>
                 forall i :: 0 <= i < |merged| ==> textColumns["LSOA name (Eng)"][i] == merged[i].name
      ensures Valid()
      ensures |smallArea| == |merged| == |shapeKeys|
      ensures forall i :: 0 <= i < |shapeKeys| ==> smallArea[i] == JoinKey(page, shapeKeys[i])
      ensures forall i :: 0 <= i < |merged| ==>
                smallArea[i] == merged[i].area && quintileRaw[i] == merged[i].quintile && lsoaName[i] == merged[i].name
      ensures this.columnOrder == columnOrder && this.textColumns == textColumns
      ensures quintile == [] && areaGroup == [] && fill == []
    {
      this.columnOrder := columnOrder;
      this.textColumns := textColumns;
      smallArea := seq(|merged|, i requires 0 <= i < |merged| => merged[i].area);
      quintileRaw := seq(|merged|, i requires 0 <= i < |merged| => merged[i].quintile);
      lsoaName := seq(|merged|, i requires 0 <= i < |merged| => merged[i].name);
      quintile := [];
      areaGroup := [];
      fill := [];
    }

    /** `pd.to_numeric(..., errors="coerce").astype("Int64")`; a non-integral quintile raises and changes nothing. */
    method CleanQuintile() returns (r: Result<()>)
      requires Valid()
      modifies this
      ensures Valid()
      ensures r.Err? <==> ToInt64Column(old(quintileRaw)).Err?
      ensures r.Ok? ==> quintile == ToInt64Column(old(quintileRaw)).value && |quintile| == |smallArea|
      ensures r.Err? ==> quintile == old(quintile)
      ensures smallArea == old(smallArea) && lsoaName == old(lsoaName) && columnOrder == old(columnOrder) && textColumns == old(textColumns)
      ensures quintileRaw == old(quintileRaw) && areaGroup == old(areaGroup) && fill == old(fill)
    {
      var converted := ToInt64Column(quintileRaw);
      if converted.Err? {
        return Err(converted.error);
      }
      quintile := converted.value;
      r := Ok(());
    }

    /** The detected name column. */
    function NameColumn(): (c: seq<Option<string>>)
      reads this
      requires Valid()
      ensures |c| == |smallArea|
    {
      textColumns[AreaNames.NameColumnV2(columnOrder)]
    }

    /** `area_group`: the name column as text with one trailing number removed. */
    method AssignAreaGroup()
      requires Valid()
      modifies this
      ensures Valid()
      ensures smallArea == old(smallArea) && lsoaName == old(lsoaName) && columnOrder == old(columnOrder) && textColumns == old(textColumns)
      ensures quintileRaw == old(quintileRaw) && quintile == old(quintile) && fill == old(fill)
      ensures |areaGroup| == |smallArea|
      ensures forall i :: 0 <= i < |smallArea| ==> areaGroup[i] == AreaNames.AreaGroupV2(NameColumn()[i])
      ensures AreaNames.NameColumnV2(columnOrder) == "small_area" ==>
                forall i :: 0 <= i < |smallArea| ==> areaGroup[i] == AreaNames.AreaGroupV2(Some(smallArea[i]))
      ensures AreaNames.NameColumnV2(columnOrder) == "LSOA name (Eng)" ==>
                forall i :: 0 <= i < |smallArea| ==> areaGroup[i] == AreaNames.AreaGroupV2(lsoaName[i])
    {
      var names := NameColumn();
      areaGroup := seq(|names|, i requires 0 <= i < |names| => AreaNames.AreaGroupV2(names[i]));
    }

    /** `fill_rgba`: the page's palette entry for a quintile 1..5, grey with alpha 80 otherwise. */
    method AssignFill(page: Page)
      requires Valid()
      modifies this
      ensures Valid()
      ensures smallArea == old(smallArea) && lsoaName == old(lsoaName) && columnOrder == old(columnOrder) && textColumns == old(textColumns)
      ensures quintileRaw == old(quintileRaw) && quintile == old(quintile) && areaGroup == old(areaGroup)
      ensures |fill| == |quintile|
      ensures forall i :: 0 <= i < |quintile| ==>
                fill[i] == if page == MapV2 then MapV2QuintileColour(quintile[i]) else MapV2ReversedQuintileColour(quintile[i])
    {
      var qs := quintile;
      fill := seq(|qs|, i requires 0 <= i < |qs| =>
                if page == MapV2 then MapV2QuintileColour(qs[i]) else MapV2ReversedQuintileColour(qs[i]));
    }

    /** `sorted(area_group.dropna().unique().tolist())`: each group once, in increasing order. */
    method Groups() returns (groups: seq<string>)
      ensures Sorting.StrictlyIncreasing(groups)
      ensures forall g :: g in groups <==> g in areaGroup
    {
      var ag := areaGroup;
      var cells := seq(|ag|, i requires 0 <= i < |ag| => Some(ag[i]));
      groups := Sorting.SortedUnique(cells);
      AreaNames.GroupsSpec(ag);
    }
  }

  /**
   * After the fill is assigned, a row is grey exactly when its quintile
   * is missing or outside 1..5; a quintile's colour on 5_mapv2 is the
   * colour of the opposite quintile on 4_mapv2.
   */
  lemma FillSpec(q: Option<int>)
    ensures MapV2QuintileColour(q) == Grey(80) <==> !IsQuintile(q)
    ensures MapV2ReversedQuintileColour(q) == Grey(80) <==> !IsQuintile(q)
    ensures IsQuintile(q) ==> MapV2ReversedQuintileColour(q) == MapV2QuintileColour(Some(6 - q.value))
  {
    PageColours(q);
    ReversedPalette(q);
  }
}
