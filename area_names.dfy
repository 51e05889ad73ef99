/**
 * How the map pages name LSOAs and group them into neighbourhoods: the
 * choice of the name column, and the `area_group` label obtained by
 * removing a trailing " <number>" from the LSOA name with
 * `str.replace(r"\s+\d+$", "", regex=True)`.
 *
 * The regular expression is modelled as Python's `re` runs it: `$` also
 * matches just before a final "\n", the search is leftmost (so the whole
 * whitespace run before the trailing digits goes), and `re.sub` can find
 * at most one match because every match must end at the end of the text.
 */
module AreaNames {
  import opened Common
  import Sorting

  // ---------------------------------------------------------------------
  // Name column

  /** The 4_Maps page: the English name column if the merged frame has it, else the code. */
  function NameColumnMaps(columns: seq<string>): (c: string)
    ensures c == "LSOA name (Eng)" <==> "LSOA name (Eng)" in columns
    ensures c != "LSOA name (Eng)" ==> c == "small_area"
  {
    if "LSOA name (Eng)" in columns then "LSOA name (Eng)" else "small_area"
  }

  /** `"lsoa" in c.lower() and "name" in c.lower()` */
  predicate LooksLikeName(c: string)
  {
    Contains(Lower(c), "lsoa") && Contains(Lower(c), "name")
  }

  /** `next((c for c in columns if ...), None)`, then the "small_area" fallback. */
  function NameColumnV2(columns: seq<string>): string
  {
    if columns == [] then "small_area"
    else if LooksLikeName(columns[0]) then columns[0]
    else NameColumnV2(columns[1..])
  }

  /**
   * The chosen column is the first one whose lower-cased name contains
   * both "lsoa" and "name"; when there is none, it is "small_area".
   */
  lemma {:induction false} NameColumnV2Spec(columns: seq<string>)
    ensures (exists i :: 0 <= i < |columns| && LooksLikeName(columns[i])) ==>
              exists i :: 0 <= i < |columns| && columns[i] == NameColumnV2(columns)
                          && LooksLikeName(columns[i])
                          && forall j :: 0 <= j < i ==> !LooksLikeName(columns[j])
    ensures (forall i :: 0 <= i < |columns| ==> !LooksLikeName(columns[i])) ==>
              NameColumnV2(columns) == "small_area"
  {
    if columns != [] && !LooksLikeName(columns[0]) {
      var tail := columns[1..];
      NameColumnV2Spec(tail);
      if exists i :: 0 <= i < |columns| && LooksLikeName(columns[i]) {
        var i :| 0 <= i < |columns| && LooksLikeName(columns[i]);
        assert tail[i - 1] == columns[i];
        var k :| 0 <= k < |tail| && tail[k] == NameColumnV2(tail) && LooksLikeName(tail[k])
                 && forall j :: 0 <= j < k ==> !LooksLikeName(tail[j]);
        assert columns[k + 1] == tail[k];
        forall j | 0 <= j < k + 1 ensures !LooksLikeName(columns[j]) {
          if j > 0 { assert columns[j] == tail[j - 1]; }
        }
      } else {
        forall i | 0 <= i < |tail| ensures !LooksLikeName(tail[i]) {
          assert tail[i] == columns[i + 1];
        }
      }
    }
  }

  /** A string holding `sub` at position `at` contains it. */
  lemma {:induction false} ContainsAt(s: string, sub: string, at: nat)
    requires at + |sub| <= |s| && s[at..at + |sub|] == sub
    ensures Contains(s, sub)
  {
    if at > 0 {
      assert s[1..][at - 1..at - 1 + |sub|] == s[at..at + |sub|];
      ContainsAt(s[1..], sub, at - 1);
    }
  }

  /** The English name column passes the mapv2 test, so both rules pick it when it is the only name-like column. */
  lemma EnglishNameLooksLikeName(c: string)
    requires c == "LSOA name (Eng)"
    ensures LooksLikeName(c)
  {
    var low := Lower(c);
    assert low[0] == 'l' && low[1] == 's' && low[2] == 'o' && low[3] == 'a';
    assert low[5] == 'n' && low[6] == 'a' && low[7] == 'm' && low[8] == 'e';
    assert low[0..4] == "lsoa";
    assert low[5..9] == "name";
    ContainsAt(low, "lsoa", 0);
    ContainsAt(low, "name", 5);
  }

  // ---------------------------------------------------------------------
  // Trailing " <number>"

  /** How many digits end at position `end` of `s`. */
  function DigitsBefore(s: string, end: nat): (n: nat)
    requires end <= |s|
    ensures n <= end
    ensures forall k :: end - n <= k < end ==> IsDigit(s[k])
    ensures n < end ==> !IsDigit(s[end - n - 1])
  {
    if end > 0 && IsDigit(s[end - 1]) then 1 + DigitsBefore(s, end - 1) else 0
  }

  /** How many whitespace characters end at position `end` of `s`. */
  function SpacesBefore(s: string, end: nat): (n: nat)
    requires end <= |s|
    ensures n <= end
    ensures forall k :: end - n <= k < end ==> IsSpace(s[k])
    ensures n < end ==> !IsSpace(s[end - n - 1])
  {
    if end > 0 && IsSpace(s[end - 1]) then 1 + SpacesBefore(s, end - 1) else 0
  }

  /** Where `$` can match last: before a final "\n", else at the end. */
  function MatchEnd(s: string): (e: nat)
    ensures e <= |s|
  {
    if |s| > 0 && s[|s| - 1] == '\n' then |s| - 1 else |s|
  }

  /** `s[cut..mid]` is whitespace and `s[mid..end]` digits, both non-empty (`\d` taken as the ASCII digits). */
  predicate SpacesThenDigits(s: string, cut: int, mid: int, end: int)
    requires 0 <= end <= |s|
  {
    0 <= cut < mid < end
    && (forall k :: cut <= k < mid ==> IsSpace(s[k]))
    && (forall k :: mid <= k < end ==> IsDigit(s[k]))
  }

  /** `\s+\d+$` matches `s` starting at `cut`. */
  ghost predicate MatchesAt(s: string, cut: int)
  {
    exists mid :: SpacesThenDigits(s, cut, mid, MatchEnd(s))
  }

  /** `re.sub(r"\s+\d+$", "", s)` */
  function StripTrailingNumber(s: string): string
  {
    var e := MatchEnd(s);
    var d := DigitsBefore(s, e);
    var w := SpacesBefore(s, e - d);
    if d > 0 && w > 0 then s[..e - d - w] + s[e..] else s
  }

  /**
   * Any match ends with exactly the trailing digit run, and starts inside
   * the whitespace run just before it.
   */
  lemma MatchForcesRuns(s: string, cut: int, mid: int)
    requires SpacesThenDigits(s, cut, mid, MatchEnd(s))
    ensures DigitsBefore(s, MatchEnd(s)) == MatchEnd(s) - mid
    ensures SpacesBefore(s, mid) > 0
    ensures cut >= mid - SpacesBefore(s, mid)
  {
    assert !IsDigit(s[mid - 1]);
  }

  /** No match starts before the whitespace run that precedes the trailing digits. */
  lemma MatchStartsInRun(s: string, cut: int)
    requires MatchesAt(s, cut)
    ensures var e := MatchEnd(s);
            var d := DigitsBefore(s, e);
            cut >= e - d - SpacesBefore(s, e - d)
  {
    var mid :| SpacesThenDigits(s, cut, mid, MatchEnd(s));
    MatchForcesRuns(s, cut, mid);
  }

  /** A match is found exactly when both runs are non-empty. */
  lemma MatchIffRuns(s: string)
    ensures var e := MatchEnd(s);
            var d := DigitsBefore(s, e);
            (exists cut :: MatchesAt(s, cut)) <==> d > 0 && SpacesBefore(s, e - d) > 0
  {
    var e := MatchEnd(s);
    var d := DigitsBefore(s, e);
    var w := SpacesBefore(s, e - d);
    if d > 0 && w > 0 {
      assert SpacesThenDigits(s, e - d - w, e - d, e);
      assert MatchesAt(s, e - d - w);
    }
    if exists cut :: MatchesAt(s, cut) {
      var cut :| MatchesAt(s, cut);
      var mid :| SpacesThenDigits(s, cut, mid, e);
      MatchForcesRuns(s, cut, mid);
      assert e - d == mid && d > 0;
    }
  }

  /**
   * The text loses a whitespace run followed by digits at its end (before
   * a final "\n", which is kept) exactly when it has one; the match is the
   * leftmost one, so the whole whitespace run goes; otherwise it is
   * unchanged.
   */
  lemma StripTrailingNumberSpec(s: string)
    ensures StripTrailingNumber(s) != s <==> exists cut :: MatchesAt(s, cut)
    ensures StripTrailingNumber(s) != s ==>
              exists cut :: MatchesAt(s, cut)
                            && StripTrailingNumber(s) == s[..cut] + s[MatchEnd(s)..]
                            && forall c :: 0 <= c < cut ==> !MatchesAt(s, c)
  {
    MatchIffRuns(s);
    StripShortens(s);
    var e := MatchEnd(s);
    var d := DigitsBefore(s, e);
    var w := SpacesBefore(s, e - d);
    if d > 0 && w > 0 {
      var cut := e - d - w;
      assert SpacesThenDigits(s, cut, e - d, e);
      assert MatchesAt(s, cut);
      NoEarlierMatch(s);
    }
  }

  /** The text changes exactly when both runs are non-empty. */
  lemma StripShortens(s: string)
    ensures var e := MatchEnd(s);
            var d := DigitsBefore(s, e);
            StripTrailingNumber(s) != s <==> d > 0 && SpacesBefore(s, e - d) > 0
  {
    var e := MatchEnd(s);
    var d := DigitsBefore(s, e);
    var w := SpacesBefore(s, e - d);
    if d > 0 && w > 0 {
      var r := s[..e - d - w] + s[e..];
      assert |r| == |s| - d - w;
    }
  }

  /** No match starts before the whole whitespace run. */
  lemma NoEarlierMatch(s: string)
    ensures var e := MatchEnd(s);
            var d := DigitsBefore(s, e);
            forall c :: 0 <= c < e - d - SpacesBefore(s, e - d) ==> !MatchesAt(s, c)
  {
    var e := MatchEnd(s);
    var d := DigitsBefore(s, e);
    forall c | 0 <= c < e - d - SpacesBefore(s, e - d) ensures !MatchesAt(s, c) {
      if MatchesAt(s, c) {
        MatchStartsInRun(s, c);
      }
    }
  }

  /** The 4_Maps page: strip the number, then surrounding whitespace. */
  function AreaGroupMaps(name: Option<string>): string
  {
    Strip(StripTrailingNumber(CellStr(name)))
  }

  /** The mapv2 pages: strip the number only. */
  function AreaGroupV2(name: Option<string>): string
  {
    StripTrailingNumber(CellStr(name))
  }

  /** The example in the page's own comment: "Adamsdown 1" belongs to the group "Adamsdown". */
  lemma AreaGroupExample(name: string)
    requires name == "Adamsdown 1"
    ensures AreaGroupV2(Some(name)) == "Adamsdown"
    ensures AreaGroupMaps(Some(name)) == "Adamsdown"
  {
    assert MatchEnd(name) == 11;
    assert DigitsBefore(name, 11) == 1 by {
      assert !IsDigit(name[9]);
    }
    assert SpacesBefore(name, 10) == 1 by {
      assert !IsSpace(name[8]);
    }
    var r := name[..9];
    assert StripTrailingNumber(name) == r;
    assert r == "Adamsdown";
    assert LStrip(r) == r by { assert !IsSpace(r[0]); }
    assert RStrip(r) == r by { assert !IsSpace(r[8]); }
  }

  /** Only one number goes: "Cathays 1 2" becomes "Cathays 1", not "Cathays". */
  lemma AreaGroupRemovesOneNumber(name: string)
    requires name == "Cathays 1 2"
    ensures AreaGroupV2(Some(name)) == "Cathays 1"
  {
    assert MatchEnd(name) == 11;
    assert DigitsBefore(name, 11) == 1 by {
      assert !IsDigit(name[9]);
    }
    assert SpacesBefore(name, 10) == 1 by {
      assert !IsSpace(name[8]);
    }
    assert StripTrailingNumber(name) == name[..9];
  }

  /**
   * `sorted(col.dropna().unique().tolist())` on the area groups: a
   * strictly increasing list holding every group exactly once. The group
   * column is built with `astype(str)`, so nothing is dropped.
   */
  lemma GroupsSpec(groups: seq<string>)
    ensures var r := Sorting.SortedUnique(seq(|groups|, i requires 0 <= i < |groups| => Some(groups[i])));
            Sorting.StrictlyIncreasing(r) && forall g :: g in r <==> g in groups
  {
    var col := seq(|groups|, i requires 0 <= i < |groups| => Some(groups[i]));
    Sorting.SortedUniqueSpec(col);
    forall g ensures Some(g) in col <==> g in groups {
      if g in groups {
        var i :| 0 <= i < |groups| && groups[i] == g;
        assert col[i] == Some(g);
      }
    }
  }
}
