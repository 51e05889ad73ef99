/**
 * The social deprivation analysis page (3_Social_Deprivation_Analysis):
 * the neighbourhood selector list, the colour gradient chosen for the
 * selected co-benefit metric (a hex colour decoded to RGB, with an
 * override for the total and a reversed gradient for hassle costs), and
 * the rounded tooltip column it adds to the frame.
 */
module DeprivationPage {
  import opened Common
  import Sorting

  // ---------------------------------------------------------------------
  // Neighbourhood selector

  /** `["None"] + sorted(names.dropna().unique().tolist())` */
  function SelectorOptions(names: seq<Option<string>>): (r: seq<string>)
    ensures |r| > 0 && r[0] == "None"
  {
    ["None"] + Sorting.SortedUnique(names)
  }

  /**
   * The selector starts with "None", then lists every neighbourhood name
   * present in the column once, in increasing order, and nothing else.
   */
  lemma SelectorOptionsSpec(names: seq<Option<string>>)
    ensures var r := SelectorOptions(names);
            && Sorting.StrictlyIncreasing(r[1..])
            && forall s :: s in r[1..] <==> Some(s) in names
  {
    var r := SelectorOptions(names);
    assert r[1..] == Sorting.SortedUnique(names);
    Sorting.SortedUniqueSpec(names);
  }

  // ---------------------------------------------------------------------
  // Hex colours

  predicate IsHexDigit(c: char)
  {
    ('0' <= c <= '9') || ('a' <= c <= 'f') || ('A' <= c <= 'F')
  }

  function HexDigitValue(c: char): (v: nat)
    requires IsHexDigit(c)
    ensures v < 16
  {
    if '0' <= c <= '9' then c as int - '0' as int
    else if 'a' <= c <= 'f' then c as int - 'a' as int + 10
    else c as int - 'A' as int + 10
  }

  /** Python's slice `s[i:j]` for `0 <= i <= j`: clipped to the string. */
  function Slice(s: string, i: nat, j: nat): (r: string)
    requires i <= j
    ensures |r| <= j - i
  {
    if |s| <= i then [] else if |s| <= j then s[i..] else s[i..j]
  }

  /**
   * `int(t, 16)` for a text of at most two characters: surrounding
   * whitespace is ignored, one sign may precede a digit, and anything
   * else (an empty text, a lone sign, a non-hex character) is a
   * ValueError.
   */
  function ParseHex(t: string): (r: Result<int>)
    requires |t| <= 2
  {
    var u := Strip(t);
    if |u| == 1 && IsHexDigit(u[0]) then Ok(HexDigitValue(u[0]))
    else if |u| == 2 && IsHexDigit(u[0]) && IsHexDigit(u[1]) then Ok(16 * HexDigitValue(u[0]) + HexDigitValue(u[1]))
    else if |u| == 2 && u[0] == '+' && IsHexDigit(u[1]) then Ok(HexDigitValue(u[1]))
    else if |u| == 2 && u[0] == '-' && IsHexDigit(u[1]) then Ok(-(HexDigitValue(u[1]) as int))
    else Err(ValueError("invalid literal for int() with base 16"))
  }

  /** `tuple(int(hex_color[i:i+2], 16) for i in (1, 3, 5))` */
  function DecodeHex(hex: string): (r: Result<Rgb>)
  {
    var r := ParseHex(Slice(hex, 1, 3));
    var g := ParseHex(Slice(hex, 3, 5));
    var b := ParseHex(Slice(hex, 5, 7));
    if r.Err? then Err(r.error)
    else if g.Err? then Err(g.error)
    else if b.Err? then Err(b.error)
    else Ok(Rgb(r.value, g.value, b.value))
  }

  /** The upper-case hex digit for 0..15. */
  function HexChar(d: nat): (c: char)
    requires d < 16
    ensures IsHexDigit(c) && HexDigitValue(c) == d
  {
    if d < 10 then ('0' as int + d) as char else ('A' as int + d - 10) as char
  }

  /** Two upper-case hex digits for a byte. */
  function HexByte(x: int): (s: string)
    requires IsByte(x)
    ensures |s| == 2 && IsHexDigit(s[0]) && IsHexDigit(s[1])
    ensures 16 * HexDigitValue(s[0]) + HexDigitValue(s[1]) == x
  {
    [HexChar(x / 16), HexChar(x % 16)]
  }

  /** `#RRGGBB` */
  function EncodeHex(c: Rgb): (s: string)
    requires RgbInRange(c)
    ensures |s| == 7 && s[0] == '#'
  {
    var r, g, b := HexByte(c.r), HexByte(c.g), HexByte(c.b);
    ['#', r[0], r[1], g[0], g[1], b[0], b[1]]
  }

  /** Two hex digits parse to the byte they spell: no whitespace is stripped from them. */
  lemma ParseHexPair(t: string)
    requires |t| == 2 && IsHexDigit(t[0]) && IsHexDigit(t[1])
    ensures ParseHex(t) == Ok(16 * HexDigitValue(t[0]) + HexDigitValue(t[1]))
    ensures 0 <= 16 * HexDigitValue(t[0]) + HexDigitValue(t[1]) <= 255
  {
    assert !IsSpace(t[0]) && !IsSpace(t[1]);
    assert LStrip(t) == t;
    assert RStrip(t) == t;
  }

  /**
   * A colour written as `#RRGGBB` decodes back to itself, so every
   * decoded channel of a well-formed colour lies in 0..255.
   */
  lemma DecodeEncode(c: Rgb)
    requires RgbInRange(c)
    ensures DecodeHex(EncodeHex(c)) == Ok(c)
  {
    DecodeParts(EncodeHex(c));
  }

  /** A well-formed `#RRGGBB` text decodes, with every channel in 0..255. */
  lemma DecodeWellFormed(hex: string)
    requires |hex| == 7 && hex[0] == '#' && forall i :: 1 <= i < 7 ==> IsHexDigit(hex[i])
    ensures DecodeHex(hex).Ok? && RgbInRange(DecodeHex(hex).value)
  {
    DecodeParts(hex);
  }

  /** Each channel of a well-formed `#RRGGBB` text is the byte its two digits spell. */
  lemma DecodeParts(hex: string)
    requires |hex| == 7 && hex[0] == '#' && forall i :: 1 <= i < 7 ==> IsHexDigit(hex[i])
    ensures DecodeHex(hex) == Ok(Rgb(16 * HexDigitValue(hex[1]) + HexDigitValue(hex[2]),
                                     16 * HexDigitValue(hex[3]) + HexDigitValue(hex[4]),
                                     16 * HexDigitValue(hex[5]) + HexDigitValue(hex[6])))
    ensures RgbInRange(DecodeHex(hex).value)
  {
    assert IsHexDigit(hex[1]) && IsHexDigit(hex[2]);
    assert IsHexDigit(hex[3]) && IsHexDigit(hex[4]);
    assert IsHexDigit(hex[5]) && IsHexDigit(hex[6]);
    var r := ParseSlicePair(hex, 1);
    var g := ParseSlicePair(hex, 3);
    var b := ParseSlicePair(hex, 5);
    DecodeChannels(hex, r, g, b);
  }

  /** The two hex digits at `i` and `i + 1` parse to the byte they spell. */
  lemma ParseSlicePair(hex: string, i: nat) returns (v: int)
    requires i + 2 <= |hex| && IsHexDigit(hex[i]) && IsHexDigit(hex[i + 1])
    ensures v == 16 * HexDigitValue(hex[i]) + HexDigitValue(hex[i + 1])
    ensures ParseHex(Slice(hex, i, i + 2)) == Ok(v)
    ensures 0 <= v <= 255
  {
    v := 16 * HexDigitValue(hex[i]) + HexDigitValue(hex[i + 1]);
    assert Slice(hex, i, i + 2) == [hex[i], hex[i + 1]];
    ParseHexPair(Slice(hex, i, i + 2));
  }

  /** When all three channels parse, the colour is made of them. */
  lemma DecodeChannels(hex: string, r: int, g: int, b: int)
    requires ParseHex(Slice(hex, 1, 3)) == Ok(r)
    requires ParseHex(Slice(hex, 3, 5)) == Ok(g)
    requires ParseHex(Slice(hex, 5, 7)) == Ok(b)
    ensures DecodeHex(hex) == Ok(Rgb(r, g, b))
  {
  }

  /** The example in the page's comment: '#94CBEC' is (148, 203, 236). */
  lemma DecodeExample(hex: string)
    requires hex == "#94CBEC"
    ensures DecodeHex(hex) == Ok(Rgb(148, 203, 236))
  {
    assert Slice(hex, 1, 3) == ['9', '4'];
    assert Slice(hex, 3, 5) == ['C', 'B'];
    assert Slice(hex, 5, 7) == ['E', 'C'];
    ParseHexPair(Slice(hex, 1, 3));
    ParseHexPair(Slice(hex, 3, 5));
    ParseHexPair(Slice(hex, 5, 7));
  }

  /** A short hex text is an error, not a colour: `int("", 16)` raises. */
  lemma DecodeShort(hex: string)
    requires |hex| <= 5
    ensures DecodeHex(hex).Err?
  {
    assert Slice(hex, 5, 7) == [];
  }

  // ---------------------------------------------------------------------
  // Gradient endpoints

  const TotalDisplay: string := "Tot Co-Benefits Normalised"
  const HassleDisplay: string := "Hassle Costs Normalised"
  const Green: Rgb := Rgb(0, 153, 51)
  const White: Rgb := Rgb(255, 255, 255)

  /** `cobenefit_key_map`: metric display name to colour key. */
  const KeyMap: map<string, string> := map[
    "Tot Co-Benefits Normalised" := "total",
    "Air Quality Normalised" := "air_quality",
    "Dampness Normalised" := "dampness",
    "Diet Change Normalised" := "diet_change",
    "Excess Cold Normalised" := "excess_cold",
    "Physical Activity Normalised" := "physical_activity",
    "Hassle Costs Normalised" := "hassle_costs"
  ]

  /** `cobenefit_key_map.get(metric_display, "total")` */
  function ColourKey(display: string): (k: string)
    ensures display !in KeyMap ==> k == "total"
    ensures display in KeyMap ==> k == KeyMap[display]
  {
    if display in KeyMap then KeyMap[display] else "total"
  }

  /** The two ends of the map's colour gradient; a missing low end means white. */
  datatype Gradient = Gradient(low: Option<Rgb>, high: Rgb)

  /**
   * The endpoint choice, step by step as the page reassigns
   * `colour_high` and `colour_low`. `lineColours` is the `'line'` entry
   * of each co-benefit's colour; a missing key raises KeyError and an
   * undecodable colour ValueError.
   */
  method ChooseGradient(display: string, lineColours: map<string, string>) returns (r: Result<Gradient>)
    ensures ColourKey(display) !in lineColours ==> r == Err(KeyError(ColourKey(display)))
    ensures ColourKey(display) in lineColours ==>
              (r.Err? <==> DecodeHex(lineColours[ColourKey(display)]).Err?)
    ensures ColourKey(display) in lineColours && DecodeHex(lineColours[ColourKey(display)]).Err? ==>
              r == Err(DecodeHex(lineColours[ColourKey(display)]).error)
    ensures r.Ok? ==>
              var base := DecodeHex(lineColours[ColourKey(display)]).value;
              && (display == HassleDisplay ==> r.value == Gradient(Some(base), White))
              && (display == TotalDisplay ==> r.value == Gradient(None, Green))
              && (display != HassleDisplay && display != TotalDisplay ==> r.value == Gradient(None, base))
  {
    var key := ColourKey(display);
    if key !in lineColours {
      return Err(KeyError(key));
    }
    var decoded := DecodeHex(lineColours[key]);
    if decoded.Err? {
      return Err(decoded.error);
    }
    var high := decoded.value;
    if display == TotalDisplay {
      high := Green;
    }
    var low: Option<Rgb>;
    if display == HassleDisplay {
      low := Some(high);
      high := White;
    } else {
      low := None;
    }
    r := Ok(Gradient(low, high));
  }

  /**
   * Only hassle costs get a low colour, and then the gradient runs from
   * the co-benefit's own colour down to white; an unknown display name
   * is coloured as the total.
   */
  lemma GradientCases(display: string)
    ensures display != HassleDisplay && display != TotalDisplay && display in KeyMap ==> ColourKey(display) != "total"
    ensures display !in KeyMap ==> ColourKey(display) == ColourKey(TotalDisplay)
    ensures ColourKey(HassleDisplay) == "hassle_costs"
  {
    assert TotalDisplay in KeyMap && KeyMap[TotalDisplay] == "total";
    assert HassleDisplay in KeyMap;
  }

  // ---------------------------------------------------------------------
  // Tooltip column

  /** Round half to even, as numpy's `round` does at the last place. */
  function RoundHalfEven(x: real): (n: int)
    ensures -0.5 <= x - n as real <= 0.5
  {
    var f := x.Floor;
    var frac := x - f as real;
    if frac < 0.5 then f
    else if frac > 0.5 then f + 1
    else if f % 2 == 0 then f
    else f + 1
  }

  /** `round(2)` on a cell; a missing value stays missing. */
  function Round2(x: Option<real>): (r: Option<real>)
    ensures r.None? <==> x.None?
  {
    match x
    case None => None
    case Some(v) => Some(RoundHalfEven(v * 100.0) as real / 100.0)
  }

  /**
   * The rounded value is within half a hundredth of the value, is a whole
   * number of hundredths, and rounding it again changes nothing.
   */
  lemma Round2Spec(v: real)
    ensures var r := Round2(Some(v)).value;
            && -0.005 <= v - r <= 0.005
            && (r * 100.0).Floor as real == r * 100.0
            && Round2(Some(r)) == Some(r)
  {
    var n := RoundHalfEven(v * 100.0);
    var r := n as real / 100.0;
    assert r * 100.0 == n as real;
    assert RoundHalfEven(n as real) == n;
  }

  /** The page's frame: its numeric columns by name. */
  class DeprivationFrame {
    var columns: map<string, seq<Option<real>>>

    constructor (columns: map<string, seq<Option<real>>>)
      ensures this.columns == columns
    {
      this.columns := columns;
    }

    /**
     * `cardiff_gdf[f'{metric}_rounded'] = cardiff_gdf[metric].round(2)`:
     * a new column beside the metric, the only change to the frame; a
     * missing metric column raises KeyError.
     */
    method AddRounded(metric: string) returns (r: Result<()>)
      modifies this
      ensures metric !in old(columns) ==> r == Err(KeyError(metric)) && columns == old(columns)
      ensures metric in old(columns) ==>
                r.Ok? && var col := old(columns)[metric];
                columns == old(columns)[metric + "_rounded" := seq(|col|, i requires 0 <= i < |col| => Round2(col[i]))]
    {
      if metric !in columns {
        return Err(KeyError(metric));
      }
      var col := columns[metric];
      columns := columns[metric + "_rounded" := seq(|col|, i requires 0 <= i < |col| => Round2(col[i]))];
      r := Ok(());
    }
  }
}
