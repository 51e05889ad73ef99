/**
 * The categorical colouring of WIMD deprivation quintiles, found four times
 * in the dashboard with different opacities and, on one page, a reversed
 * palette: quintiles 1..5 look up a fixed RGBA list, anything else (another
 * number, or a missing value) falls back to a semi-transparent grey.
 */
module QuintilePalette {
  import opened Common

  /** WIMD semantics: quintile 1 = most deprived = dark, quintile 5 = least deprived = light. */
  const DarkToLight: seq<Rgb> := [
    Rgb(68, 1, 84),
    Rgb(65, 68, 135),
    Rgb(34, 168, 132),
    Rgb(122, 209, 81),
    Rgb(253, 231, 37)
  ]

  /** The 5_mapv2 page lists the same five colours from light to dark. */
  const LightToDark: seq<Rgb> := [
    Rgb(253, 231, 37),
    Rgb(122, 209, 81),
    Rgb(34, 168, 132),
    Rgb(65, 68, 135),
    Rgb(68, 1, 84)
  ]

  predicate IsQuintile(q: Option<int>)
  {
    q.Some? && 1 <= q.value <= 5
  }

  /**
   * `quintile.map(palette)` followed by the fallback
   * `apply(lambda x: x if isinstance(x, list) else grey)`.
   */
  function Lookup(palette: seq<Rgb>, alpha: int, greyAlpha: int, q: Option<int>): (c: Rgba)
    requires |palette| == 5
    ensures IsQuintile(q) ==> c == WithAlpha(palette[q.value - 1], alpha)
    ensures !IsQuintile(q) ==> c == Grey(greyAlpha)
  {
    match q
    case None => Grey(greyAlpha)
    case Some(k) => if 1 <= k <= 5 then WithAlpha(palette[k - 1], alpha) else Grey(greyAlpha)
  }

  /** `build_wimd_gdf` in utils.py: alpha 120, grey alpha 70. */
  function UtilsQuintileColour(q: Option<int>): Rgba
  {
    Lookup(DarkToLight, 120, 70, q)
  }

  /** `wimd_colors` on the 4_Maps page: alpha 140, grey alpha 80. */
  function MapsQuintileColour(q: Option<int>): Rgba
  {
    Lookup(DarkToLight, 140, 80, q)
  }

  /** `quintile_colors` on the 4_mapv2 page: alpha 110, grey alpha 80. */
  function MapV2QuintileColour(q: Option<int>): Rgba
  {
    Lookup(DarkToLight, 110, 80, q)
  }

  /** `quintile_colors` on the 5_mapv2 page: the reversed palette, alpha 110, grey alpha 80. */
  function MapV2ReversedQuintileColour(q: Option<int>): Rgba
  {
    Lookup(LightToDark, 110, 80, q)
  }

  /** Sum of the three channels, a proxy for how light a colour is. */
  function Lightness(c: Rgb): int { c.r + c.g + c.b }

  predicate NoGreyIn(palette: seq<Rgb>)
  {
    forall k :: 0 <= k < |palette| ==> palette[k] != Rgb(200, 200, 200)
  }

  /**
   * The grey fallback is taken exactly when the value is not a quintile:
   * no palette entry is grey.
   */
  lemma {:induction false} GreyIffNotQuintile(palette: seq<Rgb>, alpha: int, greyAlpha: int, q: Option<int>)
    requires |palette| == 5 && NoGreyIn(palette)
    ensures Lookup(palette, alpha, greyAlpha, q) == Grey(greyAlpha) <==> !IsQuintile(q)
  {
    if IsQuintile(q) {
      assert palette[q.value - 1] != Rgb(200, 200, 200);
    }
  }

  /** Per page: a quintile gets its own palette entry, anything else the page's grey. */
  lemma PageColours(q: Option<int>)
    ensures UtilsQuintileColour(q) == Grey(70) <==> !IsQuintile(q)
    ensures MapsQuintileColour(q) == Grey(80) <==> !IsQuintile(q)
    ensures MapV2QuintileColour(q) == Grey(80) <==> !IsQuintile(q)
    ensures MapV2ReversedQuintileColour(q) == Grey(80) <==> !IsQuintile(q)
    ensures IsQuintile(q) ==> UtilsQuintileColour(q).a == 120 && MapsQuintileColour(q).a == 140
                              && MapV2QuintileColour(q).a == 110 && MapV2ReversedQuintileColour(q).a == 110
  {
    assert NoGreyIn(DarkToLight) && NoGreyIn(LightToDark);
    GreyIffNotQuintile(DarkToLight, 120, 70, q);
    GreyIffNotQuintile(DarkToLight, 140, 80, q);
    GreyIffNotQuintile(DarkToLight, 110, 80, q);
    GreyIffNotQuintile(LightToDark, 110, 80, q);
  }

  /** The lightest-first palette is the darkest-first one read backwards: quintile k gets quintile 6-k's colour. */
  lemma ReversedPalette(q: Option<int>)
    ensures MapV2ReversedQuintileColour(q)
            == MapV2QuintileColour(match q case None => None case Some(k) => Some(6 - k))
  {
  }

  /** In the darkest-first palette each quintile is strictly lighter than the one before, and the colours are distinct. */
  lemma DarkToLightOrdered(i: int, j: int)
    requires 1 <= i < j <= 5
    ensures Lightness(DarkToLight[i - 1]) < Lightness(DarkToLight[j - 1])
    ensures UtilsQuintileColour(Some(i)) != UtilsQuintileColour(Some(j))
  {
  }

  /** `pd.to_numeric(errors="coerce").astype("Int64")`: integral values convert, others raise. */
  function ToInt64(x: Option<real>): (r: Result<Option<int>>)
    ensures x.None? ==> r == Ok(None)
    ensures x.Some? && x.value == x.value.Floor as real ==> r == Ok(Some(x.value.Floor))
    ensures r.Err? <==> x.Some? && x.value != x.value.Floor as real
  {
    match x
    case None => Ok(None)
    case Some(v) =>
      if v == v.Floor as real then Ok(Some(v.Floor))
      else Err(TypeError("cannot safely cast non-equivalent float64 to int64"))
  }

  /** The conversion applied to a whole column: the first non-integral value raises. */
  function ToInt64Column(xs: seq<Option<real>>): (r: Result<seq<Option<int>>>)
    ensures r.Ok? ==> |r.value| == |xs| && forall i :: 0 <= i < |xs| ==> ToInt64(xs[i]) == Ok(r.value[i])
    ensures r.Err? <==> exists i :: 0 <= i < |xs| && ToInt64(xs[i]).Err?
  {
    if xs == [] then Ok([])
    else
      match ToInt64(xs[0])
      case Err(e) => Err(e)
      case Ok(q) =>
        match ToInt64Column(xs[1..])
        case Err(e) =>
          assert forall i :: 1 <= i < |xs| ==> xs[i] == xs[1..][i - 1];
          Err(e)
        case Ok(rest) =>
          assert forall i :: 1 <= i < |xs| ==> xs[i] == xs[1..][i - 1];
          Ok([q] + rest)
  }
}
