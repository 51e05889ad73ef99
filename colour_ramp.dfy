/**
 * The continuous, viridis-like colour ramp used for co-benefit maps:
 * `_value_to_rgba_continuous` in utils.py and its near-copy
 * `to_rgba_continuous` in the 4_Maps page.
 *
 * A column of values (missing = `None`) is normalised to t in [0, 1]
 * against its own minimum and maximum, with a guard for constant and
 * all-missing columns, and t is interpolated piecewise-linearly across
 * five fixed colour stops, truncating each channel to an integer.
 */
module ColourRamp {
  import opened Common

  datatype Stop = Stop(t: real, colour: Rgb)

  /** Dark purple -> blue -> teal -> green -> yellow. */
  const Stops: seq<Stop> := [
    Stop(0.0, Rgb(68, 1, 84)),
    Stop(0.25, Rgb(59, 82, 139)),
    Stop(0.5, Rgb(33, 145, 140)),
    Stop(0.75, Rgb(94, 201, 98)),
    Stop(1.0, Rgb(253, 231, 37))
  ]

  const Low: Rgb := Rgb(68, 1, 84)
  const High: Rgb := Rgb(253, 231, 37)

  /**
   * What happens when two consecutive stops share a position: utils.py
   * returns the later stop's colour, the 4_Maps page interpolates with u = 0.
   * Neither can happen with `Stops` (see `EqualStopRuleIrrelevant`).
   */
  datatype EqualStopRule = TakeNext | LerpFromZero

  predicate Increasing(stops: seq<Stop>)
  {
    forall i :: 0 <= i < |stops| - 1 ==> stops[i].t < stops[i + 1].t
  }

  predicate Between(c: int, a: int, b: int)
  {
    (a <= c <= b) || (b <= c <= a)
  }

  predicate ColourBetween(q: Rgba, c0: Rgb, c1: Rgb)
  {
    Between(q.r, c0.r, c1.r) && Between(q.g, c0.g, c1.g) && Between(q.b, c0.b, c1.b)
  }

  /** `int(a + (b - a) * x)` */
  function Lerp(a: int, b: int, x: real): int
  {
    Trunc(a as real + (b - a) as real * x)
  }

  function LerpRgb(c0: Rgb, c1: Rgb, u: real): Rgb
  {
    Rgb(Lerp(c0.r, c1.r, u), Lerp(c0.g, c1.g, u), Lerp(c0.b, c1.b, u))
  }

  /**
   * The search over consecutive stop pairs (k, k+1): the first pair with
   * x <= t_{k+1} interpolates; past the last pair the last stop is returned.
   */
  function InterpFrom(stops: seq<Stop>, k: nat, x: real, alpha: int, rule: EqualStopRule): (q: Rgba)
    requires 0 < |stops|
    ensures q.a == alpha
    decreases |stops| - k
  {
    if k + 1 >= |stops| then WithAlpha(stops[|stops| - 1].colour, alpha)
    else
      var s0, s1 := stops[k], stops[k + 1];
      if x <= s1.t then
        if s1.t == s0.t then
          match rule
          case TakeNext => WithAlpha(s1.colour, alpha)
          case LerpFromZero => WithAlpha(LerpRgb(s0.colour, s1.colour, 0.0), alpha)
        else WithAlpha(LerpRgb(s0.colour, s1.colour, (x - s0.t) / (s1.t - s0.t)), alpha)
      else InterpFrom(stops, k + 1, x, alpha, rule)
  }

  function Interp(x: real, alpha: int, rule: EqualStopRule): Rgba
  {
    InterpFrom(Stops, 0, x, alpha, rule)
  }

  /** `clip(0, 1)` */
  function Clip01(x: real): (r: real)
    ensures 0.0 <= r <= 1.0
    ensures 0.0 <= x <= 1.0 ==> r == x
  {
    if x < 0.0 then 0.0 else if x > 1.0 then 1.0 else x
  }

  function Normalise(v: real, lo: real, hi: real): (t: real)
    requires lo < hi
    ensures 0.0 <= t <= 1.0
  {
    Clip01((v - lo) / (hi - lo))
  }

  /** Smallest element (`nanmin` / `Series.min` over the present values). */
  function MinOf(xs: seq<real>): (m: real)
    requires |xs| > 0
    ensures m in xs && forall x :: x in xs ==> m <= x
  {
    if |xs| == 1 then xs[0]
    else
      var rest := MinOf(xs[1..]);
      assert forall x :: x in xs ==> x == xs[0] || x in xs[1..];
      if xs[0] <= rest then xs[0] else rest
  }

  /** Largest element (`nanmax` / `Series.max` over the present values). */
  function MaxOf(xs: seq<real>): (m: real)
    requires |xs| > 0
    ensures m in xs && forall x :: x in xs ==> x <= m
  {
    if |xs| == 1 then xs[0]
    else
      var rest := MaxOf(xs[1..]);
      assert forall x :: x in xs ==> x == xs[0] || x in xs[1..];
      if xs[0] >= rest then xs[0] else rest
  }

  /** Widen a constant domain by one so that the division is defined. */
  function Guard(lo: real, hi: real): (d: (real, real))
    requires lo <= hi
    ensures d.0 == lo && d.0 < d.1
    ensures lo < hi ==> d.1 == hi
  {
    if lo == hi then (lo, lo + 1.0) else (lo, hi)
  }

  /**
   * The domain utils.py normalises against: the column's minimum and
   * maximum, 0 and 1 when every value is missing, widened when constant.
   * There is none for an empty column, where `np.nanmin` raises.
   */
  function UtilsDomain(vals: seq<Option<real>>): (d: (real, real))
    requires vals != []
    ensures d.0 < d.1
    ensures Present(vals) == [] ==> d == (0.0, 1.0)
  {
    var p := Present(vals);
    if p == [] then Guard(0.0, 1.0) else Guard(MinOf(p), MaxOf(p))
  }

  /** The colour of one cell: grey when missing, the ramp at its normalised position otherwise. */
  function RampCell(v: Option<real>, d: (real, real), alpha: int, rule: EqualStopRule, greyAlpha: int): Rgba
    requires d.0 < d.1
  {
    match v
    case None => Grey(greyAlpha)
    case Some(x) => Interp(Normalise(x, d.0, d.1), alpha, rule)
  }

  /** What `np.nanmin` raises on a zero-length array. */
  const EmptyReduction: Error := ValueError("zero-size array to reduction operation minimum which has no identity")

  /**
   * `_value_to_rgba_continuous(values, alpha)` (utils.py): an empty column
   * raises before any colour is computed, since the domain is taken first.
   */
  function ValueToRgbaContinuous(vals: seq<Option<real>>, alpha: int): (r: Result<seq<Rgba>>)
    ensures r.Err? <==> vals == []
    ensures r.Err? ==> r.error == EmptyReduction
    ensures r.Ok? ==> |r.value| == |vals|
    ensures r.Ok? ==> forall i :: 0 <= i < |vals| && vals[i] == None ==> r.value[i] == Grey(70)
  {
    if vals == [] then Err(EmptyReduction)
    else
      var d := UtilsDomain(vals);
      Ok(seq(|vals|, i requires 0 <= i < |vals| => RampCell(vals[i], d, alpha, TakeNext, 70)))
  }

  /** The domain the 4_Maps copy normalises against, once some value is present. */
  function MapsDomain(p: seq<real>): (d: (real, real))
    requires |p| > 0
    ensures d.0 < d.1
  {
    Guard(MinOf(p), MaxOf(p))
  }

  /** `to_rgba_continuous(values, alpha)` (4_Maps page). */
  function ToRgbaContinuous(vals: seq<Option<real>>, alpha: int): (colours: seq<Rgba>)
    ensures |colours| == |vals|
    ensures forall i :: 0 <= i < |vals| && vals[i] == None ==> colours[i] == Grey(80)
  {
    var p := Present(vals);
    if p == [] then seq(|vals|, _ => Grey(80))
    else
      seq(|vals|, i requires 0 <= i < |vals| => RampCell(vals[i], MapsDomain(p), alpha, LerpFromZero, 80))
  }

  // ---------------------------------------------------------------------
  // Interpolation lemmas

  lemma TruncOfInt(n: int)
    ensures Trunc(n as real) == n
  {
  }

  lemma TruncBetween(v: real, lo: int, hi: int)
    requires lo as real <= v <= hi as real
    ensures lo <= Trunc(v) <= hi
  {
    if v >= 0.0 {
      assert v.Floor as real <= v;
    } else {
      assert (-v).Floor as real <= -v;
    }
  }

  lemma ScaleBounds(a: int, b: int, u: real)
    requires 0.0 <= u <= 1.0
    ensures a <= b ==> 0.0 <= (b - a) as real * u <= (b - a) as real
    ensures b < a ==> (b - a) as real <= (b - a) as real * u <= 0.0
  {
  }

  lemma LerpBetween(a: int, b: int, u: real)
    requires 0.0 <= u <= 1.0
    ensures Between(Lerp(a, b, u), a, b)
  {
    if a <= b {
      LerpUp(a, b, u);
    } else {
      LerpDown(a, b, u);
    }
  }

  lemma LerpUp(a: int, b: int, u: real)
    requires 0.0 <= u <= 1.0 && a <= b
    ensures a <= Lerp(a, b, u) <= b
  {
    ScaleBounds(a, b, u);
    TruncBetween(a as real + (b - a) as real * u, a, b);
  }

  lemma LerpDown(a: int, b: int, u: real)
    requires 0.0 <= u <= 1.0 && b < a
    ensures b <= Lerp(a, b, u) <= a
  {
    ScaleBounds(a, b, u);
    TruncBetween(a as real + (b - a) as real * u, b, a);
  }

  lemma FractionInUnit(a: real, w: real)
    requires 0.0 <= a <= w && 0.0 < w
    ensures 0.0 <= a / w <= 1.0
  {
  }

  lemma LerpRgbBetween(c0: Rgb, c1: Rgb, u: real, alpha: int)
    requires 0.0 <= u <= 1.0
    ensures ColourBetween(WithAlpha(LerpRgb(c0, c1, u), alpha), c0, c1)
  {
    LerpBetween(c0.r, c1.r, u);
    LerpBetween(c0.g, c1.g, u);
    LerpBetween(c0.b, c1.b, u);
  }

  /**
   * The search finds a pair of neighbouring stops around x, and every
   * channel lies between those two stops' channels.
   */
  lemma {:induction false} InterpFromBetween(stops: seq<Stop>, k: nat, x: real, alpha: int, rule: EqualStopRule)
    requires Increasing(stops)
    requires k + 1 < |stops| && stops[k].t <= x <= stops[|stops| - 1].t
    ensures exists j :: k <= j < |stops| - 1 && stops[j].t <= x <= stops[j + 1].t
                        && ColourBetween(InterpFrom(stops, k, x, alpha, rule), stops[j].colour, stops[j + 1].colour)
    decreases |stops| - k
  {
    var s0, s1 := stops[k], stops[k + 1];
    if x <= s1.t {
      assert s0.t < s1.t;
      var u := (x - s0.t) / (s1.t - s0.t);
      FractionInUnit(x - s0.t, s1.t - s0.t);
      LerpRgbBetween(s0.colour, s1.colour, u, alpha);
      assert stops[k].t <= x <= stops[k + 1].t;
    } else {
      InterpFromBetween(stops, k + 1, x, alpha, rule);
    }
  }

  /**
   * For every t in [0, 1] the ramp's channels lie between the channels of
   * the two stops around t, hence in [0, 255]; the alpha is the one passed.
   */
  lemma InterpInRange(x: real, alpha: int, rule: EqualStopRule)
    requires 0.0 <= x <= 1.0
    ensures var q := Interp(x, alpha, rule);
            && q.a == alpha && ChannelsInRange(q)
            && exists j :: 0 <= j < 4 && Stops[j].t <= x <= Stops[j + 1].t
                           && ColourBetween(q, Stops[j].colour, Stops[j + 1].colour)
  {
    assert Increasing(Stops);
    assert forall j :: 0 <= j < |Stops| ==> RgbInRange(Stops[j].colour);
    RampInRange(Stops, x, alpha, rule);
  }

  /** The interpolation over any increasing stops from 0 to 1 whose colours are in range stays in range. */
  lemma RampInRange(stops: seq<Stop>, x: real, alpha: int, rule: EqualStopRule)
    requires Increasing(stops) && |stops| == 5 && stops[0].t <= x <= stops[4].t
    requires forall j :: 0 <= j < |stops| ==> RgbInRange(stops[j].colour)
    ensures var q := InterpFrom(stops, 0, x, alpha, rule);
            && q.a == alpha && ChannelsInRange(q)
            && exists j :: 0 <= j < 4 && stops[j].t <= x <= stops[j + 1].t
                           && ColourBetween(q, stops[j].colour, stops[j + 1].colour)
  {
    InterpFromBetween(stops, 0, x, alpha, rule);
    var q := InterpFrom(stops, 0, x, alpha, rule);
    var j :| 0 <= j < 4 && stops[j].t <= x <= stops[j + 1].t
             && ColourBetween(q, stops[j].colour, stops[j + 1].colour);
    assert RgbInRange(stops[j].colour) && RgbInRange(stops[j + 1].colour);
  }

  /** t = 0 gives the first stop exactly, t = 1 the last. */
  lemma InterpEndpoints(alpha: int, rule: EqualStopRule)
    ensures Interp(0.0, alpha, rule) == WithAlpha(Low, alpha)
    ensures Interp(1.0, alpha, rule) == WithAlpha(High, alpha)
  {
    TruncOfInt(68); TruncOfInt(1); TruncOfInt(84);
    assert LerpRgb(Stops[0].colour, Stops[1].colour, 0.0) == Low;
    TruncOfInt(253); TruncOfInt(231); TruncOfInt(37);
    assert (1.0 - 0.75) / (1.0 - 0.75) == 1.0;
    assert LerpRgb(Stops[3].colour, Stops[4].colour, 1.0) == High;
  }

  lemma NormaliseEnds(lo: real, hi: real)
    requires lo < hi
    ensures Normalise(lo, lo, hi) == 0.0 && Normalise(hi, lo, hi) == 1.0
  {
    var w := hi - lo;
    assert (lo - lo) / w == 0.0 / w == 0.0;
    assert (hi - lo) / w == w / w == 1.0;
  }

  /** The two pages' treatment of equal stop positions never comes into play. */
  lemma EqualStopRuleIrrelevant(x: real, alpha: int)
    ensures Interp(x, alpha, TakeNext) == Interp(x, alpha, LerpFromZero)
  {
    assert Increasing(Stops);
  }

  // ---------------------------------------------------------------------
  // Column lemmas

  /**
   * Every non-missing value gets a colour whose channels lie in [0, 255]
   * between two neighbouring stops, with the requested alpha; a missing
   * value gets the grey [200, 200, 200, 70].
   */
  lemma ValueToRgbaBounds(vals: seq<Option<real>>, alpha: int, i: nat)
    requires i < |vals|
    ensures ValueToRgbaContinuous(vals, alpha).Ok?
    ensures var q := ValueToRgbaContinuous(vals, alpha).value[i];
            if vals[i] == None then q == Grey(70)
            else q.a == alpha && ChannelsInRange(q)
                 && exists j :: 0 <= j < 4 && ColourBetween(q, Stops[j].colour, Stops[j + 1].colour)
  {
    if vals[i].Some? {
      var d := UtilsDomain(vals);
      assert ValueToRgbaContinuous(vals, alpha).value[i] == RampCell(vals[i], d, alpha, TakeNext, 70);
      InterpInRange(Normalise(vals[i].value, d.0, d.1), alpha, TakeNext);
    }
  }

  /** The same bounds for the 4_Maps copy, whose grey is [200, 200, 200, 80]. */
  lemma ToRgbaBounds(vals: seq<Option<real>>, alpha: int, i: nat)
    requires i < |vals|
    ensures var q := ToRgbaContinuous(vals, alpha)[i];
            if vals[i] == None then q == Grey(80)
            else q.a == alpha && ChannelsInRange(q)
                 && exists j :: 0 <= j < 4 && ColourBetween(q, Stops[j].colour, Stops[j + 1].colour)
  {
    if vals[i].Some? {
      var p := Present(vals);
      assert vals[i].value in p;
      var d := MapsDomain(p);
      assert ToRgbaContinuous(vals, alpha)[i] == RampCell(vals[i], d, alpha, LerpFromZero, 80);
      InterpInRange(Normalise(vals[i].value, d.0, d.1), alpha, LerpFromZero);
    }
  }

  /**
   * The column minimum is coloured exactly (68, 1, 84); when the column is
   * not constant its maximum is coloured exactly (253, 231, 37).
   */
  lemma ValueToRgbaEndpoints(vals: seq<Option<real>>, alpha: int, i: nat)
    requires i < |vals| && vals[i].Some?
    ensures var p := Present(vals);
            && |p| > 0 && ValueToRgbaContinuous(vals, alpha).Ok?
            && (vals[i].value == MinOf(p) ==> ValueToRgbaContinuous(vals, alpha).value[i] == WithAlpha(Low, alpha))
            && (vals[i].value == MaxOf(p) != MinOf(p) ==> ValueToRgbaContinuous(vals, alpha).value[i] == WithAlpha(High, alpha))
  {
    var p := Present(vals);
    assert vals[i].value in p;
    var d := UtilsDomain(vals);
    assert ValueToRgbaContinuous(vals, alpha).value[i] == RampCell(vals[i], d, alpha, TakeNext, 70);
    InterpEndpoints(alpha, TakeNext);
    NormaliseEnds(d.0, d.1);
  }

  /** The same exact endpoints hold for the 4_Maps copy. */
  lemma ToRgbaEndpoints(vals: seq<Option<real>>, alpha: int, i: nat)
    requires i < |vals| && vals[i].Some?
    ensures var p := Present(vals);
            && |p| > 0
            && (vals[i].value == MinOf(p) ==> ToRgbaContinuous(vals, alpha)[i] == WithAlpha(Low, alpha))
            && (vals[i].value == MaxOf(p) != MinOf(p) ==> ToRgbaContinuous(vals, alpha)[i] == WithAlpha(High, alpha))
  {
    var p := Present(vals);
    assert vals[i].value in p;
    var d := MapsDomain(p);
    assert ToRgbaContinuous(vals, alpha)[i] == RampCell(vals[i], d, alpha, LerpFromZero, 80);
    InterpEndpoints(alpha, LerpFromZero);
    NormaliseEnds(d.0, d.1);
  }

  /**
   * A constant column (every present value equal) is widened to
   * [v, v + 1], so every present value gets the first stop; an all-missing
   * column comes out all grey.
   */
  lemma ValueToRgbaDegenerate(vals: seq<Option<real>>, alpha: int)
    ensures (forall i, j :: 0 <= i < |vals| && 0 <= j < |vals| && vals[i].Some? && vals[j].Some?
               ==> vals[i] == vals[j])
            ==> forall i :: 0 <= i < |vals| && vals[i].Some?
                  ==> ValueToRgbaContinuous(vals, alpha).Ok? && ValueToRgbaContinuous(vals, alpha).value[i] == WithAlpha(Low, alpha)
    ensures vals != [] && Present(vals) == [] ==>
              ValueToRgbaContinuous(vals, alpha).Ok? && forall i :: 0 <= i < |vals| ==> ValueToRgbaContinuous(vals, alpha).value[i] == Grey(70)
  {
    if forall i, j :: 0 <= i < |vals| && 0 <= j < |vals| && vals[i].Some? && vals[j].Some? ==> vals[i] == vals[j] {
      forall i | 0 <= i < |vals| && vals[i].Some?
        ensures ValueToRgbaContinuous(vals, alpha).Ok? && ValueToRgbaContinuous(vals, alpha).value[i] == WithAlpha(Low, alpha)
      {
        ConstantGetsLow(vals, alpha, i);
      }
    }
    if vals != [] && Present(vals) == [] {
      AllMissing(vals);
      AllMissingGrey(vals, alpha);
    }
  }

  /** A non-empty column of missing cells is grey in every row. */
  lemma AllMissingGrey(vals: seq<Option<real>>, alpha: int)
    requires vals != [] && forall i :: 0 <= i < |vals| ==> vals[i] == None
    ensures ValueToRgbaContinuous(vals, alpha).Ok?
    ensures forall i :: 0 <= i < |vals| ==> ValueToRgbaContinuous(vals, alpha).value[i] == Grey(70)
  {
  }

  /** A column without a present value holds nothing but missing cells. */
  lemma AllMissing(vals: seq<Option<real>>)
    requires Present(vals) == []
    ensures forall i :: 0 <= i < |vals| ==> vals[i] == None
  {
    forall i | 0 <= i < |vals| ensures vals[i] == None {
      assert vals[i] in vals;
    }
  }

  /** In a column whose present values are all equal, a present value is the column's minimum and gets the first stop. */
  lemma ConstantGetsLow(vals: seq<Option<real>>, alpha: int, i: nat)
    requires forall i, j :: 0 <= i < |vals| && 0 <= j < |vals| && vals[i].Some? && vals[j].Some? ==> vals[i] == vals[j]
    requires i < |vals| && vals[i].Some?
    ensures ValueToRgbaContinuous(vals, alpha).Ok? && ValueToRgbaContinuous(vals, alpha).value[i] == WithAlpha(Low, alpha)
  {
    var p := Present(vals);
    assert vals[i].value in p;
    var m := MinOf(p);
    assert Some(m) in vals;
    ValueToRgbaEndpoints(vals, alpha, i);
  }

  /**
   * The 4_Maps copy: a column without a single present value is a list of
   * the same length filled with [200, 200, 200, 80]; a constant column
   * gets the first stop everywhere it is present.
   */
  lemma ToRgbaDegenerate(vals: seq<Option<real>>, alpha: int)
    ensures Present(vals) == [] ==> ToRgbaContinuous(vals, alpha) == seq(|vals|, _ => Grey(80))
    ensures (forall i, j :: 0 <= i < |vals| && 0 <= j < |vals| && vals[i].Some? && vals[j].Some?
               ==> vals[i] == vals[j])
            ==> forall i :: 0 <= i < |vals| && vals[i].Some?
                  ==> ToRgbaContinuous(vals, alpha)[i] == WithAlpha(Low, alpha)
  {
    if forall i, j :: 0 <= i < |vals| && 0 <= j < |vals| && vals[i].Some? && vals[j].Some? ==> vals[i] == vals[j] {
      forall i | 0 <= i < |vals| && vals[i].Some?
        ensures ToRgbaContinuous(vals, alpha)[i] == WithAlpha(Low, alpha)
      {
        var p := Present(vals);
        assert vals[i].value in p;
        var m := MinOf(p);
        assert Some(m) in vals;
        ToRgbaEndpoints(vals, alpha, i);
      }
    }
  }

  /** Wherever a value is present, the two copies of the ramp agree. */
  lemma CopiesAgree(vals: seq<Option<real>>, alpha: int, i: nat)
    requires i < |vals| && vals[i].Some?
    ensures ValueToRgbaContinuous(vals, alpha).Ok?
    ensures ToRgbaContinuous(vals, alpha)[i] == ValueToRgbaContinuous(vals, alpha).value[i]
  {
    var p := Present(vals);
    assert vals[i].value in p;
    var d := MapsDomain(p);
    assert UtilsDomain(vals) == d;
    assert ToRgbaContinuous(vals, alpha)[i] == RampCell(vals[i], d, alpha, LerpFromZero, 80);
    assert ValueToRgbaContinuous(vals, alpha).value[i] == RampCell(vals[i], d, alpha, TakeNext, 70);
    EqualStopRuleIrrelevant(Normalise(vals[i].value, d.0, d.1), alpha);
  }
}
