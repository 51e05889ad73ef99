/**
 * Value types shared by the dashboard model, and the handful of Python
 * string operations (`str.lower`, `str.capitalize`, `str.title`,
 * `str.replace`, `str.strip`, `str.startswith`, `in`, `str(int)`) that the
 * dashboard's rules are built from.
 *
 * Letter case is modelled for ASCII letters only; whitespace follows
 * Python's `str.isspace`.
 */
module Common {

  datatype Option<T> = None | Some(value: T)

  /** The exceptions the modelled code raises. */
  datatype Error =
    | KeyError(key: string)
    | ValueError(reason: string)
    | IndexError(index: int)
    | TypeError(reason: string)
    | AttributeError(reason: string)
    | ZeroDivisionError

  datatype Result<T> = Ok(value: T) | Err(error: Error)

  /** Colours are plain integer lists in the source: an RGB triple, or an RGBA quad for PyDeck. */
  datatype Rgb = Rgb(r: int, g: int, b: int)
  datatype Rgba = Rgba(r: int, g: int, b: int, a: int)

  function WithAlpha(c: Rgb, alpha: int): (q: Rgba)
    ensures q.a == alpha && Rgb(q.r, q.g, q.b) == c
  {
    Rgba(c.r, c.g, c.b, alpha)
  }

  predicate IsByte(x: int) { 0 <= x <= 255 }

  predicate RgbInRange(c: Rgb) { IsByte(c.r) && IsByte(c.g) && IsByte(c.b) }

  /** The three colour channels of an RGBA quad are bytes (the alpha is whatever the caller passed). */
  predicate ChannelsInRange(c: Rgba) { IsByte(c.r) && IsByte(c.g) && IsByte(c.b) }

  /** The neutral grey used for missing values; the pages disagree on its opacity. */
  function Grey(alpha: int): Rgba { Rgba(200, 200, 200, alpha) }

  // ---------------------------------------------------------------------
  // Characters

  /** Python's `str.isspace` (also what `\s` and `str.strip()` use). */
  predicate IsSpace(c: char)
  {
    if c <= ' ' then
      c == ' ' || ('\t' <= c <= '\r') || ('\U{001C}' <= c <= '\U{001F}')
    else
      '\U{0085}' <= c
      && (c == '\U{0085}' || c == '\U{00A0}' || c == '\U{1680}' || ('\U{2000}' <= c <= '\U{200A}')
          || c == '\U{2028}' || c == '\U{2029}' || c == '\U{202F}' || c == '\U{205F}' || c == '\U{3000}')
  }

  predicate IsDigit(c: char) { '0' <= c <= '9' }

  predicate IsUpper(c: char) { 'A' <= c <= 'Z' }

  predicate IsLower(c: char) { 'a' <= c <= 'z' }

  /** A cased character: one that `str.title` treats as part of a word. */
  predicate IsCased(c: char) { IsUpper(c) || IsLower(c) }

  function ToLower(c: char): char
  {
    if IsUpper(c) then (c as int + 32) as char else c
  }

  function ToUpper(c: char): char
  {
    if IsLower(c) then (c as int - 32) as char else c
  }

  // ---------------------------------------------------------------------
  // Strings

  /** `s.lower()` */
  function Lower(s: string): (r: string)
    ensures |r| == |s|
    ensures forall i :: 0 <= i < |s| ==> r[i] == ToLower(s[i])
  {
    if s == [] then [] else [ToLower(s[0])] + Lower(s[1..])
  }

  /** `s.capitalize()`: the first character upper case, the rest lower case. */
  function Capitalize(s: string): (r: string)
    ensures |r| == |s|
    ensures |s| > 0 ==> r[0] == ToUpper(s[0]) && r[1..] == Lower(s[1..])
  {
    if s == [] then [] else [ToUpper(s[0])] + Lower(s[1..])
  }

  /**
   * `s.title()`: a cased character that follows a cased character is
   * lowered, any other cased character is raised.
   */
  function TitleAfter(s: string, prevCased: bool): (r: string)
    ensures |r| == |s|
  {
    if s == [] then []
    else [if prevCased then ToLower(s[0]) else ToUpper(s[0])] + TitleAfter(s[1..], IsCased(s[0]))
  }

  function Title(s: string): (r: string)
    ensures |r| == |s|
  {
    TitleAfter(s, false)
  }

  /** `s.replace(from, to)` for single characters. */
  function ReplaceChar(s: string, from: char, to: char): (r: string)
    ensures |r| == |s|
    ensures forall i :: 0 <= i < |s| ==> r[i] == if s[i] == from then to else s[i]
  {
    if s == [] then [] else [if s[0] == from then to else s[0]] + ReplaceChar(s[1..], from, to)
  }

  predicate StartsWith(s: string, prefix: string)
  {
    |prefix| <= |s| && s[..|prefix|] == prefix
  }

  /** `sub in s` */
  predicate Contains(s: string, sub: string)
    decreases |s|
  {
    StartsWith(s, sub) || (|s| > 0 && Contains(s[1..], sub))
  }

  /** `s.replace(pat, "")`: every non-overlapping occurrence, scanning left to right, is removed. */
  function RemoveAll(s: string, pat: string): (r: string)
    requires |pat| > 0
    ensures |r| <= |s|
    decreases |s|
  {
    if |s| == 0 then []
    else if StartsWith(s, pat) then RemoveAll(s[|pat|..], pat)
    else [s[0]] + RemoveAll(s[1..], pat)
  }

  /** `s.lstrip()` */
  function LStrip(s: string): (r: string)
    ensures |r| <= |s|
  {
    if |s| > 0 && IsSpace(s[0]) then LStrip(s[1..]) else s
  }

  /** `s.rstrip()` */
  function RStrip(s: string): (r: string)
    ensures |r| <= |s|
  {
    if |s| > 0 && IsSpace(s[|s| - 1]) then RStrip(s[..|s| - 1]) else s
  }

  /** `s.strip()` */
  function Strip(s: string): string
  {
    RStrip(LStrip(s))
  }

  /** `str(x)` of a pandas object cell: a missing value prints as "nan". */
  function CellStr(x: Option<string>): string
  {
    match x
    case None => "nan"
    case Some(s) => s
  }

  function DigitChar(d: nat): char
    requires d < 10
  {
    ('0' as int + d) as char
  }

  /** `str(n)` for a natural number. */
  function NatStr(n: nat): (r: string)
    ensures |r| > 0
  {
    if n < 10 then [DigitChar(n)] else NatStr(n / 10) + [DigitChar(n % 10)]
  }

  /** `str(n)` for any Python int. */
  function IntStr(n: int): (r: string)
  {
    if n < 0 then "-" + NatStr(-n) else NatStr(n)
  }

  /** Python's `int(x)` on a float: truncation toward zero. */
  function Trunc(x: real): int
  {
    if x >= 0.0 then x.Floor else -((-x).Floor)
  }

  function Abs(x: real): real { if x < 0.0 then -x else x }

  /** The present values of a column, in order (`dropna()`). */
  function Present<T(!new)>(xs: seq<Option<T>>): (r: seq<T>)
    ensures |r| <= |xs|
    ensures forall v :: v in r <==> Some(v) in xs
  {
    if xs == [] then []
    else (match xs[0] case Some(v) => [v] case None => []) + Present(xs[1..])
  }

  /** The rows whose grouping key is `group`, in table order: what one group of a `groupby` collects. */
  function GroupRows<R(==, !new)>(rows: seq<R>, key: R -> Option<string>, group: string): (r: seq<R>)
    ensures forall x :: x in r <==> x in rows && key(x) == Some(group)
  {
    if rows == [] then []
    else (if key(rows[0]) == Some(group) then [rows[0]] else []) + GroupRows(rows[1..], key, group)
  }

  /** Number of elements satisfying `p`, the shape of pandas' `(mask).sum()`. */
  function CountWhere<T>(xs: seq<T>, p: T -> bool): (n: nat)
    ensures n <= |xs|
    ensures n == 0 <==> forall i :: 0 <= i < |xs| ==> !p(xs[i])
  {
    if xs == [] then 0
    else (if p(xs[0]) then 1 else 0) + CountWhere(xs[1..], p)
  }
}
