/**
 * The orderings the dashboard relies on: Python's `sorted` on strings
 * (code-point lexicographic order) used for the de-duplicated selector
 * lists, and pandas' `sort_values` on a numeric column followed by
 * `head(k)`, used for the Top 5 / Worst 5 tables.
 */
module Sorting {
  import opened Common

  // ---------------------------------------------------------------------
  // String order

  /** Python's `a < b` on `str`: code point by code point, a proper prefix first. */
  predicate StrLess(a: string, b: string)
  {
    if a == [] then b != []
    else if b == [] then false
    else a[0] < b[0] || (a[0] == b[0] && StrLess(a[1..], b[1..]))
  }

  lemma {:induction false} StrLessIrreflexive(a: string)
    ensures !StrLess(a, a)
  {
    if a != [] {
      StrLessIrreflexive(a[1..]);
    }
  }

  lemma {:induction false} StrLessTransitive(a: string, b: string, c: string)
    requires StrLess(a, b) && StrLess(b, c)
    ensures StrLess(a, c)
  {
    if a != [] && a[0] == b[0] && b[0] == c[0] {
      StrLessTransitive(a[1..], b[1..], c[1..]);
    }
  }

  /** Any two different strings are ordered one way or the other. */
  lemma {:induction false} StrLessTotal(a: string, b: string)
    requires a != b
    ensures StrLess(a, b) || StrLess(b, a)
  {
    if a != [] && b != [] && a[0] == b[0] {
      assert a == [a[0]] + a[1..] && b == [b[0]] + b[1..];
      StrLessTotal(a[1..], b[1..]);
    }
  }

  predicate StrictlyIncreasing(xs: seq<string>)
  {
    forall i, j :: 0 <= i < j < |xs| ==> StrLess(xs[i], xs[j])
  }

  // ---------------------------------------------------------------------
  // sorted(series.dropna().unique())

  /** Insert one value into a strictly increasing list, dropping it if already there. */
  function InsertUnique(x: string, xs: seq<string>): (r: seq<string>)
  {
    if xs == [] then [x]
    else if x == xs[0] then xs
    else if StrLess(x, xs[0]) then [x] + xs
    else [xs[0]] + InsertUnique(x, xs[1..])
  }

  lemma InsertUniqueSpec(x: string, xs: seq<string>)
    requires StrictlyIncreasing(xs)
    ensures StrictlyIncreasing(InsertUnique(x, xs))
    ensures forall s :: s in InsertUnique(x, xs) <==> s in xs || s == x
  {
    InsertUniqueMembers(x, xs);
    InsertUniqueOrdered(x, xs);
  }

  lemma {:induction false} InsertUniqueMembers(x: string, xs: seq<string>)
    ensures forall s :: s in InsertUnique(x, xs) <==> s in xs || s == x
  {
    if xs != [] && x != xs[0] && !StrLess(x, xs[0]) {
      InsertUniqueMembers(x, xs[1..]);
      assert xs == [xs[0]] + xs[1..];
    }
  }

  /** Every value of the insertion lies above a bound that the new value and every old value lie above. */
  lemma {:induction false} InsertUniqueAbove(x: string, xs: seq<string>, lo: string)
    requires StrLess(lo, x)
    requires forall m :: 0 <= m < |xs| ==> StrLess(lo, xs[m])
    ensures forall m :: 0 <= m < |InsertUnique(x, xs)| ==> StrLess(lo, InsertUnique(x, xs)[m])
  {
    if xs != [] && x != xs[0] && !StrLess(x, xs[0]) {
      InsertUniqueAbove(x, xs[1..], lo);
    }
  }

  lemma {:induction false} InsertUniqueOrdered(x: string, xs: seq<string>)
    requires StrictlyIncreasing(xs)
    ensures StrictlyIncreasing(InsertUnique(x, xs))
  {
    if xs != [] && x != xs[0] && !StrLess(x, xs[0]) {
      StrLessTotal(x, xs[0]);
      var tail := xs[1..];
      assert StrictlyIncreasing(tail) by {
        forall i, j | 0 <= i < j < |tail| ensures StrLess(tail[i], tail[j]) {
          assert tail[i] == xs[i + 1] && tail[j] == xs[j + 1];
        }
      }
      InsertUniqueOrdered(x, tail);
      InsertUniqueAbove(x, tail, xs[0]);
      var r := InsertUnique(x, xs);
      var rt := InsertUnique(x, tail);
      assert r == [xs[0]] + rt;
      forall i, j | 0 <= i < j < |r| ensures StrLess(r[i], r[j]) {
        if i == 0 {
          assert r[j] == rt[j - 1];
        } else {
          assert r[i] == rt[i - 1] && r[j] == rt[j - 1];
        }
      }
    } else if xs != [] && StrLess(x, xs[0]) {
      var r := InsertUnique(x, xs);
      assert x != xs[0] by { StrLessIrreflexive(x); }
      assert r == [x] + xs;
      forall i, j | 0 <= i < j < |r| ensures StrLess(r[i], r[j]) {
        if i == 0 {
          if j > 1 {
            StrLessTransitive(x, xs[0], xs[j - 1]);
          }
        } else {
          assert r[i] == xs[i - 1] && r[j] == xs[j - 1];
        }
      }
    }
  }

  /** `sorted(col.dropna().unique().tolist())` */
  function SortedUnique(col: seq<Option<string>>): (r: seq<string>)
  {
    if col == [] then []
    else
      var rest := SortedUnique(col[..|col| - 1]);
      match col[|col| - 1]
      case None => rest
      case Some(v) => InsertUnique(v, rest)
  }

  /**
   * The list is strictly increasing (so sorted and free of duplicates)
   * and holds exactly the non-missing values of the column.
   */
  lemma {:induction false} SortedUniqueSpec(col: seq<Option<string>>)
    ensures StrictlyIncreasing(SortedUnique(col))
    ensures forall s :: s in SortedUnique(col) <==> Some(s) in col
  {
    if col != [] {
      var init := col[..|col| - 1];
      SortedUniqueSpec(init);
      assert col == init + [col[|col| - 1]];
      match col[|col| - 1]
      case None =>
      case Some(v) =>
        InsertUniqueSpec(v, SortedUnique(init));
        assert forall s :: s in SortedUnique(col) <==> s in SortedUnique(init) || s == v;
    }
  }

  // ---------------------------------------------------------------------
  // sort_values(...).head(k)

  predicate NonIncreasing<T>(xs: seq<T>, key: T -> real)
  {
    forall i, j :: 0 <= i < j < |xs| ==> key(xs[i]) >= key(xs[j])
  }

  /** Insert one row before the first row whose key it is not below. */
  function InsertDesc<T>(x: T, xs: seq<T>, key: T -> real): (r: seq<T>)
    ensures |r| == |xs| + 1
  {
    if xs == [] || key(x) >= key(xs[0]) then [x] + xs
    else [xs[0]] + InsertDesc(x, xs[1..], key)
  }

  /** A descending sort of the rows by `key` (insertion sort). */
  function SortDesc<T>(xs: seq<T>, key: T -> real): (r: seq<T>)
    ensures |r| == |xs|
  {
    if xs == [] then [] else InsertDesc(xs[0], SortDesc(xs[1..], key), key)
  }

  /** Inserting keeps every row and adds the new one. */
  lemma {:induction false} InsertDescPerm<T>(x: T, xs: seq<T>, key: T -> real)
    ensures multiset(InsertDesc(x, xs, key)) == multiset(xs) + multiset{x}
  {
    if !(xs == [] || key(x) >= key(xs[0])) {
      InsertDescPerm(x, xs[1..], key);
      assert xs == [xs[0]] + xs[1..];
    }
  }

  /** No row of the insertion has a key above a bound that the new row and every old row respect. */
  lemma {:induction false} InsertDescBounded<T>(x: T, xs: seq<T>, key: T -> real, h: real)
    requires key(x) <= h
    requires forall m :: 0 <= m < |xs| ==> key(xs[m]) <= h
    ensures forall m :: 0 <= m < |InsertDesc(x, xs, key)| ==> key(InsertDesc(x, xs, key)[m]) <= h
  {
    if !(xs == [] || key(x) >= key(xs[0])) {
      InsertDescBounded(x, xs[1..], key, h);
    }
  }

  /** Inserting into an ordered list keeps it ordered. */
  lemma {:induction false} InsertDescOrdered<T>(x: T, xs: seq<T>, key: T -> real)
    requires NonIncreasing(xs, key)
    ensures NonIncreasing(InsertDesc(x, xs, key), key)
  {
    var r := InsertDesc(x, xs, key);
    if xs == [] || key(x) >= key(xs[0]) {
      forall i, j | 0 <= i < j < |r| ensures key(r[i]) >= key(r[j]) {
        if i > 0 {
          assert r[i] == xs[i - 1] && r[j] == xs[j - 1];
        } else if j > 1 {
          assert r[j] == xs[j - 1];
        }
      }
    } else {
      var tail := xs[1..];
      InsertDescOrdered(x, tail, key);
      InsertDescBounded(x, tail, key, key(xs[0]));
      var rt := InsertDesc(x, tail, key);
      assert r == [xs[0]] + rt;
      forall i, j | 0 <= i < j < |r| ensures key(r[i]) >= key(r[j]) {
        if i == 0 {
          assert r[j] == rt[j - 1];
        } else {
          assert r[i] == rt[i - 1] && r[j] == rt[j - 1];
        }
      }
    }
  }

  /** The descending sort is ordered and is a permutation of its input. */
  lemma SortDescSpec<T>(xs: seq<T>, key: T -> real)
    ensures NonIncreasing(SortDesc(xs, key), key)
    ensures multiset(SortDesc(xs, key)) == multiset(xs)
  {
    SortDescOrdered(xs, key);
    SortDescPerm(xs, key);
  }

  lemma {:induction false} SortDescOrdered<T>(xs: seq<T>, key: T -> real)
    ensures NonIncreasing(SortDesc(xs, key), key)
  {
    if xs != [] {
      SortDescOrdered(xs[1..], key);
      InsertDescOrdered(xs[0], SortDesc(xs[1..], key), key);
    }
  }

  lemma {:induction false} SortDescPerm<T>(xs: seq<T>, key: T -> real)
    ensures multiset(SortDesc(xs, key)) == multiset(xs)
  {
    if xs != [] {
      SortDescPerm(xs[1..], key);
      InsertDescPerm(xs[0], SortDesc(xs[1..], key), key);
      assert xs == [xs[0]] + xs[1..];
    }
  }

  /** `sort_values(key, ascending=False).head(k)` */
  function TopK<T>(xs: seq<T>, key: T -> real, k: nat): (r: seq<T>)
    ensures |r| == if |xs| < k then |xs| else k
  {
    var s := SortDesc(xs, key);
    if |s| < k then s else s[..k]
  }

  /** `sort_values(key, ascending=True).head(k)`: the same selection on the negated key. */
  function BottomK<T>(xs: seq<T>, key: T -> real, k: nat): (r: seq<T>)
    ensures |r| == if |xs| < k then |xs| else k
  {
    TopK(xs, Negated(key), k)
  }

  /** The key that orders rows the other way round. */
  function Negated<T>(key: T -> real): T -> real
  {
    x => -key(x)
  }

  /**
   * The top k rows are at most k of the input rows, ordered from largest
   * key down, and no row left out has a larger key than any row kept.
   */
  lemma TopKSpec<T>(xs: seq<T>, key: T -> real, k: nat)
    ensures var r := TopK(xs, key, k);
            && NonIncreasing(r, key)
            && multiset(r) <= multiset(xs)
            && forall x, y :: x in r && y in multiset(xs) - multiset(r) ==> key(x) >= key(y)
  {
    var s := SortDesc(xs, key);
    SortDescSpec(xs, key);
    var n := if |s| < k then |s| else k;
    assert TopK(xs, key, k) == s[..n];
    SortedPrefix(s, key, n);
  }

  /** A prefix of an ordered list is ordered, and dominates the rest of the list. */
  lemma SortedPrefix<T>(s: seq<T>, key: T -> real, n: nat)
    requires NonIncreasing(s, key) && n <= |s|
    ensures NonIncreasing(s[..n], key)
    ensures multiset(s[..n]) <= multiset(s)
    ensures forall x, y :: x in s[..n] && y in multiset(s) - multiset(s[..n]) ==> key(x) >= key(y)
  {
    var r := s[..n];
    var rest := s[n..];
    assert s == r + rest;
    assert multiset(s) == multiset(r) + multiset(rest);
    forall x, y | x in r && y in multiset(s) - multiset(r)
      ensures key(x) >= key(y)
    {
      assert y in multiset(rest);
      var i :| 0 <= i < |r| && r[i] == x;
      var j :| 0 <= j < |rest| && rest[j] == y;
      assert s[i] == x && s[n + j] == y;
    }
  }

  /** The bottom k rows are ordered from smallest key up, and no row left out has a smaller key. */
  lemma BottomKSpec<T>(xs: seq<T>, key: T -> real, k: nat)
    ensures var r := BottomK(xs, key, k);
            && (forall i, j :: 0 <= i < j < |r| ==> key(r[i]) <= key(r[j]))
            && multiset(r) <= multiset(xs)
            && forall x, y :: x in r && y in multiset(xs) - multiset(r) ==> key(x) <= key(y)
  {
    TopKSpec(xs, Negated(key), k);
    var r := BottomK(xs, key, k);
    forall i, j | 0 <= i < j < |r| ensures key(r[i]) <= key(r[j]) {
      assert Negated(key)(r[i]) >= Negated(key)(r[j]);
    }
    forall x, y | x in r && y in multiset(xs) - multiset(r) ensures key(x) <= key(y) {
      assert Negated(key)(x) >= Negated(key)(y);
    }
  }
}
