/**
 * The summary statistics the anomaly scan takes of a column of numbers, as
 * NumPy computes them (`mean`, `median`, `std`'s variance, `min`, `max`),
 * over exact reals.
 */
module Statistics {

  function Sum(xs: seq<real>): real
  {
    if xs == [] then 0.0 else Sum(xs[..|xs| - 1]) + xs[|xs| - 1]
  }

  /** `np.min`: the least value, which is one of the values. */
  function Min(xs: seq<real>): (m: real)
    requires |xs| > 0
    ensures m in xs
    ensures forall i :: 0 <= i < |xs| ==> m <= xs[i]
  {
    if |xs| == 1 then xs[0]
    else
      var m := Min(xs[..|xs| - 1]);
      assert forall i :: 0 <= i < |xs| - 1 ==> xs[..|xs| - 1][i] == xs[i];
      if xs[|xs| - 1] < m then xs[|xs| - 1] else m
  }

  /** `np.max`: the greatest value, which is one of the values. */
  function Max(xs: seq<real>): (m: real)
    requires |xs| > 0
    ensures m in xs
    ensures forall i :: 0 <= i < |xs| ==> xs[i] <= m
  {
    if |xs| == 1 then xs[0]
    else
      var m := Max(xs[..|xs| - 1]);
      assert forall i :: 0 <= i < |xs| - 1 ==> xs[..|xs| - 1][i] == xs[i];
      if xs[|xs| - 1] > m then xs[|xs| - 1] else m
  }

  /** `np.mean`. */
  function Mean(xs: seq<real>): real
    requires |xs| > 0
  {
    Sum(xs) / (|xs| as real)
  }

  /** A sum lies between the count times the least and the count times the greatest bound. */
  lemma {:induction false} SumBounds(xs: seq<real>, lo: real, hi: real)
    requires forall i :: 0 <= i < |xs| ==> lo <= xs[i] <= hi
    ensures (|xs| as real) * lo <= Sum(xs) <= (|xs| as real) * hi
  {
    if xs != [] {
      var init := xs[..|xs| - 1];
      assert forall i :: 0 <= i < |init| ==> init[i] == xs[i];
      SumBounds(init, lo, hi);
      var n := |init| as real;
      assert (|xs| as real) * lo == n * lo + lo;
      assert (|xs| as real) * hi == n * hi + hi;
    }
  }

  /** The mean lies between the least and the greatest value. */
  lemma MeanBounds(xs: seq<real>)
    requires |xs| > 0
    ensures Min(xs) <= Mean(xs) <= Max(xs)
  {
    MeanWithin(xs, Min(xs), Max(xs));
  }

  /** Values within bounds have their mean within the same bounds. */
  lemma MeanWithin(xs: seq<real>, lo: real, hi: real)
    requires |xs| > 0
    requires forall i :: 0 <= i < |xs| ==> lo <= xs[i] <= hi
    ensures lo <= Mean(xs) <= hi
  {
    SumBounds(xs, lo, hi);
    DivideBounds(Sum(xs), |xs| as real, lo, hi);
  }

  lemma DivideBounds(a: real, n: real, lo: real, hi: real)
    requires n > 0.0 && n * lo <= a <= n * hi
    ensures lo <= a / n <= hi
  {
    var q := a / n;
    assert a == n * q;
    NonNegativeFactor(n, q - lo);
    NonNegativeFactor(n, hi - q);
  }

  lemma NonNegativeFactor(n: real, d: real)
    requires n > 0.0 && n * d >= 0.0
    ensures d >= 0.0
  {
  }

  predicate Sorted(xs: seq<real>)
  {
    forall i, j :: 0 <= i < j < |xs| ==> xs[i] <= xs[j]
  }

  /** `x` placed into the sorted `s` before the first larger element. */
  function InsertSorted(x: real, s: seq<real>): seq<real>
  {
    if s == [] || x <= s[0] then [x] + s else [s[0]] + InsertSorted(x, s[1..])
  }

  /** The values in ascending order, as `np.median` orders them. */
  function Sort(xs: seq<real>): seq<real>
  {
    if xs == [] then [] else InsertSorted(xs[0], Sort(xs[1..]))
  }

  lemma {:induction false} InsertSortedPerm(x: real, s: seq<real>)
    ensures multiset(InsertSorted(x, s)) == multiset{x} + multiset(s)
  {
    if s != [] && x > s[0] {
      InsertSortedPerm(x, s[1..]);
      assert s == [s[0]] + s[1..];
    }
  }

  lemma SortedTail(s: seq<real>)
    requires Sorted(s) && s != []
    ensures Sorted(s[1..])
  {
    forall i, j | 0 <= i < j < |s[1..]| ensures s[1..][i] <= s[1..][j] {
      assert s[1..][i] == s[i + 1] && s[1..][j] == s[j + 1];
    }
  }

  /** Every element of `rest` is at least `lo`, when each is `x` or an element of `s`, all of which are. */
  lemma LowerBound(lo: real, x: real, s: seq<real>, rest: seq<real>)
    requires lo <= x && forall k :: 0 <= k < |s| ==> lo <= s[k]
    requires multiset(rest) == multiset{x} + multiset(s)
    ensures forall j :: 0 <= j < |rest| ==> lo <= rest[j]
  {
    forall j | 0 <= j < |rest| ensures lo <= rest[j] {
      assert rest[j] in multiset(rest);
      if rest[j] != x {
        assert rest[j] in multiset(s);
      }
    }
  }

  /** A value no larger than any element of a sorted sequence can go in front of it. */
  lemma SortedCons(a: real, t: seq<real>)
    requires Sorted(t) && forall j :: 0 <= j < |t| ==> a <= t[j]
    ensures Sorted([a] + t)
  {
    var r := [a] + t;
    forall i, j | 0 <= i < j < |r| ensures r[i] <= r[j] {
      assert r[j] == t[j - 1];
      if i > 0 {
        assert r[i] == t[i - 1];
      }
    }
  }

  lemma {:induction false} InsertSortedSorted(x: real, s: seq<real>)
    requires Sorted(s)
    ensures Sorted(InsertSorted(x, s))
  {
    if s == [] || x <= s[0] {
      SortedCons(x, s);
    } else {
      var rest := InsertSorted(x, s[1..]);
      SortedTail(s);
      InsertSortedSorted(x, s[1..]);
      InsertSortedPerm(x, s[1..]);
      LowerBound(s[0], x, s[1..], rest);
      SortedCons(s[0], rest);
    }
  }

  /** Sorting gives an ascending rearrangement of the same values. */
  lemma {:induction false} SortProps(xs: seq<real>)
    ensures Sorted(Sort(xs))
    ensures multiset(Sort(xs)) == multiset(xs)
  {
    if xs != [] {
      SortProps(xs[1..]);
      InsertSortedSorted(xs[0], Sort(xs[1..]));
      InsertSortedPerm(xs[0], Sort(xs[1..]));
      assert xs == [xs[0]] + xs[1..];
    }
  }

  /** `np.median`: the middle value in ascending order, or the mean of the two middle ones. */
  function Median(xs: seq<real>): real
    requires |xs| > 0
  {
    SortLength(xs);
    Middle(Sort(xs))
  }

  /** The middle element of `s`, or the mean of its two middle elements when its length is even. */
  function Middle(s: seq<real>): real
    requires |s| > 0
  {
    var n := |s|;
    if n % 2 == 1 then s[n / 2] else (s[n / 2 - 1] + s[n / 2]) / 2.0
  }

  /** In a sorted sequence the middle lies between the two middle elements. */
  lemma MiddleBetween(s: seq<real>)
    requires |s| > 0 && Sorted(s)
    ensures s[(|s| - 1) / 2] <= Middle(s) <= s[|s| / 2]
  {
    var n := |s|;
    if n % 2 == 0 {
      assert s[n / 2 - 1] <= s[n / 2];
    }
  }

  lemma SortLength(xs: seq<real>)
    ensures |Sort(xs)| == |xs|
  {
    SortProps(xs);
    assert |multiset(Sort(xs))| == |multiset(xs)|;
  }

  /** The median lies between the two middle values in ascending order (one and the same for an odd count). */
  lemma MedianMiddle(xs: seq<real>)
    requires |xs| > 0
    ensures var s := Sort(xs);
      && |s| == |xs| && Sorted(s)
      && s[(|s| - 1) / 2] <= Median(xs) <= s[|s| / 2]
  {
    SortProps(xs);
    SortLength(xs);
    MiddleBetween(Sort(xs));
  }

  /** Every value in ascending order is one of the values, so it lies between the least and the greatest. */
  lemma SortedWithin(xs: seq<real>, i: int)
    requires 0 <= i < |Sort(xs)|
    ensures Min(xs) <= Sort(xs)[i] <= Max(xs)
  {
    var s := Sort(xs);
    SortProps(xs);
    SortLength(xs);
    assert s[i] in multiset(xs) by {
      assert s[i] in multiset(s);
    }
    var k :| 0 <= k < |xs| && xs[k] == s[i];
  }

  /** The median lies between the least and the greatest value. */
  lemma MedianBounds(xs: seq<real>)
    requires |xs| > 0
    ensures Min(xs) <= Median(xs) <= Max(xs)
  {
    var s := Sort(xs);
    SortProps(xs);
    SortLength(xs);
    SortedWithin(xs, (|s| - 1) / 2);
    SortedWithin(xs, |s| / 2);
    MiddleWithin(s, Min(xs), Max(xs));
  }

  /** The middle of a sorted sequence lies within any bounds on its two middle elements. */
  lemma MiddleWithin(s: seq<real>, lo: real, hi: real)
    requires |s| > 0 && Sorted(s)
    requires lo <= s[(|s| - 1) / 2] && s[|s| / 2] <= hi
    ensures lo <= Middle(s) <= hi
  {
    MiddleBetween(s);
  }

  /** In a sorted sequence, the first half (rounded up) lies at or below the middle and the second half at or above it. */
  lemma MiddleSplits(s: seq<real>)
    requires |s| > 0 && Sorted(s)
    ensures forall i :: 0 <= i < (|s| + 1) / 2 ==> s[i] <= Middle(s)
    ensures forall i :: |s| / 2 <= i < |s| ==> Middle(s) <= s[i]
  {
    MiddleBetween(s);
    var n := |s|;
    forall i | 0 <= i < (n + 1) / 2 ensures s[i] <= Middle(s) {
      assert s[i] <= s[(n - 1) / 2];
    }
    forall i | n / 2 <= i < n ensures Middle(s) <= s[i] {
      assert s[n / 2] <= s[i];
    }
  }

  /** At least half of the values lie at or below the median and at least half at or above it. */
  lemma MedianSplits(xs: seq<real>)
    requires |xs| > 0
    ensures var s := Sort(xs);
      && |s| == |xs|
      && (forall i :: 0 <= i < (|s| + 1) / 2 ==> s[i] <= Median(xs))
      && (forall i :: |s| / 2 <= i < |s| ==> Median(xs) <= s[i])
  {
    SortProps(xs);
    SortLength(xs);
    MiddleSplits(Sort(xs));
  }

  /** The squared deviations from `m`, summed. */
  function SquaredDeviations(xs: seq<real>, m: real): real
  {
    if xs == [] then 0.0
    else SquaredDeviations(xs[..|xs| - 1], m) + (xs[|xs| - 1] - m) * (xs[|xs| - 1] - m)
  }

  /** The population variance `np.std` takes the square root of. */
  function Variance(xs: seq<real>): real
    requires |xs| > 0
  {
    SquaredDeviations(xs, Mean(xs)) / (|xs| as real)
  }

  lemma {:induction false} SquaredDeviationsNonNegative(xs: seq<real>, m: real)
    ensures SquaredDeviations(xs, m) >= 0.0
  {
    if xs != [] {
      SquaredDeviationsNonNegative(xs[..|xs| - 1], m);
      var d := xs[|xs| - 1] - m;
      assert d * d >= 0.0;
    }
  }

  /** The variance is never negative, so its square root exists. */
  lemma VarianceNonNegative(xs: seq<real>)
    requires |xs| > 0
    ensures Variance(xs) >= 0.0
  {
    SquaredDeviationsNonNegative(xs, Mean(xs));
  }

  /** A column of one repeated value has no spread: mean, median, minimum and maximum are that value and the variance is zero. */
  lemma {:induction false} ConstantColumn(xs: seq<real>, v: real)
    requires |xs| > 0 && forall i :: 0 <= i < |xs| ==> xs[i] == v
    ensures Mean(xs) == v && Median(xs) == v && Min(xs) == v && Max(xs) == v
    ensures Variance(xs) == 0.0
  {
    MeanBounds(xs);
    MedianBounds(xs);
    SquaresZero(xs, v);
  }

  lemma {:induction false} SquaresZero(xs: seq<real>, v: real)
    requires forall i :: 0 <= i < |xs| ==> xs[i] == v
    ensures SquaredDeviations(xs, v) == 0.0
  {
    if xs != [] {
      var init := xs[..|xs| - 1];
      assert forall i :: 0 <= i < |init| ==> init[i] == xs[i];
      SquaresZero(init, v);
    }
  }
}
