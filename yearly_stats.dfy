/**
  `analyse_yearly_stats`: group the magnitudes by year and report, for each
  distinct year in ascending order, how many earthquakes it had and their
  mean magnitude.
*/
module YearlyStats {

  /** Each element is smaller than the next: ascending, no duplicates. */
  predicate StrictlyIncreasing(s: seq<int>) {
    forall i, j :: 0 <= i < j < |s| ==> s[i] < s[j]
  }

  /** Puts y into its place in a strictly increasing sequence, unless it is
      already there. */
  function Insert(s: seq<int>, y: int): (r: seq<int>)
    requires StrictlyIncreasing(s)
    ensures StrictlyIncreasing(r)
    ensures forall x :: x in r <==> x in s || x == y
  {
    if s == [] then [y]
    else if y < s[0] then [y] + s
    else if y == s[0] then s
    else
      var t := Insert(s[1..], y);
      assert forall i :: 0 <= i < |t| ==> t[i] in t;
      [s[0]] + t
  }

  /** `np.unique`: the distinct values of s, in ascending order. */
  function SortedUnique(s: seq<int>): (r: seq<int>)
    ensures StrictlyIncreasing(r)
    ensures forall x :: x in r <==> x in s
  {
    if s == [] then [] else Insert(SortedUnique(s[..|s| - 1]), s[|s| - 1])
  }

  /** The inner comprehension: the magnitudes, in order, whose year is y.
      There are as many as there are occurrences of y, and they are exactly
      the magnitudes recorded in year y. */
  function MagnitudesOfYear(years: seq<int>, magnitudes: seq<real>, y: int): (r: seq<real>)
    requires |years| == |magnitudes|
    ensures |r| == multiset(years)[y]
    ensures forall x :: x in r <==>
              exists i :: 0 <= i < |years| && years[i] == y && magnitudes[i] == x
  {
    if years == [] then []
    else
      var n := |years| - 1;
      assert years == years[..n] + [years[n]];
      MagnitudesOfYear(years[..n], magnitudes[..n], y) + (if years[n] == y then [magnitudes[n]] else [])
  }

  /** The positions, in order, whose year is y. */
  function YearPositions(years: seq<int>, y: int): (ps: seq<nat>)
    ensures |ps| <= |years|
  {
    if years == [] then []
    else
      var n := |years| - 1;
      YearPositions(years[..n], y) + (if years[n] == y then [n] else [])
  }

  /** The positions of year y are strictly increasing and in range, each holds
      year y, and no position holding year y is missed. */
  lemma {:induction false} YearPositionsSpec(years: seq<int>, y: int)
    ensures forall k :: 0 <= k < |YearPositions(years, y)| ==>
              YearPositions(years, y)[k] < |years| && years[YearPositions(years, y)[k]] == y
    ensures forall k, l :: 0 <= k < l < |YearPositions(years, y)| ==>
              YearPositions(years, y)[k] < YearPositions(years, y)[l]
    ensures forall i :: 0 <= i < |years| && years[i] == y ==> i in YearPositions(years, y)
    decreases |years|
  {
    if years != [] {
      var n := |years| - 1;
      YearPositionsSpec(years[..n], y);
    }
  }

  /** The magnitudes of year y are, in order, the magnitudes at the positions
      of year y, repeats included: entry k is magnitudes[YearPositions(years, y)[k]]. */
  lemma {:induction false} MagnitudesOfYearAt(years: seq<int>, magnitudes: seq<real>, y: int)
    requires |years| == |magnitudes|
    ensures |MagnitudesOfYear(years, magnitudes, y)| == |YearPositions(years, y)|
    ensures forall k :: 0 <= k < |YearPositions(years, y)| ==>
              YearPositions(years, y)[k] < |magnitudes| &&
              MagnitudesOfYear(years, magnitudes, y)[k] == magnitudes[YearPositions(years, y)[k]]
    decreases |years|
  {
    if years != [] {
      var n := |years| - 1;
      MagnitudesOfYearAt(years[..n], magnitudes[..n], y);
    }
  }

  function Sum(s: seq<real>): real {
    if s == [] then 0.0 else Sum(s[..|s| - 1]) + s[|s| - 1]
  }

  function SumNat(s: seq<nat>): nat {
    if s == [] then 0 else SumNat(s[..|s| - 1]) + s[|s| - 1]
  }

  /** `np.mean`, taken on exact reals. */
  function Mean(s: seq<real>): real
    requires |s| > 0
  {
    Sum(s) / (|s| as real)
  }

  /** The three parallel results: the distinct years of `years` in ascending
      order; for each of them the number of records of that year; and the
      mean of that year's magnitudes. */
  ghost predicate IsYearlyStats(years: seq<int>, magnitudes: seq<real>,
                                uniqueYears: seq<int>, freqPerYear: seq<nat>, avgMagPerYear: seq<real>)
    requires |years| == |magnitudes|
  {
    && StrictlyIncreasing(uniqueYears)
    && (forall y :: y in uniqueYears <==> y in years)
    && |freqPerYear| == |uniqueYears|
    && |avgMagPerYear| == |uniqueYears|
    && forall k :: 0 <= k < |uniqueYears| ==>
         && freqPerYear[k] == multiset(years)[uniqueYears[k]]
         && freqPerYear[k] >= 1
         && avgMagPerYear[k] == Sum(MagnitudesOfYear(years, magnitudes, uniqueYears[k])) / (freqPerYear[k] as real)
  }

  /** For each distinct year, collects that year's magnitudes and appends
      their count and their mean. */
  method AnalyseYearlyStats(years: seq<int>, magnitudes: seq<real>)
    returns (uniqueYears: seq<int>, freqPerYear: seq<nat>, avgMagPerYear: seq<real>)
    requires |years| == |magnitudes|
    ensures IsYearlyStats(years, magnitudes, uniqueYears, freqPerYear, avgMagPerYear)
  {
    uniqueYears := SortedUnique(years);
    freqPerYear, avgMagPerYear := [], [];
    for k := 0 to |uniqueYears|
      invariant |freqPerYear| == k && |avgMagPerYear| == k
      invariant forall j :: 0 <= j < k ==>
                  && freqPerYear[j] == multiset(years)[uniqueYears[j]]
                  && freqPerYear[j] >= 1
                  && avgMagPerYear[j] == Sum(MagnitudesOfYear(years, magnitudes, uniqueYears[j])) / (freqPerYear[j] as real)
    {
      var y := uniqueYears[k];
      var mags := MagnitudesOfYear(years, magnitudes, y);
      assert y in years;
      freqPerYear := freqPerYear + [|mags|];
      avgMagPerYear := avgMagPerYear + [Mean(mags)];
    }
  }

  /** Two strictly increasing sequences with the same elements are equal. */
  lemma {:induction false} StrictlyIncreasingUnique(a: seq<int>, b: seq<int>)
    requires StrictlyIncreasing(a) && StrictlyIncreasing(b)
    requires forall x :: x in a <==> x in b
    ensures a == b
    decreases |a|
  {
    if a != [] {
      assert a[0] in a;
    }
    if b != [] {
      assert b[0] in b;
    }
    if a != [] && b != [] {
      assert a[0] == b[0];
      assert a == [a[0]] + a[1..];
      assert b == [b[0]] + b[1..];
      forall x
        ensures x in a[1..] <==> x in b[1..]
      {
        if x in a[1..] {
          var i :| 0 <= i < |a[1..]| && a[1..][i] == x;
          assert a[0] < a[i + 1];
          assert x in b && x != b[0];
        }
        if x in b[1..] {
          var i :| 0 <= i < |b[1..]| && b[1..][i] == x;
          assert b[0] < b[i + 1];
          assert x in a && x != a[0];
        }
      }
      StrictlyIncreasingUnique(a[1..], b[1..]);
    }
  }

  /** The statistics are a function of their input: running the analysis
      twice on the same lists yields the same three results. */
  lemma YearlyStatsUnique(years: seq<int>, magnitudes: seq<real>,
                          u1: seq<int>, f1: seq<nat>, a1: seq<real>,
                          u2: seq<int>, f2: seq<nat>, a2: seq<real>)
    requires |years| == |magnitudes|
    requires IsYearlyStats(years, magnitudes, u1, f1, a1)
    requires IsYearlyStats(years, magnitudes, u2, f2, a2)
    ensures u1 == u2 && f1 == f2 && a1 == a2
  {
    StrictlyIncreasingUnique(u1, u2);
  }

  /** How many elements of ys occur in u. */
  function CountIn(ys: seq<int>, u: seq<int>): nat {
    if ys == [] then 0
    else CountIn(ys[..|ys| - 1], u) + (if ys[|ys| - 1] in u then 1 else 0)
  }

  lemma {:induction false} CountInAll(ys: seq<int>, u: seq<int>)
    requires forall i :: 0 <= i < |ys| ==> ys[i] in u
    ensures CountIn(ys, u) == |ys|
    decreases |ys|
  {
    if ys != [] {
      var n := |ys| - 1;
      CountInAll(ys[..n], u);
    }
  }

  /** Adding a new last value v to u adds the occurrences of v in ys. */
  lemma {:induction false} CountInSnoc(ys: seq<int>, u: seq<int>, v: int)
    requires v !in u
    ensures CountIn(ys, u + [v]) == CountIn(ys, u) + multiset(ys)[v]
    decreases |ys|
  {
    if ys != [] {
      var n := |ys| - 1;
      CountInSnoc(ys[..n], u, v);
      assert ys == ys[..n] + [ys[n]];
      assert multiset(ys) == multiset(ys[..n]) + multiset{ys[n]};
      assert ys[n] in u + [v] <==> ys[n] in u || ys[n] == v;
    }
  }

  /** Summing the occurrence counts of distinct values counts the elements of
      ys that are among those values. */
  lemma {:induction false} SumOfCounts(ys: seq<int>, u: seq<int>, f: seq<nat>)
    requires StrictlyIncreasing(u)
    requires |f| == |u|
    requires forall k :: 0 <= k < |u| ==> f[k] == multiset(ys)[u[k]]
    ensures SumNat(f) == CountIn(ys, u)
    decreases |u|
  {
    if u == [] {
      CountInNone(ys);
    } else {
      var n := |u| - 1;
      SumOfCounts(ys, u[..n], f[..n]);
      assert u[n] !in u[..n];
      CountInSnoc(ys, u[..n], u[n]);
      assert u[..n] + [u[n]] == u;
    }
  }

  lemma {:induction false} CountInNone(ys: seq<int>)
    ensures CountIn(ys, []) == 0
    decreases |ys|
  {
    if ys != [] {
      CountInNone(ys[..|ys| - 1]);
    }
  }

  /** The yearly frequencies add up to the number of (year, magnitude)
      pairs: every pair falls in exactly one year. */
  lemma FrequenciesSumToLength(years: seq<int>, magnitudes: seq<real>,
                               uniqueYears: seq<int>, freqPerYear: seq<nat>, avgMagPerYear: seq<real>)
    requires |years| == |magnitudes|
    requires IsYearlyStats(years, magnitudes, uniqueYears, freqPerYear, avgMagPerYear)
    ensures SumNat(freqPerYear) == |years|
  {
    assert StrictlyIncreasing(uniqueYears) && |freqPerYear| == |uniqueYears|;
    assert forall k :: 0 <= k < |uniqueYears| ==> freqPerYear[k] == multiset(years)[uniqueYears[k]];
    SumOfCounts(years, uniqueYears, freqPerYear);
    assert forall y :: y in years ==> y in uniqueYears;
    forall i | 0 <= i < |years|
      ensures years[i] in uniqueYears
    {
      assert years[i] in years;
    }
    CountInAll(years, uniqueYears);
  }

  /** Bounds on every element bound the sum. */
  lemma {:induction false} SumWithinBounds(s: seq<real>, lo: real, hi: real)
    requires forall i :: 0 <= i < |s| ==> lo <= s[i] <= hi
    ensures (|s| as real) * lo <= Sum(s) <= (|s| as real) * hi
    decreases |s|
  {
    if s != [] {
      var n := |s| - 1;
      SumWithinBounds(s[..n], lo, hi);
      assert (|s| as real) * lo == (n as real) * lo + lo;
      assert (|s| as real) * hi == (n as real) * hi + hi;
    }
  }

  /** The mean lies between any lower and upper bound of its elements. */
  lemma MeanWithinBounds(s: seq<real>, lo: real, hi: real)
    requires |s| > 0
    requires forall i :: 0 <= i < |s| ==> lo <= s[i] <= hi
    ensures lo <= Mean(s) <= hi
  {
    SumWithinBounds(s, lo, hi);
    var n := |s| as real;
    assert Mean(s) * n == Sum(s);
  }

  /** Each yearly average lies between any lower and upper bound of the
      magnitudes recorded in that year; in particular between their least
      and their greatest. */
  lemma AverageWithinYear(years: seq<int>, magnitudes: seq<real>,
                          uniqueYears: seq<int>, freqPerYear: seq<nat>, avgMagPerYear: seq<real>,
                          k: int, lo: real, hi: real)
    requires |years| == |magnitudes|
    requires IsYearlyStats(years, magnitudes, uniqueYears, freqPerYear, avgMagPerYear)
    requires 0 <= k < |uniqueYears|
    requires forall i :: 0 <= i < |years| && years[i] == uniqueYears[k] ==> lo <= magnitudes[i] <= hi
    ensures lo <= avgMagPerYear[k] <= hi
  {
    var g := MagnitudesOfYear(years, magnitudes, uniqueYears[k]);
    forall i | 0 <= i < |g|
      ensures lo <= g[i] <= hi
    {
      assert g[i] in g;
    }
    MeanWithinBounds(g, lo, hi);
  }
}
