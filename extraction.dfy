/**
  `extract_year_and_magnitude`: one pass over the features that builds two
  parallel lists, years and magnitudes, skipping records without a magnitude.
*/
module Extraction {
  import opened Wrappers
  import opened Quakes

  /** The positions, in list order, of the records that carry a magnitude. */
  function KeptIndices(fs: seq<Quake>): (ks: seq<nat>)
    ensures |ks| <= |fs|
  {
    if fs == [] then []
    else
      var ks := KeptIndices(fs[..|fs| - 1]);
      if fs[|fs| - 1].mag.Some? then ks + [|fs| - 1] else ks
  }

  /** The kept positions are strictly increasing and in range, each points at
      a record with a magnitude, and no such record is missed. */
  lemma {:induction false} KeptIndicesSpec(fs: seq<Quake>)
    ensures forall i :: 0 <= i < |KeptIndices(fs)| ==>
              KeptIndices(fs)[i] < |fs| && fs[KeptIndices(fs)[i]].mag.Some?
    ensures forall i, j :: 0 <= i < j < |KeptIndices(fs)| ==> KeptIndices(fs)[i] < KeptIndices(fs)[j]
    ensures forall j :: 0 <= j < |fs| && fs[j].mag.Some? ==> j in KeptIndices(fs)
    decreases |fs|
  {
    if fs != [] {
      var n := |fs| - 1;
      KeptIndicesSpec(fs[..n]);
      KeptIndicesStep(fs, n);
      assert fs[..n + 1] == fs;
    }
  }

  /** Extending the prefix by one record adds its index exactly when it has
      a magnitude. */
  lemma KeptIndicesStep(fs: seq<Quake>, n: nat)
    requires n < |fs|
    ensures KeptIndices(fs[..n + 1]) ==
              KeptIndices(fs[..n]) + (if fs[n].mag.Some? then [n] else [])
  {
    assert fs[..n + 1][..n] == fs[..n];
  }

  /** With no magnitude anywhere, nothing is kept. */
  lemma {:induction false} NothingKept(fs: seq<Quake>)
    requires forall j :: 0 <= j < |fs| ==> fs[j].mag.None?
    ensures KeptIndices(fs) == []
    decreases |fs|
  {
    if fs != [] {
      NothingKept(fs[..|fs| - 1]);
    }
  }

  /** The number of records whose magnitude is None. */
  function MissingCount(fs: seq<Quake>): nat {
    if fs == [] then 0
    else MissingCount(fs[..|fs| - 1]) + (if fs[|fs| - 1].mag.None? then 1 else 0)
  }

  /** Entry i of the parallel lists `years` and `magnitudes` holds the year
      and the magnitude of record ks[i]. */
  ghost predicate Aligned(fs: seq<Quake>, ks: seq<nat>, years: seq<int>, magnitudes: seq<real>) {
    && |years| == |ks|
    && |magnitudes| == |ks|
    && forall i :: 0 <= i < |ks| ==>
         ks[i] < |fs| && fs[ks[i]].mag == Some(magnitudes[i]) && fs[ks[i]].year == years[i]
  }

  /** `years` and `magnitudes` are parallel lists, one entry per record that
      has a magnitude, in list order. */
  ghost predicate IsExtraction(fs: seq<Quake>, years: seq<int>, magnitudes: seq<real>) {
    Aligned(fs, KeptIndices(fs), years, magnitudes)
  }

  /** Walks the features, appending (year, magnitude) for each record whose
      magnitude is present. */
  method ExtractYearAndMagnitude(data: FeatureCollection) returns (years: seq<int>, magnitudes: seq<real>)
    ensures IsExtraction(data.features, years, magnitudes)
  {
    var fs := data.features;
    years, magnitudes := [], [];
    for n := 0 to |fs|
      invariant Aligned(fs, KeptIndices(fs[..n]), years, magnitudes)
    {
      KeptIndicesStep(fs, n);
      assert fs[..n + 1][..n] == fs[..n];
      var eq := fs[n];
      var year := eq.year;
      var mag := GetMagnitude(eq);
      if mag.Some? {
        years := years + [year];
        magnitudes := magnitudes + [mag.value];
      }
    }
    assert fs[..|fs|] == fs;
  }

  /** The extraction is determined by its input: two results that meet
      IsExtraction are the same lists. */
  lemma ExtractionUnique(fs: seq<Quake>, y1: seq<int>, m1: seq<real>, y2: seq<int>, m2: seq<real>)
    requires IsExtraction(fs, y1, m1) && IsExtraction(fs, y2, m2)
    ensures y1 == y2 && m1 == m2
  {
    forall i | 0 <= i < |m1|
      ensures m1[i] == m2[i] && y1[i] == y2[i]
    {
      assert fs[KeptIndices(fs)[i]].mag == Some(m1[i]) == Some(m2[i]);
    }
  }

  /** Every record is counted once: it either has a magnitude and yields an
      extracted entry, or has none and is skipped. */
  lemma {:induction false} CountSplitsOnMagnitude(data: FeatureCollection)
    ensures CountEarthquakes(data) == |KeptIndices(data.features)| + MissingCount(data.features)
    decreases |data.features|
  {
    var fs := data.features;
    if fs != [] {
      CountSplitsOnMagnitude(FeatureCollection(fs[..|fs| - 1]));
    }
  }
}
