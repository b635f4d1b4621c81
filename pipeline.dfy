/**
  The aggregation steps composed as the script composes them: the extracted
  years and magnitudes feed the yearly statistics.
*/
module Pipeline {
  import opened Wrappers
  import opened Quakes
  import opened Strongest
  import opened Extraction
  import opened YearlyStats

  /** Across the two steps no record is lost or counted twice: the yearly
      frequencies plus the records without a magnitude make up the total
      count. */
  lemma PipelineCountsEveryRecord(data: FeatureCollection, years: seq<int>, magnitudes: seq<real>,
                                  uniqueYears: seq<int>, freqPerYear: seq<nat>, avgMagPerYear: seq<real>)
    requires IsExtraction(data.features, years, magnitudes)
    requires |years| == |magnitudes|
    requires IsYearlyStats(years, magnitudes, uniqueYears, freqPerYear, avgMagPerYear)
    ensures SumNat(freqPerYear) + MissingCount(data.features) == CountEarthquakes(data)
  {
    FrequenciesSumToLength(years, magnitudes, uniqueYears, freqPerYear, avgMagPerYear);
    CountSplitsOnMagnitude(data);
  }

  /** The years reported are exactly the years of the records that have a
      magnitude. */
  lemma PipelineReportsRecordYears(data: FeatureCollection, years: seq<int>, magnitudes: seq<real>,
                                   uniqueYears: seq<int>, freqPerYear: seq<nat>, avgMagPerYear: seq<real>)
    requires IsExtraction(data.features, years, magnitudes)
    requires |years| == |magnitudes|
    requires IsYearlyStats(years, magnitudes, uniqueYears, freqPerYear, avgMagPerYear)
    ensures forall y :: y in uniqueYears <==>
              exists j :: 0 <= j < |data.features| && data.features[j].mag.Some? && data.features[j].year == y
  {
    var fs := data.features;
    var ks := KeptIndices(fs);
    KeptIndicesSpec(fs);
    forall y
      ensures y in uniqueYears <==>
                exists j :: 0 <= j < |fs| && fs[j].mag.Some? && fs[j].year == y
    {
      if y in uniqueYears {
        assert y in years;
        var i :| 0 <= i < |years| && years[i] == y;
        assert fs[ks[i]].mag.Some? && fs[ks[i]].year == y;
      }
      if exists j :: 0 <= j < |fs| && fs[j].mag.Some? && fs[j].year == y {
        var j :| 0 <= j < |fs| && fs[j].mag.Some? && fs[j].year == y;
        assert j in ks;
        var i :| 0 <= i < |ks| && ks[i] == j;
        assert years[i] == y;
        assert y in years;
      }
    }
  }

  /** When no record has a magnitude, the extraction yields two empty lists
      (so there are no yearly statistics), while the count still includes
      every record. */
  lemma NoMagnitudes(data: FeatureCollection, years: seq<int>, magnitudes: seq<real>)
    requires forall j :: 0 <= j < |data.features| ==> data.features[j].mag.None?
    requires IsExtraction(data.features, years, magnitudes)
    ensures years == [] && magnitudes == []
    ensures MissingCount(data.features) == CountEarthquakes(data)
  {
    NothingKept(data.features);
    CountSplitsOnMagnitude(data);
  }

  /** Three records: magnitude 2.0 and 4.5 in 2001, 3.0 in 2002. */
  function ScenarioData(): FeatureCollection {
    FeatureCollection([
      Quake(Some(2.0), [-3.2, 55.9, 10.0], 2001),
      Quake(Some(4.5), [-1.5, 53.4, 5.0], 2001),
      Quake(Some(3.0), [-4.1, 50.4, 7.5], 2002)
    ])
  }

  /** In the worked example there are three earthquakes and the strongest is
      the 4.5 one, reported at (53.4, -1.5). */
  lemma ScenarioMaximum()
    ensures CountEarthquakes(ScenarioData()) == 3
    ensures GetMaximum(ScenarioData()) == Success((Some(4.5), (53.4, -1.5)))
  {
    assert IsFirstMax(ScenarioData().features, 1);
    MaximumIsFirstStrongest(ScenarioData(), 1);
  }

  /** In the worked example the extraction keeps all three records; since the
      extraction is unique, these are the lists the method returns. */
  lemma ScenarioExtraction()
    ensures IsExtraction(ScenarioData().features, [2001, 2001, 2002], [2.0, 4.5, 3.0])
  {
    var fs := ScenarioData().features;
    assert KeptIndices(fs) == [0, 1, 2] by {
      KeptIndicesStep(fs, 0);
      KeptIndicesStep(fs, 1);
      KeptIndicesStep(fs, 2);
      assert fs[..0] == [] && fs[..3] == fs;
    }
  }

  /** In the worked example the yearly statistics are years [2001, 2002],
      frequencies [2, 1] and means [3.25, 3.0]; since they are unique, these
      are what the method returns. */
  lemma ScenarioYearlyStats()
    ensures IsYearlyStats([2001, 2001, 2002], [2.0, 4.5, 3.0], [2001, 2002], [2, 1], [3.25, 3.0])
  {
    var years, mags := [2001, 2001, 2002], [2.0, 4.5, 3.0];
    var u, f, a := [2001, 2002], [2, 1], [3.25, 3.0];
    ScenarioGroups();
    ScenarioCounts();
    assert Sum([2.0, 4.5]) == 6.5 && Sum([3.0]) == 3.0 by {
      assert [2.0, 4.5][..1] == [2.0] && [2.0][..0] == [] && [3.0][..0] == [];
    }
    assert forall y :: y in u <==> y in years;
    assert a[0] == Sum(MagnitudesOfYear(years, mags, u[0])) / (f[0] as real);
    assert a[1] == Sum(MagnitudesOfYear(years, mags, u[1])) / (f[1] as real);
  }

  /** How often each year occurs in the worked example. */
  lemma ScenarioCounts()
    ensures multiset([2001, 2001, 2002])[2001] == 2 && multiset([2001, 2001, 2002])[2002] == 1
  {
    assert [2001, 2001, 2002] == [2001] + [2001] + [2002];
  }

  /** The magnitudes of each year of the worked example. */
  lemma ScenarioGroups()
    ensures MagnitudesOfYear([2001, 2001, 2002], [2.0, 4.5, 3.0], 2001) == [2.0, 4.5]
    ensures MagnitudesOfYear([2001, 2001, 2002], [2.0, 4.5, 3.0], 2002) == [3.0]
  {
    var years, mags := [2001, 2001, 2002], [2.0, 4.5, 3.0];
    assert years[..2] == [2001, 2001] && mags[..2] == [2.0, 4.5];
    assert years[..2][..1] == [2001] && mags[..2][..1] == [2.0];
    assert years[..2][..1][..0] == [] && mags[..2][..1][..0] == [];
  }
}
