# Earthquake statistics: a verified model of the aggregation pipeline

The script `earthquakes.py` fetches the earthquakes recorded in a UK bounding
box from a GeoJSON web service. It reports how many there were and which was
the strongest. It then groups the magnitudes by calendar year and reports, for
each year, the number of earthquakes and their mean magnitude, and it plots
both series.

This project models the in-memory part of that script: the record accessors,
the count, the strongest-event search, the year/magnitude extraction and the
per-year statistics. It proves what each step promises and how the steps fit
together.

- `wrappers.dfy` (`Wrappers`): `Option` (a JSON null is `None`) and `Result`
  (an exception the script would raise is a `Failure`).
- `quakes.dfy` (`Quakes`): one GeoJSON feature as `Quake(mag, coords, year)`.
  `coords` keeps GeoJSON order `[longitude, latitude, altitude, ...]`.
  The module also holds the response `FeatureCollection(features)`, the three
  error kinds, `CountEarthquakes`, `GetMagnitude` and `GetLocation`.
- `strongest.dfy` (`Strongest`): `GetMaximum`, with Python's
  `max(features, key=...)` modelled by `MaxIndex`. That is a left-to-right
  scan that replaces the best record only by a strictly greater magnitude.
- `extraction.dfy` (`Extraction`): `ExtractYearAndMagnitude`, a loop that
  builds the parallel `years` and `magnitudes` lists. Its contract is stated
  through `KeptIndices`, the ordered positions of the records that have a
  magnitude.
- `yearly_stats.dfy` (`YearlyStats`): `AnalyseYearlyStats`, a loop over the
  sorted distinct years (`SortedUnique` plays `np.unique`). For each year it
  appends the size and the mean of that year's magnitudes.
- `pipeline.dfy` (`Pipeline`): how extraction and yearly statistics compose,
  and the three-record worked example (2.0 and 4.5 in 2001, 3.0 in 2002).

Magnitudes are exact `real`s and the mean is exact division.

Two places where a natural design differs from what the script does; the
model follows the script:
- A strongest-event search that skipped `None` magnitudes, and failed only
  when no record had one, would be the obvious design. The script's `max`
  does not skip `None`. With two or more records, any `None`
  magnitude makes a comparison raise `TypeError`. A single record is returned
  without any comparison, and with it its `None` magnitude.
  `GetMaximum` models exactly this.
- A typed record would carry its location as a ready (latitude, longitude)
  pair. The script indexes `coordinates[1]` and `coordinates[0]`, so a record with
  fewer than two coordinates raises `IndexError`. `GetLocation` returns
  `Failure(MissingCoordinate)` for it.

## Model

| member | source | states |
|---|---|---|
| `Quakes.AccessorsOfFeature` | earthquakes.py:52-61 | A feature built from magnitude `mag` and GeoJSON position `[lon, lat] + rest` reads back `mag` (None included) and the location `(lat, lon)`: the accessors swap GeoJSON order and ignore any altitude. |
| `Quakes.LocationNeedsTwoCoordinates` | earthquakes.py:57-61 | The location exists exactly when there are at least two coordinates, fails with `MissingCoordinate` otherwise, and is unchanged by appending more coordinates. |
| `Strongest.MaxIndex` | earthquakes.py:67 | The index `max` ends on is in range; when every magnitude is present it is the first record, in list order, whose magnitude is greater than or equal to every other (`IsFirstMax`). |
| `Strongest.FirstMaxUnique` | earthquakes.py:67 | At most one index is the first maximum, so the tie-break is determined. |
| `Strongest.GetMaximum` | earthquakes.py:64-70 | Fails with `EmptyFeatures` exactly on an empty list. Fails with `UnorderableMagnitude` exactly when there are two or more records and one lacks a magnitude. On success the magnitude is at least every present magnitude, and magnitude and location come from one and the same record. |
| `Strongest.MaximumIsFirstStrongest` | earthquakes.py:64-70 | If record k is the first strongest one (or the only record) and has a location, the result is exactly k's magnitude and (latitude, longitude). |
| `Strongest.MaximumMissingLocation` | earthquakes.py:67-69 | If record k is the first strongest one (or the only record), the result is `MissingCoordinate` exactly when k has fewer than two coordinates. |
| `Extraction.KeptIndices` | earthquakes.py:86-92 | There are no more kept positions than records. |
| `Extraction.KeptIndicesSpec` | earthquakes.py:86-92 | The kept positions are strictly increasing and in range, each points at a record with a magnitude, and every record with a magnitude is among them: they select exactly the records with a magnitude, in list order. |
| `Extraction.KeptIndicesStep` | earthquakes.py:86-92 | One more record adds its own position to the kept positions exactly when its magnitude is present. |
| `Extraction.NothingKept` | earthquakes.py:90 | With no magnitude present anywhere, no record is kept. |
| `Extraction.ExtractYearAndMagnitude` | earthquakes.py:83-93 | The two lists have equal length, one entry per record with a magnitude, in list order. Entry i holds the magnitude and the year of the record at kept position i. Records without a magnitude contribute to neither list. |
| `Extraction.ExtractionUnique` | earthquakes.py:83-93 | The extraction's result is determined by the records: two results meeting its postcondition are the same lists. |
| `Extraction.CountSplitsOnMagnitude` | earthquakes.py:47-49 | The count of earthquakes is the number of records with a magnitude plus the number without: every record is counted once. |
| `YearlyStats.SortedUnique` | earthquakes.py:98 | The distinct years are strictly ascending (no duplicates) and contain exactly the values of the input. |
| `YearlyStats.StrictlyIncreasingUnique` | earthquakes.py:98 | Two strictly ascending sequences with the same elements are equal, so the distinct years are determined. |
| `YearlyStats.MagnitudesOfYear` | earthquakes.py:103 | The magnitudes collected for year y number exactly the occurrences of y among the years. Each of them is a magnitude whose paired year is y, and every such magnitude appears. |
| `YearlyStats.YearPositionsSpec` | earthquakes.py:103 | The positions of year y are strictly increasing and in range, each holds year y, and every position holding year y is among them. |
| `YearlyStats.MagnitudesOfYearAt` | earthquakes.py:103 | The magnitudes collected for year y are, in order and with repeats, the magnitudes at the positions of year y, so their sum and mean are fixed. |
| `YearlyStats.AnalyseYearlyStats` | earthquakes.py:97-107 | The distinct years ascend strictly and are exactly the input's years. The three lists have the same length. Each frequency is the number of occurrences of its year, at least 1. Each average is the sum of that year's magnitudes divided by the frequency. |
| `YearlyStats.YearlyStatsUnique` | earthquakes.py:97-107 | The three results are determined by the input, so running the analysis twice gives the same results. |
| `YearlyStats.FrequenciesSumToLength` | earthquakes.py:102-104 | The frequencies sum to the number of (year, magnitude) pairs. |
| `YearlyStats.MeanWithinBounds` | earthquakes.py:105 | The mean of a non-empty list lies between any lower and upper bound of its elements. |
| `YearlyStats.AverageWithinYear` | earthquakes.py:103-105 | Each yearly average lies between any bounds of the magnitudes recorded in that year, so between their least and greatest. |
| `Pipeline.PipelineCountsEveryRecord` | earthquakes.py:112-115 | Fed the extraction's output, the yearly frequencies plus the records without a magnitude add up to the earthquake count. |
| `Pipeline.PipelineReportsRecordYears` | earthquakes.py:112-115 | Fed the extraction's output, the reported years are exactly the years of the records that have a magnitude. |
| `Pipeline.NoMagnitudes` | earthquakes.py:86-93 | When no record has a magnitude, the extraction yields two empty lists, while the count of records without a magnitude equals the whole count. |
| `Pipeline.ScenarioMaximum` | earthquakes.py:64-70 | In the three-record example the count is 3 and the strongest is (4.5, (53.4, -1.5)). |
| `Pipeline.ScenarioExtraction` | earthquakes.py:83-93 | In the example the extraction is years [2001, 2001, 2002] with magnitudes [2.0, 4.5, 3.0]. |
| `Pipeline.ScenarioGroups` | earthquakes.py:103 | In the example the magnitudes of 2001 are [2.0, 4.5] and those of 2002 are [3.0]. |
| `Pipeline.ScenarioYearlyStats` | earthquakes.py:97-107 | In the example the statistics are years [2001, 2002], frequencies [2, 1] and means [3.25, 3.0]. |

Four functions carry no contract of their own; lemmas state what they promise:
- `Quakes.CountEarthquakes` (earthquakes.py:47-49), the list length:
  `Extraction.CountSplitsOnMagnitude`.
- `Quakes.GetMagnitude` (earthquakes.py:52-54), the field itself:
  `Quakes.AccessorsOfFeature`.
- `Quakes.GetLocation` (earthquakes.py:57-61): `Quakes.AccessorsOfFeature`
  and `Quakes.LocationNeedsTwoCoordinates`.
- `YearlyStats.Mean` (`np.mean`, earthquakes.py:105):
  `YearlyStats.MeanWithinBounds` and `YearlyStats.AverageWithinYear`.

## Left out

- `get_data` (HTTP request, JSON decoding, debug printing) is I/O through
  foreign libraries. The model starts from the decoded feature list. The
  unreachable statements after its `return` are dead code.
- A missing `features`, `properties`, `mag`, `time`, `geometry` or
  `coordinates` key (`KeyError`) is not modelled: a record is a typed value
  with those fields.
- The year of a record comes from `datetime.fromtimestamp(time / 1000)`,
  which depends on the local time zone and the standard library. `year` is a
  given field of each record. The script converts `time` for every record
  before it tests `mag is not None`. So a null `time` (`TypeError`) or an
  out-of-range timestamp (`OverflowError`, `OSError`, `ValueError`) aborts the
  extraction, even for a record that would be skipped. None of these errors
  is modelled.
- Printing, chart drawing, `savefig` and `show` are output only and are not
  modelled. The same holds for the module-level statements that chain the
  steps; `Pipeline` states their composition as lemmas.
- Floating point: magnitudes are exact reals and `np.mean` is exact
  `sum / count`. Rounding and NaN are not modelled.
- YearlyStats.AnalyseYearlyStats: requires lists of equal length, the only way
  the script calls it. With a longer magnitude list the comprehension raises
  `IndexError`; with a shorter one a year may get an empty group and a NaN
  mean. Neither case is modelled.
- `np.unique` returns a NumPy integer array; the model uses unbounded
  integers, so there is no overflow.
