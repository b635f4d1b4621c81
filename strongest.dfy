/**
  The strongest earthquake: Python's `max(features, key=magnitude)` followed
  by reading the winner's magnitude and location.
*/
module Strongest {
  import opened Wrappers
  import opened Quakes

  /** Every record carries a magnitude. */
  predicate AllPresent(fs: seq<Quake>) {
    forall i :: 0 <= i < |fs| ==> fs[i].mag.Some?
  }

  /** Record k has the greatest magnitude and is the first one, in list
      order, to have it. */
  ghost predicate IsFirstMax(fs: seq<Quake>, k: int) {
    && 0 <= k < |fs|
    && AllPresent(fs)
    && (forall j :: 0 <= j < |fs| ==> fs[j].mag.value <= fs[k].mag.value)
    && (forall j :: 0 <= j < k ==> fs[j].mag.value < fs[k].mag.value)
  }

  /** The index `max` settles on. It scans left to right and replaces the
      current best only by a strictly greater key. A single record is
      returned without any comparison, so only longer lists need every
      magnitude present. */
  function MaxIndex(fs: seq<Quake>): (k: nat)
    requires |fs| > 0
    requires |fs| == 1 || AllPresent(fs)
    ensures k < |fs|
    ensures AllPresent(fs) ==> IsFirstMax(fs, k)
  {
    if |fs| == 1 then 0
    else
      var k := MaxIndex(fs[..|fs| - 1]);
      if fs[|fs| - 1].mag.value > fs[k].mag.value then |fs| - 1 else k
  }

  /** At most one index is the first maximum. */
  lemma FirstMaxUnique(fs: seq<Quake>, k1: int, k2: int)
    requires IsFirstMax(fs, k1) && IsFirstMax(fs, k2)
    ensures k1 == k2
  {
    assert fs[k1].mag.value == fs[k2].mag.value;
  }

  /** The magnitude and location of the strongest earthquake. `max` fails on
      an empty list and when it has to compare a None magnitude; reading the
      location of the winner fails when it has fewer than two coordinates. */
  function GetMaximum(data: FeatureCollection): (r: Result<(Option<real>, Location), Error>)
    ensures r == Failure(EmptyFeatures) <==> |data.features| == 0
    ensures r == Failure(UnorderableMagnitude) <==>
              |data.features| >= 2 && !AllPresent(data.features)
    ensures r.Success? ==>
              forall i :: 0 <= i < |data.features| && data.features[i].mag.Some? ==>
                r.value.0.Some? && data.features[i].mag.value <= r.value.0.value
    ensures r.Success? ==>
              exists k :: 0 <= k < |data.features| &&
                data.features[k].mag == r.value.0 &&
                GetLocation(data.features[k]) == Success(r.value.1)
  {
    var fs := data.features;
    if |fs| == 0 then Failure(EmptyFeatures)
    else if |fs| >= 2 && !AllPresent(fs) then Failure(UnorderableMagnitude)
    else
      var strongest := fs[MaxIndex(fs)];
      match GetLocation(strongest)
      case Failure(e) => Failure(e)
      case Success(loc) => Success((GetMagnitude(strongest), loc))
  }

  /** When record k is the first strongest one (or the only record), and it
      has a location, that record's magnitude and location are the result. */
  lemma MaximumIsFirstStrongest(data: FeatureCollection, k: int)
    requires (|data.features| == 1 && k == 0) || IsFirstMax(data.features, k)
    requires |data.features[k].coords| >= 2
    ensures GetMaximum(data) ==
              Success((data.features[k].mag, (data.features[k].coords[1], data.features[k].coords[0])))
  {
    var fs := data.features;
    if |fs| >= 2 {
      FirstMaxUnique(fs, k, MaxIndex(fs));
    }
  }

  /** When record k is the first strongest one (or the only record), the
      result is `MissingCoordinate` exactly when k has fewer than two
      coordinates. */
  lemma MaximumMissingLocation(data: FeatureCollection, k: int)
    requires (|data.features| == 1 && k == 0) || IsFirstMax(data.features, k)
    ensures GetMaximum(data) == Failure(MissingCoordinate) <==> |data.features[k].coords| < 2
  {
    var fs := data.features;
    if |fs| >= 2 {
      FirstMaxUnique(fs, k, MaxIndex(fs));
    }
  }
}
