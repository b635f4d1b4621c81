/**
  The earthquake records of one GeoJSON query result and the accessors that
  project a single field out of one record.
*/
module Quakes {
  import opened Wrappers

  /** One GeoJSON feature, reduced to the fields the analysis reads.
      `mag` is `properties.mag` (a JSON null becomes None);
      `coords` is `geometry.coordinates` in GeoJSON order
      [longitude, latitude, altitude, ...];
      `year` is the calendar year of `properties.time`, taken as given. */
  datatype Quake = Quake(mag: Option<real>, coords: seq<real>, year: int)

  /** The decoded response document; only its `features` array is used. */
  datatype FeatureCollection = FeatureCollection(features: seq<Quake>)

  /** The exceptions the aggregation can raise. */
  datatype Error =
    | EmptyFeatures         // max() over an empty sequence
    | UnorderableMagnitude  // a None magnitude compared with another magnitude
    | MissingCoordinate     // a coordinate list too short to index

  /** A (latitude, longitude) pair. */
  type Location = (real, real)

  /** The total number of earthquakes in the response. */
  function CountEarthquakes(data: FeatureCollection): nat {
    |data.features|
  }

  /** The magnitude of one record, None when the feed reports none. */
  function GetMagnitude(q: Quake): Option<real> {
    q.mag
  }

  /** The (latitude, longitude) of one record: the coordinates are swapped
      from GeoJSON order and any altitude is dropped; indexing the second
      coordinate fails when there is none. */
  function GetLocation(q: Quake): Result<Location, Error> {
    if |q.coords| < 2 then Failure(MissingCoordinate)
    else Success((q.coords[1], q.coords[0]))
  }

  /** A feature built from its GeoJSON fields reads back the magnitude it was
      built with and the location (lat, lon), whatever altitude follows. */
  lemma AccessorsOfFeature(mag: Option<real>, lat: real, lon: real, rest: seq<real>, year: int)
    ensures GetMagnitude(Quake(mag, [lon, lat] + rest, year)) == mag
    ensures GetLocation(Quake(mag, [lon, lat] + rest, year)) == Success((lat, lon))
  {
  }

  /** The location is defined exactly when there are at least two
      coordinates, and it does not depend on anything after the second. */
  lemma LocationNeedsTwoCoordinates(q: Quake, extra: seq<real>)
    ensures GetLocation(q).Success? <==> |q.coords| >= 2
    ensures GetLocation(q).Failure? ==> GetLocation(q).error == MissingCoordinate
    ensures |q.coords| >= 2 ==> GetLocation(q.(coords := q.coords + extra)) == GetLocation(q)
  {
  }
}
