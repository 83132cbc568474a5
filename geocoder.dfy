/**
 * The geocoder (`find_coords`): query an external geocoding service once for
 * each distinct venue and keep the answers it gives.
 *
 * The service is an oracle `geocode`. It is queried with every distinct value
 * of the location column, the absent one included, as `Series.unique()` keeps it.
 */
module Geocoder {
  import opened Wrappers
  import opened Tables

  /** A latitude or longitude; no arithmetic is done with either. */
  type Degree(==)

  datatype Coord = Coord(latitude: Degree, longitude: Degree)

  /** The coordinate table the loop builds: every location the service answers for. */
  function CoordTable(locations: seq<Option<string>>, geocode: Option<string> -> Option<Coord>): map<Option<string>, Coord>
  {
    map l | l in locations && geocode(l).Some? :: geocode(l).value
  }

  /**
   * `find_coords`: a loop over the distinct locations that records a location
   * only when the service returns a result. `queries` lists the service calls
   * in the order they are made.
   */
  method FindCoords(locations: seq<Option<string>>, geocode: Option<string> -> Option<Coord>)
    returns (coords: map<Option<string>, Coord>, queries: seq<Option<string>>)
    ensures forall l :: l in coords ==> l in locations
    ensures forall l :: l in locations ==> (l in coords <==> geocode(l).Some?)
    ensures forall l :: l in coords ==> geocode(l) == Some(coords[l])
    ensures forall l :: l in queries <==> l in locations
    ensures forall i, j :: 0 <= i < j < |queries| ==> queries[i] != queries[j]
    ensures coords == CoordTable(locations, geocode)
  {
    var unique := Unique(locations);
    coords, queries := map[], [];
    for i := 0 to |unique|
      invariant queries == unique[..i]
      invariant forall l :: l in coords <==> l in unique[..i] && geocode(l).Some?
      invariant forall l :: l in coords ==> geocode(l) == Some(coords[l])
    {
      var location := unique[i];
      var info := geocode(location);
      queries := queries + [location];
      assert unique[..i + 1] == unique[..i] + [location];
      if info.None? {
        continue;
      }
      coords := coords[location := info.value];
    }
    assert unique[..|unique|] == unique;
    assert coords == CoordTable(locations, geocode);
  }
}
