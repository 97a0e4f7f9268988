/**
 The relational store the engine reads from, reduced to the three read-only
 lookups the engine uses. Every lookup is total: a missing row yields the
 zero record the program's queries start from.
 */
module Storage {

  /** A position on the abstract plane (one unit is about 100 metres). */
  datatype Point = Point(x: real, y: real)

  const Origin: Point := Point(0.0, 0.0)

  /** A row of the vehicles table. `kind` is the transport type string and
      `avgSpeed` the nominal speed in km/h. */
  datatype VehicleRecord = VehicleRecord(
    id: int,
    routeId: int,
    kind: string,
    avgSpeed: real,
    routeName: string)

  const ZeroVehicle: VehicleRecord := VehicleRecord(0, 0, "", 0.0, "")

  /** A snapshot of the store: vehicles in id order, the ordered stop ids of
      each route, and the coordinates of each stop. */
  datatype Db = Db(
    vehicles: seq<VehicleRecord>,
    routeStops: map<int, seq<int>>,
    stops: map<int, Point>)

  /** Coordinates of a stop; an unknown id yields the origin. */
  function StopCoords(db: Db, stopId: int): (p: Point)
    ensures stopId !in db.stops ==> p == Origin
  {
    if stopId in db.stops then db.stops[stopId] else Origin
  }

  /** Ordered stop ids of a route; an unknown route has none. */
  function RouteStops(db: Db, routeId: int): (ids: seq<int>)
    ensures routeId !in db.routeStops ==> ids == []
  {
    if routeId in db.routeStops then db.routeStops[routeId] else []
  }

  /** The vehicle row with the given id. Each matching row overwrites the
      result, so the last one wins; no match yields the zero record. */
  function VehicleById(vs: seq<VehicleRecord>, id: int): (v: VehicleRecord)
    ensures v == ZeroVehicle || (v in vs && v.id == id)
    ensures (forall i :: 0 <= i < |vs| ==> vs[i].id != id) ==> v == ZeroVehicle
    ensures (exists i :: 0 <= i < |vs| && vs[i].id == id) ==> v in vs && v.id == id
  {
    if |vs| == 0 then ZeroVehicle
    else if vs[|vs| - 1].id == id then vs[|vs| - 1]
    else
      var v := VehicleById(vs[..|vs| - 1], id);
      assert forall i :: 0 <= i < |vs| - 1 ==> vs[..|vs| - 1][i] == vs[i];
      v
  }
}
