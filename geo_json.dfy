/** The search-box builder of geoJson/index.js (copied verbatim into
    hurricane-selfie.js): four corners, each at the same distance from one
    centre on the bearings 315, 45, 135 and 225 degrees, written out as a
    closed GeoJSON polygon ring with longitude first.

    Numbers are exact reals. `Math.sin`, `Math.cos`, `Math.asin` and
    `Math.atan2` are the fields of a `Trig` parameter, so the great-circle
    formula keeps its shape while the trigonometry stays uninterpreted. */
module GeoJson {

  datatype GeoPoint = GeoPoint(latitude: real, longitude: real)

  datatype BoundingBox = BoundingBox(
    northWestPoint: GeoPoint,
    northEastPoint: GeoPoint,
    southEastPoint: GeoPoint,
    southWestPoint: GeoPoint)

  /** A GeoJSON geometry: `kind` is its `type` member; `coordinates` holds
      the rings, each a sequence of `[longitude, latitude]` positions. */
  datatype Polygon = Polygon(kind: string, coordinates: seq<seq<seq<real>>>)

  /** The four functions of JavaScript's `Math` the formula calls. */
  datatype Trig = Trig(
    sin: real -> real,
    cos: real -> real,
    asin: real -> real,
    atan2: (real, real) -> real)

  const EARTH_RADIUS_KM: real := 6371.0
  /** `Math.PI` */
  const PI: real := 3.141592653589793
  const POLYGON: string := "Polygon"
  const NORTH_WEST_BEARING: real := 315.0
  const NORTH_EAST_BEARING: real := 45.0
  const SOUTH_EAST_BEARING: real := 135.0
  const SOUTH_WEST_BEARING: real := 225.0
  /** The number of positions in the closed ring. */
  const RING_LENGTH: nat := 5

  /** Degrees to radians. */
  function Rad(d: real): real {
    d * PI / 180.0
  }

  /** Radians to degrees. */
  function Deg(r: real): real {
    r * 180.0 / PI
  }

  /** Over exact reals the two conversions undo each other. */
  lemma {:induction false} RadDegInverse(x: real)
    ensures Deg(Rad(x)) == x
    ensures Rad(Deg(x)) == x
  {
  }

  /** The point reached from (latD, lonD) after `d` km on the initial
      bearing `brngD`, on a sphere of radius 6371 km. */
  function DestinationPoint(trig: Trig, latD: real, lonD: real, d: real, brngD: real): GeoPoint {
    var lat := Rad(latD);
    var lon := Rad(lonD);
    var brng := Rad(brngD);
    var delta := d / EARTH_RADIUS_KM;
    var dLat := trig.asin(trig.sin(lat) * trig.cos(delta) + trig.cos(lat) * trig.sin(delta) * trig.cos(brng));
    var dLon := lon + trig.atan2(trig.sin(brng) * trig.sin(delta) * trig.cos(lat),
                                 trig.cos(delta) - trig.sin(lat) * trig.sin(dLat));
    GeoPoint(Deg(dLat), Deg(dLon))
  }

  /** `boundingBox`: the four corners around one centre at one distance. */
  function BoundingBoxAround(trig: Trig, lat: real, lon: real, d: real): BoundingBox {
    BoundingBox(
      DestinationPoint(trig, lat, lon, d, NORTH_WEST_BEARING),
      DestinationPoint(trig, lat, lon, d, NORTH_EAST_BEARING),
      DestinationPoint(trig, lat, lon, d, SOUTH_EAST_BEARING),
      DestinationPoint(trig, lat, lon, d, SOUTH_WEST_BEARING))
  }

  /** A GeoJSON position: longitude first. */
  function Position(p: GeoPoint): (pos: seq<real>)
    ensures |pos| == 2 && pos[0] == p.longitude && pos[1] == p.latitude
  {
    [p.longitude, p.latitude]
  }

  /** `geoJsonBoundingBox`: a Polygon with one ring of five positions that
      walks NW, NE, SE, SW and closes on NW again. */
  function GeoJsonBoundingBox(trig: Trig, lat: real, lon: real, d: real): (p: Polygon)
    ensures p.kind == POLYGON
    ensures |p.coordinates| == 1 && |p.coordinates[0]| == RING_LENGTH
    ensures p.coordinates[0][0] == p.coordinates[0][RING_LENGTH - 1]
    ensures forall k :: 0 <= k < RING_LENGTH ==> |p.coordinates[0][k]| == 2
  {
    var bb := BoundingBoxAround(trig, lat, lon, d);
    var ring := [
      Position(bb.northWestPoint),
      Position(bb.northEastPoint),
      Position(bb.southEastPoint),
      Position(bb.southWestPoint),
      Position(bb.northWestPoint)
    ];
    Polygon(POLYGON, [ring])
  }

  /** The bearing of the k-th ring position: 315 degrees, then a quarter
      turn clockwise per step, so that the fifth position is the first again. */
  function RingBearing(k: nat): real {
    ((315 + 90 * k) % 360) as real
  }

  /** Every ring position is the destination from the same centre at the
      same distance, on the bearing of its place in the ring. */
  lemma {:induction false} RingFollowsBearings(trig: Trig, lat: real, lon: real, d: real, k: nat)
    requires k < RING_LENGTH
    ensures GeoJsonBoundingBox(trig, lat, lon, d).coordinates[0][k]
      == Position(DestinationPoint(trig, lat, lon, d, RingBearing(k)))
  {
    var bb := BoundingBoxAround(trig, lat, lon, d);
    var ring := GeoJsonBoundingBox(trig, lat, lon, d).coordinates[0];
    assert ring == [Position(bb.northWestPoint), Position(bb.northEastPoint), Position(bb.southEastPoint),
                    Position(bb.southWestPoint), Position(bb.northWestPoint)];
    var bearings := [NORTH_WEST_BEARING, NORTH_EAST_BEARING, SOUTH_EAST_BEARING, SOUTH_WEST_BEARING, NORTH_WEST_BEARING];
    assert RingBearing(k) == bearings[k] by {
      BearingStep(k);
    }
  }

  /** The five bearings of the ring, written out. */
  lemma {:induction false} BearingStep(k: nat)
    requires k < RING_LENGTH
    ensures RingBearing(k) == [NORTH_WEST_BEARING, NORTH_EAST_BEARING, SOUTH_EAST_BEARING, SOUTH_WEST_BEARING, NORTH_WEST_BEARING][k]
  {
  }

  /** Reads the four corners back out of a ring, undoing the longitude-first order. */
  function BoxOfRing(ring: seq<seq<real>>): BoundingBox
    requires |ring| >= 4 && forall k :: 0 <= k < 4 ==> |ring[k]| == 2
  {
    BoundingBox(
      GeoPoint(ring[0][1], ring[0][0]),
      GeoPoint(ring[1][1], ring[1][0]),
      GeoPoint(ring[2][1], ring[2][0]),
      GeoPoint(ring[3][1], ring[3][0]))
  }

  /** The polygon loses nothing: the box comes back from its ring. */
  lemma {:induction false} PolygonKeepsBox(trig: Trig, lat: real, lon: real, d: real)
    ensures var ring := GeoJsonBoundingBox(trig, lat, lon, d).coordinates[0];
      BoxOfRing(ring) == BoundingBoxAround(trig, lat, lon, d)
  {
    var bb := BoundingBoxAround(trig, lat, lon, d);
    var ring := GeoJsonBoundingBox(trig, lat, lon, d).coordinates[0];
    assert ring[0] == Position(bb.northWestPoint);
    assert ring[1] == Position(bb.northEastPoint);
    assert ring[2] == Position(bb.southEastPoint);
    assert ring[3] == Position(bb.southWestPoint);
  }
}
