/** Tile-space geometry as the encoder sees it. Coordinates are integers:
    createTileGeom rounds every coordinate before encoding, so the `(int)`
    casts of the encoder keep the value and `Coordinate.equals` is equality. */
module TileGeometry {

  datatype Coord = Coord(x: int, y: int)

  /** Coordinates stay below 2^29 in magnitude, so that the encoder's deltas
      and their zig-zag values fit a Java `int`. */
  const COORD_LIMIT: int := 0x2000_0000

  predicate InRange(c: Coord) {
    -COORD_LIMIT <= c.x < COORD_LIMIT && -COORD_LIMIT <= c.y < COORD_LIMIT
  }

  predicate AllInRange(cs: seq<Coord>) {
    forall i :: 0 <= i < |cs| ==> InRange(cs[i])
  }

  /** A polygon: one exterior ring and its holes. */
  datatype Poly = Poly(shell: seq<Coord>, holes: seq<seq<Coord>>)

  /** The JTS geometry kinds. `Collection` is a plain GeometryCollection; the
      Multi* kinds are collections too in JTS, but every branch of the source
      tests for them before it tests for a collection. */
  datatype Geometry =
    | Point(pt: Coord)
    | MultiPoint(points: seq<Coord>)
    | LineString(coords: seq<Coord>)
    | MultiLineString(lines: seq<seq<Coord>>)
    | Polygon(poly: Poly)
    | MultiPolygon(polys: seq<Poly>)
    | Collection(children: seq<Geometry>)

  /** MVT geometry types (VectorTile.Tile.GeomType). */
  datatype GeomType = UNKNOWN | POINT | LINESTRING | POLYGON

  /** The six kinds that can become one MVT feature. */
  predicate IsPrimitive(g: Geometry) {
    !g.Collection?
  }

  function ToGeomType(g: Geometry): (t: GeomType)
    ensures t == UNKNOWN <==> !IsPrimitive(g)
    ensures t == POINT <==> g.Point? || g.MultiPoint?
    ensures t == LINESTRING <==> g.LineString? || g.MultiLineString?
    ensures t == POLYGON <==> g.Polygon? || g.MultiPolygon?
  {
    match g
    case Point(_) => POINT
    case MultiPoint(_) => POINT
    case LineString(_) => LINESTRING
    case MultiLineString(_) => LINESTRING
    case Polygon(_) => POLYGON
    case MultiPolygon(_) => POLYGON
    case Collection(_) => UNKNOWN
  }

  /** `Geometry.getNumGeometries()`: 1 for a single geometry. */
  function NumGeometries(g: Geometry): nat {
    match g
    case MultiPoint(ps) => |ps|
    case MultiLineString(ls) => |ls|
    case MultiPolygon(ps) => |ps|
    case Collection(cs) => |cs|
    case _ => 1
  }

  /** `getCoordinates()` of a point kind. */
  function PointCoords(g: Geometry): seq<Coord>
    requires g.Point? || g.MultiPoint?
  {
    if g.Point? then [g.pt] else g.points
  }

  /** The lines `getGeometryN(i)` yields for a line kind. */
  function LineParts(g: Geometry): seq<seq<Coord>>
    requires g.LineString? || g.MultiLineString?
  {
    if g.LineString? then [g.coords] else g.lines
  }

  /** The polygons `getGeometryN(i)` yields for a polygon kind. */
  function PolyParts(g: Geometry): seq<Poly>
    requires g.Polygon? || g.MultiPolygon?
  {
    if g.Polygon? then [g.poly] else g.polys
  }

  // ---------------------------------------------------------------------
  // Encodable inputs

  predicate PolyInRange(p: Poly) {
    AllInRange(p.shell) && forall i :: 0 <= i < |p.holes| ==> AllInRange(p.holes[i])
  }

  predicate NoEmptyLine(ls: seq<seq<Coord>>) {
    forall k :: 0 <= k < |ls| ==> |ls[k]| >= 1
  }

  /** A line kind has no empty line: the line encoder reads `geomCoords[0]`
      unguarded. */
  predicate LinesNonEmpty(g: Geometry) {
    (g.LineString? || g.MultiLineString?) ==> NoEmptyLine(LineParts(g))
  }

  predicate CoordsInRange(g: Geometry) {
    match g
    case Point(p) => InRange(p)
    case MultiPoint(ps) => AllInRange(ps)
    case LineString(cs) => AllInRange(cs)
    case MultiLineString(ls) => forall i :: 0 <= i < |ls| ==> AllInRange(ls[i])
    case Polygon(p) => PolyInRange(p)
    case MultiPolygon(ps) => forall i :: 0 <= i < |ps| ==> PolyInRange(ps[i])
    case Collection(_) => true
  }

  /** What the encoder needs of a geometry's value: no empty line, and
      coordinates within range. */
  predicate Encodable(g: Geometry) {
    LinesNonEmpty(g) && CoordsInRange(g)
  }
}
