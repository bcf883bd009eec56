/** What `toFeature` and `toFeatures` compute, stated on geometry values:
    the polygon rules (degenerate rings, winding, dominating holes), the
    per-kind command accumulation, the feature record and the id
    assignment of a batch. Each loop of the source has a function here that
    runs it from a given index and state. */
module FeatureSpec {
  import opened Wrappers
  import opened TileGeometry
  import opened Encoding
  import opened CursorCodec
  import opened RingArea
  import opened CommandEncoder
  import opened Flatten

  /** `MvtUtil.shouldClosePath`: only polygon rings end with a ClosePath. */
  function ShouldClosePath(t: GeomType): bool {
    t == POLYGON
  }

  /** The feature record the protobuf builder produces: id, type and
      command buffer (tags are not modelled). */
  datatype Feature = Feature(id: int, geomType: GeomType, geometry: seq<nat>)

  // ---------------------------------------------------------------------
  // Polygons

  /** An exterior ring as it is encoded: reversed when its signed area is
      negative. */
  function OrientShell(s: seq<Coord>): seq<Coord> {
    if TwiceSignedArea(s) < 0 then Reverse(s) else s
  }

  /** An interior ring as it is encoded: reversed when its signed area is
      positive. */
  function OrientHole(h: seq<Coord>): seq<Coord> {
    if TwiceSignedArea(h) > 0 then Reverse(h) else h
  }

  /** A ring the area test keeps has at least three coordinates. */
  lemma KeptRingLong(s: seq<Coord>)
    requires !RoundsToZero(TwiceSignedArea(s))
    ensures |s| >= 3
  {
  }

  /** State of the interior-ring loop: the polygon's commands so far
      (`nextPolyGeom`), the cursor, the current ring values and `valid`. */
  datatype HoleState = HoleState(cmds: seq<nat>, cursor: Coord, holes: seq<seq<Coord>>, valid: bool)

  /** An interior ring that does not invalidate its polygon: its area rounds
      to zero, or it is smaller than the exterior of doubled area `ext`. */
  predicate HoleFits(ext: int, h: seq<Coord>) {
    RoundsToZero(TwiceSignedArea(h)) || Abs(TwiceSignedArea(h)) < Abs(ext)
  }

  /** What one interior ring turns into: its commands, the cursor after
      them, the ring's new value and whether it fits. */
  datatype RingOut = RingOut(cmds: seq<nat>, cursor: Coord, ring: seq<Coord>, fits: bool)

  /** The body of the interior-ring loop, for an exterior ring of doubled
      signed area `ext`: a ring whose area rounds to zero is skipped;
      otherwise it is oriented, then either found too large (the ring is at
      least as large as the exterior) or encoded as a closed ring. */
  function HoleEncode(ext: int, cursor: Coord, h: seq<Coord>): (r: RingOut)
    ensures r.ring == if RoundsToZero(TwiceSignedArea(h)) then h else OrientHole(h)
    ensures r.fits <==> HoleFits(ext, h)
  {
    var a := TwiceSignedArea(h);
    if RoundsToZero(a) then RingOut([], cursor, h, true)
    else if Abs(ext) <= Abs(a) then RingOut([], cursor, OrientHole(h), false)
    else
      KeptRingLong(h);
      var e := LinesCmds(cursor, OrientHole(h), true, 2);
      RingOut(e.cmds, e.cursor, OrientHole(h), true)
  }

  /** One turn of the interior-ring loop on ring `i`. */
  function HoleStep(ext: int, i: nat, st: HoleState): (r: HoleState)
    requires i < |st.holes|
    ensures |r.holes| == |st.holes|
    ensures forall k :: 0 <= k < |st.holes| && k != i ==> r.holes[k] == st.holes[k]
    ensures r.holes[i] == if RoundsToZero(TwiceSignedArea(st.holes[i])) then st.holes[i] else OrientHole(st.holes[i])
    ensures r.valid <==> HoleFits(ext, st.holes[i])
    ensures st.cmds <= r.cmds
  {
    var o := HoleEncode(ext, st.cursor, st.holes[i]);
    HoleState(st.cmds + o.cmds, o.cursor, st.holes[i := o.ring], o.fits)
  }

  /** The interior-ring loop from ring `i`; it ends after the last ring or
      at the first ring that invalidates the polygon. Its properties are the
      `Holes` lemmas of `FeatureProperties`. */
  function HolesRun(ext: int, i: nat, st: HoleState): (r: HoleState)
    requires i <= |st.holes|
    ensures |r.holes| == |st.holes|
    decreases |st.holes| - i
  {
    if i == |st.holes| || !st.valid then st
    else HolesRun(ext, i + 1, HoleStep(ext, i, st))
  }

  /** What one polygon adds to the feature's commands, where it leaves the
      cursor and what its rings hold afterwards. */
  datatype PolyResult = PolyResult(cmds: seq<nat>, cursor: Coord, poly: Poly)

  /** One turn of the polygon loop of `toFeature`. */
  function PolyEncode(cursor: Coord, p: Poly): PolyResult {
    var ext := TwiceSignedArea(p.shell);
    if RoundsToZero(ext) then PolyResult([], cursor, p)
    else
      KeptRingLong(p.shell);
      var shell := OrientShell(p.shell);
      var e := LinesCmds(cursor, shell, true, 2);
      var r := HolesRun(ext, 0, HoleState(e.cmds, e.cursor, p.holes, true));
      PolyResult(if r.valid then r.cmds else [], r.cursor, Poly(shell, r.holes))
  }

  /** State of the polygon loop: `mvtGeom`, the cursor and the polygons'
      current values. */
  datatype PolysState = PolysState(cmds: seq<nat>, cursor: Coord, polys: seq<Poly>)

  /** The polygon loop from polygon `i`. Its contract only keeps the list's
      length; what it computes is stated by `PolysRunCmds` and the polygon
      lemmas in `FeatureProperties`. */
  function PolysRun(i: nat, st: PolysState): (r: PolysState)
    requires i <= |st.polys|
    ensures |r.polys| == |st.polys|
    decreases |st.polys| - i
  {
    if i == |st.polys| then st
    else
      var r := PolyEncode(st.cursor, st.polys[i]);
      PolysRun(i + 1, PolysState(st.cmds + r.cmds, r.cursor, st.polys[i := r.poly]))
  }

  // ---------------------------------------------------------------------
  // Lines and features

  /** The line loop of `toFeature` from part `i`. */
  function PartsRun(ls: seq<seq<Coord>>, close: bool, i: nat, st: Encoded): Encoded
    requires i <= |ls| && NoEmptyLine(ls)
    decreases |ls| - i
  {
    if i == |ls| then st
    else
      var e := LinesCmds(st.cursor, ls[i], close, 1);
      PartsRun(ls, close, i + 1, Encoded(st.cmds + e.cmds, e.cursor))
  }

  /** The commands, cursor and new value of a geometry after the kind
      dispatch of `toFeature`. */
  datatype GeomOut = GeomOut(cmds: seq<nat>, cursor: Coord, value: Geometry)

  /** The kind dispatch of `toFeature`: points in one run, each line with
      minimum LineTo count 1, each polygon through the polygon rules. */
  function GeomCmds(cursor: Coord, g: Geometry): GeomOut
    requires LinesNonEmpty(g)
  {
    if g.Point? || g.MultiPoint? then
      var e := PtsCmds(cursor, PointCoords(g));
      GeomOut(e.cmds, e.cursor, g)
    else if g.LineString? || g.MultiLineString? then
      var e := PartsRun(LineParts(g), ShouldClosePath(LINESTRING), 0, Encoded([], cursor));
      GeomOut(e.cmds, e.cursor, g)
    else if g.MultiPolygon? || g.Polygon? then
      var s := PolysRun(0, PolysState([], cursor, PolyParts(g)));
      GeomOut(s.cmds, s.cursor, if g.Polygon? then Polygon(s.polys[0]) else MultiPolygon(s.polys))
    else
      GeomOut([], cursor, g)
  }

  /** The feature `toFeature` returns (`None` for null), the cursor and the
      geometry's new value. */
  datatype FeatureOut = FeatureOut(feature: Option<Feature>, cursor: Coord, value: Geometry)

  function EncodeFeature(cursor: Coord, g: Geometry, featureId: int): (r: FeatureOut)
    requires LinesNonEmpty(g)
    ensures r.feature.Some? ==>
      && ToGeomType(g) != UNKNOWN
      && r.feature.value == Feature(featureId, ToGeomType(g), GeomCmds(cursor, g).cmds)
      && |r.feature.value.geometry| >= 1
    ensures ToGeomType(g) != UNKNOWN && |GeomCmds(cursor, g).cmds| >= 1 ==>
      r.feature == Some(Feature(featureId, ToGeomType(g), GeomCmds(cursor, g).cmds))
    ensures !IsPrimitive(g) ==> r == FeatureOut(None, cursor, g)
    ensures r.value == GeomCmds(cursor, g).value
  {
    var t := ToGeomType(g);
    if t == UNKNOWN then FeatureOut(None, cursor, g)
    else
      var o := GeomCmds(cursor, g);
      FeatureOut(if |o.cmds| < 1 then None else Some(Feature(featureId, t, o.cmds)), o.cursor, o.value)
  }

  // ---------------------------------------------------------------------
  // Batches

  function OptionList(o: Option<Feature>): seq<Feature> {
    if o.Some? then [o.value] else []
  }

  /** State of the `toFeatures` loop: the features so far, the next id and
      the geometries' current values. */
  datatype BatchState = BatchState(features: seq<Feature>, nextId: int, values: seq<Geometry>)

  /** The feature `toFeature` gives for `g` encoded from the origin with id
      `id` (`None` for null). An accepted geometry with an empty line, on
      which the source throws, never reaches it: `EncodeBatch` excludes it. */
  function FeatureFromOrigin(g: Geometry, id: int): Option<Feature> {
    if LinesNonEmpty(g) then EncodeFeature(Coord(0, 0), g, id).feature else None
  }

  /** The geometry as `toFeature` leaves it when it encodes `g` from the
      origin. */
  function ValueFromOrigin(g: Geometry): Geometry {
    if LinesNonEmpty(g) then GeomCmds(Coord(0, 0), g).value else g
  }

  /** The `toFeatures` loop from geometry `i`, for a per-geometry encoder
      giving the feature (`feature`) and the geometry's new value
      (`rewrite`): a geometry the filter rejects is passed over, any other
      is encoded with the next id, which is consumed whether or not a
      feature results. Its properties are the `BatchRun` lemmas of
      `BatchProperties`. */
  function BatchRun(feature: (Geometry, int) -> Option<Feature>, rewrite: Geometry -> Geometry,
                    accept: Geometry -> bool, i: nat, st: BatchState): (r: BatchState)
    requires i <= |st.values|
    ensures |r.values| == |st.values|
    decreases |st.values| - i
  {
    if i == |st.values| then st
    else
      var g := st.values[i];
      if !accept(g) then BatchRun(feature, rewrite, accept, i + 1, st)
      else
        var next := BatchState(st.features + OptionList(feature(g, st.nextId)), st.nextId + 1, st.values[i := rewrite(g)]);
        BatchRun(feature, rewrite, accept, i + 1, next)
  }

  /** What a flat list needs to be encoded: no empty line in a geometry the
      filter accepts. A rejected geometry is never read. */
  predicate AcceptedLinesNonEmpty(gs: seq<Geometry>, accept: Geometry -> bool) {
    forall k :: 0 <= k < |gs| && accept(gs[k]) ==> LinesNonEmpty(gs[k])
  }

  /** `toFeatures` on a flat list: `toFeature` from the origin for every
      geometry the filter accepts, ids from 1. */
  function EncodeBatch(gs: seq<Geometry>, accept: Geometry -> bool): (r: BatchState)
    requires AcceptedLinesNonEmpty(gs, accept)
  {
    if gs == [] then BatchState([], 1, gs)
    else BatchRun(FeatureFromOrigin, ValueFromOrigin, accept, 0, BatchState([], 1, gs))
  }

  /** What the flat list of `g` needs to be encoded: no empty line in an
      accepted geometry. */
  predicate FlatLinesNonEmpty(g: Geometry, accept: Geometry -> bool) {
    var flat := FlatSpec(g);
    flat.Some? ==> AcceptedLinesNonEmpty(flat.value, accept)
  }

  /** `toFeatures` on one geometry: its flat list, then the batch; `None`
      when flattening throws. */
  function EncodeGeometry(g: Geometry, accept: Geometry -> bool): Option<seq<Feature>>
    requires FlatLinesNonEmpty(g, accept)
  {
    var flat := FlatSpec(g);
    if flat.None? then None else Some(EncodeBatch(flat.value, accept).features)
  }
}
