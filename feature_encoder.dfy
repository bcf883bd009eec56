/** `toFeature` and `toFeatures` as the source runs them: loops that append
    to command lists and move a shared cursor. The polygon rings the source
    reverses in place are values here: each method returns the geometry as
    it stands afterwards, and each is proved to do what the matching
    function of `FeatureSpec` computes. */
module FeatureEncoder {
  import opened Wrappers
  import opened TileGeometry
  import opened CursorCodec
  import opened RingArea
  import opened CommandEncoder
  import opened FeatureSpec
  import opened Flatten

  /** The body of the interior-ring loop of `toFeature`: the ring comes back
      reversed when its winding is wrong; `fits` is false when the ring
      invalidates the polygon. */
  method HoleToGeomCmds(h: seq<Coord>, ext: int, cursor: Cursor) returns (cmds: seq<nat>, ring: seq<Coord>, fits: bool)
    requires AllInRange(h) && InRange(cursor.Pos())
    modifies cursor
    ensures HoleEncode(ext, old(cursor.Pos()), h) == RingOut(cmds, cursor.Pos(), ring, fits)
    ensures InRange(cursor.Pos())
  {
    ring := h;
    var interiorArea := TwiceSignedArea(ring);
    if RoundsToZero(interiorArea) {
      return [], ring, true;
    }
    if interiorArea > 0 {
      ring := Reverse(ring);
    }
    if Abs(ext) <= Abs(interiorArea) {
      return [], ring, false;
    }
    KeptRingLong(h);
    cmds := LinesToGeomCmds(ring, true, cursor, 2);
    fits := true;
  }

  /** The interior-ring loop of `toFeature` for a polygon whose exterior has
      doubled signed area `ext` and whose commands so far are `prefix`; it
      stops at the first ring that invalidates the polygon. */
  method HolesToGeomCmds(holes: seq<seq<Coord>>, ext: int, prefix: seq<nat>, cursor: Cursor)
    returns (cmds: seq<nat>, rings: seq<seq<Coord>>, valid: bool)
    requires forall k :: 0 <= k < |holes| ==> AllInRange(holes[k])
    requires InRange(cursor.Pos())
    modifies cursor
    ensures HolesRun(ext, 0, HoleState(prefix, old(cursor.Pos()), holes, true)) == HoleState(cmds, cursor.Pos(), rings, valid)
    ensures InRange(cursor.Pos())
  {
    ghost var final := HolesRun(ext, 0, HoleState(prefix, cursor.Pos(), holes, true));
    cmds, rings, valid := prefix, holes, true;
    var ringIndex := 0;
    while ringIndex < |rings|
      invariant 0 <= ringIndex <= |rings| == |holes| && valid
      invariant InRange(cursor.Pos())
      invariant forall k :: ringIndex <= k < |rings| ==> AllInRange(rings[k])
      invariant HolesRun(ext, ringIndex, HoleState(cmds, cursor.Pos(), rings, true)) == final
    {
      ghost var before := HoleState(cmds, cursor.Pos(), rings, true);
      assert HolesRun(ext, ringIndex, before) == HolesRun(ext, ringIndex + 1, HoleStep(ext, ringIndex, before));
      var ringCmds, ring, fits := HoleToGeomCmds(rings[ringIndex], ext, cursor);
      cmds, rings := cmds + ringCmds, rings[ringIndex := ring];
      assert HoleStep(ext, ringIndex, before) == HoleState(cmds, cursor.Pos(), rings, fits);
      if !fits {
        valid := false;
        break;
      }
      ringIndex := ringIndex + 1;
    }
  }

  /** One turn of the polygon loop of `toFeature`: the exterior ring is
      skipped when its area rounds to zero, reversed when its area is
      negative and encoded; then the interior rings; the polygon's commands
      are kept only while it stays valid. */
  method PolyToGeomCmds(p: Poly, cursor: Cursor) returns (cmds: seq<nat>, poly: Poly)
    requires PolyInRange(p) && InRange(cursor.Pos())
    modifies cursor
    ensures PolyEncode(old(cursor.Pos()), p) == PolyResult(cmds, cursor.Pos(), poly)
    ensures InRange(cursor.Pos())
  {
    var exteriorRing := p.shell;
    var exteriorArea := TwiceSignedArea(exteriorRing);
    if RoundsToZero(exteriorArea) {
      return [], p;
    }
    if exteriorArea < 0 {
      exteriorRing := Reverse(exteriorRing);
    }
    KeptRingLong(p.shell);
    var nextPolyGeom := LinesToGeomCmds(exteriorRing, true, cursor, 2);
    var holes, valid;
    nextPolyGeom, holes, valid := HolesToGeomCmds(p.holes, exteriorArea, nextPolyGeom, cursor);
    cmds := if valid then nextPolyGeom else [];
    poly := Poly(exteriorRing, holes);
  }

  /** The polygon loop of `toFeature`. */
  method PolysToGeomCmds(ps: seq<Poly>, cursor: Cursor) returns (mvtGeom: seq<nat>, polys: seq<Poly>)
    requires forall i :: 0 <= i < |ps| ==> PolyInRange(ps[i])
    requires InRange(cursor.Pos())
    modifies cursor
    ensures PolysRun(0, PolysState([], old(cursor.Pos()), ps)) == PolysState(mvtGeom, cursor.Pos(), polys)
    ensures InRange(cursor.Pos())
  {
    ghost var final := PolysRun(0, PolysState([], cursor.Pos(), ps));
    mvtGeom, polys := [], ps;
    var i := 0;
    while i < |polys|
      invariant 0 <= i <= |polys| == |ps|
      invariant InRange(cursor.Pos())
      invariant forall k :: i <= k < |polys| ==> PolyInRange(polys[k])
      invariant PolysRun(i, PolysState(mvtGeom, cursor.Pos(), polys)) == final
    {
      var nextPolyGeom, nextPoly := PolyToGeomCmds(polys[i], cursor);
      mvtGeom, polys := mvtGeom + nextPolyGeom, polys[i := nextPoly];
      i := i + 1;
    }
  }

  /** The line loop of `toFeature`: every part with minimum LineTo count 1. */
  method LinesToFeatureCmds(lines: seq<seq<Coord>>, mvtClosePath: bool, cursor: Cursor) returns (mvtGeom: seq<nat>)
    requires forall i :: 0 <= i < |lines| ==> |lines[i]| >= 1 && AllInRange(lines[i])
    requires InRange(cursor.Pos())
    modifies cursor
    ensures PartsRun(lines, mvtClosePath, 0, Encoded([], old(cursor.Pos()))) == Encoded(mvtGeom, cursor.Pos())
    ensures InRange(cursor.Pos())
  {
    ghost var final := PartsRun(lines, mvtClosePath, 0, Encoded([], cursor.Pos()));
    mvtGeom := [];
    var i := 0;
    while i < |lines|
      invariant 0 <= i <= |lines|
      invariant InRange(cursor.Pos())
      invariant PartsRun(lines, mvtClosePath, i, Encoded(mvtGeom, cursor.Pos())) == final
    {
      var lineCmds := LinesToGeomCmds(lines[i], mvtClosePath, cursor, 1);
      mvtGeom := mvtGeom + lineCmds;
      i := i + 1;
    }
  }

  /** `toFeature`: `None` for a geometry of no MVT type or one that encodes
      to no command; `after` is the geometry with its rings as the encoder
      leaves them. */
  method ToFeature(geom: Geometry, cursor: Cursor, featureId: int) returns (feature: Option<Feature>, after: Geometry)
    requires Encodable(geom) && InRange(cursor.Pos())
    modifies cursor
    ensures EncodeFeature(old(cursor.Pos()), geom, featureId) == FeatureOut(feature, cursor.Pos(), after)
    ensures InRange(cursor.Pos())
  {
    after := geom;
    var mvtGeomType := ToGeomType(geom);
    if mvtGeomType == UNKNOWN {
      return None, after;
    }
    var mvtClosePath := ShouldClosePath(mvtGeomType);
    var mvtGeom: seq<nat> := [];
    if geom.Point? || geom.MultiPoint? {
      mvtGeom := PtsToGeomCmds(PointCoords(geom), cursor);
    } else if geom.LineString? || geom.MultiLineString? {
      mvtGeom := LinesToFeatureCmds(LineParts(geom), mvtClosePath, cursor);
    } else if geom.MultiPolygon? || geom.Polygon? {
      var polys;
      mvtGeom, polys := PolysToGeomCmds(PolyParts(geom), cursor);
      after := if geom.Polygon? then Polygon(polys[0]) else MultiPolygon(polys);
    }
    if |mvtGeom| < 1 {
      return None, after;
    }
    feature := Some(Feature(featureId, mvtGeomType, mvtGeom));
  }

  /** The accepted branch of the `toFeatures` loop: the cursor is reset to
      the origin, the geometry encoded with id `id`, and the feature, if any,
      returned as a list of at most one. */
  method AcceptedToFeature(geom: Geometry, cursor: Cursor, id: int) returns (fs: seq<Feature>, encoded: Geometry)
    requires Encodable(geom)
    modifies cursor
    ensures fs == OptionList(FeatureFromOrigin(geom, id)) && encoded == ValueFromOrigin(geom)
  {
    cursor.Set(Coord(0, 0));
    var feature;
    feature, encoded := ToFeature(geom, cursor, id);
    fs := if feature.Some? then [feature.value] else [];
  }

  /** `toFeatures` on a flat list: a fresh cursor, reset to the origin for
      every geometry the filter accepts, and ids from 1; `after` holds the
      geometries as the encoder leaves them. */
  method ToFeatures(flatGeoms: seq<Geometry>, accept: Geometry -> bool) returns (features: seq<Feature>, after: seq<Geometry>)
    requires AcceptedLinesNonEmpty(flatGeoms, accept)
    requires forall k :: 0 <= k < |flatGeoms| && accept(flatGeoms[k]) ==> CoordsInRange(flatGeoms[k])
    ensures var r := EncodeBatch(flatGeoms, accept); features == r.features && after == r.values
  {
    if |flatGeoms| == 0 {
      return [], flatGeoms;
    }
    features, after := [], flatGeoms;
    var cursor := new Cursor();
    var nextFeatureId := 1;
    ghost var final := BatchRun(FeatureFromOrigin, ValueFromOrigin, accept, 0, BatchState([], 1, flatGeoms));
    var i := 0;
    while i < |after|
      invariant 0 <= i <= |after| == |flatGeoms|
      invariant forall k :: i <= k < |after| ==> after[k] == flatGeoms[k]
      invariant BatchRun(FeatureFromOrigin, ValueFromOrigin, accept, i, BatchState(features, nextFeatureId, after)) == final
    {
      ghost var st := BatchState(features, nextFeatureId, after);
      var nextGeom := after[i];
      assert nextGeom == flatGeoms[i];
      if accept(nextGeom) {
        var fs, encoded := AcceptedToFeature(nextGeom, cursor, nextFeatureId);
        ghost var next := BatchState(features + fs, nextFeatureId + 1, after[i := encoded]);
        assert BatchRun(FeatureFromOrigin, ValueFromOrigin, accept, i, st)
          == BatchRun(FeatureFromOrigin, ValueFromOrigin, accept, i + 1, next);
        features, nextFeatureId, after := features + fs, nextFeatureId + 1, after[i := encoded];
      } else {
        assert BatchRun(FeatureFromOrigin, ValueFromOrigin, accept, i, st)
          == BatchRun(FeatureFromOrigin, ValueFromOrigin, accept, i + 1, st);
      }
      i := i + 1;
    }
  }

  /** `toFeatures` on one geometry: `flatFeatureList`, then the batch;
      `None` when flattening throws. */
  method GeometryToFeatures(geometry: Geometry, accept: Geometry -> bool) returns (features: Option<seq<Feature>>)
    requires var flat := FlatSpec(geometry);
      flat.Some? ==>
        && AcceptedLinesNonEmpty(flat.value, accept)
        && (forall k :: 0 <= k < |flat.value| && accept(flat.value[k]) ==> CoordsInRange(flat.value[k]))
    ensures features == EncodeGeometry(geometry, accept)
  {
    var flatGeoms := FlatFeatureList(geometry);
    if flatGeoms.None? {
      return None;
    }
    var encoded, _ := ToFeatures(flatGeoms.value, accept);
    features := Some(encoded);
  }
}
